/** The per-character state the chat commands read and write: what the engine
    answers for `GetPCPublicCDKey`, `GetIsPC`, `GetIsDM`, `GetIsDMPossessed`
    and `GetRacialType`, the character's local variables, and the settings
    kept for it by the communication, language and player plugins. */
module Character {

  datatype Race = Wookiee | OtherRace(name: string)

  datatype EmoteStyle = Regular | Novel

  /** A skill (`SkillType`): `Shyriiwook` is the language Wookiees are held
      to, `Devices` the skill grenades train; the others are not told apart. */
  datatype Skill = Shyriiwook | Devices | OtherSkill(name: string)

  datatype Character = Character(
    id: nat,
    cdKey: string,
    isPC: bool,
    isDM: bool,
    isDMPossessed: bool,
    race: Race,
    localStrings: map<string, string>,
    localInts: map<string, int>,
    emoteStyle: EmoteStyle,
    activeLanguage: Skill,
    alwaysWalk: bool,
    isDeleted: bool)

  /** `GetLocalString`: an unset variable reads as the empty string. */
  function GetLocalString(c: Character, key: string): string
  {
    if key in c.localStrings then c.localStrings[key] else ""
  }

  /** `GetLocalInt`: an unset variable reads as 0. */
  function GetLocalInt(c: Character, key: string): int
  {
    if key in c.localInts then c.localInts[key] else 0
  }

  /** `SetLocalString`: the variable reads back as `v`, every other variable
      and every other field are untouched. */
  function SetLocalString(c: Character, key: string, v: string): (r: Character)
    ensures GetLocalString(r, key) == v
    ensures forall k :: k != key ==> GetLocalString(r, k) == GetLocalString(c, k)
    ensures r.(localStrings := c.localStrings) == c
  {
    c.(localStrings := c.localStrings[key := v])
  }

  /** `SetLocalInt`, with the same guarantees as `SetLocalString`. */
  function SetLocalInt(c: Character, key: string, v: int): (r: Character)
    ensures GetLocalInt(r, key) == v
    ensures forall k :: k != key ==> GetLocalInt(r, k) == GetLocalInt(c, k)
    ensures r.(localInts := c.localInts) == c
  {
    c.(localInts := c.localInts[key := v])
  }
}
