/** The two toggle commands: `/emotestyle` flips the emote style between
    regular and novel, `/alwayswalk` (alias `/walk`) flips forced walking,
    remembering the setting in the local integer `WALK_TOGGLE`. */
module Toggles {
  import opened Character

  /** `/emotestyle`: Novel becomes Regular, anything else becomes Novel. */
  function ToggleEmoteStyle(user: Character): (r: Character)
    ensures r.emoteStyle != user.emoteStyle
    ensures r == user.(emoteStyle := r.emoteStyle)
  {
    var newStyle := if user.emoteStyle == Novel then Regular else Novel;
    user.(emoteStyle := newStyle)
  }

  /** Toggling the emote style twice restores it. */
  lemma EmoteToggleInvolution(user: Character)
    ensures ToggleEmoteStyle(ToggleEmoteStyle(user)) == user
  {
  }

  const WalkToggleKey: string := "WALK_TOGGLE"

  /** The outcome of `/alwayswalk`: the character afterwards, and the value
      passed to `SetAlwaysWalk` (which also decides the enabled/disabled
      message). */
  datatype WalkOutcome = WalkOutcome(user: Character, alwaysWalk: bool)

  predicate WasWalking(user: Character)
  {
    GetLocalInt(user, WalkToggleKey) == 1
  }

  /** `/alwayswalk`: forced walking is switched on unless the flag read
      exactly 1; the flag is rewritten as 1 when on and 0 when off. */
  function ToggleAlwaysWalk(user: Character): (r: WalkOutcome)
    ensures r.alwaysWalk <==> !WasWalking(user)
    ensures GetLocalInt(r.user, WalkToggleKey) == (if r.alwaysWalk then 1 else 0)
    ensures r.user.alwaysWalk == r.alwaysWalk
    ensures forall k :: k != WalkToggleKey ==> GetLocalInt(r.user, k) == GetLocalInt(user, k)
    ensures r.user.(localInts := user.localInts, alwaysWalk := user.alwaysWalk) == user
  {
    var wasWalking := WasWalking(user);
    var walker := user.(alwaysWalk := !wasWalking);
    if wasWalking then WalkOutcome(SetLocalInt(walker, WalkToggleKey, 0), false)
    else WalkOutcome(SetLocalInt(walker, WalkToggleKey, 1), true)
  }

  /** After one toggle the flag is 0 or 1 and agrees with the engine
      setting; from such a state a second toggle gives the opposite setting
      and brings the flag back. A flag holding any other value reads as
      "not walking", so the first toggle switches walking on. */
  lemma WalkToggleTwice(user: Character)
    ensures var once := ToggleAlwaysWalk(user).user;
      var twice := ToggleAlwaysWalk(once).user;
      && GetLocalInt(once, WalkToggleKey) in {0, 1}
      && twice.alwaysWalk == !once.alwaysWalk
      && (GetLocalInt(user, WalkToggleKey) in {0, 1} ==>
            GetLocalInt(twice, WalkToggleKey) == GetLocalInt(user, WalkToggleKey))
      && (GetLocalInt(user, WalkToggleKey) != 1 ==> once.alwaysWalk)
  {
  }
}
