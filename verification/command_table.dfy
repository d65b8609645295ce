/** The character chat commands as registered by `BuildChatCommands`: each
    registration names the command and its aliases, and carries the
    command's description, permission set, whether it needs a target, which
    validator it has (if any) and which action it runs. */
module CommandTable {
  import opened Wrappers

  /** The authorization levels the registrations mention; `All` is passed
      as a level of its own. */
  datatype AuthorizationLevel = Player | DM | Admin | All

  /** The action a command runs. */
  datatype CommandKind =
    | CdKey | Save | Skills | EndCall | Recipes | Perks | Delete
    | Language | EmoteStyle | ChangeItemDescription | Concentration | Customize | AlwaysWalk

  datatype ValidatorKind = NoValidator | DeleteValidator | LanguageValidator

  datatype CommandDetail = CommandDetail(
    kind: CommandKind,
    description: string,
    permissions: set<AuthorizationLevel>,
    requiresTarget: bool,
    validator: ValidatorKind)

  datatype Registration = Registration(names: seq<string>, detail: CommandDetail)

  function Detail(kind: CommandKind, description: string, permissions: set<AuthorizationLevel>): CommandDetail
  {
    CommandDetail(kind, description, permissions, false, NoValidator)
  }

  const CdKeyRegistration: Registration := Registration(["cdkey"],
    Detail(CdKey, "Displays your public CD key.", {All}))
  const SaveRegistration: Registration := Registration(["save"],
    Detail(Save, "Manually saves your character. Your character also saves automatically every few minutes.", {Player}))
  const SkillsRegistration: Registration := Registration(["skills"],
    Detail(Skills, "Toggles the skills menu.", {Player}))
  const EndCallRegistration: Registration := Registration(["endcall"],
    Detail(EndCall, "Ends your current HoloCom call.", {Player, DM, Admin}))
  const RecipesRegistration: Registration := Registration(["recipe", "recipes"],
    Detail(Recipes, "Toggles the recipes menu.", {Player}))
  const PerksRegistration: Registration := Registration(["perk", "perks"],
    Detail(Perks, "Toggles the perks menu.", {Player}))
  const DeleteRegistration: Registration := Registration(["delete"],
    Detail(Delete, "Permanently deletes your character.", {All}).(validator := DeleteValidator))
  const LanguageRegistration: Registration := Registration(["language"],
    Detail(Language, "Switches the active language. Use /language help for more information.", {All}).(validator := LanguageValidator))
  const EmoteStyleRegistration: Registration := Registration(["emotestyle"],
    Detail(EmoteStyle, "Toggles your emote style between regular and novel.", {All}))
  const ItemDescriptionRegistration: Registration := Registration(["changeitemdescription", "itemdesc"],
    Detail(ChangeItemDescription, "Changes the description of an item in your inventory. Example: /changeitemdescription New Name", {All}).(requiresTarget := true))
  const ConcentrationRegistration: Registration := Registration(["concentration", "conc"],
    Detail(Concentration, "Tells you what concentration ability you have active. Follow with 'end' (no quotes) to turn your concentration ability off. Example: /concentration end", {All}))
  const CustomizeRegistration: Registration := Registration(["customize", "customise"],
    Detail(Customize, "Opens the appearance editor window.", {All}))
  const AlwaysWalkRegistration: Registration := Registration(["alwayswalk", "walk"],
    Detail(AlwaysWalk, "Toggles forced walking when moving your character.", {All}))

  /** The registrations, in the order `BuildChatCommands` makes them. */
  const Registrations: seq<Registration> := [
    CdKeyRegistration, SaveRegistration, SkillsRegistration, EndCallRegistration, RecipesRegistration,
    PerksRegistration, DeleteRegistration, LanguageRegistration, EmoteStyleRegistration,
    ItemDescriptionRegistration, ConcentrationRegistration, CustomizeRegistration, AlwaysWalkRegistration
  ]

  /** The names registered at position `k` and after, in order. */
  function NamesFrom(regs: seq<Registration>, k: nat): (names: seq<string>)
    requires k <= |regs|
    ensures forall n :: n in names <==> exists i :: k <= i < |regs| && n in regs[i].names
    decreases |regs| - k
  {
    if k == |regs| then [] else regs[k].names + NamesFrom(regs, k + 1)
  }

  /** Every name registered, aliases included, in registration order. */
  function AllNames(regs: seq<Registration>): seq<string>
  {
    NamesFrom(regs, 0)
  }

  predicate Distinct(names: seq<string>)
  {
    forall i, j :: 0 <= i < j < |names| ==> names[i] != names[j]
  }

  lemma DistinctSplit(a: seq<string>, b: seq<string>)
    requires Distinct(a + b)
    ensures forall x :: x in a ==> x !in b
    ensures Distinct(b)
  {
    forall p, q | 0 <= p < |a| && 0 <= q < |b|
      ensures a[p] != b[q]
    {
      assert (a + b)[p] == a[p] && (a + b)[|a| + q] == b[q];
    }
    forall p, q | 0 <= p < q < |b|
      ensures b[p] != b[q]
    {
      assert (a + b)[|a| + p] != (a + b)[|a| + q];
    }
  }

  /** The detail of the first registration at position `k` or after that
      lists `name`. */
  function LookupFrom(regs: seq<Registration>, name: string, k: nat): (r: Option<CommandDetail>)
    requires k <= |regs|
    ensures r.None? <==> forall i :: k <= i < |regs| ==> name !in regs[i].names
    ensures r.Some? ==> exists i :: k <= i < |regs| && name in regs[i].names && r.value == regs[i].detail
    decreases |regs| - k
  {
    if k == |regs| then None
    else if name in regs[k].names then Some(regs[k].detail)
    else LookupFrom(regs, name, k + 1)
  }

  /** The table lookup: the detail of the first registration listing `name`,
      `None` for a name nobody registered. */
  function Lookup(regs: seq<Registration>, name: string): Option<CommandDetail>
  {
    LookupFrom(regs, name, 0)
  }

  lemma {:induction false} LookupFromUnique(regs: seq<Registration>, k: nat, i: nat, name: string)
    requires k <= i < |regs| && name in regs[i].names
    requires Distinct(NamesFrom(regs, k))
    ensures LookupFrom(regs, name, k) == Some(regs[i].detail)
    decreases i - k
  {
    DistinctSplit(regs[k].names, NamesFrom(regs, k + 1));
    if k < i {
      assert name in NamesFrom(regs, k + 1);
      if name in regs[k].names {
        assert false;
      }
      LookupFromUnique(regs, k + 1, i, name);
    }
  }

  /** When no name is registered twice, looking a name up yields the detail
      of the one registration listing it, whatever order the registrations
      were merged in; in particular every alias of a command resolves to the
      same detail as its first name. */
  lemma LookupUnique(regs: seq<Registration>, i: nat, name: string)
    requires Distinct(AllNames(regs))
    requires i < |regs| && name in regs[i].names
    ensures Lookup(regs, name) == Some(regs[i].detail)
  {
    LookupFromUnique(regs, 0, i, name);
  }

  /** The names `BuildChatCommands` registers, aliases included. */
  const CommandNames: seq<string> := [
    "cdkey", "save", "skills", "endcall", "recipe", "recipes", "perk", "perks",
    "delete", "language", "emotestyle", "changeitemdescription", "itemdesc",
    "concentration", "conc", "customize", "customise", "alwayswalk", "walk"
  ]

  /** Two duplicate-free lists with no name in common concatenate to a
      duplicate-free list. */
  lemma DistinctConcat(a: seq<string>, b: seq<string>)
    requires Distinct(a) && Distinct(b)
    requires forall p, q :: 0 <= p < |a| && 0 <= q < |b| ==> a[p] != b[q]
    ensures Distinct(a + b)
  {
    forall i, j | 0 <= i < j < |a + b|
      ensures (a + b)[i] != (a + b)[j]
    {
      if j < |a| {
        assert (a + b)[i] == a[i] && (a + b)[j] == a[j];
      } else if i < |a| {
        assert (a + b)[i] == a[i] && (a + b)[j] == b[j - |a|];
      } else {
        assert (a + b)[i] == b[i - |a|] && (a + b)[j] == b[j - |a|];
      }
    }
  }

  lemma NamesDistinct()
    ensures Distinct(CommandNames)
  {
    var menus := ["cdkey", "save", "skills", "endcall", "recipe", "recipes", "perk", "perks"];
    var actions := ["delete", "language", "emotestyle", "changeitemdescription", "itemdesc"];
    var others := ["concentration", "conc", "customize", "customise", "alwayswalk", "walk"];
    assert Distinct(menus);
    assert Distinct(actions);
    assert Distinct(others);
    DistinctConcat(actions, others);
    DistinctConcat(menus, actions + others);
    assert CommandNames == menus + (actions + others);
  }

  /** One step of `NamesFrom` along `CommandNames`: when registration `k`
      lists `CommandNames[lo..mid]` and the later ones list the rest from
      `mid`, the names from `k` on are `CommandNames[lo..]`. */
  lemma NamesStep(k: nat, lo: nat, mid: nat)
    requires k < |Registrations| && lo <= mid <= |CommandNames|
    requires Registrations[k].names == CommandNames[lo..mid]
    requires NamesFrom(Registrations, k + 1) == CommandNames[mid..]
    ensures NamesFrom(Registrations, k) == CommandNames[lo..]
  {
    assert CommandNames[lo..] == CommandNames[lo..mid] + CommandNames[mid..];
  }

  /** The names of the registrations from the seventh on. */
  lemma LaterNames()
    ensures NamesFrom(Registrations, 6) == CommandNames[8..]
  {
    assert NamesFrom(Registrations, 13) == CommandNames[19..];
    NamesStep(12, 17, 19);
    NamesStep(11, 15, 17);
    NamesStep(10, 13, 15);
    NamesStep(9, 11, 13);
    NamesStep(8, 10, 11);
    NamesStep(7, 9, 10);
    NamesStep(6, 8, 9);
  }

  /** The names of the registrations from the third on. */
  lemma MiddleNames()
    ensures NamesFrom(Registrations, 2) == CommandNames[2..]
  {
    LaterNames();
    NamesStep(5, 6, 8);
    NamesStep(4, 4, 6);
    NamesStep(3, 3, 4);
    NamesStep(2, 2, 3);
  }

  lemma TableNames()
    ensures AllNames(Registrations) == CommandNames
  {
    MiddleNames();
    NamesStep(1, 1, 2);
    NamesStep(0, 0, 1);
    assert CommandNames[0..] == CommandNames;
  }

  /** No name is registered twice, so the table has exactly these nineteen
      keys, each resolving to the registration that lists it, and the order
      the registrations are merged in cannot matter. */
  lemma TableKeys()
    ensures Distinct(AllNames(Registrations))
    ensures forall name :: Lookup(Registrations, name).Some? <==> name in CommandNames
    ensures forall i, name :: 0 <= i < |Registrations| && name in Registrations[i].names ==>
      Lookup(Registrations, name) == Some(Registrations[i].detail)
  {
    TableNames();
    NamesDistinct();
    forall i, name | 0 <= i < |Registrations| && name in Registrations[i].names
      ensures Lookup(Registrations, name) == Some(Registrations[i].detail)
    {
      LookupUnique(Registrations, i, name);
    }
  }

  /** Two names of the same registration resolve to the same detail. */
  lemma AliasResolves(i: nat, name: string, alias: string)
    requires i < |Registrations| && name in Registrations[i].names && alias in Registrations[i].names
    ensures Lookup(Registrations, alias) == Lookup(Registrations, name) == Some(Registrations[i].detail)
  {
    TableNames();
    NamesDistinct();
    LookupUnique(Registrations, i, name);
    LookupUnique(Registrations, i, alias);
  }

  /** First half of `AliasesShareDetail`, split off to keep each proof small:
      the aliases of the menu commands and of `/changeitemdescription`. */
  lemma FirstAliases()
    ensures Lookup(Registrations, "recipes") == Lookup(Registrations, "recipe") == Some(RecipesRegistration.detail)
    ensures Lookup(Registrations, "perks") == Lookup(Registrations, "perk") == Some(PerksRegistration.detail)
    ensures Lookup(Registrations, "itemdesc") == Lookup(Registrations, "changeitemdescription")
      == Some(ItemDescriptionRegistration.detail)
  {
    AliasResolves(4, "recipe", "recipes");
    AliasResolves(5, "perk", "perks");
    AliasResolves(9, "changeitemdescription", "itemdesc");
  }

  /** Each alias resolves to the same command as its first name. */
  lemma AliasesShareDetail()
    ensures Lookup(Registrations, "recipes") == Lookup(Registrations, "recipe") == Some(RecipesRegistration.detail)
    ensures Lookup(Registrations, "perks") == Lookup(Registrations, "perk") == Some(PerksRegistration.detail)
    ensures Lookup(Registrations, "itemdesc") == Lookup(Registrations, "changeitemdescription")
      == Some(ItemDescriptionRegistration.detail)
    ensures Lookup(Registrations, "conc") == Lookup(Registrations, "concentration") == Some(ConcentrationRegistration.detail)
    ensures Lookup(Registrations, "customise") == Lookup(Registrations, "customize") == Some(CustomizeRegistration.detail)
    ensures Lookup(Registrations, "walk") == Lookup(Registrations, "alwayswalk") == Some(AlwaysWalkRegistration.detail)
  {
    FirstAliases();
    AliasResolves(10, "concentration", "conc");
    AliasResolves(11, "customize", "customise");
    AliasResolves(12, "alwayswalk", "walk");
  }

  /** Only `/delete` and `/language` carry a validator, only
      `/changeitemdescription` needs a target, and every command is open to
      all levels except the menu toggles and `/save` (players only) and
      `/endcall` (players, DMs and admins). */
  lemma DeclaredPolicies()
    ensures forall i :: 0 <= i < |Registrations| ==>
      (Registrations[i].detail.validator != NoValidator <==> Registrations[i].detail.kind in {Delete, Language})
    ensures forall i :: 0 <= i < |Registrations| ==>
      (Registrations[i].detail.requiresTarget <==> Registrations[i].detail.kind == ChangeItemDescription)
    ensures forall i :: 0 <= i < |Registrations| ==>
      Registrations[i].detail.permissions ==
        if Registrations[i].detail.kind in {Save, Skills, Recipes, Perks} then {Player}
        else if Registrations[i].detail.kind == EndCall then {Player, DM, Admin}
        else {All}
  {
  }
}
