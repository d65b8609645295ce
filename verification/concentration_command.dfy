/** The `/concentration` chat command (alias `/conc`): with first argument
    `end` in any letter case it ends the active concentration ability,
    otherwise it reports which one is active. */
module ConcentrationCommand {
  import opened Wrappers
  import opened Text

  const EndArgument: string := "end"

  datatype ConcentrationOutcome =
    | EndConcentration
    | NoneActive
    | ActiveIs(abilityName: string)

  /** `args.Length > 0 && args[0].ToLower() == "end"`. */
  predicate WantsEnd(args: seq<string>)
  {
    |args| > 0 && Lower(args[0]) == EndArgument
  }

  /** The `/concentration` action; `active` is the name of the active
      concentration ability, `None` when its feat is `Invalid`. */
  function ConcentrationAction(args: seq<string>, active: Option<string>): (r: ConcentrationOutcome)
    ensures r.EndConcentration? <==> |args| > 0 && Lower(args[0]) == EndArgument
    ensures r.NoneActive? <==> !WantsEnd(args) && active.None?
    ensures r.ActiveIs? ==> !WantsEnd(args) && active == Some(r.abilityName)
  {
    if WantsEnd(args) then EndConcentration
    else match active
      case None => NoneActive
      case Some(name) => ActiveIs(name)
  }

  /** Without arguments the command only reports; and any spelling of `end`
      that lower-cases to `end` (`END`, `End`, ...) ends the ability,
      whatever follows it. */
  lemma EndSpellings(args: seq<string>, active: Option<string>)
    ensures args == [] ==> !ConcentrationAction(args, active).EndConcentration?
    ensures (&& |args| > 0 && |args[0]| == 3
             && LowerChar(args[0][0]) == 'e' && LowerChar(args[0][1]) == 'n' && LowerChar(args[0][2]) == 'd')
      ==> ConcentrationAction(args, active).EndConcentration?
    ensures |args| > 0 && |args[0]| != 3 ==> !ConcentrationAction(args, active).EndConcentration?
  {
    if |args| > 0 && |args[0]| == 3 {
      assert Lower(args[0]) == [LowerChar(args[0][0]), LowerChar(args[0][1]), LowerChar(args[0][2])];
    }
  }
}
