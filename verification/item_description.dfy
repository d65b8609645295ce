/** The `/changeitemdescription` chat command (alias `/itemdesc`): the
    targeted item, if it is a valid item in the user's inventory, gets as its
    description every argument with a space before it. */
module ItemDescription {

  datatype ObjectType = Item | Creature | Placeable | OtherObjectType

  /** The targeted object as the command sees it: `GetIsObjectValid`,
      `GetItemPossessor` (an object id), `GetObjectType` and its description. */
  datatype Target = Target(valid: bool, possessor: nat, objectType: ObjectType, description: string)

  /** The text a `StringBuilder` holds after `Append(' ').Append(arg)` for
      each argument in turn. */
  function SpacedConcat(args: seq<string>): string
  {
    if args == [] then "" else " " + args[0] + SpacedConcat(args[1..])
  }

  /** Concatenation distributes over splitting the argument list. */
  lemma {:induction false} SpacedConcatAppend(a: seq<string>, b: seq<string>)
    ensures SpacedConcat(a + b) == SpacedConcat(a) + SpacedConcat(b)
  {
    if a != [] {
      assert (a + b)[1..] == a[1..] + b;
      SpacedConcatAppend(a[1..], b);
    } else {
      assert a + b == b;
    }
  }

  /** One character per argument for its space, plus the arguments. */
  lemma {:induction false} SpacedConcatLength(args: seq<string>)
    ensures |SpacedConcat(args)| == |args| + SumLengths(args)
    ensures |args| > 0 ==> SpacedConcat(args)[0] == ' '
  {
    if args != [] {
      SpacedConcatLength(args[1..]);
    }
  }

  function SumLengths(args: seq<string>): nat
  {
    if args == [] then 0 else |args[0]| + SumLengths(args[1..])
  }

  /** The `foreach` loop that fills the `StringBuilder`. */
  method BuildDescription(args: seq<string>) returns (sb: string)
    ensures sb == SpacedConcat(args)
    ensures |sb| == |args| + SumLengths(args)
  {
    sb := "";
    var i := 0;
    while i < |args|
      invariant 0 <= i <= |args|
      invariant sb == SpacedConcat(args[..i])
    {
      SpacedConcatAppend(args[..i], [args[i]]);
      assert args[..i + 1] == args[..i] + [args[i]];
      sb := sb + " " + args[i];
      i := i + 1;
    }
    assert args[..i] == args;
    SpacedConcatLength(args);
  }

  datatype Reply = NotInInventory | DescriptionSet

  datatype ItemOutcome = ItemOutcome(target: Target, reply: Reply)

  predicate Eligible(userId: nat, target: Target)
  {
    target.valid && target.possessor == userId && target.objectType == Item
  }

  /** The action: an invalid target, an item someone else holds, or a
      non-item is left untouched; otherwise only the description changes. */
  function ChangeDescription(userId: nat, target: Target, args: seq<string>): (r: ItemOutcome)
    ensures r.reply == DescriptionSet <==> Eligible(userId, target)
    ensures r.reply == NotInInventory ==> r.target == target
    ensures r.reply == DescriptionSet ==>
      r.target == target.(description := r.target.description) &&
      |r.target.description| == |args| + SumLengths(args)
  {
    if !target.valid || target.possessor != userId || target.objectType != Item then
      ItemOutcome(target, NotInInventory)
    else
      SpacedConcatLength(args);
      ItemOutcome(target.(description := SpacedConcat(args)), DescriptionSet)
  }

  /** Each argument lands in the description, in order, right after its own
      space: the description of `a + [x]` is that of `a` followed by " " + x. */
  lemma DescriptionExtends(userId: nat, target: Target, args: seq<string>, x: string)
    requires Eligible(userId, target)
    ensures ChangeDescription(userId, target, args + [x]).target.description ==
      ChangeDescription(userId, target, args).target.description + " " + x
  {
    SpacedConcatAppend(args, [x]);
  }

  /** With no arguments the description written to an eligible item is the
      empty string (which the engine reads as "restore the original"). */
  lemma NoArgumentsWritesEmpty(userId: nat, target: Target)
    requires Eligible(userId, target)
    ensures ChangeDescription(userId, target, []).target.description == ""
  {
  }
}
