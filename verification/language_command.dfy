/** The `/language <name>` chat command. `help` lists the languages; a
    Wookiee asking for anything but Shyriiwook is put back on Shyriiwook;
    otherwise the first language that answers to the (lower-cased) name
    becomes the active one. The language list is a parameter. */
module LanguageCommand {
  import opened Wrappers
  import opened Text
  import opened Character
  import opened Validation

  /** One entry of the language list: the skill it trains, its display name
      and the names it answers to in chat. */
  datatype Language = Language(skill: Skill, properName: string, chatNames: seq<string>)

  const HelpCommand: string := "help"
  /** `SkillType.Shyriiwook.ToString().ToLower()`. */
  const ShyriiwookCommand: string := "shyriiwook"
  const UsageMessage: string := "Please enter /language help for more information on how to use this command."
  const HelpHeader: string := "help: Displays this help text."
  const SetsLanguage: string := ": Sets the active language to "

  /** The `/language` validator: an argument is required. */
  function Validate(args: seq<string>): (r: string)
    ensures r == Accept <==> |args| >= 1
    ensures r != Accept ==> r == UsageMessage
  {
    var checks := [Check(|args| < 1, UsageMessage)];
    assert |UsageMessage| > 0;
    FirstFailureIsFirst(checks);
    FirstFailure(checks)
  }

  /** One help line: the chat names separated by ", ", then the proper name. */
  function HelpLine(l: Language): (r: string)
    requires |l.chatNames| > 0
    ensures l.chatNames[0] <= r
    ensures r == l.chatNames[0] + SepConcat(l.chatNames[1..], ", ")
      + SetsLanguage + l.properName + "."
    ensures |r| > |l.properName| && r[|r| - |l.properName| - 1..] == l.properName + "."
  {
    JoinIsRightFold(l.chatNames, ", ");
    Join(l.chatNames, ", ") + SetsLanguage + l.properName + "."
  }

  /** The help lines: the header, then one line per language in list order;
      `None` when some language has no chat name, where `ElementAt(0)`
      throws. */
  function HelpLines(langs: seq<Language>): (r: Option<seq<string>>)
    ensures r.Some? <==> forall i :: 0 <= i < |langs| ==> |langs[i].chatNames| > 0
    ensures r.Some? ==>
      && |r.value| == |langs| + 1
      && r.value[0] == HelpHeader
      && forall i :: 0 <= i < |langs| ==> r.value[i + 1] == HelpLine(langs[i])
    decreases |langs|
  {
    if langs == [] then Some([HelpHeader])
    else
      var init, last := langs[..|langs| - 1], langs[|langs| - 1];
      assert forall i :: 0 <= i < |init| ==> init[i] == langs[i];
      match HelpLines(init)
      case None => None
      case Some(lines) => if |last.chatNames| > 0 then Some(lines + [HelpLine(last)]) else None
  }

  /** Position of the first language answering to `command`. */
  function FirstMatch(langs: seq<Language>, command: string): (r: Option<nat>)
    ensures r.Some? ==> r.value < |langs| && command in langs[r.value].chatNames
    ensures r.Some? ==> forall j :: 0 <= j < r.value ==> command !in langs[j].chatNames
    ensures r.None? ==> forall j :: 0 <= j < |langs| ==> command !in langs[j].chatNames
  {
    if langs == [] then None
    else if command in langs[0].chatNames then Some(0)
    else match FirstMatch(langs[1..], command)
      case None => None
      case Some(i) => Some(i + 1)
  }

  datatype Reply =
    | HelpText(text: string)
    | WookieeOnlyShyriiwook
    | LanguageSet(properName: string)
    | UnknownLanguage(command: string)

  datatype LanguageOutcome =
    | Replied(user: Character, reply: Reply)
    | Faulted  // ElementAt(0) on a language without chat names

  /** The `/language` action, run once the validator accepted. */
  function LanguageAction(user: Character, args: seq<string>, langs: seq<Language>): (r: LanguageOutcome)
    requires |args| >= 1
    ensures r.Replied? ==> r.user == user.(activeLanguage := r.user.activeLanguage)
    ensures Lower(args[0]) == HelpCommand ==>
      (r.Faulted? <==> exists i :: 0 <= i < |langs| && |langs[i].chatNames| == 0)
    ensures Lower(args[0]) == HelpCommand && r.Replied? ==>
      r.user == user && r.reply == HelpText(Join(HelpLines(langs).value, "\n"))
    ensures Lower(args[0]) != HelpCommand ==> r.Replied?
    ensures user.race == Wookiee && Lower(args[0]) !in {HelpCommand, ShyriiwookCommand} ==>
      r == Replied(user.(activeLanguage := Shyriiwook), WookieeOnlyShyriiwook)
    ensures r.Replied? && r.reply.LanguageSet? ==>
      exists i :: 0 <= i < |langs| && Lower(args[0]) in langs[i].chatNames &&
        r.user.activeLanguage == langs[i].skill && r.reply.properName == langs[i].properName
    ensures r.Replied? && r.reply.UnknownLanguage? ==>
      && r.user == user
      && forall i :: 0 <= i < |langs| ==> Lower(args[0]) !in langs[i].chatNames
    ensures && Lower(args[0]) != HelpCommand
            && (user.race != Wookiee || Lower(args[0]) == ShyriiwookCommand)
            && (forall i :: 0 <= i < |langs| ==> Lower(args[0]) !in langs[i].chatNames)
      ==> r == Replied(user, UnknownLanguage(Lower(args[0])))
  {
    var command := Lower(args[0]);
    if command == HelpCommand then
      match HelpLines(langs)
      case None => Faulted
      case Some(lines) => Replied(user, HelpText(Join(lines, "\n")))
    else if user.race == Wookiee && command != ShyriiwookCommand then
      Replied(user.(activeLanguage := Shyriiwook), WookieeOnlyShyriiwook)
    else
      match FirstMatch(langs, command)
      case Some(i) => Replied(user.(activeLanguage := langs[i].skill), LanguageSet(langs[i].properName))
      case None => Replied(user, UnknownLanguage(command))
  }

  /** A non-Wookiee (or a Wookiee asking for Shyriiwook) who names a
      language gets the FIRST language in the list answering to that name. */
  lemma LookupSelectsFirst(user: Character, args: seq<string>, langs: seq<Language>, i: nat)
    requires |args| >= 1 && Lower(args[0]) != HelpCommand
    requires user.race != Wookiee || Lower(args[0]) == ShyriiwookCommand
    requires i < |langs| && Lower(args[0]) in langs[i].chatNames
    requires forall j :: 0 <= j < i ==> Lower(args[0]) !in langs[j].chatNames
    ensures LanguageAction(user, args, langs) ==
      Replied(user.(activeLanguage := langs[i].skill), LanguageSet(langs[i].properName))
  {
  }

  /** The argument's case does not matter: the action only sees it
      lower-cased. */
  lemma CaseInsensitive(user: Character, args: seq<string>, langs: seq<Language>)
    requires |args| >= 1
    ensures LanguageAction(user, args, langs) ==
      LanguageAction(user, [Lower(args[0])] + args[1..], langs)
  {
    LowerIsLowerCase(args[0]);
  }

  /** A chat name with an upper-case letter never matches, because the
      command is lower-cased before the lookup and the names are not. */
  lemma UpperCaseNameNeverMatches(args: seq<string>, langs: seq<Language>, i: nat)
    requires |args| >= 1 && i < |langs|
    requires forall n :: n in langs[i].chatNames ==> !IsLowerCase(n)
    ensures Lower(args[0]) !in langs[i].chatNames
  {
    LowerIsLowerCase(args[0]);
  }

  /** A help line names its language: every chat name and the proper name
      appear in it. */
  lemma HelpLineNames(l: Language)
    requires |l.chatNames| > 0
    ensures forall j :: 0 <= j < |l.chatNames| ==> Occurs(l.chatNames[j], HelpLine(l))
    ensures Occurs(l.properName, HelpLine(l))
  {
    var names := Join(l.chatNames, ", ");
    var head := names + SetsLanguage;
    assert HelpLine(l) == head + l.properName + ".";
    JoinContainsParts(l.chatNames, ", ");
    forall j | 0 <= j < |l.chatNames|
      ensures Occurs(l.chatNames[j], head + l.properName + ".")
    {
      OccursPrefix(l.chatNames[j], names, SetsLanguage);
      OccursPrefix(l.chatNames[j], head, l.properName);
      OccursPrefix(l.chatNames[j], head + l.properName, ".");
    }
    OccursSelf(l.properName);
    OccursSuffix(l.properName, head, l.properName);
    OccursPrefix(l.properName, head + l.properName, ".");
  }

  /** The help reply names every language: each of its chat names and its
      proper name appear both in its own line and in the text sent back. */
  lemma HelpListsEveryLanguage(user: Character, args: seq<string>, langs: seq<Language>)
    requires |args| >= 1 && Lower(args[0]) == HelpCommand
    requires forall i :: 0 <= i < |langs| ==> |langs[i].chatNames| > 0
    ensures LanguageAction(user, args, langs).Replied?
    ensures forall i, j :: 0 <= i < |langs| && 0 <= j < |langs[i].chatNames| ==>
      && Occurs(langs[i].chatNames[j], HelpLines(langs).value[i + 1])
      && Occurs(langs[i].chatNames[j], LanguageAction(user, args, langs).reply.text)
    ensures forall i :: 0 <= i < |langs| ==>
      && Occurs(langs[i].properName, HelpLines(langs).value[i + 1])
      && Occurs(langs[i].properName, LanguageAction(user, args, langs).reply.text)
  {
    var lines := HelpLines(langs).value;
    var text := LanguageAction(user, args, langs).reply.text;
    assert text == Join(lines, "\n");
    JoinContainsParts(lines, "\n");
    forall i | 0 <= i < |langs|
      ensures forall j :: 0 <= j < |langs[i].chatNames| ==>
        Occurs(langs[i].chatNames[j], lines[i + 1]) && Occurs(langs[i].chatNames[j], text)
      ensures Occurs(langs[i].properName, lines[i + 1]) && Occurs(langs[i].properName, text)
    {
      var l := langs[i];
      assert lines[i + 1] == HelpLine(l);
      assert Occurs(lines[i + 1], text);
      HelpLineNames(l);
      forall j | 0 <= j < |l.chatNames|
        ensures Occurs(l.chatNames[j], text)
      {
        OccursTrans(l.chatNames[j], lines[i + 1], text);
      }
      OccursTrans(l.properName, lines[i + 1], text);
    }
  }
}
