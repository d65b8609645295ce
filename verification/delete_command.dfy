/** The `/delete <CD key>` chat command: a validator that lets only a player
    character holding the right CD key through, and an action that asks for
    a second submission within 30 seconds before deleting the character. The
    time of the first submission is kept in a local string in the
    `yyyy-MM-dd HH:mm:ss` form. */
module DeleteCommand {
  import opened Wrappers
  import opened Text
  import opened DateTime
  import opened Character
  import opened Validation

  const LastSubmissionKey: string := "DELETE_CHARACTER_LAST_SUBMISSION"
  const ConfirmationWindowSeconds: nat := 30

  const NotPlayerMessage: string := "You can only delete a player character."
  const InvalidKeyMessage: string :=
    "Invalid CD key entered. Please enter the command as follows: \"/delete <CD Key>\". You can retrieve your CD key with the /CDKey chat command."
  const DmMessage: string := "DM characters cannot use this chat command."

  /** The key the user typed; a missing argument counts as the empty key. */
  function EnteredKey(args: seq<string>): string
  {
    if |args| > 0 then args[0] else ""
  }

  /** The validator's checks, in the order it makes them. */
  function DeleteChecks(user: Character, args: seq<string>): seq<Check>
  {
    [ Check(!user.isPC || user.isDM, NotPlayerMessage),
      Check(user.cdKey != EnteredKey(args), InvalidKeyMessage),
      Check(user.isDM || user.isDMPossessed, DmMessage) ]
  }

  /** The `/delete` validator: empty means accept. */
  function Validate(user: Character, args: seq<string>): (r: string)
    ensures r == Accept <==>
      user.isPC && !user.isDM && !user.isDMPossessed && EnteredKey(args) == user.cdKey
    ensures r == NotPlayerMessage <==> !user.isPC || user.isDM
    ensures r == InvalidKeyMessage <==>
      user.isPC && !user.isDM && EnteredKey(args) != user.cdKey
    ensures r == DmMessage <==>
      user.isPC && !user.isDM && user.isDMPossessed && EnteredKey(args) == user.cdKey
    ensures r in {Accept, NotPlayerMessage, InvalidKeyMessage, DmMessage}
  {
    var checks := DeleteChecks(user, args);
    assert |NotPlayerMessage| > 0 && |InvalidKeyMessage| > 0 && |DmMessage| > 0;
    assert forall j :: 0 <= j < |checks| ==> checks[j].message != Accept;
    assert (forall j :: 0 <= j < |checks| ==> !checks[j].fails) <==>
      !checks[0].fails && !checks[1].fails && !checks[2].fails;
    FirstFailureIsFirst(checks);
    FirstFailure(checks)
  }

  /** A user who is not a player character, or is a DM, gets the same answer
      whatever key they type: the key is not looked at. */
  lemma NonPlayerRejectedBeforeKey(user: Character, args: seq<string>, args': seq<string>)
    requires !user.isPC || user.isDM
    ensures Validate(user, args) == Validate(user, args') == NotPlayerMessage
  {
    FailingPrefixDecides([DeleteChecks(user, args)[0]], DeleteChecks(user, args)[1..]);
    FailingPrefixDecides([DeleteChecks(user, args')[0]], DeleteChecks(user, args')[1..]);
  }

  /** Only the exact key is accepted: any other first argument, or no argument
      when the key is not empty, is rejected. */
  lemma OnlyExactKeyAccepted(user: Character, args: seq<string>)
    requires Validate(user, args) == Accept
    ensures |args| > 0 ==> args[0] == user.cdKey
    ensures |args| == 0 ==> user.cdKey == ""
  {
  }

  datatype Fault =
    | MalformedTimestamp  // ParseExact throws FormatException
    | TimestampOverflow   // AddSeconds throws ArgumentOutOfRangeException

  datatype DeleteOutcome =
    | AwaitingConfirmation(user: Character)
    | Deleted(user: Character)
    | Faulted(fault: Fault)

  /** Records `now` as the first submission. */
  function RecordSubmission(user: Character, now: Instant): Character
  {
    SetLocalString(user, LastSubmissionKey, Format(now))
  }

  /** What the stored first submission says at time `now`: there is none,
      it is readable and `now` does or does not fall in its window, or it
      cannot be read or moved 30 seconds on. */
  datatype Pending = NoSubmission | Submission(confirms: bool) | Unreadable(fault: Fault)

  function PendingOf(user: Character, now: Instant): (p: Pending)
    ensures var last := GetLocalString(user, LastSubmissionKey);
      && (p == NoSubmission <==> IsBlank(last))
      && (p == Unreadable(MalformedTimestamp) <==> !IsBlank(last) && ParseExact(last).None?)
      && (p == Unreadable(TimestampOverflow) <==>
            !IsBlank(last) && ParseExact(last).Some? &&
            ParseExact(last).value + ConfirmationWindowSeconds * TicksPerSecond > MaxTicks)
      && (p.Submission? <==>
            !IsBlank(last) && ParseExact(last).Some? &&
            ParseExact(last).value + ConfirmationWindowSeconds * TicksPerSecond <= MaxTicks)
      && (p.Submission? ==>
            (p.confirms <==> now <= ParseExact(last).value + ConfirmationWindowSeconds * TicksPerSecond))
  {
    var last := GetLocalString(user, LastSubmissionKey);
    if IsBlank(last) then NoSubmission
    else match ParseExact(last)
      case None => Unreadable(MalformedTimestamp)
      case Some(at) =>
        match AddSeconds(at, ConfirmationWindowSeconds)
        case None => Unreadable(TimestampOverflow)
        case Some(deadline) => Submission(now <= deadline)
  }

  /** The `/delete` action, run once the validator accepted, at time `now`
      (`DateTime.UtcNow`). A confirmation marks the character deleted and
      leaves its variables alone; otherwise the submission time is recorded
      and nothing is deleted. */
  function DeleteAction(user: Character, now: Instant): (r: DeleteOutcome)
    ensures r.Deleted? ==> r.user == user.(isDeleted := true)
    ensures r.AwaitingConfirmation? ==>
      && r.user == RecordSubmission(user, now)
      && ParseExact(GetLocalString(r.user, LastSubmissionKey)) == Some(Truncate(now))
    ensures r.Deleted? <==> PendingOf(user, now) == Submission(true)
    ensures r.Faulted? <==> PendingOf(user, now).Unreadable?
    ensures var last := GetLocalString(user, LastSubmissionKey);
      !IsBlank(last) && ParseExact(last).None? ==> r == Faulted(MalformedTimestamp)
  {
    match PendingOf(user, now)
    case NoSubmission => ParseFormat(now); AwaitingConfirmation(RecordSubmission(user, now))
    case Submission(confirms) =>
      if confirms then Deleted(user.(isDeleted := true))
      else ParseFormat(now); AwaitingConfirmation(RecordSubmission(user, now))
    case Unreadable(f) => Faulted(f)
  }

  lemma FormatIsNotBlank(t: Instant)
    ensures !IsBlank(Format(t))
  {
    ParseFormat(t);
    assert IsDigit(Format(t)[0]);
  }

  /** With a first submission recorded at `first`, a later submission at
      `now` confirms exactly when `now` is no later than 30 seconds after
      `first` truncated to its second (the boundary itself confirms). */
  lemma ConfirmationWindow(user: Character, first: Instant, now: Instant)
    requires GetLocalString(user, LastSubmissionKey) == Format(first)
    requires Truncate(first) + ConfirmationWindowSeconds * TicksPerSecond <= MaxTicks
    ensures DeleteAction(user, now).Deleted? <==>
      now <= Truncate(first) + ConfirmationWindowSeconds * TicksPerSecond
    ensures !DeleteAction(user, now).Faulted?
  {
    FormatIsNotBlank(first);
    ParseFormat(first);
  }

  /** Because the stored time is cut to whole seconds, the window measured
      from the real first submission closes somewhere after 29 and at or
      before 30 seconds. */
  lemma WindowBounds(user: Character, first: Instant, now: Instant)
    requires GetLocalString(user, LastSubmissionKey) == Format(first)
    requires first + ConfirmationWindowSeconds * TicksPerSecond <= MaxTicks
    ensures now <= first + 29 * TicksPerSecond ==> DeleteAction(user, now).Deleted?
    ensures now > first + 30 * TicksPerSecond ==> DeleteAction(user, now).AwaitingConfirmation?
  {
    ConfirmationWindow(user, first, now);
  }

  /** A stored time in the last 30 seconds of year 9999 cannot be moved 30
      seconds on, so the action aborts instead of deciding. */
  lemma OverflowAborts(user: Character, first: Instant, now: Instant)
    requires GetLocalString(user, LastSubmissionKey) == Format(first)
    requires Truncate(first) + ConfirmationWindowSeconds * TicksPerSecond > MaxTicks
    ensures DeleteAction(user, now) == Faulted(TimestampOverflow)
  {
    FormatIsNotBlank(first);
    ParseFormat(first);
  }

  /** A character with no pending submission is never deleted by one
      `/delete`: the first call only records the time. */
  lemma FirstSubmissionRecords(user: Character, now: Instant)
    requires GetLocalString(user, LastSubmissionKey) == ""
    ensures DeleteAction(user, now) == AwaitingConfirmation(RecordSubmission(user, now))
    ensures !DeleteAction(user, now).user.isDeleted <==> !user.isDeleted
  {
  }

  /** The two-step sequence: a first `/delete` at `t1` and a second at `t2`
      no more than 29 seconds later delete the character; one more than 30
      seconds later only starts over, recording `t2`. */
  lemma TwoStepDeletion(user: Character, t1: Instant, t2: Instant)
    requires GetLocalString(user, LastSubmissionKey) == ""
    requires t1 + ConfirmationWindowSeconds * TicksPerSecond <= MaxTicks
    ensures var u1 := DeleteAction(user, t1).user;
      && !DeleteAction(user, t1).Deleted?
      && (t2 <= t1 + 29 * TicksPerSecond ==> DeleteAction(u1, t2) == Deleted(u1.(isDeleted := true)))
      && (t2 > t1 + 30 * TicksPerSecond ==> DeleteAction(u1, t2) == AwaitingConfirmation(RecordSubmission(u1, t2)))
  {
    var u1 := RecordSubmission(user, t1);
    FirstSubmissionRecords(user, t1);
    WindowBounds(u1, t1, t2);
  }

  /** Deleting does not clear the stored submission, so a further `/delete`
      inside the same window takes the delete branch again rather than
      starting a new two-step sequence. */
  lemma DeletionKeepsSubmission(user: Character, now: Instant, later: Instant)
    requires DeleteAction(user, now).Deleted?
    ensures var after := DeleteAction(user, now).user;
      && GetLocalString(after, LastSubmissionKey) == GetLocalString(user, LastSubmissionKey)
      && (forall t :: PendingOf(after, t) == PendingOf(user, t))
      && (later <= now ==> DeleteAction(after, later).Deleted?)
  {
  }

  /** Hence every later `/delete` that falls in the window of the stored
      stamp deletes again, and one after it starts a new sequence. */
  lemma RepeatDeletion(user: Character, now: Instant, later: Instant)
    requires DeleteAction(user, now).Deleted?
    ensures var after := DeleteAction(user, now).user;
      var at := ParseExact(GetLocalString(user, LastSubmissionKey)).value;
      && ParseExact(GetLocalString(user, LastSubmissionKey)).Some?
      && (DeleteAction(after, later).Deleted? <==> later <= at + ConfirmationWindowSeconds * TicksPerSecond)
  {
    DeletionKeepsSubmission(user, now, later);
  }
}
