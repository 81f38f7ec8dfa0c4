/**
 * The session state machine and the publish coordinator
 * (pkg/timeline/component.go).
 *
 * `Component.stored` is the persisted timeline file. Each operation reads it
 * into a fresh `Timeline` (Go's `getTimeline`), checks its preconditions and
 * writes the whole list back at most once (Go's `saveTimeline`). Jira's
 * answers are inputs: the looked-up issue, the identity of the signed-in
 * user, and one success flag per record for the worklog submissions.
 */
module TimelineComponent {
  import opened Wrappers
  import opened TimelineModel

  /** The errors the component returns; all but the last two are rejections of a precondition. */
  datatype Error =
    | PreviousSessionUnfinished
    | SessionAlreadyFinished
    | ConflictingDescriptionOptions
    | PriorDescriptionNotFound
    | StatusNotAllowed(allowed: seq<string>, actual: string)
    | RecordNotFound
    | StartBeforePriorFinish
    | EditFinishOnOpenSession
    | FinishAfterNextStart
    | TicketLookupFailed
    | IdentityLookupFailed
    | WorklogSubmissionFailed(index: nat, issueKey: string)

  /** `-pd` (reuse the previous description of the same issue) and `-m` (an explicit description). */
  datatype StartOpts = StartOpts(usePrevDescription: bool, description: string)

  /** The fields `edit` may patch; None means "leave as is". */
  datatype EditOpts = EditOpts(
    description: Option<string>,
    startTime: Option<int>,
    finishTime: Option<int>,
    task: Option<string>)

  /** One worklog entry as submitted to Jira. */
  datatype Worklog = Worklog(
    author: string,
    issueKey: string,
    issueId: string,
    created: int,
    started: int,
    timeSpentSeconds: int,
    comment: string)

  /** Options are valid unless both `-pd` and a non-empty `-m` are given; no options are valid. */
  function Validate(opts: Option<StartOpts>): (r: Outcome<Error>)
    ensures r.Fail? <==> opts.Some? && opts.value.usePrevDescription && |opts.value.description| > 0
    ensures r.Fail? ==> r.error == ConflictingDescriptionOptions
  {
    if opts.None? then Pass
    else if opts.value.usePrevDescription && |opts.value.description| > 0 then Fail(ConflictingDescriptionOptions)
    else Pass
  }

  /** The description of the last session of `list` on issue `key`, searching from the tail. */
  function PrevDescription(list: seq<Session>, key: string): Option<string>
  {
    if list == [] then None
    else if list[|list| - 1].issue.key == key then Some(list[|list| - 1].description)
    else PrevDescription(list[..|list| - 1], key)
  }

  /** The search finds the description of the highest-index session with the key, and fails only when there is none. */
  lemma {:induction false} PrevDescriptionIsLatest(list: seq<Session>, key: string)
    ensures PrevDescription(list, key).None? ==> forall i :: 0 <= i < |list| ==> list[i].issue.key != key
    ensures PrevDescription(list, key).Some? ==>
      exists i :: 0 <= i < |list| && list[i].issue.key == key
        && PrevDescription(list, key).value == list[i].description
        && forall j :: i < j < |list| ==> list[j].issue.key != key
  {
    if list == [] {
    } else if list[|list| - 1].issue.key == key {
      var i := |list| - 1;
      assert list[i].issue.key == key && PrevDescription(list, key).value == list[i].description;
    } else {
      var p := list[..|list| - 1];
      assert PrevDescription(list, key) == PrevDescription(p, key);
      PrevDescriptionIsLatest(p, key);
      if PrevDescription(p, key).Some? {
        var i :| 0 <= i < |p| && p[i].issue.key == key && PrevDescription(p, key).value == p[i].description
          && forall j :: i < j < |p| ==> p[j].issue.key != key;
        assert list[i] == p[i];
        forall j | i < j < |list| ensures list[j].issue.key != key {
          if j < |p| {
            assert list[j] == p[j];
          }
        }
      } else {
        forall i | 0 <= i < |list| ensures list[i].issue.key != key {
          if i < |p| {
            assert list[i] == p[i];
          }
        }
      }
    }
  }

  /** The session `BuildModel` makes, or the error it returns. */
  function BuildResult(list: seq<Session>, issue: Option<Issue>, opts: Option<StartOpts>, now: int): (r: Result<Session, Error>)
    ensures Validate(opts).Fail? ==> r == Failure(ConflictingDescriptionOptions)
    ensures Validate(opts).Pass? && issue.None? ==> r == Failure(TicketLookupFailed)
    ensures r.Failure? <==>
      || Validate(opts).Fail?
      || issue.None?
      || (opts.Some? && opts.value.usePrevDescription && PrevDescription(list, issue.value.key).None?)
    ensures r.Success? ==> r.value.(description := "") == NewModel(issue.value, now)
    ensures r.Success? && (opts.None? || (!opts.value.usePrevDescription && opts.value.description == "")) ==>
      r.value == NewModel(issue.value, now)
    ensures r.Success? && opts.Some? && |opts.value.description| > 0 ==> r.value.description == opts.value.description
    ensures opts.Some? && opts.value.usePrevDescription && Validate(opts).Pass? && issue.Some? ==>
      (r.Success? <==> PrevDescription(list, issue.value.key).Some?) &&
      (r.Success? ==> r.value.description == PrevDescription(list, issue.value.key).value) &&
      (r.Failure? ==> r.error == PriorDescriptionNotFound)
  {
    if Validate(opts).Fail? then Failure(ConflictingDescriptionOptions)
    else if issue.None? then Failure(TicketLookupFailed)
    else
      var m := NewModel(issue.value, now);
      if opts.None? then Success(m)
      else if opts.value.usePrevDescription then
        match PrevDescription(list, m.issue.key)
        case None => Failure(PriorDescriptionNotFound)
        case Some(d) => Success(m.(description := d))
      else if |opts.value.description| > 0 then Success(m.(description := opts.value.description))
      else Success(m)
  }

  /** Only the last session of the list may be open. */
  ghost predicate AtMostLastOpen(list: seq<Session>)
  {
    forall i :: 0 <= i < |list| - 1 ==> list[i].finished
  }

  /** Every session starts no earlier than its predecessor finished. */
  ghost predicate Chronological(list: seq<Session>)
  {
    forall i :: 0 < i < |list| ==> list[i - 1].finishTime <= list[i].startTime
  }

  /** A session that was never stopped carries the zero finish time. */
  ghost predicate OpenUnstamped(list: seq<Session>)
  {
    forall i :: 0 <= i < |list| ==> !list[i].finished ==> list[i].finishTime == ZeroTime
  }

  /** The list `Start` persists, or its error. */
  function StartResult(list: seq<Session>, newModel: Session, statusesForStart: seq<string>): (r: Result<seq<Session>, Error>)
    ensures |list| > 0 && !list[|list| - 1].finished ==> r == Failure(PreviousSessionUnfinished)
    ensures (|list| == 0 || list[|list| - 1].finished) && |statusesForStart| != 0 && newModel.issue.status !in statusesForStart ==>
      r == Failure(StatusNotAllowed(statusesForStart, newModel.issue.status))
    ensures r.Success? <==>
      (|list| == 0 || list[|list| - 1].finished) && (|statusesForStart| == 0 || newModel.issue.status in statusesForStart)
    ensures r.Success? ==> |r.value| == |list| + 1 && r.value[..|list|] == list && r.value[|list|] == newModel
    ensures r.Success? && AtMostLastOpen(list) ==> AtMostLastOpen(r.value)
    ensures r.Success? && OpenUnstamped(list) && (newModel.finished || newModel.finishTime == ZeroTime) ==> OpenUnstamped(r.value)
  {
    if |list| > 0 && !list[|list| - 1].IsFinished() then Failure(PreviousSessionUnfinished)
    else if |statusesForStart| != 0 && newModel.issue.status !in statusesForStart then
      Failure(StatusNotAllowed(statusesForStart, newModel.issue.status))
    else Success(list + [newModel])
  }

  /** The list `Stop` persists, or its error. */
  function StopResult(list: seq<Session>, now: int): (r: Result<seq<Session>, Error>)
    requires |list| > 0
    ensures r.Failure? <==> list[|list| - 1].finished
    ensures r.Failure? ==> r.error == SessionAlreadyFinished
    ensures r.Success? ==> |r.value| == |list| && r.value[..|list| - 1] == list[..|list| - 1]
    ensures r.Success? ==> r.value[|list| - 1] == list[|list| - 1].Finish(now)
    ensures r.Success? && AtMostLastOpen(list) ==> forall i :: 0 <= i < |r.value| ==> r.value[i].finished
    ensures r.Success? && OpenUnstamped(list) ==> OpenUnstamped(r.value)
  {
    var last := list[|list| - 1];
    if last.IsFinished() then Failure(SessionAlreadyFinished)
    else Success(list[..|list| - 1] + [last.Finish(now)])
  }

  /** The first rejection `Edit` meets, checking the options in the source's order against the unedited neighbours. */
  function EditError(list: seq<Session>, num: nat, opts: EditOpts, lookup: Option<Issue>): Option<Error>
  {
    if |list| <= num then Some(RecordNotFound)
    else if opts.startTime.Some? && num > 0 && opts.startTime.value < list[num - 1].finishTime then Some(StartBeforePriorFinish)
    else if opts.finishTime.Some? && !list[num].finished then Some(EditFinishOnOpenSession)
    else if opts.finishTime.Some? && num + 1 != |list| && list[num + 1].startTime < opts.finishTime.value then Some(FinishAfterNextStart)
    else if opts.task.Some? && lookup.None? then Some(TicketLookupFailed)
    else None
  }

  /** `rec` with every requested field replaced. */
  function Patched(rec: Session, opts: EditOpts, lookup: Option<Issue>): (r: Session)
    ensures r.finished == rec.finished && r.tag == rec.tag
    ensures r.description == (if opts.description.Some? then opts.description.value else rec.description)
    ensures r.startTime == (if opts.startTime.Some? then opts.startTime.value else rec.startTime)
    ensures r.finishTime == (if opts.finishTime.Some? then opts.finishTime.value else rec.finishTime)
    ensures r.issue == (if opts.task.Some? && lookup.Some? then lookup.value else rec.issue)
  {
    rec.(
      description := if opts.description.Some? then opts.description.value else rec.description,
      startTime := if opts.startTime.Some? then opts.startTime.value else rec.startTime,
      finishTime := if opts.finishTime.Some? then opts.finishTime.value else rec.finishTime,
      issue := if opts.task.Some? && lookup.Some? then lookup.value else rec.issue)
  }

  /** The list `Edit` persists, or its error: all or nothing. */
  function EditResult(list: seq<Session>, num: nat, opts: EditOpts, lookup: Option<Issue>): (r: Result<seq<Session>, Error>)
    ensures num >= |list| ==> r == Failure(RecordNotFound)
    ensures r.Failure? <==> EditError(list, num, opts, lookup).Some?
    ensures r.Failure? ==> r.error == EditError(list, num, opts, lookup).value
    ensures r.Success? ==> num < |list| && |r.value| == |list|
    ensures r.Success? ==> forall i :: 0 <= i < |list| && i != num ==> r.value[i] == list[i]
    ensures r.Success? ==> r.value[num] == Patched(list[num], opts, lookup)
  {
    match EditError(list, num, opts, lookup)
    case Some(e) => Failure(e)
    case None => Success(list[num := Patched(list[num], opts, lookup)])
  }

  /** A new start time is rejected exactly when it falls strictly before the previous record's finish; equality is allowed. */
  lemma EditStartBoundary(list: seq<Session>, num: nat, t: int)
    requires 0 < num < |list|
    ensures EditResult(list, num, EditOpts(None, Some(t), None, None), None).Failure? <==> t < list[num - 1].finishTime
  {
  }

  /**
   * A new finish time is rejected exactly when the record is still open, or
   * when the next record starts strictly before it; equality is allowed.
   */
  lemma EditFinishBoundary(list: seq<Session>, num: nat, t: int)
    requires num < |list|
    ensures var r := EditResult(list, num, EditOpts(None, None, Some(t), None), None);
      && (r.Failure? <==> !list[num].finished || (num + 1 < |list| && list[num + 1].startTime < t))
      && (!list[num].finished ==> r == Failure(EditFinishOnOpenSession))
      && (list[num].finished && num + 1 < |list| && list[num + 1].startTime < t ==> r == Failure(FinishAfterNextStart))
  {
  }

  /**
   * Only the immediate neighbours are checked, yet that suffices to keep the
   * order between consecutive records. It does not keep a record's own start
   * before its own finish: see EditMayInvertRecord.
   */
  lemma EditPreservesTimelineInvariants(list: seq<Session>, num: nat, opts: EditOpts, lookup: Option<Issue>)
    requires EditResult(list, num, opts, lookup).Success?
    ensures Chronological(list) ==> Chronological(EditResult(list, num, opts, lookup).value)
    ensures AtMostLastOpen(list) ==> AtMostLastOpen(EditResult(list, num, opts, lookup).value)
    ensures OpenUnstamped(list) ==> OpenUnstamped(EditResult(list, num, opts, lookup).value)
  {
    var l' := EditResult(list, num, opts, lookup).value;
    if Chronological(list) {
      forall i | 0 < i < |l'| ensures l'[i - 1].finishTime <= l'[i].startTime {
        if i == num {
          assert l'[i - 1] == list[i - 1];
        } else if i - 1 == num {
          assert l'[i] == list[i];
        } else {
          assert l'[i - 1] == list[i - 1] && l'[i] == list[i];
        }
      }
    }
  }

  /** The source never compares a record's new start with its own finish. */
  lemma EditMayInvertRecord(issue: Issue)
    ensures var list := [Session(true, 10 * Second, 20 * Second, "", issue, "")];
      var r := EditResult(list, 0, EditOpts(None, Some(30 * Second), None, None), None);
      r.Success? && r.value[0].startTime > r.value[0].finishTime
  {
  }

  /** A worklog entry's comment: the description, prefixed by `#tag ` when the session is tagged. */
  function Comment(s: Session): (c: string)
    ensures |s.tag| > 0 ==> c == "#" + s.tag + " " + s.description
    ensures |s.tag| == 0 ==> c == s.description
  {
    if |s.tag| > 0 then "#" + s.tag + " " + s.description else s.description
  }

  /** Sessions of one minute or less are never submitted. */
  predicate Submittable(s: Session) {
    s.Duration() > Minute
  }

  /** An open session carries the zero finish time, so its duration is negative and it is skipped. */
  lemma OpenSessionIsSkipped(s: Session)
    requires !s.finished && s.finishTime == ZeroTime && s.startTime >= Second
    ensures !Submittable(s) && s.Duration() < 0
  {
  }

  /** The entry submitted for a session. */
  function ToWorklog(s: Session, author: string, created: int): (w: Worklog)
    requires Submittable(s)
    ensures w.issueKey == s.issue.key && w.issueId == s.issue.id && w.author == author
    ensures w.timeSpentSeconds * Second == s.Duration() && w.timeSpentSeconds > 60
    ensures w.comment == Comment(s) && w.created == created
    ensures w.started == RoundTime(s.startTime) + Millisecond
  {
    Worklog(author, s.issue.key, s.issue.id, created, RoundTime(s.startTime) + Millisecond, s.Duration() / Second, Comment(s))
  }

  /** The entries for the submittable sessions of `list`, in order. */
  function Worklogs(list: seq<Session>, author: string, created: int): (ws: seq<Worklog>)
    ensures |ws| <= |list|
  {
    if list == [] then []
    else
      var last := list[|list| - 1];
      Worklogs(list[..|list| - 1], author, created) + (if Submittable(last) then [ToWorklog(last, author, created)] else [])
  }

  /** Every entry is the one of a submittable record, so it is longer than a minute and by the author. */
  lemma {:induction false} WorklogsEntries(list: seq<Session>, author: string, created: int)
    ensures forall k :: 0 <= k < |Worklogs(list, author, created)| ==>
      && Worklogs(list, author, created)[k].timeSpentSeconds > 60
      && Worklogs(list, author, created)[k].author == author
      && exists j :: 0 <= j < |list| && Submittable(list[j]) && Worklogs(list, author, created)[k] == ToWorklog(list[j], author, created)
  {
    if list != [] {
      var p := list[..|list| - 1];
      var last := list[|list| - 1];
      WorklogsEntries(p, author, created);
      var wp := Worklogs(p, author, created);
      var ws := Worklogs(list, author, created);
      assert ws == wp + (if Submittable(last) then [ToWorklog(last, author, created)] else []);
      forall k | 0 <= k < |ws|
        ensures exists j :: 0 <= j < |list| && Submittable(list[j]) && ws[k] == ToWorklog(list[j], author, created)
      {
        if k < |wp| {
          assert ws[k] == wp[k];
          var j :| 0 <= j < |p| && Submittable(p[j]) && wp[k] == ToWorklog(p[j], author, created);
          assert list[j] == p[j];
        } else {
          assert ws[k] == ToWorklog(last, author, created);
          assert list[|list| - 1] == last;
        }
      }
    }
  }

  /** The number of submittable sessions in `list`. */
  ghost function SubmittableCount(list: seq<Session>): nat
  {
    if list == [] then 0
    else SubmittableCount(list[..|list| - 1]) + (if Submittable(list[|list| - 1]) then 1 else 0)
  }

  /**
   * Exactly one entry per submittable record, in record order: the entry of
   * record `j` sits after the entries of the submittable records before it.
   */
  lemma {:induction false} WorklogsInOrder(list: seq<Session>, author: string, created: int)
    ensures |Worklogs(list, author, created)| == SubmittableCount(list)
    ensures forall j :: 0 <= j < |list| && Submittable(list[j]) ==>
      && SubmittableCount(list[..j]) < |Worklogs(list, author, created)|
      && Worklogs(list, author, created)[SubmittableCount(list[..j])] == ToWorklog(list[j], author, created)
  {
    if list != [] {
      var p := list[..|list| - 1];
      var last := list[|list| - 1];
      WorklogsInOrder(p, author, created);
      var wp := Worklogs(p, author, created);
      var ws := Worklogs(list, author, created);
      assert ws == wp + (if Submittable(last) then [ToWorklog(last, author, created)] else []);
      forall j | 0 <= j < |list| && Submittable(list[j])
        ensures SubmittableCount(list[..j]) < |ws| && ws[SubmittableCount(list[..j])] == ToWorklog(list[j], author, created)
      {
        if j < |p| {
          assert list[..j] == p[..j];
          assert list[j] == p[j];
        } else {
          assert list[..j] == p;
        }
      }
    }
  }

  lemma WorklogsPrefix(list: seq<Session>, i: nat, author: string, created: int)
    requires i < |list|
    ensures Worklogs(list[..i + 1], author, created) ==
      Worklogs(list[..i], author, created) + (if Submittable(list[i]) then [ToWorklog(list[i], author, created)] else [])
  {
    assert list[..i + 1][..i] == list[..i];
  }

  /** The index of the first submission the tracker refuses, at or after `from`. */
  function FailureFrom(list: seq<Session>, replies: seq<bool>, from: nat): (r: Option<nat>)
    requires |replies| == |list|
    decreases |list| - from
    ensures r.Some? ==> from <= r.value < |list| && Submittable(list[r.value]) && !replies[r.value]
    ensures r.Some? ==> forall j :: from <= j < r.value ==> !Submittable(list[j]) || replies[j]
    ensures r.None? ==> forall j :: from <= j < |list| ==> !Submittable(list[j]) || replies[j]
  {
    if from >= |list| then None
    else if Submittable(list[from]) && !replies[from] then Some(from)
    else FailureFrom(list, replies, from + 1)
  }

  function FirstFailure(list: seq<Session>, replies: seq<bool>): Option<nat>
    requires |replies| == |list|
  {
    FailureFrom(list, replies, 0)
  }

  /** The index of the last submittable session before `i`, or -1 when there is none. */
  function LastSubmittable(list: seq<Session>, i: nat): (r: int)
    requires i <= |list|
    ensures -1 <= r < i
    ensures r >= 0 ==> Submittable(list[r])
    ensures forall j :: r < j < i ==> !Submittable(list[j])
  {
    if i == 0 then -1
    else if Submittable(list[i - 1]) then i - 1
    else LastSubmittable(list, i - 1)
  }

  /** The entries the coordinator submits: up to the first refused one, or all of them. */
  function Attempted(list: seq<Session>, replies: seq<bool>, author: string, created: int): seq<Worklog>
    requires |replies| == |list|
  {
    match FirstFailure(list, replies)
    case None => Worklogs(list, author, created)
    case Some(i) => Worklogs(list[..i + 1], author, created)
  }

  /**
   * The list the source persists after the submissions: empty on full
   * success, else the records after `lastSentIndex`, which starts at 0 and
   * is the index of the last accepted submission.
   */
  function RemainderAsWritten(list: seq<Session>, replies: seq<bool>): seq<Session>
    requires |replies| == |list|
  {
    match FirstFailure(list, replies)
    case None => []
    case Some(i) => list[Max(LastSubmittable(list, i), 0) + 1..]
  }

  /**
   * As written, the file is emptied on full success; after a refusal it
   * keeps a suffix that lacks at least the first record and at most the
   * records up to the refused one.
   */
  lemma RemainderAsWrittenIsSuffix(list: seq<Session>, replies: seq<bool>)
    requires |replies| == |list|
    ensures FirstFailure(list, replies).None? ==> RemainderAsWritten(list, replies) == []
    ensures var rem := RemainderAsWritten(list, replies);
      && |rem| <= |list|
      && rem == list[|list| - |rem|..]
      && (FirstFailure(list, replies).Some? ==> 0 < |list| - |rem| <= FirstFailure(list, replies).value + 1)
  {
  }

  /**
   * The intended remainder: the records after the last accepted submission,
   * counting from -1.
   */
  function Remainder(list: seq<Session>, replies: seq<bool>): seq<Session>
    requires |replies| == |list|
  {
    match FirstFailure(list, replies)
    case None => []
    case Some(i) => list[LastSubmittable(list, i) + 1..]
  }

  /**
   * The intended file is emptied on full success; after a refusal it keeps
   * a suffix holding the refused record, whose dropped records were all
   * accepted or skipped, and whose records before the refused one were all
   * skipped.
   */
  lemma RemainderKeepsUnsent(list: seq<Session>, replies: seq<bool>)
    requires |replies| == |list|
    ensures FirstFailure(list, replies).None? ==> Remainder(list, replies) == []
    ensures var rem := Remainder(list, replies);
      && |rem| <= |list|
      && rem == list[|list| - |rem|..]
      && (FirstFailure(list, replies).Some? ==>
            var i := FirstFailure(list, replies).value;
            && |list| - |rem| <= i
            && (forall j :: 0 <= j < |list| - |rem| ==> !Submittable(list[j]) || replies[j])
            && (forall j :: |list| - |rem| <= j < i ==> !Submittable(list[j])))
  {
  }

  /** One step of the submission loop past record `i`, which was skipped or accepted. */
  lemma PassedRecord(list: seq<Session>, replies: seq<bool>, i: nat)
    requires |replies| == |list| && i < |list|
    requires !Submittable(list[i]) || replies[i]
    ensures FailureFrom(list, replies, i) == FailureFrom(list, replies, i + 1)
    ensures LastSubmittable(list, i + 1) == (if Submittable(list[i]) then i else LastSubmittable(list, i))
  {
  }

  /** What the source persists when the tracker refuses record `i`: the records after `lastSentIndex`, counted from 0. */
  lemma RefusedAtAsWritten(list: seq<Session>, replies: seq<bool>, i: nat)
    requires |replies| == |list| && FirstFailure(list, replies) == Some(i)
    ensures RemainderAsWritten(list, replies) == list[Max(LastSubmittable(list, i), 0) + 1..]
  {
    match FirstFailure(list, replies)
    case Some(j) =>
      assert j == i;
  }

  /** What the intended coordinator persists when the tracker refuses record `i`: the records after the last accepted one. */
  lemma RefusedAt(list: seq<Session>, replies: seq<bool>, i: nat)
    requires |replies| == |list| && FirstFailure(list, replies) == Some(i)
    ensures Remainder(list, replies) == list[LastSubmittable(list, i) + 1..]
  {
    match FirstFailure(list, replies)
    case Some(j) =>
      assert j == i;
  }

  /** What the coordinator sends when the tracker refuses record `i`: every entry up to it. */
  lemma SentUpToRefusal(list: seq<Session>, replies: seq<bool>, i: nat, author: string, created: int)
    requires |replies| == |list| && FirstFailure(list, replies) == Some(i)
    ensures Attempted(list, replies, author, created) == Worklogs(list[..i + 1], author, created)
  {
  }

  /** What the coordinator persists and sends when every submission is accepted. */
  lemma AllAccepted(list: seq<Session>, replies: seq<bool>, author: string, created: int)
    requires |replies| == |list| && FirstFailure(list, replies).None?
    ensures RemainderAsWritten(list, replies) == [] && Remainder(list, replies) == []
    ensures Attempted(list, replies, author, created) == Worklogs(list, author, created)
  {
  }

  /** Once some submission was accepted before the refused one, the source agrees with the intended remainder. */
  lemma AsWrittenAgreesAfterAnAcceptedSubmission(list: seq<Session>, replies: seq<bool>)
    requires |replies| == |list|
    requires FirstFailure(list, replies).Some? && LastSubmittable(list, FirstFailure(list, replies).value) >= 0
    ensures RemainderAsWritten(list, replies) == Remainder(list, replies)
  {
  }

  /** A single long record whose submission is refused is dropped from the file by the source, though it was never sent. */
  lemma AsWrittenDropsRefusedFirstRecord(s: Session)
    requires Submittable(s)
    ensures FirstFailure([s], [false]) == Some(0)
    ensures RemainderAsWritten([s], [false]) == []
    ensures Remainder([s], [false]) == [s]
  {
  }

  /** Three long records, the second one refused: the file keeps the second and third; publishing those again empties it. */
  lemma SecondOfThreeRefused(a: Session, b: Session, c: Session)
    requires Submittable(a) && Submittable(b) && Submittable(c)
    ensures RemainderAsWritten([a, b, c], [true, false, true]) == [b, c]
    ensures RemainderAsWritten([b, c], [true, true]) == []
  {
    assert FailureFrom([a, b, c], [true, false, true], 1) == Some(1);
    assert FirstFailure([a, b, c], [true, false, true]) == Some(1);
    assert LastSubmittable([a, b, c], 1) == 0;
    assert FailureFrom([b, c], [true, true], 2) == None;
    assert FailureFrom([b, c], [true, true], 1) == None;
    assert FirstFailure([b, c], [true, true]) == None;
  }

  /** Of a 30-second and a 90-second session, only the 90-second one is submitted. */
  lemma ShortSessionNotSubmitted(a: Session, b: Session, author: string, created: int)
    requires a.Duration() == 30 * Second && b.Duration() == 90 * Second
    ensures Worklogs([a, b], author, created) == [ToWorklog(b, author, created)]
  {
    assert [a, b][..1] == [a];
    assert [a] [..0] == [];
  }

  /** A suffix of the timeline keeps the single-open-session and ordering invariants. */
  lemma SuffixKeepsInvariants(list: seq<Session>, k: nat)
    requires k <= |list|
    ensures AtMostLastOpen(list) ==> AtMostLastOpen(list[k..])
    ensures Chronological(list) ==> Chronological(list[k..])
    ensures OpenUnstamped(list) ==> OpenUnstamped(list[k..])
  {
    if Chronological(list) {
      forall i | 0 < i < |list[k..]| ensures list[k..][i - 1].finishTime <= list[k..][i].startTime {
        assert list[k..][i - 1] == list[k + i - 1] && list[k..][i] == list[k + i];
      }
    }
  }

  /** Stopping twice: the second stop is refused and the first finish time is kept. */
  lemma StopTwice(list: seq<Session>, t1: int, t2: int)
    requires |list| > 0 && StopResult(list, t1).Success?
    ensures StopResult(StopResult(list, t1).value, t2) == Failure(SessionAlreadyFinished)
    ensures StopResult(list, t1).value[|list| - 1].finishTime == t1
  {
  }

  /** On a fresh timeline, a session started at t0 and stopped two hours later lasts two hours. */
  lemma StartStopTwoHours(issue: Issue, t0: int)
    ensures var started := StartResult([], NewModel(issue, t0), []);
      started.Success? && StopResult(started.value, t0 + 120 * Minute).Success? &&
      StopResult(started.value, t0 + 120 * Minute).value[0].Duration() == 120 * Minute
  {
    assert RoundToSecond(120 * Minute) == 120 * Minute;
  }

  /** Reusing the previous description needs an earlier session on the same issue. */
  lemma ReusingDescriptionNeedsPriorSession(issue: Issue, t0: int, t1: int, t2: int)
    ensures BuildResult([], Some(issue), Some(StartOpts(true, "")), t0) == Failure(PriorDescriptionNotFound)
    ensures var first := StopResult([NewModel(issue, t0)], t1).value;
      BuildResult(first, Some(issue), Some(StartOpts(true, "")), t2) == Success(NewModel(issue, t2))
  {
  }

  /** The component over the persisted timeline file. */
  class Component {
    /** The content of the timeline file. */
    var stored: seq<Session>

    constructor (stored: seq<Session>)
      ensures this.stored == stored
    {
      this.stored := stored;
    }

    /** Reads the timeline file into a fresh in-memory timeline. */
    method Load() returns (tl: Timeline)
      ensures fresh(tl) && tl.list == stored
    {
      tl := new Timeline(stored);
    }

    /** Writes an empty timeline file. */
    method Init()
      modifies this
      ensures stored == []
    {
      stored := [];
    }

    /**
     * Builds the session to start on `issue` (the result of looking up the
     * task id, None when that fails), taking its description from the
     * options or from the last session on the same issue.
     */
    method BuildModel(issue: Option<Issue>, opts: Option<StartOpts>, now: int) returns (r: Result<Session, Error>)
      ensures r == BuildResult(stored, issue, opts, now)
    {
      var v := Validate(opts);
      if v.Fail? {
        return Failure(v.error);
      }
      var tl := Load();
      if issue.None? {
        return Failure(TicketLookupFailed);
      }
      var newModel := NewModel(issue.value, now);
      if opts.Some? {
        if opts.value.usePrevDescription {
          var found := false;
          var i := |tl.list| - 1;
          assert tl.list[..i + 1] == tl.list;
          while i >= 0
            invariant -1 <= i < |tl.list|
            invariant !found ==> PrevDescription(tl.list[..i + 1], newModel.issue.key) == PrevDescription(tl.list, newModel.issue.key)
            invariant found ==> Some(newModel.description) == PrevDescription(tl.list, newModel.issue.key)
            invariant newModel.(description := "") == NewModel(issue.value, now)
            decreases i + 1, !found
          {
            assert tl.list[..i + 1][..i] == tl.list[..i];
            if tl.list[i].issue.key == newModel.issue.key {
              newModel := newModel.(description := tl.list[i].description);
              found := true;
              break;
            }
            i := i - 1;
          }
          if !found {
            assert tl.list[..0] == [];
            return Failure(PriorDescriptionNotFound);
          }
        }
        if |opts.value.description| > 0 {
          newModel := newModel.(description := opts.value.description);
        }
      }
      return Success(newModel);
    }

    /**
     * Appends `newModel` when the last session is finished and the issue's
     * status is allowed (an empty allow-list admits every status).
     */
    method Start(newModel: Session, statusesForStart: seq<string>) returns (r: Result<Session, Error>)
      modifies this
      ensures StartResult(old(stored), newModel, statusesForStart).Success? ==>
        r == Success(newModel) && stored == StartResult(old(stored), newModel, statusesForStart).value
      ensures StartResult(old(stored), newModel, statusesForStart).Failure? ==>
        r == Failure(StartResult(old(stored), newModel, statusesForStart).error) && stored == old(stored)
    {
      var tl := Load();
      var model := tl.GetCurrent();
      if model.Some? && !model.value.IsFinished() {
        return Failure(PreviousSessionUnfinished);
      }
      if |statusesForStart| != 0 {
        var hasStatus := false;
        for k := 0 to |statusesForStart|
          invariant hasStatus <==> newModel.issue.status in statusesForStart[..k]
        {
          assert statusesForStart[..k + 1] == statusesForStart[..k] + [statusesForStart[k]];
          if newModel.issue.status == statusesForStart[k] {
            hasStatus := true;
          }
        }
        assert statusesForStart[..|statusesForStart|] == statusesForStart;
        if !hasStatus {
          return Failure(StatusNotAllowed(statusesForStart, newModel.issue.status));
        }
      }
      tl.Add(newModel);
      stored := tl.list;
      return Success(newModel);
    }

    /** Finishes the open last session at `now` (the source dereferences nil on an empty timeline). */
    method Stop(now: int) returns (r: Result<Session, Error>)
      requires |stored| > 0
      modifies this
      ensures StopResult(old(stored), now).Success? ==>
        r == Success(old(stored)[|old(stored)| - 1].Finish(now)) && stored == StopResult(old(stored), now).value
      ensures StopResult(old(stored), now).Failure? ==> r == Failure(SessionAlreadyFinished) && stored == old(stored)
    {
      var tl := Load();
      var model := tl.GetCurrent();
      if model.Some? && model.value.IsFinished() {
        return Failure(SessionAlreadyFinished);
      }
      var last := model.value.Finish(now);
      tl.list := tl.list[|tl.list| - 1 := last];
      stored := tl.list;
      return Success(last);
    }

    /**
     * Patches record `num` field by field, checking a new start against the
     * previous record and a new finish against the next one; `lookup` is
     * the issue found for `opts.task`. The file is written once, at the end.
     */
    method Edit(num: nat, opts: EditOpts, lookup: Option<Issue>) returns (r: Outcome<Error>)
      modifies this
      ensures EditResult(old(stored), num, opts, lookup).Success? ==>
        r == Pass && stored == EditResult(old(stored), num, opts, lookup).value
      ensures EditResult(old(stored), num, opts, lookup).Failure? ==>
        r == Fail(EditResult(old(stored), num, opts, lookup).error) && stored == old(stored)
    {
      var tl := Load();
      var list := tl.list;
      if |list| <= num {
        return Fail(RecordNotFound);
      }
      // Go patches the record in place through its pointer; the modified copy is saved once, at the end.
      var rec := list[num];
      if opts.description.Some? {
        rec := rec.(description := opts.description.value);
      }
      if opts.startTime.Some? {
        if num > 0 && opts.startTime.value < list[num - 1].finishTime {
          return Fail(StartBeforePriorFinish);
        }
        rec := rec.(startTime := opts.startTime.value);
      }
      if opts.finishTime.Some? {
        if !rec.IsFinished() {
          return Fail(EditFinishOnOpenSession);
        }
        if num + 1 != |list| && list[num + 1].startTime < opts.finishTime.value {
          return Fail(FinishAfterNextStart);
        }
        rec := rec.(finishTime := opts.finishTime.value);
      }
      if opts.task.Some? {
        if lookup.None? {
          return Fail(TicketLookupFailed);
        }
        rec := rec.(issue := lookup.value);
      }
      stored := list[num := rec];
      return Pass;
    }

    /**
     * Submits the sessions longer than a minute, in order, as worklogs by
     * `identity` (None when looking up the signed-in user fails);
     * `replies[i]` is the tracker's answer for record i. `attempts` are the
     * entries sent. As in the source, `lastSentIndex` starts at 0.
     */
    method Publish(identity: Option<string>, replies: seq<bool>, now: int) returns (r: Outcome<Error>, attempts: seq<Worklog>)
      requires |replies| == |stored|
      modifies this
      ensures identity.None? ==> r == Fail(IdentityLookupFailed) && attempts == [] && stored == old(stored)
      ensures identity.Some? ==>
        && stored == RemainderAsWritten(old(stored), replies)
        && attempts == Attempted(old(stored), replies, identity.value, RoundTime(now) + Millisecond)
        && (r.Pass? <==> FirstFailure(old(stored), replies).None?)
        && (r.Fail? ==> r.error == WorklogSubmissionFailed(FirstFailure(old(stored), replies).value,
                                                           old(stored)[FirstFailure(old(stored), replies).value].issue.key))
    {
      var tl := Load();
      if identity.None? {
        return Fail(IdentityLookupFailed), [];
      }
      var user := identity.value;
      var created := RoundTime(now) + Millisecond;
      var list := tl.list;
      assert list == old(stored);
      var lastSentIndex := 0;
      attempts := [];
      for i := 0 to |list|
        invariant lastSentIndex == Max(LastSubmittable(list, i), 0)
        invariant FirstFailure(list, replies) == FailureFrom(list, replies, i)
        invariant attempts == Worklogs(list[..i], user, created)
      {
        var model := list[i];
        WorklogsPrefix(list, i, user, created);
        if model.Duration() > Minute {
          attempts := attempts + [ToWorklog(model, user, created)];
          if !replies[i] {
            RefusedAtAsWritten(list, replies, i);
            SentUpToRefusal(list, replies, i, user, created);
            assert list[lastSentIndex + 1..] == list[Max(LastSubmittable(list, i), 0) + 1..];
            assert list[lastSentIndex + 1..] == RemainderAsWritten(list, replies);
            stored := list[lastSentIndex + 1..];
            return Fail(WorklogSubmissionFailed(i, model.issue.key)), attempts;
          }
          lastSentIndex := i;
        }
        PassedRecord(list, replies, i);
      }
      assert list[..|list|] == list;
      AllAccepted(list, replies, user, created);
      stored := [];
      return Pass, attempts;
    }

    /**
     * Publish with `lastSentIndex` starting at -1: a refused submission
     * keeps that record and every record after the last accepted one.
     */
    method PublishResumable(identity: Option<string>, replies: seq<bool>, now: int) returns (r: Outcome<Error>, attempts: seq<Worklog>)
      requires |replies| == |stored|
      modifies this
      ensures identity.None? ==> r == Fail(IdentityLookupFailed) && attempts == [] && stored == old(stored)
      ensures identity.Some? ==>
        && stored == Remainder(old(stored), replies)
        && attempts == Attempted(old(stored), replies, identity.value, RoundTime(now) + Millisecond)
        && (r.Pass? <==> FirstFailure(old(stored), replies).None?)
        && (r.Fail? ==> r.error == WorklogSubmissionFailed(FirstFailure(old(stored), replies).value,
                                                           old(stored)[FirstFailure(old(stored), replies).value].issue.key))
    {
      var tl := Load();
      if identity.None? {
        return Fail(IdentityLookupFailed), [];
      }
      var user := identity.value;
      var created := RoundTime(now) + Millisecond;
      var list := tl.list;
      assert list == old(stored);
      var lastSentIndex := -1;
      attempts := [];
      for i := 0 to |list|
        invariant lastSentIndex == LastSubmittable(list, i)
        invariant FirstFailure(list, replies) == FailureFrom(list, replies, i)
        invariant attempts == Worklogs(list[..i], user, created)
      {
        var model := list[i];
        WorklogsPrefix(list, i, user, created);
        if model.Duration() > Minute {
          attempts := attempts + [ToWorklog(model, user, created)];
          if !replies[i] {
            RefusedAt(list, replies, i);
            SentUpToRefusal(list, replies, i, user, created);
            assert list[lastSentIndex + 1..] == list[LastSubmittable(list, i) + 1..];
            assert list[lastSentIndex + 1..] == Remainder(list, replies);
            stored := list[lastSentIndex + 1..];
            return Fail(WorklogSubmissionFailed(i, model.issue.key)), attempts;
          }
          lastSentIndex := i;
        }
        PassedRecord(list, replies, i);
      }
      assert list[..|list|] == list;
      AllAccepted(list, replies, user, created);
      stored := [];
      return Pass, attempts;
    }
  }
}
