/**
 * The session record and the in-memory timeline (pkg/timeline/model.go).
 *
 * Instants are integers counting nanoseconds since Go's zero `time.Time`
 * (January 1, year 1, UTC), so the zero value of a `FinishTime` that was
 * never set is `ZeroTime`. Durations are integers of nanoseconds.
 */
module TimelineModel {
  import opened Wrappers

  const Millisecond: int := 1_000_000
  const Second: int := 1000 * Millisecond
  const Minute: int := 60 * Second
  /** The zero `time.Time`: the finish time of a session that was never stopped. */
  const ZeroTime: int := 0

  /** The cached part of a Jira issue: its id, key, summary and status name. */
  datatype Issue = Issue(id: string, key: string, summary: string, status: string)

  /** One tracked interval of work against an issue (Go's `Model`). */
  datatype Session = Session(
    finished: bool,
    startTime: int,
    finishTime: int,
    description: string,
    issue: Issue,
    tag: string)
  {
    predicate IsFinished() {
      finished
    }

    /** Closes the session at `now`; every other field is kept. */
    function Finish(now: int): (r: Session)
      ensures r.IsFinished() && r.finishTime == now
      ensures r.startTime == startTime && r.description == description
      ensures r.issue == issue && r.tag == tag
    {
      this.(finished := true, finishTime := now)
    }

    /** `FinishTime - StartTime`, rounded to the nearest second (see RoundedDurations). */
    function Duration(): int
    {
      RoundToSecond(finishTime - startTime)
    }

    /** `now - StartTime`, rounded to the nearest second (see RoundedDurations). */
    function ActivityDuration(now: int): int
    {
      RoundToSecond(now - startTime)
    }
  }

  /**
   * Go's `Duration.Round(time.Second)`: the nearest multiple of a second,
   * halfway values rounded away from zero. Go's `%` truncates toward zero,
   * so the remainder of a negative duration is taken on its magnitude.
   */
  function RoundToSecond(d: int): (r: int)
    ensures r % Second == 0
    ensures 2 * Abs(r - d) <= Second
    ensures 2 * Abs(r - d) == Second ==> Abs(r) > Abs(d)
  {
    if d >= 0 then
      var rem := d % Second;
      if 2 * rem < Second then d - rem else d + Second - rem
    else
      var rem := (-d) % Second;
      if 2 * rem < Second then d + rem else d - Second + rem
  }

  /**
   * A session's duration is a whole number of seconds within half a second
   * of its span (finish minus start, or `now` minus start for the activity
   * duration), an exact half rounding away from zero.
   */
  lemma RoundedDurations(s: Session, now: int)
    ensures var span := s.finishTime - s.startTime;
      && s.Duration() % Second == 0
      && 2 * Abs(s.Duration() - span) <= Second
      && (2 * Abs(s.Duration() - span) == Second ==> Abs(s.Duration()) > Abs(span))
    ensures var span := now - s.startTime;
      && s.ActivityDuration(now) % Second == 0
      && 2 * Abs(s.ActivityDuration(now) - span) <= Second
      && (2 * Abs(s.ActivityDuration(now) - span) == Second ==> Abs(s.ActivityDuration(now)) > Abs(span))
  {
    assert s.Duration() == RoundToSecond(s.finishTime - s.startTime);
  }

  /** Rounding is symmetric about zero. */
  lemma RoundToSecondOdd(d: int)
    ensures RoundToSecond(-d) == -RoundToSecond(d)
  {
  }

  /**
   * Go's `Time.Round(time.Second)`: the nearest multiple of a second since
   * the zero time, halfway values rounded up.
   */
  function RoundTime(t: int): (r: int)
    ensures r % Second == 0
    ensures t - Second / 2 < r <= t + Second / 2
  {
    var rem := t % Second;
    if 2 * rem < Second then t - rem else t + Second - rem
  }

  /** A fresh, open session for `issue` started at `now` (Go's `NewModel`). */
  function NewModel(issue: Issue, now: int): (m: Session)
    ensures !m.IsFinished() && m.startTime == now && m.finishTime == ZeroTime
    ensures m.description == "" && m.tag == "" && m.issue == issue
  {
    Session(false, now, ZeroTime, "", issue, "")
  }

  /** The time a session adds to its issue's total in the report. */
  function Contribution(s: Session, now: int): (d: int)
    ensures s.IsFinished() ==> d == s.Duration()
    ensures !s.IsFinished() ==> d == s.ActivityDuration(now)
  {
    if s.IsFinished() then s.Duration() else s.ActivityDuration(now)
  }

  /** The issue keys occurring in a list of sessions. */
  ghost function Keys(list: seq<Session>): set<string>
  {
    set i | 0 <= i < |list| :: list[i].issue.key
  }

  /** The sum of the contributions of the sessions of `list` whose issue key is `key`. */
  ghost function TaskTotal(list: seq<Session>, key: string, now: int): int
  {
    if list == [] then 0
    else
      var last := list[|list| - 1];
      TaskTotal(list[..|list| - 1], key, now) + (if last.issue.key == key then Contribution(last, now) else 0)
  }

  /** The position of the first session of `list` whose issue key is `key`. */
  ghost function FirstIndex(list: seq<Session>, key: string): (i: nat)
    requires key in Keys(list)
    ensures i < |list| && list[i].issue.key == key
    ensures forall j :: 0 <= j < i ==> list[j].issue.key != key
  {
    if list[0].issue.key == key then 0
    else
      var j :| 0 <= j < |list| && list[j].issue.key == key;
      assert list[1..][j - 1].issue.key == key;
      1 + FirstIndex(list[1..], key)
  }

  lemma KeysAppend(list: seq<Session>, s: Session)
    ensures Keys(list + [s]) == Keys(list) + {s.issue.key}
  {
    var l := list + [s];
    forall k | k in Keys(l) ensures k in Keys(list) + {s.issue.key} {
      var i :| 0 <= i < |l| && l[i].issue.key == k;
      if i < |list| {
        assert list[i].issue.key == k;
      }
    }
    forall k | k in Keys(list) + {s.issue.key} ensures k in Keys(l) {
      if k in Keys(list) {
        var i :| 0 <= i < |list| && list[i].issue.key == k;
        assert l[i].issue.key == k;
      } else {
        assert l[|list|].issue.key == k;
      }
    }
  }

  /** A key that does not occur contributes nothing. */
  lemma {:induction false} TaskTotalAbsent(list: seq<Session>, key: string, now: int)
    requires key !in Keys(list)
    ensures TaskTotal(list, key, now) == 0
  {
    if list != [] {
      var p := list[..|list| - 1];
      assert Keys(list) == Keys(p) + {list[|list| - 1].issue.key} by {
        assert p + [list[|list| - 1]] == list;
        KeysAppend(p, list[|list| - 1]);
      }
      TaskTotalAbsent(p, key, now);
    }
  }

  /** Totals are additive over a split of the list: the order of the records does not matter across the split. */
  lemma {:induction false} TaskTotalAppend(a: seq<Session>, b: seq<Session>, key: string, now: int)
    ensures TaskTotal(a + b, key, now) == TaskTotal(a, key, now) + TaskTotal(b, key, now)
  {
    if b != [] {
      var b' := b[..|b| - 1];
      assert (a + b)[..|a + b| - 1] == a + b';
      TaskTotalAppend(a, b', key, now);
    } else {
      assert a + b == a;
    }
  }

  /** What the report keeps per issue key (Go's `DurationDescription`). */
  datatype DurationDescription = DurationDescription(duration: int, summary: string)

  /** The report after folding the sessions of `list` in order, as the loop of `GetDurationsByTasks` builds it. */
  ghost function Report(list: seq<Session>, now: int): map<string, DurationDescription>
  {
    if list == [] then map[]
    else
      var r := Report(list[..|list| - 1], now);
      var task := list[|list| - 1];
      var m := if task.issue.key in r then r[task.issue.key] else DurationDescription(0, task.issue.summary);
      r[task.issue.key := m.(duration := m.duration + Contribution(task, now))]
  }

  /** The report has exactly one entry per issue key of the list. */
  lemma {:induction false} ReportKeys(list: seq<Session>, now: int)
    ensures Report(list, now).Keys == Keys(list)
  {
    if list != [] {
      var p := list[..|list| - 1];
      assert p + [list[|list| - 1]] == list;
      ReportKeys(p, now);
      KeysAppend(p, list[|list| - 1]);
    }
  }

  /** Each entry's duration is the sum of the contributions of that key's sessions. */
  lemma {:induction false} ReportDurations(list: seq<Session>, now: int)
    ensures forall k :: k in Report(list, now) ==> Report(list, now)[k].duration == TaskTotal(list, k, now)
  {
    if list != [] {
      var p := list[..|list| - 1];
      var task := list[|list| - 1];
      ReportDurations(p, now);
      ReportKeys(p, now);
      if task.issue.key !in Report(p, now) {
        TaskTotalAbsent(p, task.issue.key, now);
      }
    }
  }

  /** Appending a session does not move the first occurrence of a key that already occurs. */
  lemma FirstIndexAppend(p: seq<Session>, task: Session, k: string)
    requires k in Keys(p + [task])
    ensures k in Keys(p) ==> k in Keys(p + [task]) && FirstIndex(p + [task], k) == FirstIndex(p, k)
    ensures k !in Keys(p) ==> FirstIndex(p + [task], k) == |p|
  {
    var l := p + [task];
    if k in Keys(p) {
      var i0 := FirstIndex(p, k);
      assert l[i0] == p[i0];
    }
  }

  /** Each entry's summary is the one of that key's first session. */
  lemma {:induction false} ReportSummaries(list: seq<Session>, now: int)
    ensures Report(list, now).Keys == Keys(list)
    ensures forall k :: k in Report(list, now) ==> Report(list, now)[k].summary == list[FirstIndex(list, k)].issue.summary
  {
    ReportKeys(list, now);
    if list != [] {
      var p := list[..|list| - 1];
      var task := list[|list| - 1];
      assert p + [task] == list;
      ReportSummaries(p, now);
      var r := Report(list, now);
      forall k | k in r
        ensures r[k].summary == list[FirstIndex(list, k)].issue.summary
      {
        FirstIndexAppend(p, task, k);
      }
    }
  }

  /** The decoded timeline file: an ordered list of sessions (Go's `Timeline`). */
  class Timeline {
    var list: seq<Session>

    constructor (list: seq<Session>)
      ensures this.list == list
    {
      this.list := list;
    }

    /** The last session, or None for Go's `ErrTimelineEmpty`. */
    function GetCurrent(): (r: Option<Session>)
      reads this
      ensures r.None? <==> |list| == 0
      ensures r.Some? ==> r.value == list[|list| - 1]
    {
      if |list| == 0 then None else Some(list[|list| - 1])
    }

    /** Appends `m` at the tail; no ordering is checked. */
    method Add(m: Session)
      modifies this
      ensures |list| == |old(list)| + 1 && list[|list| - 1] == m
      ensures list[..|old(list)|] == old(list)
    {
      list := list + [m];
    }

    /**
     * The per-issue report: one entry per issue key of the list, holding the
     * summary of the key's first session and the sum of its sessions'
     * durations (up to `now` for an open session).
     */
    method GetDurationsByTasks(now: int) returns (res: map<string, DurationDescription>)
      ensures res.Keys == Keys(list)
      ensures forall k :: k in res ==> res[k].duration == TaskTotal(list, k, now)
      ensures forall k :: k in res ==> res[k].summary == list[FirstIndex(list, k)].issue.summary
    {
      res := map[];
      for n := 0 to |list|
        invariant res == Report(list[..n], now)
      {
        var task := list[n];
        assert list[..n + 1][..n] == list[..n];
        if task.issue.key !in res {
          res := res[task.issue.key := DurationDescription(0, task.issue.summary)];
        }
        var m := res[task.issue.key];
        if task.IsFinished() {
          m := m.(duration := m.duration + task.Duration());
        } else {
          m := m.(duration := m.duration + task.ActivityDuration(now));
        }
        res := res[task.issue.key := m];
      }
      assert list[..|list|] == list;
      ReportDurations(list, now);
      ReportSummaries(list, now);
    }
  }
}
