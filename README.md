# jwa-console: time tracking against Jira, modelled in Dafny

jwa-console is a command-line time tracker. It keeps an ordered list of
work sessions (a *timeline*), each against one Jira issue, in a JSON file.
You start and stop sessions, edit them, label them with a configured tag and
print per-issue totals. You can also publish them to Jira as worklog
entries. After a refused submission the file keeps the records after the
last accepted one. When none was accepted, record 0 counts as sent, so a
refused first record is lost (see Findings).

This project models that core and proves its properties:

- `TimelineModel` (`timeline_model.dfy`): the session record, rounding of
  durations to the second, and the in-memory timeline with its per-issue
  report (pkg/timeline/model.go).
- `TimelineComponent` (`timeline_component.dfy`): the state machine over the
  persisted timeline. It covers start-option validation, building a new
  session, start, stop, edit and publish (pkg/timeline/component.go). The
  `Component` class holds the content of the timeline file in `stored`.
  Every operation loads it into a fresh `Timeline`, checks its preconditions
  and writes the list back at most once. Each method is proved equal to a
  specification function: `BuildResult`, `StartResult`, `StopResult`,
  `EditResult`, `RemainderAsWritten` or `Remainder`. The properties are
  proved about those functions.
- `Tag` (`tag.dfy`): tag resolution from the flags or from one line typed at
  the prompt (pkg/tag/tag.go). It includes Go's `strings.TrimSpace` and
  64-bit `strconv.Atoi`.
- `Config` (`config.dfy`): the configuration record's `Set` and `AsMap`
  (pkg/config/config.go). Lists are written comma-separated, and splitting
  and joining are proved to be inverse.
- `FileDb` (`filedb.dfy`): the table-name whitelist of the JSON file store,
  and the order of checks in `Set` and `CreateTableIfNotExists`
  (pkg/filedb/json.go).
- `Wrappers` (`wrappers.dfy`): `Option`, `Result`, `Outcome`, `Abs` and
  `Max`.

How the model represents the source:

- Instants are integers counting nanoseconds since Go's zero `time.Time`. A
  finish time never set is therefore `ZeroTime` (0). Durations are integers
  of nanoseconds.
- Everything that comes from outside is a parameter:
  - the current time;
  - the issue looked up in Jira (`None` when the lookup fails);
  - the signed-in user's identity;
  - the tracker's accept/refuse answer for each worklog, indexed by record
    position;
  - the line read from standard input.

Behaviour at the edges, as the code has it:

- **Editing a finish time.** A new finish time on an open record is always
  rejected (component.go:262-263). On a finished record it is rejected only
  when the next record starts strictly before it (component.go:265), so a
  finish equal to the next start is accepted. `EditError` and
  `EditFinishBoundary` state this.
- **Stopping an empty timeline.** On an empty timeline `GetCurrent` returns
  a nil record with `ErrTimelineEmpty`, and `Stop` then calls `Finish` on
  it (component.go:162), which crashes. `Component.Stop` and `StopResult`
  therefore require a non-empty timeline.
- **Publishing after a refusal.** The remainder saved after a refusal keeps
  every record after the last accepted one only when some earlier
  submission was accepted; see Findings.

## Model

| member | source | states |
|---|---|---|
| TimelineModel.Session.IsFinished | pkg/timeline/model.go:28-30 | true exactly for a session whose `finished` flag is set; `Finish` and `NewModel` state how it is set |
| TimelineModel.Session.Duration | pkg/timeline/model.go:37-39 | finish minus start, rounded to the second; its properties are those of `RoundedDurations` |
| TimelineModel.Session.ActivityDuration | pkg/timeline/model.go:41-43 | `now` minus start, rounded to the second, the clock being a parameter; its properties are those of `RoundedDurations` |
| TimelineModel.Session.Finish | pkg/timeline/model.go:32-35 | the session becomes finished with finish time `now`; start, description, issue and tag are kept |
| TimelineModel.RoundedDurations | pkg/timeline/model.go:37-43 | `Duration` is a whole number of seconds within half a second of finish minus start, and `ActivityDuration` the same for `now` minus start; an exact half rounds away from zero |
| TimelineModel.RoundToSecond | pkg/timeline/model.go:38 | Go's `Duration.Round(time.Second)` returns the nearest multiple of a second, with a half rounded away from zero |
| TimelineModel.RoundToSecondOdd | pkg/timeline/model.go:38 | `Duration.Round` is symmetric about zero: a negative span rounds to minus the rounding of its magnitude |
| TimelineModel.RoundTime | pkg/timeline/component.go:197 | Go's `Time.Round(time.Second)` returns the nearest whole second, with a half rounded up |
| TimelineModel.NewModel | pkg/timeline/model.go:21-26 | a new session is open, starts at `now`, has the zero finish time and an empty description and tag |
| TimelineModel.Contribution | pkg/timeline/model.go:74-79 | a finished session adds its duration to the report; an open one adds its duration up to `now` |
| TimelineModel.FirstIndex | pkg/timeline/model.go:68-72 | the position of the first session with the key; no earlier session has it |
| TimelineModel.TaskTotalAbsent | pkg/timeline/model.go:65-84 | a key that does not occur has total zero |
| TimelineModel.TaskTotalAppend | pkg/timeline/model.go:65-84 | per-issue totals add up over any split of the list |
| TimelineModel.ReportKeys | pkg/timeline/model.go:65-84 | the report has exactly one entry per issue key of the list |
| TimelineModel.ReportDurations | pkg/timeline/model.go:65-84 | each entry's duration is the sum of the contributions of that issue's sessions |
| TimelineModel.ReportSummaries | pkg/timeline/model.go:68-72 | each entry's summary is the one of that issue's first session |
| TimelineModel.Timeline.GetCurrent | pkg/timeline/model.go:49-54 | None exactly when the timeline is empty, otherwise the last session |
| TimelineModel.Timeline.Add | pkg/timeline/model.go:56-58 | the list grows by one, ends with the new session, and the earlier sessions are kept |
| TimelineModel.Timeline.GetDurationsByTasks | pkg/timeline/model.go:65-84 | the loop's result has the issue keys of the list as its keys, each with the total duration and the first session's summary |
| TimelineComponent.Validate | pkg/timeline/component.go:50-59 | the options fail exactly when reuse of the previous description and a non-empty description are both given |
| TimelineComponent.PrevDescription | pkg/timeline/component.go:85-91 | the backward search for the previous description of the issue; `PrevDescriptionIsLatest` states that it finds the last session on the issue and fails only when there is none |
| TimelineComponent.PrevDescriptionIsLatest | pkg/timeline/component.go:83-96 | the backward search yields the description of the last session on the issue, and fails only when there is none |
| TimelineComponent.BuildResult | pkg/timeline/component.go:61-104 | fails exactly when the options conflict, the issue lookup fails, or a reused description has no earlier session on the issue, with those errors in that order; a built session is a new open session on the issue whose description is empty, given or reused from the previous session |
| TimelineComponent.Component.BuildModel | pkg/timeline/component.go:61-104 | the method, including its backward search loop, returns `BuildResult` of the stored timeline |
| TimelineComponent.StartResult | pkg/timeline/component.go:106-147 | refused while the last session is open or the issue's status is not allowed; succeeds exactly otherwise by appending the session; keeps the single-open-session and open-unstamped invariants |
| TimelineComponent.Component.Start | pkg/timeline/component.go:106-147 | on success the file holds `StartResult`; on failure it returns that error and the file is unchanged |
| TimelineComponent.StopResult | pkg/timeline/component.go:149-168 | fails exactly when the last session is finished; otherwise only the last session changes, finished at `now`; when at most the last session was open (the invariant `Start` keeps), every session is then finished |
| TimelineComponent.Component.Stop | pkg/timeline/component.go:149-168 | the file holds `StopResult` on success and is unchanged on failure |
| TimelineComponent.StopTwice | pkg/timeline/component.go:158-161 | a second stop is refused and keeps the first finish time |
| TimelineComponent.StartStopTwoHours | pkg/timeline/component.go:106-168 | a session started and stopped two hours later lasts two hours |
| TimelineComponent.ReusingDescriptionNeedsPriorSession | pkg/timeline/component.go:83-96 | reusing a description fails on an empty timeline and succeeds after a session on the same issue |
| TimelineComponent.EditError | pkg/timeline/component.go:249-283 | the first failing check in the source's order: record out of range, start before the previous finish, finish on an open session, finish after the next start, failed issue lookup; `EditStartBoundary` and `EditFinishBoundary` pin down the two time checks |
| TimelineComponent.Patched | pkg/timeline/component.go:252-285 | each requested field is replaced and every other field is kept |
| TimelineComponent.EditResult | pkg/timeline/component.go:244-287 | an index out of range is RecordNotFound; it fails exactly when a check fails, in the source's order; on success only record `num` changes, and it is patched |
| TimelineComponent.Component.Edit | pkg/timeline/component.go:244-287 | all or nothing: the file holds `EditResult` on success and is unchanged on failure |
| TimelineComponent.EditStartBoundary | pkg/timeline/component.go:255-260 | a new start is rejected exactly when it is strictly before the previous record's finish |
| TimelineComponent.EditFinishBoundary | pkg/timeline/component.go:261-268 | a new finish is rejected exactly when the record is still open or the next record starts strictly before it, with the error of the check that fails |
| TimelineComponent.EditPreservesTimelineInvariants | pkg/timeline/component.go:252-285 | a successful edit keeps consecutive records in order and keeps the single-open-session and open-unstamped invariants |
| TimelineComponent.EditMayInvertRecord | pkg/timeline/component.go:255-260 | an edit can move a record's start after its own finish |
| TimelineComponent.Comment | pkg/timeline/component.go:204-207 | the comment is the description, prefixed by `#tag ` when the session is tagged |
| TimelineComponent.Submittable | pkg/timeline/component.go:200-203 | a record is submitted only when its rounded duration exceeds one minute; `OpenSessionIsSkipped` and `ShortSessionNotSubmitted` show the skip, and `ToWorklog` turns a submittable record into whole seconds above 60 |
| TimelineComponent.OpenSessionIsSkipped | pkg/timeline/component.go:200-203 | an open session has a negative duration and is never submitted |
| TimelineComponent.ToWorklog | pkg/timeline/component.go:204-217 | the worklog carries the issue, the author and the comment; its seconds times a second equal the duration and exceed 60; it starts at the rounded start plus a millisecond |
| TimelineComponent.Worklogs | pkg/timeline/component.go:199-217 | at most one entry per record |
| TimelineComponent.WorklogsInOrder | pkg/timeline/component.go:199-217 | exactly one entry per submittable record, in record order: the entry of submittable record `j` sits at the number of submittable records before `j` |
| TimelineComponent.WorklogsEntries | pkg/timeline/component.go:199-217 | every entry is the worklog of a submittable record, longer than a minute and by the author |
| TimelineComponent.ShortSessionNotSubmitted | pkg/timeline/component.go:200-203 | a 30-second session is skipped and a 90-second one is submitted |
| TimelineComponent.FailureFrom | pkg/timeline/component.go:199-230 | the first submittable record at or after `from` that the tracker refuses; every submittable record before it was accepted |
| TimelineComponent.LastSubmittable | pkg/timeline/component.go:231 | the last submittable record before `i`, or -1; nothing after it is submittable |
| TimelineComponent.Attempted | pkg/timeline/component.go:199-230 | the worklogs Publish sends: all of `Worklogs` on full success, otherwise those of the records up to and including the first refused one; `WorklogsInOrder` and `WorklogsEntries` state what those entries are, and `Component.Publish` is proved to send exactly these |
| TimelineComponent.RemainderAsWritten | pkg/timeline/component.go:198-234 | the file's content after publishing, as the source computes it from `lastSentIndex` starting at 0; its properties are stated by `RemainderAsWrittenIsSuffix` and `AsWrittenDropsRefusedFirstRecord` |
| TimelineComponent.Remainder | pkg/timeline/component.go:198-234 | the intended content after publishing, `lastSentIndex` starting at -1; its properties are stated by `RemainderKeepsUnsent` and `AsWrittenAgreesAfterAnAcceptedSubmission` |
| TimelineComponent.RemainderAsWrittenIsSuffix | pkg/timeline/component.go:198-234 | as written, the file is emptied when every submission is accepted; otherwise it keeps a suffix that drops at least the first record and at most the records up to the refused one |
| TimelineComponent.RemainderKeepsUnsent | pkg/timeline/component.go:198-234 | as intended, the file is emptied on full success; otherwise it keeps a suffix holding the refused record and everything after the last accepted one, and drops only records that were accepted or skipped |
| TimelineComponent.AsWrittenAgreesAfterAnAcceptedSubmission | pkg/timeline/component.go:198-231 | once a submission was accepted before the refusal, the source's remainder is the intended one |
| TimelineComponent.AsWrittenDropsRefusedFirstRecord | pkg/timeline/component.go:198 | a single long record refused at once is dropped from the file, though the intended remainder keeps it |
| TimelineComponent.SecondOfThreeRefused | pkg/timeline/component.go:198-231 | of three records with the second refused, the file keeps the last two, and publishing those again empties it |
| TimelineComponent.SuffixKeepsInvariants | pkg/timeline/component.go:220 | what publishing leaves in the file keeps the timeline invariants |
| TimelineComponent.Component.Publish | pkg/timeline/component.go:182-235 | an identity failure changes nothing; otherwise the file holds `RemainderAsWritten`, the entries sent are those up to the first refusal, and the error names that record |
| TimelineComponent.Component.PublishResumable | pkg/timeline/component.go:182-235 | as Publish, but the file holds `Remainder` |
| TimelineComponent.Component.Load | pkg/timeline/component.go:289-301 | a fresh in-memory timeline holding the file's list |
| TimelineComponent.Component.Init | pkg/timeline/component.go:33-39 | the file holds the empty timeline |
| Tag.TrimSpace | pkg/tag/tag.go:61 | the result is a contiguous slice of the input with only white space before and after it, and it neither starts nor ends with white space |
| Tag.Atoi | pkg/tag/tag.go:65 | a text parses exactly when it is an optional sign and at least one digit whose signed value lies in the 64-bit range, and then to that value |
| Tag.ShortDecimalsParse | pkg/tag/tag.go:65 | every decimal text of at most 18 digits, signed or not, parses |
| Tag.FormattedIntParsesBack | pkg/tag/tag.go:65 | every 64-bit value, printed in decimal with a '-' when negative (or a '+' when not), parses back to itself |
| Tag.OutOfRangeDoesNotParse | pkg/tag/tag.go:65 | a value outside the 64-bit range, printed in decimal, does not parse |
| Tag.PrintedIndexParsesBack | pkg/tag/tag.go:54-72 | an index the prompt printed, typed back with its newline, parses to itself |
| Tag.NoTagAnswerIsNotANumber | pkg/tag/tag.go:62-64 | the answer `nt` is not a number, so it is tested before parsing |
| Tag.SetTag | pkg/tag/tag.go:23-76 | each case with its result (no tags configured, conflicting flags, a known or unknown tag, `-nt`, an unreadable line, `nt`, not a number, an index in or out of range); only the tag may change, and only on success |
| Config.Split | pkg/config/config.go:21-23 | at least one part, none containing a comma |
| Config.Join | pkg/config/config.go:34-35 | no parts join to the empty text; one part joins to itself |
| Config.JoinSplit | pkg/config/config.go:18-38 | joining the split text gives back the text |
| Config.SplitJoin | pkg/config/config.go:18-38 | a non-empty list of comma-free elements survives joining and splitting |
| Config.EmptyTagsTextIsOneTag | pkg/config/config.go:21 | setting the tags to the empty text configures one empty tag |
| Config.Model.Set | pkg/config/config.go:18-30 | each known key sets its field and leaves the others; an unknown key fails and changes nothing; after success `AsMap` shows the value under the key |
| Config.Model.AsMap | pkg/config/config.go:32-38 | exactly the three keys, lists comma-joined |
| FileDb.DefaultRunesAreLowerCaseAndUnderscore | pkg/filedb/json.go:101-105 | the store's runes, the 26 lower-case letters then `_`, are exactly `a`-`z` and `_` |
| FileDb.TableNameValidator.constructor | pkg/filedb/json.go:28-37 | the whitelist is exactly the given runes |
| FileDb.TableNameValidator.Validate | pkg/filedb/json.go:40-48 | accepts exactly when every rune is whitelisted; otherwise names the first rune that is not |
| FileDb.NewDefaultTableNameValidator | pkg/filedb/json.go:101-105 | the store's validator admits exactly `a`-`z` and `_` |
| FileDb.Json.CreateTableIfNotExists | pkg/filedb/json.go:144-166 | an invalid name fails and creates nothing; a valid one creates an empty table unless it exists |
| FileDb.Json.Set | pkg/filedb/json.go:124-139 | an invalid name fails before the serializer runs; a serializer failure leaves at most an empty table; otherwise the table holds the serialized bytes |

## Left out

- Jira itself is not modelled: issue lookup, user lookup and worklog submission are parameters, and the worklog's `UpdateAuthor`/`Updated` copies of `Author`/`Created` are left out. So are failures to build the client (`jiraFactory.GetClient`) and a lookup that answers with a non-200 status, except as the `None` of a lookup parameter.
- Reading and writing the JSON files and their errors (`getTimeline`, `saveTimeline`, config `GetCfg`/`Save`/`Init`) are not modelled. A failed read returns before any change. A failed save leaves the file as it was and returns the error, which the model does not represent. In Publish the error from saving the remainder after a refusal is only logged, which the model matches by ignoring it.
- Component.Publish: the model always empties the file once every submission was accepted. In the source that final save (component.go:234) can fail. The error is then returned and the file still holds every record, so the next publish submits them all again as duplicate worklogs. The model does not capture this.
- The clock (`time.Now`) is a parameter, and time zones and Go's monotonic clock reading are not modelled.
- Go's `time.Duration` saturation and 64-bit overflow in `Sub`, `Round` and the report's sums are not modelled: arithmetic is unbounded. This matters only for spans of about 292 years or more, such as an open session's zero finish time, which shows up in `OpenSessionIsSkipped` as a negative duration, as in Go.
- Component.Stop: its non-empty precondition stands for the nil dereference in the source, whose empty-timeline behaviour is a crash rather than an error.
- Component.Edit: `num` is a `nat`, so negative record numbers are left out. The command line parses the number with `strconv.Atoi` (pkg/action/edit.go:22), so one can reach `Edit`. It passes the check `len(tl.List) <= num` (component.go:249). The first requested field then indexes `tl.List[num]` (e.g. component.go:253), which panics; with no field requested the file is saved unchanged and no error is returned.
- Component.Publish: `replies` gives one answer per record, and only the answers of submitted records are consulted.
- Tag.SetTag: the prompt's output and the reading of the line are left out. The line is a parameter, and `None` stands for any read error, including end of input without a newline.
- Tag.Atoi: Go's syntax and range errors are both `InputNotANumber`.
- FileDb.TableNameValidator.Validate: a Go string is a sequence of bytes decoded as UTF-8, and an invalid byte decodes to U+FFFD. The model's strings are sequences of characters.
- FileDb.Json.Get, `InitJSON`'s directory creation, and the operating-system errors of `Stat`, `Create`, `Close` and `WriteFile` are not modelled. Neither is the serializer, beyond whether it succeeds.
- Sessions are values: Go's operations on `*Model` pointers (`Finish`, `SetTag`) return the updated value instead, so aliasing is not modelled.
- The component's pass-throughs `Get` and `GetCurrent` (component.go:170-180), the tray application, the command-line layer (pkg/action, cmd), credentials (pkg/creds), paths (pkg/storage) and the Jira client factory (pkg/jiraf) are not part of this model.
- Error messages and their formatting are not modelled; each error is a constructor of the module's error type.

## Findings

| source | as written | input that shows it | evidently intended | confidence | as-written member | corrected member |
|---|---|---|---|---|---|---|
| pkg/timeline/component.go:198 | `lastSentIndex` starts at 0, so when a submission is refused before any is accepted, the saved remainder `List[lastSentIndex+1:]` drops record 0 | a timeline of one session longer than a minute whose worklog is refused: the file is emptied, though nothing was sent | start at -1, so the refused record and every record after the last accepted one stay in the file | high; not executed | TimelineComponent.AsWrittenDropsRefusedFirstRecord (with TimelineComponent.RemainderAsWritten, TimelineComponent.Component.Publish) | TimelineComponent.Remainder (with TimelineComponent.Component.PublishResumable) |
