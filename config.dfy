/**
 * The configuration record (pkg/config/config.go) and its key/value view:
 * `Set` assigns one field from a `key:value` pair typed by the user, and
 * `AsMap` lists the fields as text. Lists are written comma-separated.
 */
module Config {
  import opened Wrappers

  datatype ConfigError = UnexpectedKey

  const TagsKey: string := "tags"
  const StatusesForStartKey: string := "statusesForStart"
  const AutoChangeStatusToKey: string := "autoChangeStatusTo"

  /** Go's `strings.Split(s, ",")`: the pieces between commas; never empty. */
  function Split(s: string): (parts: seq<string>)
    ensures |parts| >= 1
    ensures forall k :: 0 <= k < |parts| ==> ',' !in parts[k]
  {
    if s == [] then [""]
    else if s[0] == ',' then [""] + Split(s[1..])
    else
      var rest := Split(s[1..]);
      [[s[0]] + rest[0]] + rest[1..]
  }

  /** Go's `strings.Join(parts, ",")`. */
  function Join(parts: seq<string>): (s: string)
    ensures |parts| == 0 ==> s == ""
    ensures |parts| == 1 ==> s == parts[0]
  {
    if |parts| == 0 then ""
    else if |parts| == 1 then parts[0]
    else parts[0] + "," + Join(parts[1..])
  }

  lemma JoinCons(c: char, parts: seq<string>)
    requires |parts| >= 1
    ensures Join([[c] + parts[0]] + parts[1..]) == [c] + Join(parts)
  {
    var ps := [[c] + parts[0]] + parts[1..];
    if |parts| > 1 {
      assert ps[1..] == parts[1..];
    }
  }

  /** Splitting on commas and joining again gives back the text. */
  lemma {:induction false} JoinSplit(s: string)
    ensures Join(Split(s)) == s
  {
    if s != [] {
      JoinSplit(s[1..]);
      var rest := Split(s[1..]);
      if s[0] == ',' {
        assert Split(s) == [""] + rest;
        assert ([""] + rest)[1..] == rest;
        assert Join(Split(s)) == "" + "," + Join(rest);
      } else {
        JoinCons(s[0], rest);
      }
      assert s == [s[0]] + s[1..];
    }
  }

  /** A non-empty list of comma-free elements survives joining and splitting. */
  lemma {:induction false} SplitJoin(parts: seq<string>)
    requires |parts| >= 1
    requires forall k :: 0 <= k < |parts| ==> ',' !in parts[k]
    ensures Split(Join(parts)) == parts
  {
    if |parts| == 1 {
      SplitCommaFree(parts[0]);
    } else {
      SplitJoin(parts[1..]);
      SplitAppend(parts[0], Join(parts[1..]));
      assert parts == [parts[0]] + parts[1..];
    }
  }

  lemma {:induction false} SplitCommaFree(s: string)
    requires ',' !in s
    ensures Split(s) == [s]
  {
    if s != [] {
      assert ',' !in s[1..] by {
        forall k | 0 <= k < |s[1..]| ensures s[1..][k] != ',' {
          assert s[1..][k] == s[k + 1];
        }
      }
      SplitCommaFree(s[1..]);
      assert [s[0]] + s[1..] == s;
    }
  }

  lemma {:induction false} SplitAppend(a: string, b: string)
    requires ',' !in a
    ensures Split(a + "," + b) == [a] + Split(b)
  {
    if a == [] {
      assert a + "," + b == [','] + b;
      assert (a + "," + b)[1..] == b;
    } else {
      var t := a + "," + b;
      assert t[0] == a[0];
      assert t[1..] == a[1..] + "," + b;
      assert ',' !in a[1..] by {
        forall k | 0 <= k < |a[1..]| ensures a[1..][k] != ',' {
          assert a[1..][k] == a[k + 1];
        }
      }
      SplitAppend(a[1..], b);
      assert [a[0]] + a[1..] == a;
    }
  }

  /** The configuration: allowed tags, statuses allowed for start, and the status to move an issue to. */
  class Model {
    var tags: seq<string>
    var statusesForStart: seq<string>
    var autoChangeStatusTo: string

    constructor (tags: seq<string>, statusesForStart: seq<string>, autoChangeStatusTo: string)
      ensures this.tags == tags && this.statusesForStart == statusesForStart
      ensures this.autoChangeStatusTo == autoChangeStatusTo
    {
      this.tags := tags;
      this.statusesForStart := statusesForStart;
      this.autoChangeStatusTo := autoChangeStatusTo;
    }

    /**
     * Assigns the field named `key` from `val` and leaves the other two
     * alone; an unknown key changes nothing. Afterwards, `AsMap` shows
     * `val` back under `key`.
     */
    method Set(key: string, val: string) returns (r: Outcome<ConfigError>)
      modifies this
      ensures key == TagsKey ==>
        r == Pass && tags == Split(val) && statusesForStart == old(statusesForStart) && autoChangeStatusTo == old(autoChangeStatusTo)
      ensures key == StatusesForStartKey ==>
        r == Pass && statusesForStart == Split(val) && tags == old(tags) && autoChangeStatusTo == old(autoChangeStatusTo)
      ensures key == AutoChangeStatusToKey ==>
        r == Pass && autoChangeStatusTo == val && tags == old(tags) && statusesForStart == old(statusesForStart)
      ensures key != TagsKey && key != StatusesForStartKey && key != AutoChangeStatusToKey ==>
        r == Fail(UnexpectedKey) && unchanged(this)
      ensures r.Pass? ==> key in AsMap() && AsMap()[key] == val
    {
      if key == TagsKey {
        tags := Split(val);
        JoinSplit(val);
      } else if key == StatusesForStartKey {
        statusesForStart := Split(val);
        JoinSplit(val);
      } else if key == AutoChangeStatusToKey {
        autoChangeStatusTo := val;
      } else {
        return Fail(UnexpectedKey);
      }
      return Pass;
    }

    /** The three fields as text, lists comma-joined. */
    function AsMap(): (m: map<string, string>)
      reads this
      ensures m.Keys == {TagsKey, StatusesForStartKey, AutoChangeStatusToKey}
      ensures m[TagsKey] == Join(tags) && m[StatusesForStartKey] == Join(statusesForStart)
      ensures m[AutoChangeStatusToKey] == autoChangeStatusTo
    {
      map[TagsKey := Join(tags), StatusesForStartKey := Join(statusesForStart), AutoChangeStatusToKey := autoChangeStatusTo]
    }
  }

  /** Setting the tags to the empty text still configures one (empty) tag. */
  lemma EmptyTagsTextIsOneTag()
    ensures Split("") == [""]
  {
  }
}
