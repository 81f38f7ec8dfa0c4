/**
 * The tag resolver (pkg/tag/tag.go): labels a session about to start with
 * one of the configured tags, from the `-t` / `-nt` flags or, failing
 * those, from one line typed at the prompt. The line is a parameter
 * (None when reading it fails); writes to the terminal are left out.
 */
module Tag {
  import opened Wrappers
  import opened TimelineModel

  datatype TagError =
    | ConflictingTagOptions
    | UnknownTag
    | InputUnreadable
    | InputNotANumber
    | TagIndexOutOfRange

  /** Go's `unicode.IsSpace`. */
  predicate IsSpace(c: char) {
    c == '\t' || c == '\n' || c == '\U{0B}' || c == '\U{0C}' || c == '\r' || c == ' '
    || c == '\U{85}' || c == '\U{A0}' || c == '\U{1680}'
    || ('\U{2000}' <= c <= '\U{200A}') || c == '\U{2028}' || c == '\U{2029}'
    || c == '\U{202F}' || c == '\U{205F}' || c == '\U{3000}'
  }

  function TrimLeft(s: string): (r: string)
    ensures |r| <= |s| && r == s[|s| - |r|..]
    ensures |r| > 0 ==> !IsSpace(r[0])
    ensures forall i :: 0 <= i < |s| - |r| ==> IsSpace(s[i])
  {
    if |s| > 0 && IsSpace(s[0]) then TrimLeft(s[1..]) else s
  }

  function TrimRight(s: string): (r: string)
    ensures |r| <= |s| && r == s[..|r|]
    ensures |r| > 0 ==> !IsSpace(r[|r| - 1])
    ensures forall i :: |r| <= i < |s| ==> IsSpace(s[i])
  {
    if |s| > 0 && IsSpace(s[|s| - 1]) then TrimRight(s[..|s| - 1]) else s
  }

  /**
   * Go's `strings.TrimSpace`: the longest infix of `s` that neither starts
   * nor ends with white space, everything around it being white space.
   */
  function TrimSpace(s: string): (r: string)
    ensures |r| <= |s|
    ensures exists k :: TrimmedAt(s, r, k)
    ensures |r| > 0 ==> !IsSpace(r[0]) && !IsSpace(r[|r| - 1])
  {
    var l := TrimLeft(s);
    var r := TrimRight(l);
    TrimBothEnds(s, l, r);
    r
  }

  /** Trimming the left and then the right end of `s` leaves an infix of it. */
  lemma TrimBothEnds(s: string, l: string, r: string)
    requires |l| <= |s| && l == s[|s| - |l|..]
    requires forall i :: 0 <= i < |s| - |l| ==> IsSpace(s[i])
    requires |r| <= |l| && r == l[..|r|]
    requires forall i :: |r| <= i < |l| ==> IsSpace(l[i])
    ensures TrimmedAt(s, r, |s| - |l|)
  {
    var k := |s| - |l|;
    assert r == s[k..k + |r|];
    forall i | k + |r| <= i < |s| ensures IsSpace(s[i]) {
      assert s[i] == l[i - k];
    }
  }

  /** `r` sits in `s` at offset `k` with only white space before and after it. */
  predicate TrimmedAt(s: string, r: string, k: int) {
    && 0 <= k <= |s| - |r|
    && r == s[k..k + |r|]
    && (forall i :: 0 <= i < k ==> IsSpace(s[i]))
    && (forall i :: k + |r| <= i < |s| ==> IsSpace(s[i]))
  }

  predicate IsDigit(c: char) {
    '0' <= c <= '9'
  }

  predicate AllDigits(s: string) {
    forall i :: 0 <= i < |s| ==> IsDigit(s[i])
  }

  /** The value of a string of decimal digits. */
  function DecimalValue(s: string): (n: nat)
    requires AllDigits(s)
  {
    if s == [] then 0 else DecimalValue(s[..|s| - 1]) * 10 + (s[|s| - 1] as int - '0' as int)
  }

  /** Ten to the power `n`. */
  function Pow10(n: nat): (p: nat)
    ensures p >= 1
  {
    if n == 0 then 1 else 10 * Pow10(n - 1)
  }

  /** A string of `n` digits is worth less than ten to the `n`. */
  lemma {:induction false} DecimalValueBound(s: string)
    requires AllDigits(s)
    ensures DecimalValue(s) < Pow10(|s|)
  {
    if s != [] {
      var p := s[..|s| - 1];
      assert AllDigits(p) by {
        forall i | 0 <= i < |p| ensures IsDigit(p[i]) {
          assert p[i] == s[i];
        }
      }
      DecimalValueBound(p);
    }
  }

  const MinInt: int := -0x8000_0000_0000_0000
  const MaxInt: int := 0x7FFF_FFFF_FFFF_FFFF

  /** `s` without one leading sign character. */
  function Digits(s: string): string
  {
    if |s| > 0 && (s[0] == '-' || s[0] == '+') then s[1..] else s
  }

  /** An optional sign followed by at least one decimal digit. */
  predicate IsDecimal(s: string) {
    |s| > 0 && |Digits(s)| > 0 && AllDigits(Digits(s))
  }

  /** The value a decimal text denotes, negative after a '-'. */
  function SignedValue(s: string): int
    requires IsDecimal(s)
  {
    var v: int := DecimalValue(Digits(s));
    if s[0] == '-' then -v else v
  }

  /**
   * Go's `strconv.Atoi` on a 64-bit platform: a text parses exactly when it
   * is an optional sign followed by at least one decimal digit and its value
   * fits an `int`.
   */
  function Atoi(s: string): (r: Option<int>)
    ensures r.Some? <==> IsDecimal(s) && MinInt <= SignedValue(s) <= MaxInt
    ensures r.Some? ==> r.value == SignedValue(s) && MinInt <= r.value <= MaxInt
    ensures |s| == 0 ==> r.None?
  {
    if !IsDecimal(s) then None
    else
      var v := SignedValue(s);
      if MinInt <= v <= MaxInt then Some(v) else None
  }

  /** Every decimal text of at most 18 digits, signed or not, fits an `int` and parses. */
  lemma ShortDecimalsParse(s: string)
    requires IsDecimal(s) && |Digits(s)| <= 18
    ensures Atoi(s).Some?
  {
    DecimalValueBound(Digits(s));
    Pow10Monotone(|Digits(s)|, 18);
    assert Pow10(9) == 1_000_000_000;
    assert Pow10(18) == 1_000_000_000_000_000_000;
  }

  lemma {:induction false} Pow10Monotone(m: nat, n: nat)
    requires m <= n
    ensures Pow10(m) <= Pow10(n)
  {
    if m < n {
      Pow10Monotone(m, n - 1);
    }
  }

  /** The decimal form of `n`, as `%d` prints it. */
  function Itoa(n: nat): (s: string)
    ensures |s| > 0 && AllDigits(s)
  {
    if n < 10 then [('0' as int + n) as char]
    else Itoa(n / 10) + [('0' as int + n % 10) as char]
  }

  lemma {:induction false} DecimalValueItoa(n: nat)
    ensures DecimalValue(Itoa(n)) == n
  {
    if n >= 10 {
      var s := Itoa(n);
      assert s[..|s| - 1] == Itoa(n / 10);
      DecimalValueItoa(n / 10);
    }
  }

  /**
   * Typing back an index the prompt printed, followed by the newline the
   * terminal sends, yields that index.
   */
  lemma PrintedIndexParsesBack(i: nat)
    requires i <= MaxInt
    ensures Atoi(TrimSpace(Itoa(i) + "\n")) == Some(i)
  {
    var s := Itoa(i);
    assert !IsSpace(s[0]);
    assert TrimLeft(s + "\n") == s + "\n";
    assert (s + "\n")[..|s|] == s;
    assert TrimRight(s) == s;
    assert TrimRight(s + "\n") == s;
    DecimalValueItoa(i);
  }

  /** The decimal form of any integer, with a '-' before a negative one, as `%d` prints it. */
  function FormatInt(i: int): string
  {
    if i < 0 then "-" + Itoa(-i) else Itoa(i)
  }

  /** Every value in the 64-bit range printed with `%d` parses back to itself, and a '+' sign is accepted. */
  lemma FormattedIntParsesBack(i: int)
    requires MinInt <= i <= MaxInt
    ensures Atoi(FormatInt(i)) == Some(i)
    ensures i >= 0 ==> Atoi("+" + Itoa(i)) == Some(i)
  {
    if i < 0 {
      NegativeDigits(-i);
    } else {
      UnsignedDigits(i);
    }
  }

  /** A printed non-negative number denotes itself, with or without a '+'. */
  lemma UnsignedDigits(n: nat)
    ensures IsDecimal(Itoa(n)) && SignedValue(Itoa(n)) == n
    ensures IsDecimal("+" + Itoa(n)) && SignedValue("+" + Itoa(n)) == n
  {
    var t := Itoa(n);
    DecimalValueItoa(n);
    assert Digits(t) == t;
    assert ("+" + t)[1..] == t;
  }

  /** The digits of a printed negative number are those of its magnitude. */
  lemma NegativeDigits(n: nat)
    requires n > 0
    ensures IsDecimal("-" + Itoa(n)) && Digits("-" + Itoa(n)) == Itoa(n)
    ensures SignedValue("-" + Itoa(n)) == -(n as int)
  {
    var t := Itoa(n);
    assert ("-" + t)[1..] == t;
    DecimalValueItoa(n);
  }

  /** A value outside the 64-bit range does not parse, however it is printed. */
  lemma OutOfRangeDoesNotParse(i: int)
    requires i < MinInt || i > MaxInt
    ensures Atoi(FormatInt(i)).None?
  {
    if i < 0 {
      NegativeDigits(-i);
    } else {
      UnsignedDigits(i);
    }
  }

  /** The answer "nt" at the prompt is never read as a number. */
  lemma NoTagAnswerIsNotANumber()
    ensures Atoi("nt").None?
  {
    assert !IsDigit("nt"[0]);
  }

  /**
   * Sets `m.tag` from the flags or from the prompt's `line`, given the
   * configured `tags`. Only the tag may change, and it changes only on
   * success.
   */
  method SetTag(tags: seq<string>, tag: string, noTag: bool, m: Session, line: Option<string>) returns (r: Outcome<TagError>, out: Session)
    ensures out.(tag := m.tag) == m
    ensures r.Fail? ==> out == m
    ensures |tags| == 0 ==> r == Pass && out == m
    ensures |tags| > 0 && |tag| > 0 && noTag ==> r == Fail(ConflictingTagOptions)
    ensures |tags| > 0 && |tag| > 0 && !noTag ==>
      (tag in tags ==> r == Pass && out.tag == tag) && (tag !in tags ==> r == Fail(UnknownTag))
    ensures |tags| > 0 && |tag| == 0 && noTag ==> r == Pass && out == m
    ensures |tags| > 0 && |tag| == 0 && !noTag ==>
      if line.None? then r == Fail(InputUnreadable)
      else if TrimSpace(line.value) == "nt" then r == Pass && out == m
      else if Atoi(TrimSpace(line.value)).None? then r == Fail(InputNotANumber)
      else
        var i := Atoi(TrimSpace(line.value)).value;
        if 0 <= i < |tags| then r == Pass && out.tag == tags[i] else r == Fail(TagIndexOutOfRange)
  {
    out := m;
    if |tags| == 0 {
      return Pass, out;
    }
    if |tag| > 0 && noTag {
      return Fail(ConflictingTagOptions), out;
    }
    if |tag| > 0 {
      var hasTag := false;
      var k := 0;
      while k < |tags|
        invariant 0 <= k <= |tags|
        invariant !hasTag ==> tag !in tags[..k]
        invariant hasTag ==> tag in tags
      {
        if tags[k] == tag {
          hasTag := true;
          break;
        }
        assert tags[..k + 1] == tags[..k] + [tags[k]];
        k := k + 1;
      }
      if !hasTag {
        assert tags[..|tags|] == tags;
        return Fail(UnknownTag), out;
      }
      out := out.(tag := tag);
    } else if noTag {
      return Pass, out;
    } else {
      if line.None? {
        return Fail(InputUnreadable), out;
      }
      var text := TrimSpace(line.value);
      if text == "nt" {
        return Pass, out;
      }
      var parsed := Atoi(text);
      if parsed.None? {
        return Fail(InputNotANumber), out;
      }
      var i := parsed.value;
      if i < 0 || i >= |tags| {
        return Fail(TagIndexOutOfRange), out;
      }
      out := out.(tag := tags[i]);
    }
    return Pass, out;
  }

  /** With tags ["infra", "dev"]: `-t ops` is an unknown tag; `-nt` alone leaves the session untagged. */
  method TagScenario(m: Session)
    requires m.tag == ""
  {
    var r, out := SetTag(["infra", "dev"], "ops", false, m, None);
    assert "ops" != "infra" && "ops" != "dev";
    assert r == Fail(UnknownTag);
    r, out := SetTag(["infra", "dev"], "", true, m, None);
    assert r == Pass && out.tag == "";
  }
}
