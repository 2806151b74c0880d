/**
 * The few pieces of Python string behaviour the bot's logic depends on:
 * truthiness of optional strings, `str.strip()`, and decimal rendering
 * of integers inside f-strings.
 */
module Text {
  import opened Wrappers

  /** Python truthiness of an `Optional[str]`: present and non-empty. */
  predicate Truthy(s: Option<string>)
  {
    s.Some? && s.value != ""
  }

  /** Python truthiness of an `Optional[int]`: present and non-zero. */
  predicate TruthyId(n: Option<int>)
  {
    n.Some? && n.value != 0
  }

  /** The characters for which Python's `str.isspace()` holds, i.e. those `str.strip()` removes. */
  predicate IsSpace(c: char)
  {
    c == ' ' || ('\t' <= c <= '\r') || ('\U{1C}' <= c <= '\U{1F}')
    || c == '\U{85}' || c == '\U{A0}' || c == '\U{1680}'
    || ('\U{2000}' <= c <= '\U{200A}') || c == '\U{2028}' || c == '\U{2029}'
    || c == '\U{202F}' || c == '\U{205F}' || c == '\U{3000}'
  }

  predicate AllSpace(s: string)
  {
    forall i :: 0 <= i < |s| ==> IsSpace(s[i])
  }

  /** `s` without its leading whitespace. */
  function TrimStart(s: string): (r: string)
    ensures |r| <= |s| && r == s[|s| - |r|..]
    ensures AllSpace(s[..|s| - |r|])
    ensures r == [] || !IsSpace(r[0])
  {
    if s != [] && IsSpace(s[0]) then
      var r := TrimStart(s[1..]);
      assert s[..|s| - |r|][1..] == s[1..][..|s| - 1 - |r|];
      AllSpaceFront(s[..|s| - |r|]);
      r
    else
      s
  }

  /** `s` without its trailing whitespace. */
  function TrimEnd(s: string): (r: string)
    ensures |r| <= |s| && r == s[..|r|]
    ensures AllSpace(s[|r|..])
    ensures r == [] || !IsSpace(r[|r| - 1])
  {
    if s != [] && IsSpace(s[|s| - 1]) then
      var r := TrimEnd(s[..|s| - 1]);
      assert s[|r|..][..|s| - 1 - |r|] == s[..|s| - 1][|r|..];
      AllSpaceBack(s[|r|..]);
      r
    else
      s
  }

  /**
   * Python's `s.strip()` with no argument: a middle slice of `s` that
   * neither starts nor ends with whitespace, with only whitespace cut away
   * on either side.
   */
  function Strip(s: string): (r: string)
    ensures |r| <= |s|
    ensures r == [] || (!IsSpace(r[0]) && !IsSpace(r[|r| - 1]))
    ensures exists i :: CutsOnlySpace(s, r, i)
  {
    StripSlice(s);
    TrimEnd(TrimStart(s))
  }

  /** Trimming both ends cuts only whitespace and leaves a middle slice. */
  lemma StripSlice(s: string)
    ensures var r := TrimEnd(TrimStart(s));
      (r == [] || (!IsSpace(r[0]) && !IsSpace(r[|r| - 1])))
      && CutsOnlySpace(s, r, |s| - |TrimStart(s)|)
  {
    TrimmedSlice(s, TrimStart(s), TrimEnd(TrimStart(s)));
  }

  /** What the two trims promise, put together: a middle slice with only whitespace cut on either side. */
  lemma TrimmedSlice(s: string, t: string, r: string)
    requires |t| <= |s| && t == s[|s| - |t|..] && AllSpace(s[..|s| - |t|]) && (t == [] || !IsSpace(t[0]))
    requires |r| <= |t| && r == t[..|r|] && AllSpace(t[|r|..]) && (r == [] || !IsSpace(r[|r| - 1]))
    ensures r == [] || (!IsSpace(r[0]) && !IsSpace(r[|r| - 1]))
    ensures CutsOnlySpace(s, r, |s| - |t|)
  {
    var i := |s| - |t|;
    if r != [] {
      assert r[0] == t[0];
    }
    assert r == s[i..i + |r|];
    assert s[i + |r|..] == t[|r|..];
  }

  /** `r` is `s` from index `i` on, with only whitespace before and after it. */
  ghost predicate CutsOnlySpace(s: string, r: string, i: int)
  {
    0 <= i <= |s| - |r| && r == s[i..i + |r|] && AllSpace(s[..i]) && AllSpace(s[i + |r|..])
  }

  lemma AllSpaceFront(s: string)
    requires s != []
    ensures AllSpace(s) <==> IsSpace(s[0]) && AllSpace(s[1..])
  {
    if IsSpace(s[0]) && AllSpace(s[1..]) {
      forall i | 1 <= i < |s| ensures IsSpace(s[i]) {
        assert s[i] == s[1..][i - 1];
      }
    }
  }

  lemma AllSpaceBack(s: string)
    requires s != []
    ensures AllSpace(s) <==> IsSpace(s[|s| - 1]) && AllSpace(s[..|s| - 1])
  {
    if IsSpace(s[|s| - 1]) && AllSpace(s[..|s| - 1]) {
      forall i | 0 <= i < |s| - 1 ensures IsSpace(s[i]) {
        assert s[i] == s[..|s| - 1][i];
      }
    }
  }

  lemma {:induction false} TrimStartEmptyIffAllSpace(s: string)
    ensures TrimStart(s) == [] <==> AllSpace(s)
  {
    if s != [] {
      AllSpaceFront(s);
      if IsSpace(s[0]) {
        TrimStartEmptyIffAllSpace(s[1..]);
      }
    }
  }

  lemma {:induction false} TrimEndEmptyIffAllSpace(s: string)
    ensures TrimEnd(s) == [] <==> AllSpace(s)
  {
    if s != [] {
      AllSpaceBack(s);
      if IsSpace(s[|s| - 1]) {
        TrimEndEmptyIffAllSpace(s[..|s| - 1]);
      }
    }
  }

  /** `s.strip()` is empty exactly when `s` consists of whitespace only. */
  lemma StripEmptyIffAllSpace(s: string)
    ensures Strip(s) == [] <==> AllSpace(s)
  {
    var t := TrimStart(s);
    TrimStartEmptyIffAllSpace(s);
    TrimEndEmptyIffAllSpace(t);
    if t != [] {
      assert !AllSpace(t) by { assert !IsSpace(t[0]); }
    }
  }

  /** Python's `caption and caption.strip()`: a caption with some non-blank character. */
  predicate HasText(caption: Option<string>)
  {
    Truthy(caption) && Strip(caption.value) != ""
  }

  function DigitChar(d: nat): (c: char)
    requires d < 10
    ensures '0' <= c <= '9'
  {
    "0123456789"[d]
  }

  function DigitValue(c: char): nat
  {
    if '0' <= c <= '9' then (c as int - '0' as int) else 0
  }

  /** Decimal digits of `n`, as `f"{n}"` renders a non-negative int. */
  function NatToString(n: nat): (s: string)
    ensures |s| >= 1
    ensures forall i :: 0 <= i < |s| ==> '0' <= s[i] <= '9'
  {
    if n < 10 then [DigitChar(n)] else NatToString(n / 10) + [DigitChar(n % 10)]
  }

  /** `f"{n}"` for any int: a minus sign before the digits of a negative number. */
  function IntToString(n: int): (s: string)
    ensures |s| >= 1
    ensures s[0] == '-' <==> n < 0
    ensures forall i :: (if n < 0 then 1 else 0) <= i < |s| ==> '0' <= s[i] <= '9'
    ensures ParseNat(s[(if n < 0 then 1 else 0)..]) == if n < 0 then -n else n
  {
    if n < 0 then
      SignedDigits(-n);
      "-" + NatToString(-n)
    else
      NatToStringRoundTrip(n);
      assert NatToString(n)[0..] == NatToString(n);
      NatToString(n)
  }

  /** The text of a negative number is a minus sign followed by the digits of its absolute value. */
  lemma SignedDigits(m: nat)
    ensures var s := "-" + NatToString(m);
      s[0] == '-' && s[1..] == NatToString(m) && ParseNat(s[1..]) == m
      && forall i :: 1 <= i < |s| ==> '0' <= s[i] <= '9'
  {
    NatToStringRoundTrip(m);
    var s := "-" + NatToString(m);
    assert s[1..] == NatToString(m);
  }

  /** Distinct ints render as distinct texts. */
  lemma IntToStringInjective(a: int, b: int)
    requires IntToString(a) == IntToString(b)
    ensures a == b
  {
  }

  /** Reads a string of decimal digits back as a number (Python's `int(s)` on digits). */
  function ParseNat(s: string): nat
  {
    if s == [] then 0 else ParseNat(s[..|s| - 1]) * 10 + DigitValue(s[|s| - 1])
  }

  /** Decimal rendering loses nothing: distinct ids give distinct texts. */
  lemma {:induction false} NatToStringRoundTrip(n: nat)
    ensures ParseNat(NatToString(n)) == n
  {
    if n >= 10 {
      var s := NatToString(n);
      NatToStringRoundTrip(n / 10);
      assert s[..|s| - 1] == NatToString(n / 10);
    }
  }
}
