/**
 * The string helpers the bot applies to user input: Python's `str.strip()`,
 * `str.lower()`, `" ".join(...)` and `int(...)`, stated on `seq<char>`.
 */
module Strings {
  import opened Options

  /** The characters Python's `str.isspace()` accepts, which `str.strip()` removes. */
  predicate IsSpace(c: char) {
    || c == ' '
    || '\t' <= c <= '\r'
    || '\U{1C}' <= c <= '\U{1F}'
    || c == '\U{85}' || c == '\U{A0}' || c == '\U{1680}'
    || '\U{2000}' <= c <= '\U{200A}'
    || c == '\U{2028}' || c == '\U{2029}' || c == '\U{202F}' || c == '\U{205F}' || c == '\U{3000}'
  }

  predicate AllSpace(s: string) {
    forall k :: 0 <= k < |s| ==> IsSpace(s[k])
  }

  lemma AllSpaceConcat(a: string, b: string)
    ensures AllSpace(a + b) <==> AllSpace(a) && AllSpace(b)
  {
    if AllSpace(a + b) {
      forall k | 0 <= k < |a| ensures IsSpace(a[k]) {
        assert a[k] == (a + b)[k];
      }
      forall k | 0 <= k < |b| ensures IsSpace(b[k]) {
        assert b[k] == (a + b)[|a| + k];
      }
    }
    if AllSpace(a) && AllSpace(b) {
      forall k | 0 <= k < |a + b| ensures IsSpace((a + b)[k]) {
        if k >= |a| { assert (a + b)[k] == b[k - |a|]; }
      }
    }
  }

  /** The number of whitespace characters at the start of `s`. */
  function LeadingSpaces(s: string): (n: nat)
    ensures n <= |s|
    ensures forall k :: 0 <= k < n ==> IsSpace(s[k])
    ensures n < |s| ==> !IsSpace(s[n])
  {
    if |s| > 0 && IsSpace(s[0]) then 1 + LeadingSpaces(s[1..]) else 0
  }

  /** The number of whitespace characters at the end of `s`. */
  function TrailingSpaces(s: string): (n: nat)
    ensures n <= |s|
    ensures forall k :: |s| - n <= k < |s| ==> IsSpace(s[k])
    ensures n < |s| ==> !IsSpace(s[|s| - 1 - n])
  {
    if |s| > 0 && IsSpace(s[|s| - 1]) then 1 + TrailingSpaces(s[..|s| - 1]) else 0
  }

  /**
   * Python's `s.strip()`: the slice of `s` left after removing the whitespace
   * at both ends. It is empty exactly when `s` is all whitespace.
   */
  function Strip(s: string): (r: string)
    ensures LeadingSpaces(s) + |r| <= |s|
    ensures r == s[LeadingSpaces(s)..LeadingSpaces(s) + |r|]
    ensures forall k :: LeadingSpaces(s) + |r| <= k < |s| ==> IsSpace(s[k])
    ensures r == [] || (!IsSpace(r[0]) && !IsSpace(r[|r| - 1]))
    ensures r == [] <==> AllSpace(s)
  {
    var rest := s[LeadingSpaces(s)..];
    var r := rest[..|rest| - TrailingSpaces(rest)];
    assert r == [] ==> AllSpace(rest);
    r
  }

  /** A slice with whitespace-only margins and non-whitespace edges is what `Strip` returns. */
  lemma StripUnique(s: string, i: nat, j: nat)
    requires i <= j <= |s|
    requires forall k :: 0 <= k < i ==> IsSpace(s[k])
    requires forall k :: j <= k < |s| ==> IsSpace(s[k])
    requires i < j ==> !IsSpace(s[i]) && !IsSpace(s[j - 1])
    ensures Strip(s) == s[i..j]
  {
    var r := Strip(s);
    var lead := LeadingSpaces(s);
    if i == j {
      assert AllSpace(s);
    } else {
      assert lead == i;
    }
  }

  lemma StripIdempotent(s: string)
    ensures Strip(Strip(s)) == Strip(s)
  {
    StripKeepsUnpadded(Strip(s));
  }

  /** A string that neither starts nor ends with whitespace is its own `strip()`. */
  lemma StripKeepsUnpadded(s: string)
    requires s == [] || (!IsSpace(s[0]) && !IsSpace(s[|s| - 1]))
    ensures Strip(s) == s
  {
    assert LeadingSpaces(s) == 0;
    assert s[0..] == s;
    assert TrailingSpaces(s) == 0;
    assert s[..|s|] == s;
  }

  /** Whitespace around `s` does not change what `Strip` returns. */
  lemma StripIgnoresPadding(p: string, s: string, q: string)
    requires AllSpace(p) && AllSpace(q)
    ensures Strip(p + s + q) == Strip(s)
  {
    StripPadRight(p + s, q);
    StripPadLeft(p, s);
  }

  /** Whitespace before `s` does not change what `Strip` returns. */
  lemma StripPadLeft(p: string, s: string)
    requires AllSpace(p)
    ensures Strip(p + s) == Strip(s)
  {
    LeadingPad(p, s);
    assert (p + s)[|p| + LeadingSpaces(s)..] == s[LeadingSpaces(s)..];
  }

  /** Whitespace before `s` lengthens its leading whitespace by as much. */
  lemma {:induction false} LeadingPad(p: string, s: string)
    requires AllSpace(p)
    ensures LeadingSpaces(p + s) == |p| + LeadingSpaces(s)
  {
    if p == [] {
      assert p + s == s;
    } else {
      assert (p + s)[0] == p[0];
      assert (p + s)[1..] == p[1..] + s;
      LeadingPad(p[1..], s);
    }
  }

  /** Whitespace after `s` does not change what `Strip` returns. */
  lemma StripPadRight(s: string, q: string)
    requires AllSpace(q)
    ensures Strip(s + q) == Strip(s)
  {
    var lead := LeadingSpaces(s);
    var r := Strip(s);
    var t := s + q;
    var i, j := lead, lead + |r|;
    assert t[..|s|] == s;
    assert t[i..j] == r by {
      assert t[i..j] == t[..|s|][lead..lead + |r|];
    }
    forall k | 0 <= k < i ensures IsSpace(t[k]) {
      assert t[k] == s[k];
    }
    forall k | j <= k < |t| ensures IsSpace(t[k]) {
      if k < |s| { assert t[k] == s[k]; } else { assert t[k] == q[k - |s|]; }
    }
    StripUnique(t, i, j);
  }

  /**
   * Python's `str.lower()` on one character, for ASCII and the basic Cyrillic
   * block (U+0400-U+042F), which covers the location names and Telegram usernames.
   */
  function LowerChar(c: char): char {
    if 'A' <= c <= 'Z' || '\U{0410}' <= c <= '\U{042F}' then (c as int + 32) as char
    else if '\U{0400}' <= c <= '\U{040F}' then (c as int + 80) as char
    else c
  }

  /** Python's `s.lower()`: as long as `s`, whitespace where `s` has it, and nothing left to lower-case. */
  function Lower(s: string): (r: string)
    ensures |r| == |s|
    ensures forall k :: 0 <= k < |s| ==> (IsSpace(r[k]) <==> IsSpace(s[k]))
    ensures forall k :: 0 <= k < |r| ==> LowerChar(r[k]) == r[k]
  {
    seq(|s|, k requires 0 <= k < |s| => LowerChar(s[k]))
  }

  lemma LowerIdempotent(s: string)
    ensures Lower(Lower(s)) == Lower(s)
  {
  }

  /** Lower-casing commutes with stripping, because it maps whitespace to whitespace and nothing else to it. */
  lemma StripLower(s: string)
    ensures Strip(Lower(s)) == Lower(Strip(s))
  {
    var t := Lower(s);
    var lead := LeadingSpaces(s);
    var r := Strip(s);
    var i, j := lead, lead + |r|;
    if i < j {
      assert s[i] == r[0] && s[j - 1] == r[|r| - 1];
    }
    StripUnique(t, i, j);
    LowerSlice(s, i, j);
  }

  lemma LowerSlice(s: string, i: nat, j: nat)
    requires i <= j <= |s|
    ensures Lower(s)[i..j] == Lower(s[i..j])
  {
  }

  /**
   * Python's `s.strip().lower()`, the form in which a guess and the location
   * are compared: empty exactly for an all-whitespace string, never longer,
   * and never starting or ending with whitespace.
   */
  function Normalise(s: string): (r: string)
    ensures r == [] <==> AllSpace(s)
    ensures |r| <= |s|
    ensures r == [] || (!IsSpace(r[0]) && !IsSpace(r[|r| - 1]))
  {
    Lower(Strip(s))
  }

  lemma NormaliseIdempotent(s: string)
    ensures Normalise(Normalise(s)) == Normalise(s)
  {
    StripLower(Strip(s));
    StripIdempotent(s);
    LowerIdempotent(Strip(s));
  }

  lemma NormaliseIgnoresPadding(p: string, s: string, q: string)
    requires AllSpace(p) && AllSpace(q)
    ensures Normalise(p + s + q) == Normalise(s)
  {
    StripIgnoresPadding(p, s, q);
  }

  lemma NormaliseIgnoresCase(s: string, t: string)
    requires Lower(s) == Lower(t)
    ensures Normalise(s) == Normalise(t)
  {
    StripLower(s);
    StripLower(t);
  }

  /** Python's `sep.join(parts)`: empty for no parts, otherwise starting with the first part. */
  function Join(sep: string, parts: seq<string>): (r: string)
    ensures parts == [] ==> r == ""
    ensures parts != [] ==> parts[0] <= r
  {
    if |parts| == 0 then ""
    else if |parts| == 1 then parts[0]
    else parts[0] + sep + Join(sep, parts[1..])
  }

  /** A join ends with its last part. */
  lemma {:induction false} JoinEndsWithLast(sep: string, parts: seq<string>)
    requires parts != []
    ensures var r, last := Join(sep, parts), parts[|parts| - 1]; |last| <= |r| && r[|r| - |last|..] == last
  {
    if |parts| > 1 {
      JoinEndsWithLast(sep, parts[1..]);
      assert parts[1..][|parts[1..]| - 1] == parts[|parts| - 1];
    }
  }

  /** Joining one more part appends the separator and that part, so parts keep their order. */
  lemma {:induction false} JoinAppend(sep: string, parts: seq<string>, x: string)
    requires parts != []
    ensures Join(sep, parts + [x]) == Join(sep, parts) + sep + x
  {
    if |parts| > 1 {
      assert (parts + [x])[1..] == parts[1..] + [x];
      JoinAppend(sep, parts[1..], x);
    } else {
      assert (parts + [x])[1..] == [x];
    }
  }

  /** Joined with a whitespace separator, the result is all whitespace iff every part is. */
  lemma {:induction false} JoinAllSpace(sep: string, parts: seq<string>)
    requires AllSpace(sep)
    ensures AllSpace(Join(sep, parts)) <==> forall i :: 0 <= i < |parts| ==> AllSpace(parts[i])
  {
    if |parts| > 1 {
      JoinAllSpace(sep, parts[1..]);
      AllSpaceConcat(parts[0], sep);
      AllSpaceConcat(parts[0] + sep, Join(sep, parts[1..]));
      assert forall i :: 1 <= i < |parts| ==> parts[i] == parts[1..][i - 1];
    }
  }

  /** `" ".join(args).strip()` is empty exactly when every argument is whitespace. */
  lemma JoinedBlankIff(args: seq<string>)
    ensures Strip(Join(" ", args)) == [] <==> forall i :: 0 <= i < |args| ==> AllSpace(args[i])
  {
    JoinAllSpace(" ", args);
  }

  predicate IsDigit(c: char) {
    '0' <= c <= '9'
  }

  predicate AllDigits(s: string) {
    forall k :: 0 <= k < |s| ==> IsDigit(s[k])
  }

  /** The value of a string of decimal digits, most significant first. */
  function DigitsValue(s: string): nat
    requires AllDigits(s)
  {
    if s == [] then 0 else 10 * DigitsValue(s[..|s| - 1]) + (s[|s| - 1] as int - '0' as int)
  }

  /**
   * Python's `int(s)` on a string: surrounding whitespace, an optional sign
   * and at least one ASCII digit; anything else raises `ValueError`, here `None`.
   */
  function ParseInt(s: string): (r: Option<int>)
    ensures r.Some? ==> var t := Strip(s);
      && |t| > 0 && (IsDigit(t[0]) || t[0] == '+' || t[0] == '-') && AllDigits(t[1..])
    ensures r.Some? && r.value < 0 ==> Strip(s)[0] == '-'
  {
    var t := Strip(s);
    if |t| > 0 && (t[0] == '+' || t[0] == '-') then
      if |t| > 1 && AllDigits(t[1..]) then
        var v: int := DigitsValue(t[1..]);
        Some(if t[0] == '-' then -v else v)
      else None
    else if |t| > 0 && AllDigits(t) then Some(DigitsValue(t))
    else None
  }

  function DigitChar(d: nat): char
    requires d < 10
  {
    ('0' as int + d) as char
  }

  /** The decimal form of `n`, as Python's `str(n)` writes it. */
  function DecimalNat(n: nat): string {
    if n < 10 then [DigitChar(n)] else DecimalNat(n / 10) + [DigitChar(n % 10)]
  }

  function Decimal(n: int): string {
    if n < 0 then "-" + DecimalNat(-n) else DecimalNat(n)
  }

  lemma {:induction false} DecimalNatDigits(n: nat)
    ensures |DecimalNat(n)| > 0 && AllDigits(DecimalNat(n)) && DigitsValue(DecimalNat(n)) == n
  {
    if n >= 10 {
      DecimalNatDigits(n / 10);
      var s := DecimalNat(n);
      assert s[..|s| - 1] == DecimalNat(n / 10);
    }
  }

  /** Parsing the decimal form of an id gives the id back. */
  lemma ParseDecimal(n: int)
    ensures ParseInt(Decimal(n)) == Some(n)
  {
    if n < 0 {
      ParseNegative(-n);
      assert Decimal(n) == "-" + DecimalNat(-n);
    } else {
      ParseNonNegative(n);
      assert Decimal(n) == DecimalNat(n);
    }
  }

  lemma ParseNonNegative(n: nat)
    ensures ParseInt(DecimalNat(n)) == Some(n)
  {
    var d := DecimalNat(n);
    DecimalNatDigits(n);
    assert IsDigit(d[0]) && IsDigit(d[|d| - 1]);
    StripKeepsUnpadded(d);
  }

  lemma ParseNegative(m: nat)
    requires m > 0
    ensures ParseInt("-" + DecimalNat(m)) == Some(-(m as int))
  {
    var digits := DecimalNat(m);
    var d := "-" + digits;
    DecimalNatDigits(m);
    assert d[0] == '-' && d[|d| - 1] == digits[|digits| - 1];
    assert IsDigit(digits[|digits| - 1]);
    StripKeepsUnpadded(d);
    assert d[1..] == digits;
    assert |d| > 1 && AllDigits(d[1..]) && DigitsValue(d[1..]) == m;
  }
}
