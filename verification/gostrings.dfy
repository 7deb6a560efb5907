/**
 * The parts of Go's `strings` and `strconv` packages the client relies on,
 * over Dafny strings (sequences of Unicode scalar values), together with the
 * bounds of Go's 64-bit integers.
 */
module GoStrings {

  /** Bounds of Go's `int64` (and of `int` on 64-bit platforms). */
  const MinInt64: int := -0x8000_0000_0000_0000
  const MaxInt64: int := 0x7FFF_FFFF_FFFF_FFFF

  predicate InInt64(n: int) {
    MinInt64 <= n <= MaxInt64
  }

  /** strings.HasPrefix */
  predicate HasPrefix(s: string, prefix: string) {
    |prefix| <= |s| && s[..|prefix|] == prefix
  }

  /** strings.HasSuffix */
  predicate HasSuffix(s: string, suffix: string) {
    |suffix| <= |s| && s[|s| - |suffix|..] == suffix
  }

  // ---------------------------------------------------------------------------
  // strings.TrimSpace
  // ---------------------------------------------------------------------------

  /** unicode.IsSpace: the Unicode White_Space property. */
  predicate IsSpace(c: char) {
    var n := c as int;
    || (0x09 <= n <= 0x0D) || n == 0x20 || n == 0x85 || n == 0xA0 || n == 0x1680
    || (0x2000 <= n <= 0x200A) || n == 0x2028 || n == 0x2029 || n == 0x202F
    || n == 0x205F || n == 0x3000
  }

  predicate AllSpace(s: string) {
    forall k :: 0 <= k < |s| ==> IsSpace(s[k])
  }

  /** Drops leading white space. */
  function TrimLeft(s: string): string {
    if |s| > 0 && IsSpace(s[0]) then TrimLeft(s[1..]) else s
  }

  /** Drops trailing white space. */
  function TrimRight(s: string): string {
    if |s| > 0 && IsSpace(s[|s| - 1]) then TrimRight(s[..|s| - 1]) else s
  }

  /** TrimLeft keeps the suffix of `s` that starts at its first non-space. */
  lemma {:induction false} TrimLeftSpec(s: string)
    ensures var r := TrimLeft(s);
      && |r| <= |s| && r == s[|s| - |r|..]
      && AllSpace(s[..|s| - |r|])
      && (r == [] || !IsSpace(r[0]))
  {
    if |s| > 0 && IsSpace(s[0]) {
      TrimLeftSpec(s[1..]);
      var r := TrimLeft(s);
      assert forall k :: 0 < k < |s| - |r| ==> s[k] == s[1..][k - 1];
    }
  }

  /** TrimRight keeps the prefix of `s` that ends at its last non-space. */
  lemma {:induction false} TrimRightSpec(s: string)
    ensures var r := TrimRight(s);
      && |r| <= |s| && r == s[..|r|]
      && AllSpace(s[|r|..])
      && (r == [] || !IsSpace(r[|r| - 1]))
  {
    if |s| > 0 && IsSpace(s[|s| - 1]) {
      var init := s[..|s| - 1];
      TrimRightSpec(init);
      var r := TrimRight(init);
      assert TrimRight(s) == r;
      assert init[..|r|] == s[..|r|];
      forall k | |r| <= k < |s| ensures IsSpace(s[k]) {
        if k < |s| - 1 {
          assert s[k] == init[|r|..][k - |r|];
        }
      }
    }
  }

  /** strings.TrimSpace: the text of `s` between its leading and trailing white space. */
  function TrimSpace(s: string): (r: string)
    ensures r == [] || (!IsSpace(r[0]) && !IsSpace(r[|r| - 1]))
    ensures (s == [] || (!IsSpace(s[0]) && !IsSpace(s[|s| - 1]))) ==> r == s
  {
    TrimLeftSpec(s);
    TrimRightSpec(TrimLeft(s));
    TrimRight(TrimLeft(s))
  }

  /**
   * TrimSpace keeps a slice of `s` with only white space outside it, and that
   * slice neither starts nor ends with white space: it is `s` without its
   * leading and trailing white space.
   */
  lemma TrimSpaceSlice(s: string)
    ensures var r := TrimSpace(s);
      && (exists i, j :: 0 <= i <= j <= |s| && r == s[i..j] && AllSpace(s[..i]) && AllSpace(s[j..]))
      && (r == [] || (!IsSpace(r[0]) && !IsSpace(r[|r| - 1])))
  {
    var left := TrimLeft(s);
    TrimLeftSpec(s);
    TrimRightSpec(left);
    var r := TrimRight(left);
    var i, j := |s| - |left|, |s| - |left| + |r|;
    assert r == s[i..j];
    assert s[j..] == left[|r|..];
  }

  /** Leading white space is dropped by TrimSpace whatever it is. */
  lemma TrimSpaceAfterSpace(sp: string, t: string)
    requires AllSpace(sp)
    ensures TrimSpace(sp + t) == TrimSpace(t)
  {
    TrimLeftAfterSpace(sp, t);
  }

  lemma {:induction false} TrimLeftAfterSpace(sp: string, t: string)
    requires AllSpace(sp)
    ensures TrimLeft(sp + t) == TrimLeft(t)
  {
    if sp != [] {
      var s := sp + t;
      assert s[0] == sp[0] && IsSpace(sp[0]);
      assert s[1..] == sp[1..] + t;
      assert TrimLeft(s) == TrimLeft(s[1..]);
      TrimLeftAfterSpace(sp[1..], t);
    } else {
      assert sp + t == t;
    }
  }

  // ---------------------------------------------------------------------------
  // strings.Split with a one-character separator, and its inverse strings.Join
  // ---------------------------------------------------------------------------

  /** strings.Join(parts, string(sep)) */
  function Join(parts: seq<string>, sep: char): string
    requires |parts| >= 1
  {
    if |parts| == 1 then parts[0] else parts[0] + [sep] + Join(parts[1..], sep)
  }

  /**
   * strings.Split(s, string(sep)): the pieces between separators, so one more
   * piece than there are separators; the empty string splits to [""].
   */
  function Split(s: string, sep: char): (parts: seq<string>)
    ensures |parts| >= 1
  {
    if |s| == 0 then [""]
    else
      var rest := Split(s[1..], sep);
      if s[0] == sep then [""] + rest else [[s[0]] + rest[0]] + rest[1..]
  }

  /** The pieces are separator-free, join back to `s`, and there is one piece exactly when `s` has no separator. */
  lemma SplitSpec(s: string, sep: char)
    ensures var parts := Split(s, sep);
      && (forall i :: 0 <= i < |parts| ==> sep !in parts[i])
      && Join(parts, sep) == s
      && (|parts| == 1 <==> sep !in s)
  {
    SplitPiecesFree(s, sep);
    SplitJoinsBack(s, sep);
  }

  lemma {:induction false} SplitPiecesFree(s: string, sep: char)
    ensures var parts := Split(s, sep);
      && (forall i :: 0 <= i < |parts| ==> sep !in parts[i])
      && (|parts| == 1 <==> sep !in s)
  {
    if |s| > 0 {
      SplitPiecesFree(s[1..], sep);
      var rest := Split(s[1..], sep);
      var parts := Split(s, sep);
      assert s == [s[0]] + s[1..];
      if s[0] != sep {
        assert parts == [[s[0]] + rest[0]] + rest[1..];
        forall i | 0 <= i < |parts| ensures sep !in parts[i] {
          if i > 0 { assert parts[i] == rest[i]; }
        }
      } else {
        assert parts == [""] + rest;
        forall i | 0 <= i < |parts| ensures sep !in parts[i] {
          if i > 0 { assert parts[i] == rest[i - 1]; }
        }
      }
    }
  }

  lemma {:induction false} SplitJoinsBack(s: string, sep: char)
    ensures Join(Split(s, sep), sep) == s
  {
    if |s| > 0 {
      SplitJoinsBack(s[1..], sep);
      var rest := Split(s[1..], sep);
      var parts := Split(s, sep);
      assert s == [s[0]] + s[1..];
      if s[0] != sep {
        assert parts == [[s[0]] + rest[0]] + rest[1..];
        if |rest| == 1 {
          assert Join(parts, sep) == [s[0]] + rest[0];
        } else {
          assert Join(rest, sep) == rest[0] + [sep] + Join(rest[1..], sep);
          assert parts[1..] == rest[1..];
          assert Join(parts, sep) == [s[0]] + rest[0] + [sep] + Join(rest[1..], sep);
        }
      } else {
        assert parts == [""] + rest;
        assert parts[1..] == rest;
      }
    }
  }

  /** Splitting a joined list of separator-free pieces gives the pieces back. */
  lemma {:induction false} SplitJoin(parts: seq<string>, sep: char)
    requires |parts| >= 1
    requires forall i :: 0 <= i < |parts| ==> sep !in parts[i]
    ensures Split(Join(parts, sep), sep) == parts
  {
    if |parts| == 1 {
      SplitNoSeparator(parts[0], sep);
    } else {
      SplitJoin(parts[1..], sep);
      SplitAfterPiece(parts[0], Join(parts[1..], sep), sep);
      assert [parts[0]] + parts[1..] == parts;
    }
  }

  /** A string without the separator is a single piece. */
  lemma SplitNoSeparator(s: string, sep: char)
    requires sep !in s
    ensures Split(s, sep) == [s]
  {
    SplitSpec(s, sep);
  }

  /** A separator-free piece followed by the separator contributes exactly that piece. */
  lemma {:induction false} SplitAfterPiece(a: string, b: string, sep: char)
    requires sep !in a
    ensures Split(a + [sep] + b, sep) == [a] + Split(b, sep)
  {
    if a == [] {
      assert a + [sep] + b == [sep] + b;
      assert ([sep] + b)[1..] == b;
    } else {
      assert (a + [sep] + b)[1..] == a[1..] + [sep] + b;
      SplitAfterPiece(a[1..], b, sep);
      assert [a[0]] + a[1..] == a;
    }
  }

  // ---------------------------------------------------------------------------
  // Decimal text: strconv.Itoa, fmt's %02d, and strconv.ParseInt(s, 10, 64)
  // ---------------------------------------------------------------------------

  predicate IsDigit(c: char) {
    '0' <= c <= '9'
  }

  predicate AllDigits(s: string) {
    forall i :: 0 <= i < |s| ==> IsDigit(s[i])
  }

  function DigitValue(c: char): nat
    requires IsDigit(c)
  {
    (c as int) - ('0' as int)
  }

  function DigitChar(d: nat): (c: char)
    requires d < 10
    ensures IsDigit(c) && DigitValue(c) == d
  {
    (('0' as int) + d) as char
  }

  /** The number a string of decimal digits denotes (leading zeros allowed). */
  function DecimalValue(s: string): nat
    requires AllDigits(s)
  {
    if |s| == 0 then 0 else DecimalValue(s[..|s| - 1]) * 10 + DigitValue(s[|s| - 1])
  }

  /** The decimal digits of `n`, without leading zeros. */
  function NatText(n: nat): (s: string)
    ensures |s| >= 1 && AllDigits(s)
    ensures DecimalValue(s) == n
    ensures s[0] == '0' ==> n == 0 && s == "0"
  {
    if n < 10 then [DigitChar(n)]
    else
      var s := NatText(n / 10) + [DigitChar(n % 10)];
      assert s[..|s| - 1] == NatText(n / 10);
      s
  }

  /** A run of digits as %d writes it: non-empty, and no leading zero unless it is "0". */
  predicate Canonical(d: string) {
    |d| > 0 && AllDigits(d) && (d[0] == '0' ==> |d| == 1)
  }

  /** A canonical run of digits is the %d text of the number it denotes. */
  lemma {:induction false} CanonicalNatText(d: string)
    requires Canonical(d)
    ensures NatText(DecimalValue(d)) == d
    decreases |d|
  {
    var v := DecimalValue(d);
    if |d| == 1 {
      assert d == [d[0]];
      assert DigitChar(DigitValue(d[0])) == d[0];
    } else {
      var init := d[..|d| - 1];
      assert init[0] == d[0];
      CanonicalNatText(init);
      assert init[..1] == d[..1];
      PrefixValueMonotone(init, 1);
      assert DecimalValue(d[..1]) == DigitValue(d[0]);
      assert v == DecimalValue(init) * 10 + DigitValue(d[|d| - 1]);
      assert v / 10 == DecimalValue(init) && v % 10 == DigitValue(d[|d| - 1]);
      assert DigitChar(DigitValue(d[|d| - 1])) == d[|d| - 1];
      assert d == init + [d[|d| - 1]];
    }
  }

  /** strconv.Itoa, also fmt's %d: an optional '-' and the digits of the magnitude. */
  function Itoa(n: int): string {
    if n < 0 then "-" + NatText(-n) else NatText(n)
  }

  /** fmt's %02d: at least two characters, padded with a leading zero; the sign counts toward the width. */
  function ZeroPad2(n: int): string {
    if 0 <= n < 10 then "0" + Itoa(n) else Itoa(n)
  }

  /** What strconv.ParseInt returns: the value (meaningful even on a range error) and whether err == nil. */
  datatype Parsed = Parsed(value: int, ok: bool)

  /** The text after an optional leading '+' or '-'. */
  function Unsigned(s: string): string {
    if |s| > 0 && (s[0] == '+' || s[0] == '-') then s[1..] else s
  }

  predicate Negative(s: string) {
    |s| > 0 && s[0] == '-'
  }

  /** The syntax strconv.ParseInt accepts in base 10: an optional sign and at least one digit. */
  predicate WellFormed(s: string) {
    |Unsigned(s)| > 0 && AllDigits(Unsigned(s))
  }

  /** The integer a well-formed text denotes, before any range check. */
  function SignedValue(s: string): int
    requires WellFormed(s)
  {
    if Negative(s) then -(DecimalValue(Unsigned(s)) as int) else DecimalValue(Unsigned(s))
  }

  /** The nearest int64 to `v`. */
  function Clamp64(v: int): int {
    if v < MinInt64 then MinInt64 else if v > MaxInt64 then MaxInt64 else v
  }

  /** The bound of `uint64`, the accumulator of strconv.ParseUint. */
  const MaxUint64: int := 0xFFFF_FFFF_FFFF_FFFF

  /** Some run of leading digits of `u` already exceeds the uint64 range. */
  ghost predicate OverflowingPrefix(u: string) {
    exists k :: 0 < k <= |u| && AllDigits(u[..k]) && DecimalValue(u[..k]) > MaxUint64
  }

  /**
   * The value strconv.ParseInt(s, 10, 64) returns, by cases: a well-formed
   * text gives its value clamped to int64; otherwise a text whose leading
   * digits overflow gives the bound on the side of its sign (the range error
   * is reported before the later non-digit is reached); anything else gives 0.
   */
  ghost function ParseIntValue(s: string): int {
    if WellFormed(s) then Clamp64(SignedValue(s))
    else if OverflowingPrefix(Unsigned(s)) then (if Negative(s) then MinInt64 else MaxInt64)
    else 0
  }

  /** The outcome of strconv.ParseUint(u, 10, 64). */
  datatype Scan = Scanned(n: nat) | SyntaxError | RangeError

  /**
   * The digit loop of strconv.ParseUint from position `i`, where `n` is the
   * value of `u[..i]`: a non-digit is a syntax error, and the first digit that
   * takes the value past the uint64 range is a range error.
   */
  function ScanFrom(u: string, i: nat, n: nat): Scan
    requires i <= |u|
    decreases |u| - i
  {
    if i == |u| then Scanned(n)
    else if !IsDigit(u[i]) then SyntaxError
    else if n * 10 + DigitValue(u[i]) > MaxUint64 then RangeError
    else ScanFrom(u, i + 1, n * 10 + DigitValue(u[i]))
  }

  /** A longer run of digits never denotes a smaller number. */
  lemma {:induction false} PrefixValueMonotone(s: string, k: nat)
    requires AllDigits(s) && k <= |s|
    ensures AllDigits(s[..k]) && DecimalValue(s[..k]) <= DecimalValue(s)
    decreases |s|
  {
    if k < |s| {
      var init := s[..|s| - 1];
      assert init[..k] == s[..k];
      PrefixValueMonotone(init, k);
    } else {
      assert s[..k] == s;
    }
  }

  /** The loop, started after a prefix that fits, ends as the declarative reading says. */
  lemma {:induction false} ScanFromSpec(u: string, i: nat)
    requires i <= |u| && AllDigits(u[..i]) && DecimalValue(u[..i]) <= MaxUint64
    ensures var r := ScanFrom(u, i, DecimalValue(u[..i]));
      && (r.Scanned? <==> AllDigits(u) && DecimalValue(u) <= MaxUint64)
      && (r.Scanned? ==> r.n == DecimalValue(u))
      && (r.RangeError? <==> OverflowingPrefix(u))
    decreases |u| - i
  {
    var n := DecimalValue(u[..i]);
    if i == |u| {
      assert u[..i] == u;
      forall k | 0 < k <= |u| && AllDigits(u[..k]) ensures DecimalValue(u[..k]) <= MaxUint64 {
        PrefixValueMonotone(u, k);
      }
    } else if !IsDigit(u[i]) {
      forall k | 0 < k <= |u| && AllDigits(u[..k]) ensures DecimalValue(u[..k]) <= MaxUint64 {
        if k <= i {
          assert u[..i][..k] == u[..k];
          PrefixValueMonotone(u[..i], k);
        }
      }
    } else {
      var next := u[..i + 1];
      assert next[..i] == u[..i];
      assert AllDigits(next);
      assert DecimalValue(next) == n * 10 + DigitValue(u[i]);
      if DecimalValue(next) > MaxUint64 {
        if AllDigits(u) {
          PrefixValueMonotone(u, i + 1);
        }
      } else {
        ScanFromSpec(u, i + 1);
      }
    }
  }

  /** strconv.ParseUint(u, 10, 64); the empty text is a syntax error. */
  function ParseUint(u: string): (r: Scan)
    ensures r.Scanned? <==> |u| > 0 && AllDigits(u) && DecimalValue(u) <= MaxUint64
    ensures r.Scanned? ==> r.n == DecimalValue(u)
    ensures r.RangeError? <==> OverflowingPrefix(u)
  {
    if |u| == 0 then SyntaxError
    else
      assert u[..0] == [];
      ScanFromSpec(u, 0);
      ScanFrom(u, 0, 0)
  }

  /**
   * strconv.ParseInt(s, 10, 64): the sign, then ParseUint on the rest, then
   * the int64 range check. strconv.Atoi returns the same value on 64-bit
   * platforms (its fast path for short texts cannot overflow).
   */
  function ParseInt(s: string): (r: Parsed)
    ensures InInt64(r.value)
    ensures r.value == ParseIntValue(s)
    ensures r.ok <==> WellFormed(s) && InInt64(SignedValue(s))
  {
    if |s| == 0 then Parsed(0, false)
    else
      match ParseUint(Unsigned(s))
      case SyntaxError =>
        assert Unsigned(s)[..|Unsigned(s)|] == Unsigned(s);
        Parsed(0, false)
      case RangeError => Parsed(if Negative(s) then MinInt64 else MaxInt64, false)
      case Scanned(n) =>
        if !Negative(s) && n > MaxInt64 then Parsed(MaxInt64, false)
        else if Negative(s) && n > -MinInt64 then Parsed(MinInt64, false)
        else Parsed(if Negative(s) then -(n as int) else n as int, true)
  }

  /** ParseInt inverts Itoa on every int64. */
  lemma ParseItoa(n: int)
    requires InInt64(n)
    ensures ParseInt(Itoa(n)) == Parsed(n, true)
  {
    if n < 0 {
      assert Unsigned(Itoa(n)) == NatText(-n);
    } else {
      assert Unsigned(Itoa(n)) == NatText(n);
    }
  }

  /**
   * Digits that overflow uint64, followed by anything at all: the range error
   * comes first, so the value is the int64 bound on the side of the sign.
   */
  lemma RangeErrorBeforeJunk(digits: string, rest: string)
    requires |digits| > 0 && AllDigits(digits) && DecimalValue(digits) > MaxUint64
    ensures ParseInt(digits + rest) == Parsed(MaxInt64, false)
    ensures ParseInt("-" + digits + rest) == Parsed(MinInt64, false)
  {
    OverflowingDigitsFirst(digits, rest);
    var s := digits + rest;
    assert IsDigit(s[0]);
    PositiveOverflow(s);
    assert "-" + digits + rest == ['-'] + s;
    NegativeOverflow(s);
  }

  lemma PositiveOverflow(s: string)
    requires |s| > 0 && IsDigit(s[0]) && OverflowingPrefix(s)
    ensures ParseInt(s) == Parsed(MaxInt64, false)
  {
    assert Unsigned(s) == s;
    OverflowParsesToBound(s);
  }

  lemma NegativeOverflow(s: string)
    requires OverflowingPrefix(s)
    ensures ParseInt(['-'] + s) == Parsed(MinInt64, false)
  {
    var t := ['-'] + s;
    assert Negative(t) && Unsigned(t) == s;
    OverflowParsesToBound(t);
  }

  lemma OverflowingDigitsFirst(digits: string, rest: string)
    requires |digits| > 0 && AllDigits(digits) && DecimalValue(digits) > MaxUint64
    ensures OverflowingPrefix(digits + rest)
  {
    assert (digits + rest)[..|digits|] == digits;
  }

  /** Leading digits that overflow decide the result, whatever follows them. */
  lemma OverflowParsesToBound(s: string)
    requires OverflowingPrefix(Unsigned(s))
    ensures ParseInt(s) == Parsed(if Negative(s) then MinInt64 else MaxInt64, false)
  {
    assert ParseUint(Unsigned(s)).RangeError?;
  }
}
