/** The two `strconv` calls of the cookie codec: `FormatInt(n, 10)` for the
    timestamp it writes and `ParseInt(s, 0, 64)` for the timestamp it reads.
    Base 0 lets the text choose its base: a `0b`, `0o` or `0x` prefix, a bare
    leading `0` for octal, decimal otherwise; `_` may separate digits. */
module Strconv {
  import opened GoBytes

  const MaxInt64: int := 0x7FFF_FFFF_FFFF_FFFF
  const MinInt64: int := -0x8000_0000_0000_0000
  const MaxUint64: int := 0xFFFF_FFFF_FFFF_FFFF

  /** Go's `int64`. */
  type Int64 = x: int | MinInt64 <= x <= MaxInt64

  /** Two's-complement wrap-around of an `int64` result. */
  function Wrap64(x: int): (r: Int64)
    ensures MinInt64 <= x <= MaxInt64 ==> r == x
  {
    (x - MinInt64) % (MaxUint64 + 1) + MinInt64
  }

  function DecDigit(v: nat): (c: byte)
    requires v < 10
  {
    ByteOf('0' as int + v)
  }

  predicate IsDecDigit(c: byte)
  {
    '0' <= c <= '9'
  }

  /** Decimal digits of `n`, most significant first, without leading zeros. */
  function FormatNat(n: nat): (s: Bytes)
    ensures |s| >= 1
    ensures forall i :: 0 <= i < |s| ==> IsDecDigit(s[i])
    ensures s[0] == '0' ==> n == 0
  {
    if n < 10 then [DecDigit(n)] else FormatNat(n / 10) + [DecDigit(n % 10)]
  }

  /** `strconv.FormatInt(n, 10)`. */
  function FormatInt(n: int): (s: Bytes)
  {
    if n < 0 then ['-'] + FormatNat(-n) else FormatNat(n)
  }

  /** The error part of `ParseInt`'s result. */
  datatype NumError = NoError | ErrSyntax | ErrRange

  /** What `ParseInt` returns: the value (0 on a syntax error, the nearest
      `int64` bound on a range error) and the error. */
  datatype Parsed = Parsed(value: Int64, err: NumError)

  /** Go's `lower`: sets bit 5, which maps `A`-`Z` onto `a`-`z`. */
  function Lower(c: byte): (l: int)
  {
    if (c as int / 32) % 2 == 0 then c as int + 32 else c as int
  }

  /** The digit value of `c` in bases up to 36, or None for other bytes. */
  function DigitOf(c: byte): (d: Option<nat>)
  {
    if '0' <= c <= '9' then Some(c as int - '0' as int)
    else if 'a' as int <= Lower(c) <= 'z' as int then Some(Lower(c) - 'a' as int + 10)
    else None
  }

  /** The outcome of scanning the digits of `ParseUint`. */
  datatype Scan = Done(n: nat, underscores: bool) | BadDigit | Overflow

  /** The digit loop of `ParseUint` from index `i` with the value `n` so far:
      `_` is skipped and remembered, a byte that is no digit of `base` is a
      syntax error, and a value past the `uint64` range stops the scan at once
      with a range error. */
  function ScanDigits(s: Bytes, base: nat, i: nat, n: nat, underscores: bool): (r: Scan)
    requires i <= |s| && n <= MaxUint64
    ensures r.Done? ==> r.n <= MaxUint64
    decreases |s| - i
  {
    if i == |s| then Done(n, underscores)
    else if s[i] == '_' then ScanDigits(s, base, i + 1, n, true)
    else match DigitOf(s[i])
      case None => BadDigit
      case Some(d) =>
        if d >= base then BadDigit
        else if n * base + d > MaxUint64 then Overflow
        else ScanDigits(s, base, i + 1, n * base + d, underscores)
  }

  /** Where the last byte seen by `underscoreOK` stands. */
  datatype Saw = Start | Digit | Underscore | Other

  /** The loop of `underscoreOK` from index `i`. */
  function UnderscoreScan(s: Bytes, i: nat, saw: Saw, hex: bool): bool
    requires i <= |s|
    decreases |s| - i
  {
    if i == |s| then saw != Underscore
    else if IsDecDigit(s[i]) || (hex && 'a' as int <= Lower(s[i]) <= 'f' as int) then
      UnderscoreScan(s, i + 1, Digit, hex)
    else if s[i] == '_' then
      saw == Digit && UnderscoreScan(s, i + 1, Underscore, hex)
    else
      saw != Underscore && UnderscoreScan(s, i + 1, Other, hex)
  }

  /** `underscoreOK`: every `_` sits between digits, or between a base prefix
      and a digit. */
  function UnderscoreOK(s: Bytes): bool
  {
    var t := if |s| >= 1 && (s[0] == '-' || s[0] == '+') then s[1..] else s;
    var prefixed := |t| >= 2 && t[0] == '0' &&
      (Lower(t[1]) == 'b' as int || Lower(t[1]) == 'o' as int || Lower(t[1]) == 'x' as int);
    if prefixed then UnderscoreScan(t, 2, Digit, Lower(t[1]) == 'x' as int)
    else UnderscoreScan(t, 0, Start, false)
  }

  /** The base base 0 picks for `s` and where its digits start. */
  function BaseOf(s: Bytes): (r: (nat, nat))
    requires |s| > 0
    ensures 2 <= r.0 <= 16 && r.1 <= |s|
  {
    if s[0] != '0' then (10, 0)
    else if |s| >= 3 && Lower(s[1]) == 'b' as int then (2, 2)
    else if |s| >= 3 && Lower(s[1]) == 'o' as int then (8, 2)
    else if |s| >= 3 && Lower(s[1]) == 'x' as int then (16, 2)
    else (8, 1)
  }

  /** `strconv.ParseUint(s, 0, 64)`: the value and the error. */
  function ParseUint(s: Bytes): (r: (nat, NumError))
    ensures r.0 <= MaxUint64
    ensures r.1 == ErrRange ==> r.0 == MaxUint64
    ensures r.1 == ErrSyntax ==> r.0 == 0
  {
    if s == [] then (0, ErrSyntax)
    else
      var (base, start) := BaseOf(s);
      match ScanDigits(s, base, start, 0, false)
      case BadDigit => (0, ErrSyntax)
      case Overflow => (MaxUint64, ErrRange)
      case Done(n, underscores) =>
        if underscores && !UnderscoreOK(s) then (0, ErrSyntax) else (n, NoError)
  }

  /** `strconv.ParseInt(s, 0, 64)`: an optional sign, then `ParseUint`; a
      magnitude outside `int64` gives the nearest bound with a range error. */
  function ParseInt(s: Bytes): (r: Parsed)
    ensures r.err == ErrSyntax ==> r.value == 0
  {
    if s == [] then Parsed(0, ErrSyntax)
    else
      var neg := s[0] == '-';
      var digits := if s[0] == '+' || s[0] == '-' then s[1..] else s;
      var (un, err) := ParseUint(digits);
      if err == ErrSyntax then Parsed(0, ErrSyntax)
      else if !neg && un > MaxInt64 then Parsed(MaxInt64, ErrRange)
      else if neg && un > -MinInt64 then Parsed(MinInt64, ErrRange)
      else
        var v: int := if neg then 0 - un else un;
        Parsed(v, NoError)
  }

  /** The value of a string of decimal digits. */
  function DecValue(s: Bytes): (v: nat)
    requires forall i :: 0 <= i < |s| ==> IsDecDigit(s[i])
  {
    if s == [] then 0
    else
      assert IsDecDigit(s[|s| - 1]);
      DecValue(s[..|s| - 1]) * 10 + (s[|s| - 1] as int - '0' as int)
  }

  lemma {:induction false} DecValueFormat(n: nat)
    ensures DecValue(FormatNat(n)) == n
  {
    if n >= 10 {
      var s := FormatNat(n);
      DecValueFormat(n / 10);
      assert s[..|s| - 1] == FormatNat(n / 10);
    }
  }

  /** A prefix of a digit string has no larger value. */
  lemma {:induction false} DecValuePrefix(s: Bytes, i: nat)
    requires forall k :: 0 <= k < |s| ==> IsDecDigit(s[k])
    requires i <= |s|
    ensures DecValue(s[..i]) <= DecValue(s)
    decreases |s| - i
  {
    if i < |s| {
      DecValuePrefix(s, i + 1);
      assert s[..i + 1][..i] == s[..i];
    } else {
      assert s[..i] == s;
    }
  }

  /** Scanning decimal digits whose value fits in `uint64` yields that value. */
  lemma {:induction false} ScanDecimal(s: Bytes, i: nat)
    requires forall k :: 0 <= k < |s| ==> IsDecDigit(s[k])
    requires DecValue(s) <= MaxUint64
    requires i <= |s| && DecValue(s[..i]) <= MaxUint64
    ensures ScanDigits(s, 10, i, DecValue(s[..i]), false) == Done(DecValue(s), false)
    decreases |s| - i
  {
    if i == |s| {
      assert s[..i] == s;
    } else {
      var d := s[i] as int - '0' as int;
      assert s[..i + 1][..i] == s[..i];
      assert DecValue(s[..i + 1]) == DecValue(s[..i]) * 10 + d;
      DecValuePrefix(s, i + 1);
      ScanDecimal(s, i + 1);
    }
  }

  /** The digits of `FormatNat(n)`, for n up to 2^64 - 1, parse back to n. */
  lemma ParseUintFormat(n: nat)
    requires n <= MaxUint64
    ensures ParseUint(FormatNat(n)) == (n, NoError)
  {
    var s := FormatNat(n);
    DecValueFormat(n);
    if s[0] == '0' {
      assert n == 0 && s == ['0'];
      assert BaseOf(s) == (8, 1);
    } else {
      assert BaseOf(s) == (10, 0);
      ScanDecimal(s, 0);
      assert s[..0] == [];
    }
  }

  /** Decimal text of an `int64` parses back to the same number: the
      timestamp the writer formats is the one the reader recovers. */
  lemma ParseFormat(n: Int64)
    ensures ParseInt(FormatInt(n)) == Parsed(n, NoError)
  {
    var s := FormatInt(n);
    if n < 0 {
      var m: nat := 0 - n;
      ParseUintFormat(m);
      assert s[1..] == FormatNat(m);
    } else {
      ParseUintFormat(n);
    }
  }

  /** Text that starts with a byte which is no decimal digit, sign or `_`
      is a syntax error, and the value `ParseInt` hands back is 0. A leading
      `_` is excluded because the digit loop skips it; such text can still
      overflow and give a range error instead. */
  lemma NonNumericParsesToZero(s: Bytes)
    requires |s| > 0 && !IsDecDigit(s[0]) && s[0] != '+' && s[0] != '-' && s[0] != '_'
    ensures ParseInt(s) == Parsed(0, ErrSyntax)
  {
    assert BaseOf(s) == (10, 0);
    assert ScanDigits(s, 10, 0, 0, false) == BadDigit;
  }

  /** Decimal text never holds the cookie separator `|`. */
  lemma FormatPipeFree(n: int)
    ensures PipeFree(FormatInt(n))
  {
    var s := FormatInt(n);
    var m := if n < 0 then -n else n;
    forall i | 0 <= i < |s| ensures s[i] != Pipe {
      if n < 0 && i > 0 {
        assert s[i] == FormatNat(m)[i - 1];
      }
    }
  }
}
