/**
 * 32-bit signed integers as the engine's directory names use them: the unchecked
 * increment of the per-process counter, the decimal text written by Int32.ToString()
 * and the text read back by Int32.TryParse (NumberStyles.Integer, invariant signs).
 */
module Int32Text {
  import opened Wrappers

  const MinInt32: int := -0x8000_0000
  const MaxInt32: int := 0x7FFF_FFFF
  const Modulus: int := 0x1_0000_0000

  predicate IsInt32(n: int) {
    MinInt32 <= n <= MaxInt32
  }

  /** Two's-complement wrap-around of unchecked C# `int` arithmetic. */
  function Wrap32(n: int): (r: int)
    ensures IsInt32(r)
    ensures (n - r) % Modulus == 0
  {
    var k := (n - MinInt32) / Modulus;
    assert n - MinInt32 == k * Modulus + (n - MinInt32) % Modulus;
    (n - MinInt32) % Modulus + MinInt32
  }

  /** Wrapping is determined by the residue: congruent values wrap to the same Int32. */
  lemma Wrap32Congruent(a: int, b: int)
    requires (a - b) % Modulus == 0
    ensures Wrap32(a) == Wrap32(b)
  {
    var ra, rb := Wrap32(a), Wrap32(b);
    var d := ra - rb;
    assert (a - ra) % Modulus == 0 && (b - rb) % Modulus == 0;
    var qa, qb, q := (a - ra) / Modulus, (b - rb) / Modulus, (a - b) / Modulus;
    assert a - ra == qa * Modulus;
    assert b - rb == qb * Modulus;
    assert a - b == q * Modulus;
    assert d == (q - qa + qb) * Modulus;
    assert -Modulus < d < Modulus;
  }

  /** The post-increment `_salt++`: wrapping the successor of a wrapped value. */
  lemma {:induction false} Wrap32Successor(n: int)
    ensures Wrap32(Wrap32(n) + 1) == Wrap32(n + 1)
  {
    var r := Wrap32(n);
    var q := (n - r) / Modulus;
    assert n - r == q * Modulus;
    assert ((n + 1) - (r + 1)) % Modulus == 0;
    Wrap32Congruent(r + 1, n + 1);
  }

  /** The first 2^32 counter values, as Int32: up to MaxInt32 unchanged, then negative. */
  lemma Wrap32OfCount(i: nat)
    requires i < Modulus
    ensures Wrap32(i) == if i <= MaxInt32 then i else i - Modulus
  {
    if i <= MaxInt32 {
      Wrap32Congruent(i, i);
      assert (i - MinInt32) % Modulus == i - MinInt32;
    } else {
      assert (i - MinInt32) % Modulus == i - MinInt32 - Modulus;
    }
  }

  /** Fewer than 2^32 increments from zero never repeat a counter value. */
  lemma Wrap32Distinct(i: nat, j: nat)
    requires i < j < Modulus
    ensures Wrap32(i) != Wrap32(j)
  {
    Wrap32OfCount(i);
    Wrap32OfCount(j);
  }

  predicate IsDigit(c: char) {
    '0' <= c <= '9'
  }

  /** Char.IsWhiteSpace as number parsing uses it: U+0009 to U+000D and U+0020. */
  predicate IsWhite(c: char) {
    c == ' ' || '\t' <= c <= '\r'
  }

  predicate AllDigits(s: string) {
    forall i :: 0 <= i < |s| ==> IsDigit(s[i])
  }

  function DigitChar(d: nat): (c: char)
    requires d < 10
    ensures IsDigit(c) && c as int - '0' as int == d
  {
    ('0' as int + d) as char
  }

  /** Decimal digits of a natural number, most significant first, no leading zeros. */
  function NatToDecimal(n: nat): (s: string)
    ensures |s| > 0 && AllDigits(s)
    decreases n
  {
    if n < 10 then [DigitChar(n)] else NatToDecimal(n / 10) + [DigitChar(n % 10)]
  }

  /** The number a run of decimal digits denotes. */
  function DecimalValue(s: string): nat
    requires AllDigits(s)
  {
    if s == [] then 0 else DecimalValue(s[..|s| - 1]) * 10 + (s[|s| - 1] as int - '0' as int)
  }

  lemma {:induction false} DecimalRoundTrip(n: nat)
    ensures DecimalValue(NatToDecimal(n)) == n
    decreases n
  {
    if n >= 10 {
      var s := NatToDecimal(n);
      assert s[..|s| - 1] == NatToDecimal(n / 10);
      DecimalRoundTrip(n / 10);
    }
  }

  /** Int32.ToString() under the invariant culture. */
  function Int32ToString(n: int): (s: string)
    requires IsInt32(n)
    ensures |s| > 0
    ensures forall i :: 0 <= i < |s| ==> IsDigit(s[i]) || (i == 0 && s[i] == '-')
  {
    if n < 0 then "-" + NatToDecimal(-n) else NatToDecimal(n)
  }

  /** Length of the longest prefix of white space. */
  function WhiteRun(s: string): (k: nat)
    ensures k <= |s|
    ensures forall i :: 0 <= i < k ==> IsWhite(s[i])
    ensures k < |s| ==> !IsWhite(s[k])
  {
    if s == [] || !IsWhite(s[0]) then 0 else 1 + WhiteRun(s[1..])
  }

  /** Length of the longest prefix of decimal digits. */
  function DigitRun(s: string): (k: nat)
    ensures k <= |s|
    ensures forall i :: 0 <= i < k ==> IsDigit(s[i])
    ensures k < |s| ==> !IsDigit(s[k])
  {
    if s == [] || !IsDigit(s[0]) then 0 else 1 + DigitRun(s[1..])
  }

  /** Every character of `s` from position `from` on is NUL. */
  predicate NulsFrom(s: string, from: nat) {
    forall i :: from <= i < |s| ==> s[i] == '\0'
  }

  /**
   * Int32.TryParse(s, out pid): optional leading white space, an optional '+' or '-',
   * one or more digits, optional trailing white space, then only NUL characters; the
   * value must fit in 32 bits.
   */
  function ParseInt32(s: string): (r: Option<int>)
    ensures r.Some? ==> IsInt32(r.value)
  {
    var t := s[WhiteRun(s)..];
    var negative := |t| > 0 && t[0] == '-';
    var u := if |t| > 0 && (t[0] == '-' || t[0] == '+') then t[1..] else t;
    var k := DigitRun(u);
    var rest := u[k..];
    var w := WhiteRun(rest);
    if k == 0 || !NulsFrom(rest, w) then None
    else
      var v: int := if negative then -(DecimalValue(u[..k]) as int) else DecimalValue(u[..k]);
      if IsInt32(v) then Some(v) else None
  }

  /**
   * A character that is neither white space, a sign, a digit nor NUL makes TryParse
   * fail wherever it stands: the name of such a directory is never read as a process id.
   */
  lemma NonNumericRejected(s: string, j: int)
    requires 0 <= j < |s|
    requires !IsWhite(s[j]) && s[j] != '+' && s[j] != '-' && !IsDigit(s[j]) && s[j] != '\0'
    ensures ParseInt32(s) == None
  {
    var a := WhiteRun(s);
    assert a <= j;
    var t := s[a..];
    assert t[j - a] == s[j];
    var u := if |t| > 0 && (t[0] == '-' || t[0] == '+') then t[1..] else t;
    var p := j - a - (|t| - |u|);
    assert 0 <= p < |u| && u[p] == s[j];
    NoDigitOrWhiteRun(u, p);
  }

  /** A character that is no digit, white space or NUL ends the digit run and spoils the tail. */
  lemma NoDigitOrWhiteRun(u: string, p: int)
    requires 0 <= p < |u| && !IsWhite(u[p]) && !IsDigit(u[p]) && u[p] != '\0'
    ensures var k := DigitRun(u);
            var rest := u[k..];
            k == 0 || !NulsFrom(rest, WhiteRun(rest))
  {
    var k := DigitRun(u);
    assert k <= p;
    var rest := u[k..];
    assert rest[p - k] == u[p];
    var w := WhiteRun(rest);
    assert w <= p - k;
  }

  /** What Int32.ToString() writes, Int32.TryParse reads back. */
  lemma ParseInt32RoundTrip(n: int)
    requires IsInt32(n)
    ensures ParseInt32(Int32ToString(n)) == Some(n)
  {
    var s := Int32ToString(n);
    var m: nat := if n < 0 then -n else n;
    var digits := NatToDecimal(m);
    assert WhiteRun(s) == 0;
    assert s[0..] == s;
    var u := if n < 0 then s[1..] else s;
    assert u == digits;
    assert DigitRun(u) == |u|;
    assert u[..|u|] == digits;
    DecimalRoundTrip(m);
  }

  /** Distinct counter values give distinct directory names. */
  lemma Int32ToStringInjective(a: int, b: int)
    requires IsInt32(a) && IsInt32(b)
    requires Int32ToString(a) == Int32ToString(b)
    ensures a == b
  {
    ParseInt32RoundTrip(a);
    ParseInt32RoundTrip(b);
  }
}
