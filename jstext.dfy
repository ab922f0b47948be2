/**
 * The pieces of the JavaScript runtime that the codec leans on, stated exactly:
 * `Number.prototype.toString(16)` and `String(n)` on non-negative integers,
 * `Number.parseInt(s, 16)` on a string of hex digits, `String.prototype.substr`
 * and `String.prototype.substring`.  Integers are exact here; JavaScript
 * numbers are exact only below 2^53 (`MaxSafe`): `parseInt` rounds a larger value, so
 * every lemma that states what the program itself would compute bounds the values involved.
 */
module JsText {

  import opened Wrappers

  /** The largest range in which a JavaScript number holds every integer. */
  const MaxSafe: nat := 0x20_0000_0000_0000

  predicate IsHexDigit(c: char) {
    '0' <= c <= '9' || 'a' <= c <= 'f' || 'A' <= c <= 'F'
  }

  predicate IsLowerHexDigit(c: char) {
    '0' <= c <= '9' || 'a' <= c <= 'f'
  }

  /** Every character is one that `parseInt(_, 16)` accepts as a digit. */
  predicate AllHex(s: string) {
    forall k :: 0 <= k < |s| ==> IsHexDigit(s[k])
  }

  /** Every character is a lower-case hex digit, the only digits `toString(16)` produces. */
  predicate LowerHex(s: string) {
    forall k :: 0 <= k < |s| ==> IsLowerHexDigit(s[k])
  }

  function DigitValue(c: char): (d: nat)
    requires IsHexDigit(c)
    ensures d < 16
  {
    if '0' <= c <= '9' then c as int - '0' as int
    else if 'a' <= c <= 'f' then c as int - 'a' as int + 10
    else c as int - 'A' as int + 10
  }

  function LowerDigit(d: nat): (c: char)
    requires d < 16
    ensures IsLowerHexDigit(c) && DigitValue(c) == d
  {
    if d < 10 then ('0' as int + d) as char else ('a' as int + d - 10) as char
  }

  function Pow16(n: nat): (p: nat)
    ensures p >= 1
  {
    if n == 0 then 1 else 16 * Pow16(n - 1)
  }

  /** `k` copies of the character '0'. */
  function Zeros(k: nat): (z: string)
    ensures |z| == k && LowerHex(z)
  {
    seq(k, _ => '0')
  }

  /** The number a string of hex digits denotes, most significant digit first:
      what `Number.parseInt(s, 16)` returns for a non-empty such string. */
  function HexValue(s: string): nat
    requires AllHex(s)
  {
    if s == [] then 0 else 16 * HexValue(s[..|s| - 1]) + DigitValue(s[|s| - 1])
  }

  /** `Number.parseInt(s, 16)` on a string made only of hex digits; None stands for NaN
      (the empty string).  Other strings are outside this model. */
  function ParseHex(s: string): (r: Option<nat>)
    ensures r.Some? <==> s != [] && AllHex(s)
  {
    if s != [] && AllHex(s) then Some(HexValue(s)) else None
  }

  /** `n.toString(16)`: lower-case digits, no leading zeros, "0" for zero. */
  function HexText(n: nat): string
  {
    if n < 16 then [LowerDigit(n)] else HexText(n / 16) + [LowerDigit(n % 16)]
  }

  /** `Array.prototype.indexOf(x)`: the first position holding x, or -1. */
  function IndexOf<T(==)>(xs: seq<T>, x: T): (k: int)
    ensures -1 <= k < |xs|
    ensures k >= 0 ==> xs[k] == x && x !in xs[..k]
    ensures k == -1 <==> x !in xs
  {
    if xs == [] then -1
    else if xs[0] == x then 0
    else var k := IndexOf(xs[1..], x); if k == -1 then -1 else k + 1
  }

  /** `String(n)`: the decimal digits of n, no leading zeros. */
  function Decimal(n: nat): string
  {
    if n < 10 then [('0' as int + n) as char] else Decimal(n / 10) + [('0' as int + n % 10) as char]
  }

  predicate IsDecimalDigit(c: char) {
    '0' <= c <= '9'
  }

  function DecimalValue(s: string): nat
    requires forall k :: 0 <= k < |s| ==> IsDecimalDigit(s[k])
  {
    if s == [] then 0
    else
      assert IsDecimalDigit(s[|s| - 1]);
      10 * DecimalValue(s[..|s| - 1]) + (s[|s| - 1] as int - '0' as int)
  }

  /** `s.substr(start)` for a start that may be negative (counted from the end, clamped at 0). */
  function SubstrFrom(s: string, start: int): (r: string)
    ensures |r| <= |s|
  {
    if start < 0 then (if |s| + start < 0 then s else s[|s| + start..])
    else if start > |s| then "" else s[start..]
  }

  /** `s.substr(start, count)` for a non-negative start and count. */
  function Substr(s: string, start: nat, count: nat): (r: string)
    ensures start + count <= |s| ==> r == s[start..start + count]
    ensures |r| <= count
  {
    var lo := if start < |s| then start else |s|;
    var hi := if start + count < |s| then start + count else |s|;
    s[lo..hi]
  }

  /** `s.substring(a, b)`: both ends clamped into the string, swapped when a > b. */
  function Substring(s: string, a: nat, b: nat): (r: string)
    ensures a <= b <= |s| ==> r == s[a..b]
  {
    var x := if a < |s| then a else |s|;
    var y := if b < |s| then b else |s|;
    if x <= y then s[x..y] else s[y..x]
  }

  // ---------------------------------------------------------------------------
  // Facts about the digit strings.

  lemma {:induction false} HexValueAppend(a: string, b: string)
    requires AllHex(a) && AllHex(b)
    ensures AllHex(a + b)
    ensures HexValue(a + b) == HexValue(a) * Pow16(|b|) + HexValue(b)
    decreases |b|
  {
    if b == [] {
      assert a + b == a;
    } else {
      var b' := b[..|b| - 1];
      assert (a + b)[..|a + b| - 1] == a + b';
      HexValueAppend(a, b');
      var x, p, y, d := HexValue(a), Pow16(|b'|), HexValue(b'), DigitValue(b[|b| - 1]);
      assert HexValue(a + b) == 16 * (x * p + y) + d;
      assert HexValue(b) == 16 * y + d;
      assert Pow16(|b|) == 16 * p;
      MulAssoc16(x, p);
    }
  }

  lemma MulAssoc16(x: nat, p: nat)
    ensures x * (16 * p) == 16 * (x * p)
  {
  }

  lemma {:induction false} HexValueBound(s: string)
    requires AllHex(s)
    ensures HexValue(s) < Pow16(|s|)
  {
    if s != [] {
      HexValueBound(s[..|s| - 1]);
    }
  }

  lemma {:induction false} Pow16Mono(a: nat, b: nat)
    requires a <= b
    ensures Pow16(a) <= Pow16(b)
    decreases b
  {
    if a < b {
      Pow16Mono(a, b - 1);
    }
  }

  /** Twelve hex digits or fewer always denote a safe integer. */
  lemma Pow16Safe(n: nat)
    requires n <= 12
    ensures Pow16(n) < MaxSafe
  {
    Pow16Mono(n, 12);
    assert Pow16(12) == 0x1_0000_0000_0000;
  }

  lemma {:induction false} ZerosValue(k: nat)
    ensures HexValue(Zeros(k)) == 0
  {
    if k > 0 {
      assert Zeros(k)[..k - 1] == Zeros(k - 1);
      ZerosValue(k - 1);
    }
  }

  lemma {:induction false} HexTextDigits(n: nat)
    ensures |HexText(n)| >= 1 && LowerHex(HexText(n))
    ensures HexValue(HexText(n)) == n
  {
    if n >= 16 {
      HexTextDigits(n / 16);
      var t := HexText(n);
      assert t[..|t| - 1] == HexText(n / 16);
    }
  }

  /** Two lower-case hex strings of one length that denote one number are the same string. */
  lemma {:induction false} HexValueInjective(a: string, b: string)
    requires LowerHex(a) && LowerHex(b) && |a| == |b|
    requires HexValue(a) == HexValue(b)
    ensures a == b
  {
    if a != [] {
      var a', b' := a[..|a| - 1], b[..|b| - 1];
      var da, db := DigitValue(a[|a| - 1]), DigitValue(b[|b| - 1]);
      var x, y := HexValue(a'), HexValue(b');
      assert x * 16 + da == y * 16 + db;
      ModOfMulAdd(x, 16, da);
      ModOfMulAdd(y, 16, db);
      HexValueInjective(a', b');
      LowerDigitValueUnique(a[|a| - 1], b[|b| - 1]);
      assert a == a' + [a[|a| - 1]] && b == b' + [b[|b| - 1]];
    }
  }

  lemma LowerDigitValueUnique(c: char, d: char)
    requires IsLowerHexDigit(c) && IsLowerHexDigit(d) && DigitValue(c) == DigitValue(d)
    ensures c == d
  {
  }

  lemma ModOfMulAdd(q: nat, m: nat, r: nat)
    requires r < m
    ensures (q * m + r) % m == r && (q * m + r) / m == q
  {
    var x := q * m + r;
    var a, b := x / m, x % m;
    assert a * m + b == q * m + r;
    if a > q {
      MulMono(q + 1, a, m);
      assert false;
    } else if a < q {
      MulMono(a + 1, q, m);
      assert false;
    }
  }

  lemma MulMono(a: int, b: int, m: nat)
    requires a <= b
    ensures a * m <= b * m
  {
    assert b * m - a * m == (b - a) * m;
  }

  /** The last `width` digits of a digit string denote its value modulo 16^width. */
  lemma HexValueTail(t: string, width: nat)
    requires AllHex(t) && width <= |t|
    ensures AllHex(t[|t| - width..])
    ensures HexValue(t[|t| - width..]) == HexValue(t) % Pow16(width)
  {
    var t1, t2 := t[..|t| - width], t[|t| - width..];
    assert t1 + t2 == t;
    HexValueAppend(t1, t2);
    HexValueBound(t2);
    ModOfMulAdd(HexValue(t1), Pow16(|t2|), HexValue(t2));
  }

  lemma {:induction false} DecimalDigits(n: nat)
    ensures |Decimal(n)| >= 1
    ensures forall k :: 0 <= k < |Decimal(n)| ==> IsDecimalDigit(Decimal(n)[k])
    ensures DecimalValue(Decimal(n)) == n
  {
    if n >= 10 {
      DecimalDigits(n / 10);
      var t := Decimal(n);
      assert t[..|t| - 1] == Decimal(n / 10);
    }
  }

  /** `String(n)` tells numbers apart: it is what makes a "host:port" text identify its node. */
  lemma DecimalInjective(m: nat, n: nat)
    requires Decimal(m) == Decimal(n)
    ensures m == n
  {
    DecimalDigits(m);
    DecimalDigits(n);
  }
}
