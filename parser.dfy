/**
 * The hex wire codec of parser.js.  Everything works over a string of hex
 * characters and every size is counted in characters, two per byte.
 *
 * The pure readers (`ReadText`, `ReadInt`, `ReadVarInt`) take the unread part
 * of the input and give back the value and what is left; `Parser` is the
 * cursor object of the source and its methods are specified by them.  The
 * writers (`WriteText`, `IntText`, `VarIntText`) give the text a `Serializer`
 * method appends.
 */
module HexCodec {

  import opened Wrappers
  import opened JsText

  const SzHex8: nat := 2
  const SzHex16: nat := 4
  const SzHex32: nat := 8
  const SzHex64: nat := 16
  const SzHex256: nat := 64

  // ---------------------------------------------------------------------------
  // hexSwapEndian

  /** The two-character groups of `s` taken from the end towards the front, which is what
      the descending loop of `hexSwapEndian` collects (a leading odd character is dropped). */
  function SwapPairs(s: string): string
  {
    if |s| < 2 then "" else s[|s| - 2..] + SwapPairs(s[..|s| - 2])
  }

  method HexSwapEndian(s: string) returns (v: string)
    ensures v == SwapPairs(s)
  {
    v := "";
    var i: int := |s| - 2;
    assert s[..i + 2] == s;
    while i >= 0
      invariant -2 <= i <= |s| - 2
      invariant (|s| - (i + 2)) % 2 == 0
      invariant v + SwapPairs(s[..i + 2]) == SwapPairs(s)
    {
      assert s[..i + 2][i..] == s[i..i + 2];
      assert s[..i + 2][..i] == s[..i];
      v := v + s[i..i + 2];
      i := i - 2;
    }
  }

  lemma {:induction false} SwapPairsLength(s: string)
    ensures |SwapPairs(s)| == |s| - |s| % 2
  {
    if |s| >= 2 {
      SwapPairsLength(s[..|s| - 2]);
    }
  }

  /** Reversing the byte order of a concatenation reverses the order of the parts. */
  lemma {:induction false} SwapPairsAppend(a: string, b: string)
    requires |b| % 2 == 0
    ensures SwapPairs(a + b) == SwapPairs(b) + SwapPairs(a)
    decreases |b|
  {
    if |b| == 0 {
      assert a + b == a;
    } else {
      var b' := b[..|b| - 2];
      assert (a + b)[|a + b| - 2..] == b[|b| - 2..];
      assert (a + b)[..|a + b| - 2] == a + b';
      SwapPairsAppend(a, b');
    }
  }

  /** On an even-length string hexSwapEndian keeps the length and undoes itself. */
  lemma {:induction false} SwapPairsInvolution(s: string)
    requires |s| % 2 == 0
    ensures |SwapPairs(s)| == |s|
    ensures SwapPairs(SwapPairs(s)) == s
  {
    SwapPairsLength(s);
    if |s| >= 2 {
      var p, s' := s[|s| - 2..], s[..|s| - 2];
      SwapPairsInvolution(s');
      SwapPairsAppend(p, SwapPairs(s'));
      assert SwapPairs(p) == p;
      assert s == s' + p;
    }
  }

  /** Byte k of the result is byte |s|/2 - 1 - k of the input. */
  lemma {:induction false} SwapPairsPair(s: string, k: nat)
    requires |s| % 2 == 0 && 2 * k + 2 <= |s|
    ensures |SwapPairs(s)| == |s|
    ensures SwapPairs(s)[2 * k..2 * k + 2] == s[|s| - 2 * k - 2..|s| - 2 * k]
  {
    SwapPairsLength(s);
    var s' := s[..|s| - 2];
    SwapPairsLength(s');
    if k > 0 {
      SwapPairsPair(s', k - 1);
      assert SwapPairs(s)[2 * k..2 * k + 2] == SwapPairs(s')[2 * (k - 1)..2 * (k - 1) + 2];
      assert s'[|s'| - 2 * (k - 1) - 2..|s'| - 2 * (k - 1)] == s[|s| - 2 * k - 2..|s| - 2 * k];
    }
  }

  lemma {:induction false} SwapPairsHex(s: string)
    ensures AllHex(s) ==> AllHex(SwapPairs(s))
    ensures LowerHex(s) ==> LowerHex(SwapPairs(s))
  {
    if |s| >= 2 {
      SwapPairsHex(s[..|s| - 2]);
      var t := SwapPairs(s);
      assert t == s[|s| - 2..] + SwapPairs(s[..|s| - 2]);
    }
  }

  // ---------------------------------------------------------------------------
  // Fixed-width integer text, as writeInt and swapIntEndian build it

  /** `s.substr(s.length - width)`: the last `width` characters when there are that many. */
  function Tail(s: string, width: nat): string
  {
    SubstrFrom(s, |s| - width)
  }

  /** `('0' * pad + n.toString(16))` cut to its last `width` characters. */
  function PaddedHex(pad: nat, n: nat, width: nat): string
  {
    Tail(Zeros(pad) + HexText(n), width)
  }

  /** While the padding is long enough, the cut text is exactly `width` lower-case digits
      denoting n modulo 16^width. */
  lemma PaddedHexDigits(pad: nat, n: nat, width: nat)
    requires width <= pad + 1
    ensures |PaddedHex(pad, n, width)| == width
    ensures LowerHex(PaddedHex(pad, n, width))
    ensures HexValue(PaddedHex(pad, n, width)) == n % Pow16(width)
  {
    var z, h := Zeros(pad), HexText(n);
    HexTextDigits(n);
    var t := z + h;
    assert LowerHex(t);
    ZerosValue(pad);
    HexValueAppend(z, h);
    assert PaddedHex(pad, n, width) == t[|t| - width..];
    HexValueTail(t, width);
  }

  /** `Parser.swapIntEndian(sz, i)`: the sz-byte integer i with its bytes reversed
      (sz counts bytes here); None stands for NaN. */
  function SwapIntEndian(sz: nat, i: nat): (r: Option<nat>)
    ensures sz == 0 ==> r == None
    ensures 1 <= sz <= 8 ==> r.Some?
    ensures 1 <= sz <= 6 ==> r.Some? && r.value < Pow16(2 * sz)
  {
    var t := PaddedHex(15, i, 2 * sz);
    if 1 <= sz <= 8 then
      PaddedHexDigits(15, i, 2 * sz);
      SwapPairsInvolution(t);
      SwapPairsHex(t);
      HexValueBound(SwapPairs(t));
      ParseHex(SwapPairs(t))
    else
      ParseHex(SwapPairs(t))
  }

  /** A lower-case text of `width` digits is the cut padded text of its own value. */
  lemma PaddedHexUnique(pad: nat, width: nat, t: string)
    requires width <= pad + 1 && |t| == width && LowerHex(t)
    ensures AllHex(t) && PaddedHex(pad, HexValue(t), width) == t
  {
    assert AllHex(t);
    var v := HexValue(t);
    HexValueBound(t);
    PaddedHexDigits(pad, v, width);
    ModOfMulAdd(0, Pow16(width), v);
    HexValueInjective(PaddedHex(pad, v, width), t);
  }

  /** Reversing the bytes of a padded text and padding the value it denotes gives the
      reversed text back, for widths up to 12 digits, where `parseInt` reads the value
      exactly. */
  lemma SwapPaddedInvolution(pad: nat, width: nat, i: nat)
    requires width <= pad + 1 && width % 2 == 0 && width <= 12
    ensures AllHex(SwapPairs(PaddedHex(pad, i, width)))
    ensures HexValue(SwapPairs(PaddedHex(pad, i, width))) < Pow16(width)
    ensures SwapPairs(PaddedHex(pad, HexValue(SwapPairs(PaddedHex(pad, i, width))), width))
         == PaddedHex(pad, i, width)
  {
    var w := PaddedHex(pad, i, width);
    PaddedHexDigits(pad, i, width);
    SwapPairsInvolution(w);
    SwapPairsHex(w);
    var u := SwapPairs(w);
    PaddedHexUnique(pad, width, u);
    HexValueBound(u);
  }

  /** For 1..6 bytes swapIntEndian is a byte reversal: it yields a number of the same width
      and, applied again, gives back i modulo 256^sz.  From 7 bytes on the reversed value
      can exceed 2^53, which `parseInt` rounds. */
  lemma SwapIntEndianInvolution(sz: nat, i: nat)
    requires 1 <= sz <= 6
    ensures SwapIntEndian(sz, i).Some?
    ensures SwapIntEndian(sz, i).value < Pow16(2 * sz)
    ensures SwapIntEndian(sz, SwapIntEndian(sz, i).value) == Some(i % Pow16(2 * sz))
  {
    var width := 2 * sz;
    SwapPaddedInvolution(15, width, i);
    PaddedHexDigits(15, i, width);
    var w := PaddedHex(15, i, width);
    var j := HexValue(SwapPairs(w));
    assert SwapIntEndian(sz, i) == Some(j);
    assert SwapIntEndian(sz, j) == ParseHex(w);
  }

  // ---------------------------------------------------------------------------
  // Pure readers

  /** A value read from the front of a text, and the text left after it. */
  datatype Parsed<T> = Parsed(value: T, rest: string)

  /** What `next(count, hexSwap)` hands back for the characters it took. */
  function Swapped(t: string, count: nat, hexSwap: bool): string
  {
    if hexSwap && count > 2 then SwapPairs(t) else t
  }

  /** `next(count, hexSwap)` when the count characters are there; None when they are not. */
  function ReadText(r: string, count: nat, hexSwap: bool): (p: Option<Parsed<string>>)
    ensures p.Some? <==> count <= |r|
    ensures p.Some? ==> p.value.rest == r[count..] && |p.value.value| <= count
    ensures p.Some? && !hexSwap ==> p.value.value == r[..count]
  {
    if count <= |r| then
      SwapPairsLength(r[..count]);
      Some(Parsed(Swapped(r[..count], count, hexSwap), r[count..]))
    else None
  }

  /** `nextInt(sz)`: the sz characters are read with their bytes reversed and parsed as hex. */
  function ReadInt(r: string, sz: nat): Option<Parsed<nat>>
  {
    match ReadText(r, sz, true)
    case None => None
    case Some(t) =>
    match ParseHex(t.value)
    case None => None
    case Some(v) =>
    Some(Parsed(v, t.rest))
  }

  /** The number of characters `nextVarInt` reads after a prefix of 0xfd or more:
      `6 + 4 * [0xfd, 0xfe, 0x00, 0xff].indexOf(prefix)`. */
  function LongWidth(prefix: nat): nat
  {
    if prefix == 0xfd then 6 else if prefix == 0xfe then 10 else if prefix == 0xff then 18
    else if prefix == 0x00 then 14 else 2
  }

  /** The case split above is the source's `indexOf` formula, read off for every prefix. */
  lemma LongWidthIndexOf(prefix: nat)
    ensures LongWidth(prefix) == 6 + 4 * IndexOf([0xfd, 0xfe, 0x00, 0xff], prefix)
  {
    var xs: seq<nat> := [0xfd, 0xfe, 0x00, 0xff];
    assert xs[1..] == [0xfe, 0x00, 0xff] && xs[1..][1..] == [0x00, 0xff];
    assert xs[1..][1..][1..] == [0xff] && xs[1..][1..][1..][1..] == [];
  }

  /** `nextVarInt()`. */
  function ReadVarInt(r: string): Option<Parsed<nat>>
  {
    match ReadInt(r, SzHex8)
    case None => None
    case Some(b) =>
    if b.value < 0xfd then Some(b) else ReadInt(b.rest, LongWidth(b.value))
  }

  /** nextInt(sz) takes exactly sz characters and returns the number whose big-endian hex is
      their byte reversal: a little-endian read. */
  lemma ReadIntLayout(r: string, sz: nat)
    requires sz % 2 == 0
    ensures ReadInt(r, sz).Some? <==> 0 < sz <= |r| && AllHex(r[..sz])
    ensures ReadInt(r, sz).Some? ==>
      ReadInt(r, sz).value.rest == r[sz..] &&
      AllHex(SwapPairs(r[..sz])) &&
      ReadInt(r, sz).value.value == HexValue(SwapPairs(r[..sz]))
  {
    if sz <= |r| {
      var t := r[..sz];
      var u := Swapped(t, sz, true);
      assert ReadText(r, sz, true) == Some(Parsed(u, r[sz..]));
      assert u == SwapPairs(t) by {
        if sz == 2 {
          assert SwapPairs(t) == t;
        }
      }
      SwapPairsInvolution(t);
      SwapPairsHex(t);
      SwapPairsHex(u);
      assert AllHex(u) <==> AllHex(t);
      assert ReadInt(r, sz) == (if u != [] && AllHex(u) then Some(Parsed(HexValue(u), r[sz..])) else None);
    }
  }

  /** The characters nextVarInt consumes: 2 for a prefix below 0xfd, and 6, 10 or 18 more
      after the prefixes 0xfd, 0xfe and 0xff. */
  lemma ReadVarIntLayout(r: string)
    requires 2 <= |r| && AllHex(r[..2])
    ensures ReadInt(r, 2).Some?
    ensures var prefix := ReadInt(r, 2).value.value;
      prefix < 256 &&
      (prefix < 0xfd ==> ReadVarInt(r) == Some(Parsed(prefix, r[2..]))) &&
      (prefix == 0xfd ==> ReadVarInt(r) == ReadInt(r[2..], 6)) &&
      (prefix == 0xfe ==> ReadVarInt(r) == ReadInt(r[2..], 10)) &&
      (prefix == 0xff ==> ReadVarInt(r) == ReadInt(r[2..], 18))
  {
    ReadIntLayout(r, 2);
    assert SwapPairs(r[..2]) == r[..2];
    HexValueBound(r[..2]);
  }

  // ---------------------------------------------------------------------------
  // Pure writers

  /** What `write(hex, hexSwap)` appends. */
  function WriteText(hex: string, hexSwap: bool): string
  {
    if hexSwap && |hex| > 2 then SwapPairs(hex) else hex
  }

  /** What `writeInt(sz, i)` appends: the last sz characters of 25 zeros followed by
      `i.toString(16)`, byte-reversed. */
  function IntText(sz: nat, i: nat): string
  {
    WriteText(PaddedHex(25, i, sz), true)
  }

  /** What `writeVarInt(i)` appends.  At 0xfd and above the prefix is handed to `write` as a
      number, so its decimal text ("253", "254" or "255") is what lands in the output. */
  function VarIntText(i: nat): string
  {
    if i < 0xfd then IntText(SzHex8, i)
    else WriteText(Decimal(LongPrefix(i)), false) + IntText(LongSize(i), i)
  }

  /** The prefix byte writeVarInt picks for a value of 0xfd or more. */
  function LongPrefix(i: nat): nat
  {
    if i <= 0xffff then 0xfd else if i <= 0xffff_ffff then 0xfe else 0xff
  }

  /** The writeInt width writeVarInt picks for a value of 0xfd or more. */
  function LongSize(i: nat): nat
  {
    if i <= 0xffff then SzHex16 else if i <= 0xffff_ffff then SzHex32 else SzHex64
  }

  /** writeInt(sz, i) appends exactly sz lower-case characters holding i mod 16^sz in
      little-endian order. */
  lemma IntTextLayout(sz: nat, i: nat)
    requires 2 <= sz <= 26 && sz % 2 == 0
    ensures |IntText(sz, i)| == sz && LowerHex(IntText(sz, i))
    ensures AllHex(SwapPairs(IntText(sz, i)))
    ensures HexValue(SwapPairs(IntText(sz, i))) == i % Pow16(sz)
  {
    WrittenPaddedHex(25, sz, i);
  }

  lemma WrittenPaddedHex(pad: nat, width: nat, i: nat)
    requires 2 <= width <= pad + 1 && width % 2 == 0
    ensures |WriteText(PaddedHex(pad, i, width), true)| == width
    ensures LowerHex(WriteText(PaddedHex(pad, i, width), true))
    ensures SwapPairs(WriteText(PaddedHex(pad, i, width), true)) == PaddedHex(pad, i, width)
    ensures AllHex(PaddedHex(pad, i, width))
    ensures HexValue(PaddedHex(pad, i, width)) == i % Pow16(width)
  {
    var w := PaddedHex(pad, i, width);
    PaddedHexDigits(pad, i, width);
    SwapPairsInvolution(w);
    SwapPairsHex(w);
    if width == 2 {
      assert SwapPairs(w) == w;
    }
  }

  /** A fixed-width integer read back from what writeInt wrote. */
  lemma IntRoundTrip(sz: nat, i: nat, rest: string)
    requires 2 <= sz <= 26 && sz % 2 == 0 && i < Pow16(sz)
    ensures ReadInt(IntText(sz, i) + rest, sz) == Some(Parsed(i, rest))
  {
    IntTextLayout(sz, i);
    var t := IntText(sz, i);
    var r := t + rest;
    assert r[..sz] == t && r[sz..] == rest;
    assert AllHex(t);
    ReadIntLayout(r, sz);
    ModOfMulAdd(0, Pow16(sz), i);
  }

  /** Lower-case integer text is written back exactly as it was read, when the value is
      one `parseInt` reads exactly. */
  lemma IntReencode(r: string, sz: nat)
    requires 2 <= sz <= 26 && sz % 2 == 0
    requires ReadInt(r, sz).Some? && LowerHex(r[..sz]) && ReadInt(r, sz).value.value < MaxSafe
    ensures IntText(sz, ReadInt(r, sz).value.value) + ReadInt(r, sz).value.rest == r
  {
    ReadIntLayout(r, sz);
    var t := r[..sz];
    var u := SwapPairs(t);
    var v := HexValue(u);
    SwapPairsInvolution(t);
    SwapPairsHex(t);
    HexValueBound(u);
    var w := PaddedHex(25, v, sz);
    PaddedHexDigits(25, v, sz);
    ModOfMulAdd(0, Pow16(sz), v);
    HexValueInjective(w, u);
    assert sz == 2 ==> SwapPairs(u) == u;
    assert IntText(sz, v) == t;
    assert t + r[sz..] == r;
  }

  /** Below 0xfd a varint is two characters and reads back as itself. */
  lemma VarIntShortRoundTrip(i: nat, rest: string)
    requires i < 0xfd
    ensures |VarIntText(i)| == 2
    ensures ReadVarInt(VarIntText(i) + rest) == Some(Parsed(i, rest))
  {
    IntTextLayout(2, i);
    IntRoundTrip(2, i, rest);
  }

  /** At 0xfd and above writeVarInt emits "253", "254" or "255" and then writeInt with 4, 8
      or 16 characters; every such text starts with "25", which nextVarInt reads as the
      one-byte value 0x25, so the written value never reads back. */
  lemma VarIntLongMisread(i: nat, rest: string)
    requires i >= 0xfd
    ensures i <= 0xffff ==> VarIntText(i) == "253" + IntText(4, i)
    ensures 0xffff < i <= 0xffff_ffff ==> VarIntText(i) == "254" + IntText(8, i)
    ensures 0xffff_ffff < i ==> VarIntText(i) == "255" + IntText(16, i)
    ensures ReadVarInt(VarIntText(i) + rest) == Some(Parsed(0x25, (VarIntText(i) + rest)[2..]))
    ensures ReadVarInt(VarIntText(i) + rest).value.value != i
  {
    assert Decimal(0xfd) == "253" && Decimal(0xfe) == "254" && Decimal(0xff) == "255";
    var r := VarIntText(i) + rest;
    assert r[..2] == "25";
    assert HexValue("25") == 0x25 by {
      assert "25"[..1] == "2";
    }
    ReadVarIntLayout(r);
  }

  // ---------------------------------------------------------------------------
  // Re-encoding what was read

  /** Reading r left `rest`, and the re-encoding `t` is no longer than what was read and is
      exactly what was read when the lengths agree. */
  ghost predicate Covers(t: string, r: string, rest: string)
  {
    |rest| <= |r| && rest == r[|r| - |rest|..] &&
    |t| <= |r| - |rest| &&
    (|r| - |rest| == |t| ==> t + rest == r)
  }

  lemma ExactCovers(t: string, rest: string)
    ensures Covers(t, t + rest, rest)
  {
    assert (t + rest)[|t|..] == rest;
  }

  /** Two reads in a row re-encode to the concatenation of their re-encodings. */
  lemma CoversChain(ta: string, tb: string, r: string, r1: string, r2: string)
    requires Covers(ta, r, r1) && Covers(tb, r1, r2)
    ensures Covers(ta + tb, r, r2)
  {
    assert r2 == r[|r| - |r2|..];
    if |r| - |r2| == |ta + tb| {
      assert ta + r1 == r && tb + r2 == r1;
      assert ta + tb + r2 == ta + (tb + r2);
    }
  }

  lemma LowerHexSuffix(r: string, k: nat)
    requires LowerHex(r) && k <= |r|
    ensures LowerHex(r[k..]) && LowerHex(r[..k])
  {
    assert forall j :: 0 <= j < |r| - k ==> r[k..][j] == r[k + j];
  }

  lemma CoversLower(t: string, r: string, rest: string)
    requires Covers(t, r, rest) && LowerHex(r)
    ensures LowerHex(rest)
  {
    LowerHexSuffix(r, |r| - |rest|);
  }

  lemma TextCovers(r: string, count: nat, t: string, rest: string)
    requires ReadText(r, count, false) == Some(Parsed(t, rest))
    ensures Covers(t, r, rest)
    ensures LowerHex(r) ==> LowerHex(rest)
  {
    assert r[..count] + r[count..] == r;
    ExactCovers(r[..count], r[count..]);
    if LowerHex(r) {
      CoversLower(t, r, rest);
    }
  }

  lemma IntCovers(r: string, sz: nat, v: nat, rest: string)
    requires 2 <= sz <= 26 && sz % 2 == 0
    requires ReadInt(r, sz) == Some(Parsed(v, rest)) && LowerHex(r)
    requires sz <= 12 || v < MaxSafe
    ensures Covers(IntText(sz, v), r, rest) && LowerHex(rest)
  {
    ReadIntLayout(r, sz);
    if sz <= 12 {
      ReadIntSafe(r, sz);
    }
    LowerHexSuffix(r, sz);
    IntReencode(r, sz);
    ExactCovers(IntText(sz, v), rest);
  }

  /** A field of at most 12 digits holds a safe integer. */
  lemma ReadIntSafe(r: string, sz: nat)
    requires sz % 2 == 0 && sz <= 12 && ReadInt(r, sz).Some?
    ensures ReadInt(r, sz).value.value < MaxSafe
  {
    ReadIntLayout(r, sz);
    SwapPairsInvolution(r[..sz]);
    HexValueBound(SwapPairs(r[..sz]));
    Pow16Safe(sz);
  }

  /** A varint whose value is below 0xfd took at least the two characters of its
      re-encoding; when it took just two (a short prefix) the re-encoding is exact. */
  lemma VarIntCovers(r: string, v: nat, rest: string)
    requires ReadVarInt(r) == Some(Parsed(v, rest)) && v < 0xfd && LowerHex(r)
    ensures Covers(VarIntText(v), r, rest) && LowerHex(rest)
  {
    ReadIntLayout(r, 2);
    var b := ReadInt(r, 2).value;
    if b.value < 0xfd {
      IntCovers(r, 2, v, rest);
    } else {
      VarIntLongCovers(r);
      CoversLower(VarIntText(v), r, rest);
    }
  }

  lemma VarIntLongCovers(r: string)
    requires ReadVarInt(r).Some? && ReadVarInt(r).value.value < 0xfd
    requires ReadInt(r, 2).Some? && ReadInt(r, 2).value.value >= 0xfd
    ensures Covers(VarIntText(ReadVarInt(r).value.value), r, ReadVarInt(r).value.rest)
  {
    ReadIntLayout(r, 2);
    var b := ReadInt(r, 2).value;
    var w := LongWidth(b.value);
    ReadIntLayout(b.rest, w);
    assert b.rest[w..] == r[2 + w..];
    IntTextLayout(2, ReadVarInt(r).value.value);
  }

  // ---------------------------------------------------------------------------
  // The cursor reader

  class Parser {
    const s: string
    var i: nat
    const l: nat
    var storageContexts: seq<nat>

    constructor (s: string)
      ensures this.s == s && i == 0 && l == |s| && storageContexts == []
    {
      this.s := s;
      this.i := 0;
      this.l := |s|;
      this.storageContexts := [];
    }

    /** The unread part of the input. */
    function Rest(): string
      reads this
      requires i <= |s|
    {
      s[i..]
    }

    /** `next(count, hexSwap)`: takes the count characters at the cursor (fewer at the end of
        the input), byte-reversed only when hexSwap is set and count > 2. */
    method Next(count: nat, hexSwap: bool) returns (ss: string)
      modifies this`i
      ensures i == old(i) + count
      ensures ss == Swapped(Substr(s, old(i), count), count, hexSwap)
      ensures old(i) + count <= |s| ==> ReadText(s[old(i)..], count, hexSwap) == Some(Parsed(ss, s[i..]))
    {
      var t := Substr(s, i, count);
      i := i + count;
      if hexSwap && count > 2 {
        ss := HexSwapEndian(t);
      } else {
        ss := t;
      }
      if old(i) + count <= |s| {
        assert s[old(i)..][..count] == t;
        assert s[old(i)..][count..] == s[i..];
      }
    }

    /** `nextInt(sz)`. */
    method NextInt(sz: nat) returns (v: nat)
      requires i <= |s| && ReadInt(Rest(), sz).Some?
      modifies this`i
      ensures old(i) <= i <= |s| && ReadInt(old(Rest()), sz) == Some(Parsed(v, Rest()))
    {
      var t := Next(sz, true);
      v := HexValue(t);
    }

    /** `nextVarInt()`. */
    method NextVarInt() returns (v: nat)
      requires i <= |s| && ReadVarInt(Rest()).Some?
      modifies this`i
      ensures old(i) <= i <= |s| && ReadVarInt(old(Rest())) == Some(Parsed(v, Rest()))
    {
      var b1 := NextInt(SzHex8);
      if b1 < 0xfd {
        v := b1;
        return;
      }
      v := NextInt(LongWidth(b1));
    }

    method PushStorageContext()
      modifies this`storageContexts
      ensures storageContexts == old(storageContexts) + [i]
    {
      storageContexts := storageContexts + [i];
    }

    /** `popStorageContext()`: the text from the latest mark to the cursor; the mark is
        dropped.  With no mark, `substring(undefined, i)` starts at 0. */
    method PopStorageContext() returns (ss: string)
      modifies this`storageContexts
      ensures old(storageContexts) != [] ==>
        storageContexts == old(storageContexts)[..|old(storageContexts)| - 1] &&
        ss == Substring(s, old(storageContexts)[|old(storageContexts)| - 1], i)
      ensures old(storageContexts) == [] ==> storageContexts == [] && ss == Substring(s, 0, i)
    {
      var start := if |storageContexts| > 0 then storageContexts[|storageContexts| - 1] else 0;
      ss := Substring(s, start, i);
      if |storageContexts| > 0 {
        storageContexts := storageContexts[..|storageContexts| - 1];
      }
    }
  }

  /** Marks nest: push, push, pop, pop gives the inner slice first, the outer second. */
  method NestedContexts(p: Parser, a: nat, b: nat) returns (inner: string, outer: string)
    requires p.i <= |p.s|
    requires p.i + a + b <= |p.s|
    modifies p
    ensures p.storageContexts == old(p.storageContexts)
    ensures inner == p.s[old(p.i) + a..old(p.i) + a + b]
    ensures outer == p.s[old(p.i)..old(p.i) + a + b]
  {
    p.PushStorageContext();
    var _ := p.Next(a, false);
    p.PushStorageContext();
    var _ := p.Next(b, false);
    inner := p.PopStorageContext();
    outer := p.PopStorageContext();
  }

  // ---------------------------------------------------------------------------
  // The writer

  class Serializer {
    var s: string

    constructor ()
      ensures s == ""
    {
      s := "";
    }

    /** `write(hex, hexSwap)`. */
    method Write(hex: string, hexSwap: bool)
      modifies this
      ensures s == old(s) + WriteText(hex, hexSwap)
    {
      if hexSwap && |hex| > 2 {
        var t := HexSwapEndian(hex);
        s := s + t;
      } else {
        s := s + hex;
      }
    }

    /** `writeInt(sz, i)`. */
    method WriteInt(sz: nat, i: nat)
      modifies this
      ensures s == old(s) + IntText(sz, i)
    {
      var v := Zeros(25) + HexText(i);
      var w := SubstrFrom(v, |v| - sz);
      Write(w, true);
    }

    /** `writeVarInt(i)`. */
    method WriteVarInt(i: nat)
      modifies this
      ensures s == old(s) + VarIntText(i)
    {
      if i < 0xfd {
        WriteInt(SzHex8, i);
        return;
      }
      var prefix: nat, sz: nat := 0xff, SzHex64;
      if i <= 0xffff {
        prefix, sz := 0xfd, SzHex16;
      } else if i <= 0xffff_ffff {
        prefix, sz := 0xfe, SzHex32;
      }
      assert prefix == LongPrefix(i) && sz == LongSize(i);
      ghost var s0 := s;
      Write(Decimal(prefix), false);
      WriteInt(sz, i);
      assert s == s0 + (WriteText(Decimal(prefix), false) + IntText(sz, i));
    }
  }
}
