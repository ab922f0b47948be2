/**
 * The header buffer `performPoW` works on is the header's hex text turned into bytes
 * (`Buffer.from(hex, 'hex')`, one byte per pair of digits).  This module shows that the
 * byte offsets `setNonceInBuffer` and `setTimeInBuffer` write are the header's nonce and
 * timestamp fields: the 32-bit little-endian values there are the fields `BlockHeader.decode`
 * reads, and stamping a buffer gives the buffer of the same header with the new timestamp
 * and nonce.
 */
module HeaderBuffer {

  import opened JsText
  import opened HexCodec
  import opened Transactions
  import opened Blocks
  import opened ProofOfWork

  /** The byte a pair of hex digits denotes. */
  function PairByte(hi: char, lo: char): byte
    requires IsHexDigit(hi) && IsHexDigit(lo)
  {
    (16 * DigitValue(hi) + DigitValue(lo)) as byte
  }

  /** `Buffer.from(t, 'hex')` for an even-length string of hex digits: byte k is the pair
      of digits at 2k. */
  function HexBytes(t: string): (b: seq<byte>)
    requires AllHex(t) && |t| % 2 == 0
    ensures |b| == |t| / 2
  {
    seq(|t| / 2, k requires 0 <= k < |t| / 2 => PairByte(t[2 * k], t[2 * k + 1]))
  }

  lemma HexBytesAppend(x: string, y: string)
    requires AllHex(x) && |x| % 2 == 0 && AllHex(y) && |y| % 2 == 0
    ensures AllHex(x + y) && HexBytes(x + y) == HexBytes(x) + HexBytes(y)
  {
    var xy := x + y;
    assert AllHex(xy) by {
      forall k | 0 <= k < |xy|
        ensures IsHexDigit(xy[k])
      {
        if k < |x| {
          assert xy[k] == x[k];
        } else {
          assert xy[k] == y[k - |x|];
        }
      }
    }
    var n := |x| / 2;
    forall k | 0 <= k < |xy| / 2
      ensures HexBytes(xy)[k] == (HexBytes(x) + HexBytes(y))[k]
    {
      if k < n {
        assert xy[2 * k] == x[2 * k] && xy[2 * k + 1] == x[2 * k + 1];
      } else {
        assert xy[2 * k] == y[2 * (k - n)] && xy[2 * k + 1] == y[2 * (k - n) + 1];
      }
    }
  }

  /** Byte offsets of the buffer are pairs of characters of the text. */
  lemma HexBytesSlice(t: string, i: nat, j: nat)
    requires AllHex(t) && |t| % 2 == 0 && i <= j && 2 * j <= |t|
    ensures AllHex(t[2 * i..2 * j]) && HexBytes(t)[i..j] == HexBytes(t[2 * i..2 * j])
  {
    AllHexSlice(t, 2 * i, 2 * j);
    var m := t[2 * i..2 * j];
    forall k | 0 <= k < j - i
      ensures HexBytes(t)[i + k] == HexBytes(m)[k]
    {
      SliceBytesAt(t, i, j, k);
    }
  }

  lemma SliceBytesAt(t: string, i: nat, j: nat, k: nat)
    requires AllHex(t) && |t| % 2 == 0 && i <= j && 2 * j <= |t| && k < j - i
    requires AllHex(t[2 * i..2 * j])
    ensures HexBytes(t)[i + k] == HexBytes(t[2 * i..2 * j])[k]
  {
    var m := t[2 * i..2 * j];
    assert m[2 * k] == t[2 * (i + k)] && m[2 * k + 1] == t[2 * (i + k) + 1];
  }

  lemma AllHexSlice(t: string, i: nat, j: nat)
    requires AllHex(t) && i <= j <= |t|
    ensures AllHex(t[i..j])
  {
    assert forall k :: 0 <= k < j - i ==> t[i..j][k] == t[i + k];
  }

  /** Two digits denote the byte they make. */
  lemma PairValue(p: string)
    requires |p| == 2 && AllHex(p)
    ensures HexValue(p) == PairByte(p[0], p[1]) as int && HexBytes(p) == [PairByte(p[0], p[1])]
  {
    var d0, d1 := DigitValue(p[0]), DigitValue(p[1]);
    assert p[..1][..0] == [] && p[..1] == [p[0]];
    assert HexValue(p[..1]) == d0;
    assert HexValue(p) == 16 * d0 + d1;
  }

  /** The number an 8-digit field denotes once its bytes are reversed (what `nextInt(8)`
      returns) is the little-endian value of its four bytes. */
  lemma Field32Bytes(s: string)
    requires |s| == SzHex32 && AllHex(s)
    ensures AllHex(SwapPairs(s)) && U32(HexBytes(s)) == HexValue(SwapPairs(s))
  {
    var p0, p1, p2, p3 := s[0..2], s[2..4], s[4..6], s[6..8];
    FieldPairs(s);
    var v0, v1, v2, v3 := PairByte(s[0], s[1]) as int, PairByte(s[2], s[3]) as int,
      PairByte(s[4], s[5]) as int, PairByte(s[6], s[7]) as int;
    ReversedValue(p3, p2, p1, p0);
    assert HexValue(SwapPairs(s)) == ((v3 * 256 + v2) * 256 + v1) * 256 + v0;
  }

  /** An 8-digit field as four pairs: its bytes in order, and the pairs reversed by
      SwapPairs. */
  lemma FieldPairs(s: string)
    requires |s| == SzHex32 && AllHex(s)
    ensures AllHex(s[0..2]) && AllHex(s[2..4]) && AllHex(s[4..6]) && AllHex(s[6..8])
    ensures HexBytes(s) == [PairByte(s[0], s[1]), PairByte(s[2], s[3]), PairByte(s[4], s[5]),
                            PairByte(s[6], s[7])]
    ensures SwapPairs(s) == s[6..8] + s[4..6] + s[2..4] + s[0..2]
    ensures HexValue(s[0..2]) == PairByte(s[0], s[1]) as int && HexValue(s[2..4]) == PairByte(s[2], s[3]) as int
    ensures HexValue(s[4..6]) == PairByte(s[4], s[5]) as int && HexValue(s[6..8]) == PairByte(s[6], s[7]) as int
  {
    FieldBytesInOrder(s);
    PairsOf(s);
    FieldSwapped(s);
  }

  lemma FieldSwapped(s: string)
    requires |s| == SzHex32
    ensures SwapPairs(s) == s[6..8] + s[4..6] + s[2..4] + s[0..2]
  {
    assert s[..8] == s && s[..0] == "";
    SwapTail(s, 8);
    SwapTail(s, 6);
    SwapTail(s, 4);
    SwapTail(s, 2);
    assert s[0..2] + "" == s[0..2];
    SwapRegroup(s[6..8], s[4..6], s[2..4], s[0..2]);
  }

  /** One unfolding of SwapPairs on a prefix of s. */
  lemma SwapTail(s: string, n: nat)
    requires 2 <= n <= |s|
    ensures SwapPairs(s[..n]) == s[n - 2..n] + SwapPairs(s[..n - 2])
  {
    assert s[..n][n - 2..] == s[n - 2..n] && s[..n][..n - 2] == s[..n - 2];
  }

  lemma SwapRegroup(d: string, c: string, b: string, a: string)
    ensures d + (c + (b + a)) == d + c + b + a
  {
    AppendAssoc4(d, c, b, a);
    AppendAssoc3(c, b, a);
  }

  lemma FieldBytesInOrder(s: string)
    requires |s| == SzHex32 && AllHex(s)
    ensures HexBytes(s) == [PairByte(s[0], s[1]), PairByte(s[2], s[3]), PairByte(s[4], s[5]),
                            PairByte(s[6], s[7])]
  {
  }

  lemma PairsOf(s: string)
    requires |s| == SzHex32 && AllHex(s)
    ensures AllHex(s[0..2]) && AllHex(s[2..4]) && AllHex(s[4..6]) && AllHex(s[6..8])
    ensures HexValue(s[0..2]) == PairByte(s[0], s[1]) as int && HexValue(s[2..4]) == PairByte(s[2], s[3]) as int
    ensures HexValue(s[4..6]) == PairByte(s[4], s[5]) as int && HexValue(s[6..8]) == PairByte(s[6], s[7]) as int
  {
    AllHexSlice(s, 0, 2);
    AllHexSlice(s, 2, 4);
    AllHexSlice(s, 4, 6);
    AllHexSlice(s, 6, 8);
    PairValue(s[0..2]);
    PairValue(s[2..4]);
    PairValue(s[4..6]);
    PairValue(s[6..8]);
  }

  /** The value of four digit pairs, most significant first. */
  lemma ReversedValue(a: string, b: string, c: string, d: string)
    requires |a| == 2 && |b| == 2 && |c| == 2 && |d| == 2
    requires AllHex(a) && AllHex(b) && AllHex(c) && AllHex(d)
    ensures AllHex(a + b + c + d)
    ensures HexValue(a + b + c + d) == ((HexValue(a) * 256 + HexValue(b)) * 256 + HexValue(c)) * 256 + HexValue(d)
  {
    assert Pow16(2) == 256;
    HexValueAppend(a, b);
    var ab := HexValue(a + b);
    assert ab == HexValue(a) * 256 + HexValue(b);
    HexValueAppend(a + b, c);
    var abc := HexValue(a + b + c);
    assert abc == ab * 256 + HexValue(c);
    HexValueAppend(a + b + c, d);
    assert HexValue(a + b + c + d) == abc * 256 + HexValue(d);
  }

  /** Four bytes are determined by their little-endian value. */
  lemma U32Injective(x: seq<byte>, y: seq<byte>)
    requires |x| == 4 && |y| == 4 && U32(x) == U32(y)
    ensures x == y
  {
    var u := U32(x);
    var hx := x[1] as nat + 256 * x[2] as nat + 0x1_0000 * x[3] as nat;
    var hy := y[1] as nat + 256 * y[2] as nat + 0x1_0000 * y[3] as nat;
    ModOfMulAdd(hx, 256, x[0] as nat);
    ModOfMulAdd(hy, 256, y[0] as nat);
    var gx, gy := x[2] as nat + 256 * x[3] as nat, y[2] as nat + 256 * y[3] as nat;
    ModOfMulAdd(gx, 256, x[1] as nat);
    ModOfMulAdd(gy, 256, y[1] as nat);
    ModOfMulAdd(x[3] as nat, 256, x[2] as nat);
    ModOfMulAdd(y[3] as nat, 256, y[2] as nat);
  }

  /** The text `writeInt(8, v)` appends is, as bytes, what `writeInt32LE(v)` stores. */
  lemma IntTextBytes(v: nat)
    requires v < Max32
    ensures |IntText(SzHex32, v)| == SzHex32 && AllHex(IntText(SzHex32, v))
    ensures HexBytes(IntText(SzHex32, v)) == LE32(v)
  {
    Max32Pow();
    IntTextLayout(SzHex32, v);
    var t := IntText(SzHex32, v);
    Field32Bytes(t);
    LE32Value(v);
    U32Injective(HexBytes(t), LE32(v));
  }

  /** In the buffer of a header's text, the 32-bit little-endian values at byte offsets 0,
      68, 72 and 76 are the version, timestamp, bits and nonce that decode reads. */
  lemma BufferFields(r: string)
    requires ReadHeader(r).Some? && |r| == HeaderSize && AllHex(r)
    ensures var b := HexBytes(r); var h := ReadHeader(r).value.value;
      |b| == HeaderBytes &&
      U32(b[..4]) == h.version &&
      U32(b[TimeOffset..TimeOffset + 4]) == h.timestamp &&
      U32(b[BitsOffset..BitsOffset + 4]) == h.bits &&
      U32(b[NonceOffset..NonceOffset + 4]) == h.nonce
  {
    HeaderLayout(r);
    FieldBytes(r, 0);
    FieldBytes(r, TimeOffset);
    FieldBytes(r, BitsOffset);
    FieldBytes(r, NonceOffset);
  }

  lemma FieldBytes(r: string, off: nat)
    requires AllHex(r) && |r| % 2 == 0 && 2 * off + SzHex32 <= |r|
    ensures AllHex(r[2 * off..2 * off + SzHex32])
    ensures U32(HexBytes(r)[off..off + 4]) == FieldAt(r, off)
  {
    HexBytesSlice(r, off, off + 4);
    Field32Bytes(r[2 * off..2 * off + SzHex32]);
  }

  /** A header whose text `Buffer.from` accepts. */
  predicate HexHeader(h: HeaderData)
  {
    CanonicalHeader(h) && AllHex(h.prevBlock) && AllHex(h.merkleRoot)
  }

  /** Storing a timestamp and a nonce into the buffer of a header gives the buffer of the
      same header with those two fields replaced (as unsigned 32-bit values). */
  lemma StampedHeader(h: HeaderData, time: int, nonce: int)
    requires HexHeader(h)
    ensures AllHex(HeaderText(h)) && |HeaderText(h)| == HeaderSize
    ensures var h' := h.(timestamp := time % Max32, nonce := nonce % Max32);
      HexHeader(h') && AllHex(HeaderText(h')) && |HeaderText(h')| == HeaderSize &&
      Stamped(HexBytes(HeaderText(h)), time, nonce) == HexBytes(HeaderText(h'))
  {
    var h' := h.(timestamp := time % Max32, nonce := nonce % Max32);
    var front := IntText(SzHex32, h.version) + h.prevBlock + h.merkleRoot;
    var bT := IntText(SzHex32, h.bits);
    var t0, n0 := IntText(SzHex32, h.timestamp), IntText(SzHex32, h.nonce);
    var t1, n1 := IntText(SzHex32, h'.timestamp), IntText(SzHex32, h'.nonce);
    IntTextBytes(h.version);
    IntTextBytes(h.bits);
    IntTextBytes(h.timestamp);
    IntTextBytes(h.nonce);
    IntTextBytes(h'.timestamp);
    IntTextBytes(h'.nonce);
    HexBytesAppend(IntText(SzHex32, h.version), h.prevBlock);
    HexBytesAppend(IntText(SzHex32, h.version) + h.prevBlock, h.merkleRoot);
    assert HeaderText(h) == front + t0 + bT + n0;
    assert HeaderText(h') == front + t1 + bT + n1;
    var fB, bB := HexBytes(front), HexBytes(bT);
    JoinBytes(front, t0, bT, n0);
    JoinBytes(front, t1, bT, n1);
    LE32Mod(time);
    LE32Mod(nonce);
    StampFour(fB, LE32(h.timestamp), bB, LE32(h.nonce), time, nonce);
  }

  lemma JoinBytes(a: string, b: string, c: string, d: string)
    requires AllHex(a) && |a| % 2 == 0 && AllHex(b) && |b| % 2 == 0
    requires AllHex(c) && |c| % 2 == 0 && AllHex(d) && |d| % 2 == 0
    ensures AllHex(a + b + c + d)
    ensures HexBytes(a + b + c + d) == HexBytes(a) + HexBytes(b) + HexBytes(c) + HexBytes(d)
  {
    HexBytesAppend(a, b);
    HexBytesAppend(a + b, c);
    HexBytesAppend(a + b + c, d);
  }

  /** The bytes stored depend only on the value modulo 2^32. */
  lemma LE32Mod(v: int)
    ensures LE32(v) == LE32(v % Max32)
  {
    ModOfMulAdd(0, Max32, v % Max32);
  }

  lemma StampFour(f: seq<byte>, t: seq<byte>, b: seq<byte>, n: seq<byte>, time: int, nonce: int)
    requires |f| == TimeOffset && |t| == 4 && |b| == 4 && |n| == 4
    ensures Stamped(f + t + b + n, time, nonce) == f + LE32(time) + b + LE32(nonce)
  {
    var once := WriteInt32LE(f + t + b + n, time, TimeOffset);
    assert (f + t + b + n)[..TimeOffset] == f;
    assert (f + t + b + n)[TimeOffset + 4..] == b + n;
    assert once == f + LE32(time) + b + n;
    assert once[..NonceOffset] == f + LE32(time) + b;
    assert once[NonceOffset + 4..] == [];
  }
}
