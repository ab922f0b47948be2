/**
 * block.js, the byte-buffer half: the 4-byte little-endian stores `setNonceInBuffer` and
 * `setTimeInBuffer` make in an 80-byte header buffer, the hash comparison `cmpbufs`, and the
 * `performPoW` search loop.  The double SHA-256 is a parameter, and the wall-clock deadline
 * is an iteration bound.
 */
module ProofOfWork {

  import opened Transactions
  import opened Blocks

  newtype byte = x: int | 0 <= x < 256

  /** A header buffer holds 80 bytes. */
  const HeaderBytes: nat := 80

  /** `cmpbufs` looks at bytes 31 down to 0: a SHA-256 digest. */
  const HashSize: nat := 32

  /** The values `Buffer.writeInt32LE` accepts; it throws a RangeError on any other. */
  predicate IsInt32(v: int) {
    -0x8000_0000 <= v < 0x8000_0000
  }

  /** The four bytes `writeInt32LE(v)` stores: v in two's complement, least significant byte
      first. */
  function LE32(v: int): (b: seq<byte>)
    ensures |b| == 4
  {
    var u := v % Max32;
    [(u % 256) as byte, (u / 256 % 256) as byte, (u / 0x1_0000 % 256) as byte, (u / 0x100_0000) as byte]
  }

  /** The unsigned little-endian value of four bytes. */
  function U32(b: seq<byte>): nat
    requires |b| == 4
  {
    b[0] as nat + 256 * b[1] as nat + 0x1_0000 * b[2] as nat + 0x100_0000 * b[3] as nat
  }

  /** `buf.writeInt32LE(v, off)` on the buffer's contents. */
  function WriteInt32LE(buf: seq<byte>, v: int, off: nat): seq<byte>
    requires off + 4 <= |buf|
  {
    buf[..off] + LE32(v) + buf[off + 4..]
  }

  /** The header buffer with the timestamp and the nonce stored in it. */
  function Stamped(buf: seq<byte>, time: int, nonce: int): seq<byte>
    requires HeaderBytes <= |buf|
  {
    WriteInt32LE(WriteInt32LE(buf, time, TimeOffset), nonce, NonceOffset)
  }

  // ---------------------------------------------------------------------------
  // The four-byte store

  /** Reading the four bytes back gives the value modulo 2^32. */
  lemma LE32Value(v: int)
    ensures U32(LE32(v)) == v % Max32
  {
    var u := v % Max32;
    var q1 := u / 256;
    var q2 := q1 / 256;
    assert u == u % 256 + 256 * q1;
    assert q1 == q1 % 256 + 256 * q2;
    assert q2 == q2 % 256 + 256 * (q2 / 256);
    assert u / 0x1_0000 == q2 && u / 0x100_0000 == q2 / 256;
  }

  /** The store keeps the length, puts the value at off..off+4 and leaves every other byte. */
  lemma WriteInt32LEFacts(buf: seq<byte>, v: int, off: nat)
    requires off + 4 <= |buf|
    ensures |WriteInt32LE(buf, v, off)| == |buf|
    ensures WriteInt32LE(buf, v, off)[off..off + 4] == LE32(v)
    ensures U32(WriteInt32LE(buf, v, off)[off..off + 4]) == v % Max32
    ensures forall k :: 0 <= k < |buf| && !(off <= k < off + 4) ==> WriteInt32LE(buf, v, off)[k] == buf[k]
  {
    LE32Value(v);
  }

  /** A second store at the same offset replaces the first. */
  lemma WriteTwice(buf: seq<byte>, v: int, w: int, off: nat)
    requires off + 4 <= |buf|
    ensures WriteInt32LE(WriteInt32LE(buf, v, off), w, off) == WriteInt32LE(buf, w, off)
  {
    var once := WriteInt32LE(buf, v, off);
    assert once[..off] == buf[..off];
    assert once[off + 4..] == buf[off + 4..];
  }

  /** Stores at offsets four or more bytes apart can be made in either order. */
  lemma WritesCommute(buf: seq<byte>, v: int, off: nat, w: int, off': nat)
    requires off + 4 <= off' && off' + 4 <= |buf|
    ensures WriteInt32LE(WriteInt32LE(buf, v, off), w, off') ==
            WriteInt32LE(WriteInt32LE(buf, w, off'), v, off)
  {
    var x := WriteInt32LE(WriteInt32LE(buf, v, off), w, off');
    var y := WriteInt32LE(WriteInt32LE(buf, w, off'), v, off);
    WriteInt32LEFacts(buf, v, off);
    WriteInt32LEFacts(buf, w, off');
    WriteInt32LEFacts(WriteInt32LE(buf, v, off), w, off');
    WriteInt32LEFacts(WriteInt32LE(buf, w, off'), v, off);
    assert |x| == |y|;
    forall k | 0 <= k < |x|
      ensures x[k] == y[k]
    {
      if off <= k < off + 4 {
        assert x[k] == WriteInt32LE(buf, v, off)[k] == LE32(v)[k - off];
        assert y[k] == WriteInt32LE(WriteInt32LE(buf, w, off'), v, off)[off..off + 4][k - off];
      } else if off' <= k < off' + 4 {
        assert x[k] == WriteInt32LE(WriteInt32LE(buf, v, off), w, off')[off'..off' + 4][k - off'];
        assert y[k] == WriteInt32LE(buf, w, off')[k] == LE32(w)[k - off'];
      }
    }
  }

  /** The in-place store behind `setNonceInBuffer` and `setTimeInBuffer`. */
  method StoreInt32LE(buf: array<byte>, v: int, off: nat)
    requires off + 4 <= buf.Length && IsInt32(v)
    modifies buf
    ensures buf[..] == WriteInt32LE(old(buf[..]), v, off)
  {
    var b := LE32(v);
    buf[off] := b[0];
    buf[off + 1] := b[1];
    buf[off + 2] := b[2];
    buf[off + 3] := b[3];
    assert buf[..] == old(buf[..])[..off] + b + old(buf[..])[off + 4..];
  }

  /** `setNonceInBuffer(buf, nonce)`: the nonce at byte 76. */
  method SetNonceInBuffer(buf: array<byte>, nonce: int)
    requires NonceOffset + 4 <= buf.Length && IsInt32(nonce)
    modifies buf
    ensures buf[..] == WriteInt32LE(old(buf[..]), nonce, NonceOffset)
  {
    StoreInt32LE(buf, nonce, NonceOffset);
  }

  /** `setTimeInBuffer(buf, time)`: the timestamp at byte 68. */
  method SetTimeInBuffer(buf: array<byte>, time: int)
    requires TimeOffset + 4 <= buf.Length && IsInt32(time)
    modifies buf
    ensures buf[..] == WriteInt32LE(old(buf[..]), time, TimeOffset)
  {
    StoreInt32LE(buf, time, TimeOffset);
  }

  // ---------------------------------------------------------------------------
  // cmpbufs

  /** The comparison of bytes i-1 down to 0: the difference at the highest index where the
      buffers differ, or 0. */
  function CmpFrom(a: seq<byte>, b: seq<byte>, i: nat): int
    requires i <= |a| && i <= |b|
  {
    if i == 0 then 0
    else if a[i - 1] != b[i - 1] then a[i - 1] as int - b[i - 1] as int
    else CmpFrom(a, b, i - 1)
  }

  /** `cmpbufs(a, b)` on two buffers of at least 32 bytes. */
  function CmpBufs(a: seq<byte>, b: seq<byte>): int
    requires HashSize <= |a| && HashSize <= |b|
  {
    CmpFrom(a, b, HashSize)
  }

  /** The loop of `cmpbufs`, from byte 31 down to byte 0. */
  method CompareBuffers(a: seq<byte>, b: seq<byte>) returns (d: int)
    requires HashSize <= |a| && HashSize <= |b|
    ensures d == CmpBufs(a, b)
  {
    var i: int := HashSize as int - 1;
    while i >= 0
      invariant -1 <= i < HashSize
      invariant CmpBufs(a, b) == CmpFrom(a, b, i + 1)
    {
      if a[i] != b[i] {
        return a[i] as int - b[i] as int;
      }
      i := i - 1;
    }
    return 0;
  }

  /** The number the first i bytes denote, least significant byte first. */
  function LEValue(a: seq<byte>, i: nat): nat
    requires i <= |a|
  {
    if i == 0 then 0 else a[i - 1] as nat * Pow256(i - 1) + LEValue(a, i - 1)
  }

  function Pow256(n: nat): (p: nat)
    ensures p >= 1
  {
    if n == 0 then 1 else 256 * Pow256(n - 1)
  }

  lemma {:induction false} LEValueBound(a: seq<byte>, i: nat)
    requires i <= |a|
    ensures LEValue(a, i) < Pow256(i)
  {
    if i > 0 {
      LEValueBound(a, i - 1);
      var top, p := a[i - 1] as nat, Pow256(i - 1);
      MulMono(top, 255, p);
      assert LEValue(a, i) == top * p + LEValue(a, i - 1);
    }
  }

  lemma MulMono(x: nat, y: nat, p: nat)
    requires x <= y
    ensures x * p <= y * p
  {
    assert y * p - x * p == (y - x) * p;
  }

  /** cmpbufs orders buffers as little-endian numbers of their first i bytes: its sign is the
      sign of the difference of those numbers. */
  lemma {:induction false} CmpFromOrder(a: seq<byte>, b: seq<byte>, i: nat)
    requires i <= |a| && i <= |b|
    ensures CmpFrom(a, b, i) < 0 <==> LEValue(a, i) < LEValue(b, i)
    ensures CmpFrom(a, b, i) == 0 <==> LEValue(a, i) == LEValue(b, i)
  {
    if i > 0 {
      var p := Pow256(i - 1);
      var x, y := a[i - 1] as nat, b[i - 1] as nat;
      var la, lb := LEValue(a, i - 1), LEValue(b, i - 1);
      assert LEValue(a, i) == x * p + la && LEValue(b, i) == y * p + lb;
      if x == y {
        CmpFromOrder(a, b, i - 1);
      } else {
        LEValueBound(a, i - 1);
        LEValueBound(b, i - 1);
        if x < y {
          TopByteDecides(x, y, p, la, lb);
        } else {
          TopByteDecides(y, x, p, lb, la);
        }
      }
    }
  }

  /** A smaller top byte makes a smaller number, whatever the lower bytes. */
  lemma TopByteDecides(x: nat, y: nat, p: nat, la: nat, lb: nat)
    requires x < y && la < p && lb < p
    ensures x * p + la < y * p + lb
  {
    MulMono(x + 1, y, p);
  }

  /** cmpbufs is 0 exactly when the first 32 bytes agree. */
  lemma {:induction false} CmpFromZero(a: seq<byte>, b: seq<byte>, i: nat)
    requires i <= |a| && i <= |b|
    ensures CmpFrom(a, b, i) == 0 <==> a[..i] == b[..i]
  {
    if i > 0 {
      CmpFromZero(a, b, i - 1);
      assert a[..i] == a[..i - 1] + [a[i - 1]] && b[..i] == b[..i - 1] + [b[i - 1]];
      if a[..i] == b[..i] {
        assert a[..i - 1] == a[..i][..i - 1] && b[..i - 1] == b[..i][..i - 1];
        assert a[i - 1] == a[..i][i - 1];
      }
    }
  }

  /** Swapping the arguments flips the sign: cmpbufs(b, a) == -cmpbufs(a, b). */
  lemma {:induction false} CmpFromSwap(a: seq<byte>, b: seq<byte>, i: nat)
    requires i <= |a| && i <= |b|
    ensures CmpFrom(b, a, i) == -CmpFrom(a, b, i)
  {
    if i > 0 {
      CmpFromSwap(a, b, i - 1);
    }
  }

  /** Bytes from index i on play no part. */
  lemma {:induction false} CmpFromPrefix(a: seq<byte>, b: seq<byte>, i: nat, n: nat)
    requires i <= n <= |a| && n <= |b|
    ensures CmpFrom(a, b, i) == CmpFrom(a[..n], b[..n], i)
  {
    if i > 0 {
      CmpFromPrefix(a, b, i - 1, n);
    }
  }

  /** A non-zero result is the byte difference at the highest index where the buffers
      differ; every byte above that index agrees. */
  lemma {:induction false} CmpFromMismatch(a: seq<byte>, b: seq<byte>, i: nat) returns (j: nat)
    requires i <= |a| && i <= |b| && CmpFrom(a, b, i) != 0
    ensures j < i && a[j] != b[j] && CmpFrom(a, b, i) == a[j] as int - b[j] as int
    ensures forall k :: j < k < i ==> a[k] == b[k]
  {
    if a[i - 1] != b[i - 1] {
      j := i - 1;
    } else {
      j := CmpFromMismatch(a, b, i - 1);
    }
  }

  /** The facts about cmpbufs itself. */
  lemma CmpBufsFacts(a: seq<byte>, b: seq<byte>)
    requires HashSize <= |a| && HashSize <= |b|
    ensures CmpBufs(a, a) == 0
    ensures CmpBufs(b, a) == -CmpBufs(a, b)
    ensures CmpBufs(a, b) == 0 <==> a[..HashSize] == b[..HashSize]
    ensures CmpBufs(a, b) < 0 <==> LEValue(a, HashSize) < LEValue(b, HashSize)
    ensures CmpBufs(a, b) == CmpBufs(a[..HashSize], b[..HashSize])
  {
    CmpFromZero(a, a, HashSize);
    CmpFromSwap(a, b, HashSize);
    CmpFromZero(a, b, HashSize);
    CmpFromOrder(a, b, HashSize);
    CmpFromPrefix(a, b, HashSize, HashSize);
  }

  /** cmpbufs is transitive: a < b <= c gives a < c, and a <= b <= c gives a <= c. */
  lemma CmpBufsTransitive(a: seq<byte>, b: seq<byte>, c: seq<byte>)
    requires HashSize <= |a| && HashSize <= |b| && HashSize <= |c|
    requires CmpBufs(a, b) <= 0 && CmpBufs(b, c) <= 0
    ensures CmpBufs(a, c) <= 0
    ensures CmpBufs(a, b) < 0 || CmpBufs(b, c) < 0 ==> CmpBufs(a, c) < 0
  {
    CmpFromOrder(a, b, HashSize);
    CmpFromOrder(b, c, HashSize);
    CmpFromOrder(a, c, HashSize);
  }

  // ---------------------------------------------------------------------------
  // performPoW

  /** A digest of `hash256`: 32 bytes. */
  type Digest = d: seq<byte> | |d| == HashSize witness seq(32, _ => 0 as byte)

  /** The hash of the header buffer with the given timestamp and nonce stored in it. */
  function HashAt(hash256: seq<byte> -> Digest, buf: seq<byte>, time: int, nonce: int): Digest
    requires HeaderBytes <= |buf|
  {
    hash256(Stamped(buf, time, nonce))
  }

  /** `performPoW(buf, tgtbuf)`, with the deadline replaced by at most `bound` nonces after
      the first.  It stores nonce 0 and the start time, hashes, and while the hash is not
      below the target moves to the next nonce, storing it and hashing again.  `lowest` is
      the smallest hash that was checked against it (the loop's progress report) and
      `solved` the final verdict. */
  method PerformPoW(buf: array<byte>, tgt: seq<byte>, hash256: seq<byte> -> Digest, start: int,
                    bound: nat)
    returns (hash: Digest, nonce: nat, time: int, lowest: Digest, solved: bool, ghost lowestAt: nat)
    requires HeaderBytes <= buf.Length && HashSize <= |tgt|
    requires IsInt32(start) && IsInt32(bound)
    modifies buf
    ensures time == start && nonce <= bound
    ensures buf[..] == Stamped(old(buf[..]), start, nonce) && hash == hash256(buf[..])
    ensures solved <==> CmpBufs(hash, tgt) < 0
    ensures solved || nonce == bound
    ensures forall n :: 0 <= n < nonce ==> CmpBufs(HashAt(hash256, old(buf[..]), start, n), tgt) >= 0
    ensures lowestAt <= nonce && (lowestAt < nonce || lowestAt == 0)
    ensures lowest == HashAt(hash256, old(buf[..]), start, lowestAt)
    ensures forall n :: 0 <= n < nonce ==> CmpBufs(lowest, HashAt(hash256, old(buf[..]), start, n)) <= 0
  {
    ghost var b0 := buf[..];
    nonce := 0;
    time := start;
    StampStart(buf, time);
    hash := hash256(buf[..]);
    lowest := hash;
    lowestAt := 0;
    var c := CompareBuffers(hash, tgt);
    while nonce < bound && c >= 0
      invariant nonce <= bound && |buf[..]| == |b0|
      invariant buf[..] == Stamped(b0, start, nonce) && hash == hash256(buf[..])
      invariant c == CmpBufs(hash, tgt)
      invariant forall n :: 0 <= n < nonce ==> CmpBufs(HashAt(hash256, b0, start, n), tgt) >= 0
      invariant lowestAt <= nonce && (lowestAt < nonce || lowestAt == 0)
      invariant lowest == HashAt(hash256, b0, start, lowestAt)
      invariant forall n :: 0 <= n < nonce ==> CmpBufs(lowest, HashAt(hash256, b0, start, n)) <= 0
      decreases bound - nonce
    {
      lowest, lowestAt := Progress(hash256, b0, start, nonce, hash, lowest, lowestAt);
      nonce := nonce + 1;
      SetNonceInBuffer(buf, nonce);
      WriteTwice(WriteInt32LE(b0, start, TimeOffset), nonce - 1, nonce, NonceOffset);
      hash := hash256(buf[..]);
      c := CompareBuffers(hash, tgt);
    }
    solved := c < 0;
  }

  /** The first two stores of `performPoW`: nonce 0, then the start time. */
  method StampStart(buf: array<byte>, time: int)
    requires HeaderBytes <= buf.Length && IsInt32(time)
    modifies buf
    ensures buf[..] == Stamped(old(buf[..]), time, 0)
  {
    ghost var b0 := buf[..];
    SetNonceInBuffer(buf, 0);
    SetTimeInBuffer(buf, time);
    WritesCommute(b0, time, TimeOffset, 0, NonceOffset);
  }

  /** The progress check at the top of the search loop: a strictly smaller hash replaces
      `lowest`, which then stays a minimum of the hashes seen, nonce n included. */
  method Progress(hash256: seq<byte> -> Digest, ghost b0: seq<byte>, start: int, n: nat, hash: Digest,
                  lowest: Digest, ghost lowestAt: nat)
    returns (lowest': Digest, ghost lowestAt': nat)
    requires HeaderBytes <= |b0| && hash == HashAt(hash256, b0, start, n)
    requires lowestAt <= n && lowest == HashAt(hash256, b0, start, lowestAt)
    requires forall k :: 0 <= k < n ==> CmpBufs(lowest, HashAt(hash256, b0, start, k)) <= 0
    ensures lowestAt' <= n && lowest' == HashAt(hash256, b0, start, lowestAt')
    ensures lowest' == (if CmpBufs(hash, lowest) < 0 then hash else lowest)
    ensures forall k :: 0 <= k <= n ==> CmpBufs(lowest', HashAt(hash256, b0, start, k)) <= 0
  {
    var d := CompareBuffers(hash, lowest);
    CmpBufsFacts(hash, lowest);
    if d < 0 {
      lowest', lowestAt' := hash, n;
      forall k | 0 <= k < n
        ensures CmpBufs(lowest', HashAt(hash256, b0, start, k)) <= 0
      {
        CmpBufsTransitive(hash, lowest, HashAt(hash256, b0, start, k));
      }
    } else {
      lowest', lowestAt' := lowest, lowestAt;
    }
  }
}
