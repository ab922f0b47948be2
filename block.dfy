/**
 * block.js: the 80-byte block header and the block layout over the hex codec, the in-place
 * nonce and time writes on a header buffer, the 32-byte hash comparison `cmpbufs`, and the
 * proof-of-work search loop with the hash function as a parameter.
 */
module Blocks {

  import opened Wrappers
  import opened JsText
  import opened HexCodec
  import opened Transactions

  // ---------------------------------------------------------------------------
  // The header on the wire

  datatype HeaderData = HeaderData(version: nat, prevBlock: string, merkleRoot: string,
                                   timestamp: nat, bits: nat, nonce: nat)

  /** A header is 80 bytes: 160 hex characters. */
  const HeaderSize: nat := 160

  /** Byte offsets of the header fields, as the comments in decode give them. */
  const PrevBlockOffset: nat := 4
  const MerkleRootOffset: nat := 36
  const TimeOffset: nat := 68
  const BitsOffset: nat := 72
  const NonceOffset: nat := 76

  /** `BlockHeader.decode`: version, previous block hash, merkle root, timestamp, bits, nonce.
      The two hashes are taken as they stand (`next` without a byte swap). */
  function ReadHeader(r: string): Option<Parsed<HeaderData>>
  {
    match ReadInt(r, SzHex32)
    case None => None
    case Some(version) =>
    match ReadText(version.rest, SzHex256, false)
    case None => None
    case Some(prevBlock) =>
    match ReadText(prevBlock.rest, SzHex256, false)
    case None => None
    case Some(merkleRoot) =>
    match ReadInt(merkleRoot.rest, SzHex32)
    case None => None
    case Some(timestamp) =>
    match ReadInt(timestamp.rest, SzHex32)
    case None => None
    case Some(bits) =>
    match ReadInt(bits.rest, SzHex32)
    case None => None
    case Some(nonce) =>
    Some(Parsed(HeaderData(version.value, prevBlock.value, merkleRoot.value, timestamp.value,
                           bits.value, nonce.value), nonce.rest))
  }

  /** What `BlockHeader.encode` appends. */
  function HeaderText(h: HeaderData): string
  {
    IntText(SzHex32, h.version) + h.prevBlock + h.merkleRoot + IntText(SzHex32, h.timestamp) +
    IntText(SzHex32, h.bits) + IntText(SzHex32, h.nonce)
  }

  /** The headers encode writes in a form decode reads back. */
  predicate CanonicalHeader(h: HeaderData)
  {
    h.version < Max32 && |h.prevBlock| == SzHex256 && |h.merkleRoot| == SzHex256 &&
    h.timestamp < Max32 && h.bits < Max32 && h.nonce < Max32
  }

  /** The fields of a header, read in wire order; r1..r5 are what is left after each. */
  lemma ReadHeaderSteps(r: string) returns (r1: string, r2: string, r3: string, r4: string, r5: string)
    requires ReadHeader(r).Some?
    ensures var p := ReadHeader(r).value; var h := p.value;
      ReadInt(r, SzHex32) == Some(Parsed(h.version, r1)) &&
      ReadText(r1, SzHex256, false) == Some(Parsed(h.prevBlock, r2)) &&
      ReadText(r2, SzHex256, false) == Some(Parsed(h.merkleRoot, r3)) &&
      ReadInt(r3, SzHex32) == Some(Parsed(h.timestamp, r4)) &&
      ReadInt(r4, SzHex32) == Some(Parsed(h.bits, r5)) &&
      ReadInt(r5, SzHex32) == Some(Parsed(h.nonce, p.rest))
  {
    r1 := ReadInt(r, SzHex32).value.rest;
    r2 := ReadText(r1, SzHex256, false).value.rest;
    r3 := ReadText(r2, SzHex256, false).value.rest;
    r4 := ReadInt(r3, SzHex32).value.rest;
    r5 := ReadInt(r4, SzHex32).value.rest;
  }

  /** ReadHeader, step by step. */
  lemma ReadHeaderParts(r: string, h: HeaderData, r1: string, r2: string, r3: string, r4: string,
                        r5: string, rest: string)
    requires ReadInt(r, SzHex32) == Some(Parsed(h.version, r1))
    requires ReadText(r1, SzHex256, false) == Some(Parsed(h.prevBlock, r2))
    requires ReadText(r2, SzHex256, false) == Some(Parsed(h.merkleRoot, r3))
    requires ReadInt(r3, SzHex32) == Some(Parsed(h.timestamp, r4))
    requires ReadInt(r4, SzHex32) == Some(Parsed(h.bits, r5))
    requires ReadInt(r5, SzHex32) == Some(Parsed(h.nonce, rest))
    ensures ReadHeader(r) == Some(Parsed(h, rest))
  {
  }

  /** The little-endian 32-bit field at byte offset `offset` of a header text. */
  function FieldAt(r: string, offset: nat): nat
    requires 2 * offset + SzHex32 <= |r| && AllHex(r[2 * offset..2 * offset + SzHex32])
  {
    SwapPairsHex(r[2 * offset..2 * offset + SzHex32]);
    HexValue(SwapPairs(r[2 * offset..2 * offset + SzHex32]))
  }

  /** decode consumes exactly 160 characters and takes each field from its byte offset:
      version at 0, the hashes at 4 and 36, timestamp, bits and nonce at 68, 72 and 76. */
  lemma HeaderLayout(r: string)
    requires ReadHeader(r).Some?
    ensures HeaderSize <= |r| && ReadHeader(r).value.rest == r[HeaderSize..]
    ensures var h := ReadHeader(r).value.value;
      h.prevBlock == r[2 * PrevBlockOffset..2 * MerkleRootOffset] &&
      h.merkleRoot == r[2 * MerkleRootOffset..2 * TimeOffset] &&
      AllHex(r[..SzHex32]) && h.version == FieldAt(r, 0) &&
      AllHex(r[2 * TimeOffset..2 * BitsOffset]) && h.timestamp == FieldAt(r, TimeOffset) &&
      AllHex(r[2 * BitsOffset..2 * NonceOffset]) && h.bits == FieldAt(r, BitsOffset) &&
      AllHex(r[2 * NonceOffset..HeaderSize]) && h.nonce == FieldAt(r, NonceOffset)
  {
    var r1, r2, r3, r4, r5 := ReadHeaderSteps(r);
    ReadIntLayout(r, SzHex32);
    assert r1 == r[8..];
    assert r2 == r[72..];
    assert r3 == r[136..];
    ReadIntLayout(r3, SzHex32);
    assert r4 == r[144..] && r3[..8] == r[136..144];
    ReadIntLayout(r4, SzHex32);
    assert r5 == r[152..] && r4[..8] == r[144..152];
    ReadIntLayout(r5, SzHex32);
    assert r5[..8] == r[152..160] && r5[8..] == r[160..];
    assert r[..SzHex32] == r[0..8];
  }

  /** decode(encode(h)) == h, and the cursor ends just past the 160 characters. */
  lemma HeaderRoundTrip(h: HeaderData, rest: string)
    requires CanonicalHeader(h)
    ensures |HeaderText(h)| == HeaderSize
    ensures ReadHeader(HeaderText(h) + rest) == Some(Parsed(h, rest))
  {
    Max32Pow();
    var vT, tT, bT, nT := IntText(SzHex32, h.version), IntText(SzHex32, h.timestamp),
      IntText(SzHex32, h.bits), IntText(SzHex32, h.nonce);
    IntTextLayout(SzHex32, h.version);
    IntTextLayout(SzHex32, h.timestamp);
    IntTextLayout(SzHex32, h.bits);
    IntTextLayout(SzHex32, h.nonce);
    var r5 := nT + rest;
    var r4 := bT + r5;
    var r3 := tT + r4;
    var r2 := h.merkleRoot + r3;
    var r1 := h.prevBlock + r2;
    AppendAssoc7(vT, h.prevBlock, h.merkleRoot, tT, bT, nT, rest);
    assert HeaderText(h) + rest == vT + r1;
    IntRoundTrip(SzHex32, h.version, r1);
    TextRoundTrip(h.prevBlock, r2);
    TextRoundTrip(h.merkleRoot, r3);
    IntRoundTrip(SzHex32, h.timestamp, r4);
    IntRoundTrip(SzHex32, h.bits, r5);
    IntRoundTrip(SzHex32, h.nonce, rest);
    ReadHeaderParts(vT + r1, h, r1, r2, r3, r4, r5, rest);
  }

  /** encode(decode(x)) == x for a lower-case header: re-encoding gives back the 160
      characters decode read, since a header holds no varint. */
  lemma HeaderReencode(r: string)
    requires ReadHeader(r).Some? && LowerHex(r)
    ensures HeaderText(ReadHeader(r).value.value) + ReadHeader(r).value.rest == r
  {
    var h, rest := ReadHeader(r).value.value, ReadHeader(r).value.rest;
    var r1, r2, r3, r4, r5 := ReadHeaderSteps(r);
    IntCovers(r, SzHex32, h.version, r1);
    TextCovers(r1, SzHex256, h.prevBlock, r2);
    TextCovers(r2, SzHex256, h.merkleRoot, r3);
    IntCovers(r3, SzHex32, h.timestamp, r4);
    IntCovers(r4, SzHex32, h.bits, r5);
    IntCovers(r5, SzHex32, h.nonce, rest);
    var t1 := IntText(SzHex32, h.version);
    var t2 := t1 + h.prevBlock;
    var t3 := t2 + h.merkleRoot;
    var t4 := t3 + IntText(SzHex32, h.timestamp);
    var t5 := t4 + IntText(SzHex32, h.bits);
    CoversChain(t1, h.prevBlock, r, r1, r2);
    CoversChain(t2, h.merkleRoot, r, r2, r3);
    CoversChain(t3, IntText(SzHex32, h.timestamp), r, r3, r4);
    CoversChain(t4, IntText(SzHex32, h.bits), r, r4, r5);
    CoversChain(t5, IntText(SzHex32, h.nonce), r, r5, rest);
    HeaderLayout(r);
    IntTextLayout(SzHex32, h.version);
    IntTextLayout(SzHex32, h.timestamp);
    IntTextLayout(SzHex32, h.bits);
    IntTextLayout(SzHex32, h.nonce);
  }

  // ---------------------------------------------------------------------------
  // The block on the wire

  datatype BlockData = BlockData(header: HeaderData, vtx: seq<TxData>)

  /** `Block.decode`: the header, a varint count, then that many transactions. */
  function ReadBlock(r: string): Option<Parsed<BlockData>>
  {
    match ReadHeader(r)
    case None => None
    case Some(header) =>
    match ReadVarInt(header.rest)
    case None => None
    case Some(count) =>
    match ReadMany(ReadTx, count.rest, count.value)
    case None => None
    case Some(vtx) =>
    Some(Parsed(BlockData(header.value, vtx.value), vtx.rest))
  }

  /** The records' encodings one after the other. */
  function Concat<T>(text: T -> string, vs: seq<T>): string
  {
    if vs == [] then "" else text(vs[0]) + Concat(text, vs[1..])
  }

  /** What `Block.encode` returns: header, `writeVarInt(vtx.length)`, each transaction. */
  function BlockText(b: BlockData): string
  {
    HeaderText(b.header) + VarIntText(|b.vtx|) + Concat(TxText, b.vtx)
  }

  /** The blocks encode writes in a form decode reads back: the count below 0xfd. */
  predicate CanonicalBlock(b: BlockData)
  {
    CanonicalHeader(b.header) && |b.vtx| < 0xfd &&
    forall k :: 0 <= k < |b.vtx| ==> Canonical(b.vtx[k])
  }

  /** A record `read` takes back from its own text, whatever follows it. */
  ghost predicate ReadsBack<T>(read: string -> Option<Parsed<T>>, text: T -> string, v: T)
  {
    forall rest :: read(text(v) + rest) == Some(Parsed(v, rest))
  }

  /** Records that each read back from their own text read back as a list from the
      concatenated text. */
  lemma {:induction false} ManyRoundTrip<T>(read: string -> Option<Parsed<T>>, text: T -> string,
                                            vs: seq<T>, rest: string)
    requires forall k :: 0 <= k < |vs| ==> ReadsBack(read, text, vs[k])
    ensures ReadMany(read, Concat(text, vs) + rest, |vs|) == Some(Parsed(vs, rest))
  {
    if vs == [] {
      assert Concat(text, vs) + rest == rest;
    } else {
      var tail := Concat(text, vs[1..]) + rest;
      assert Concat(text, vs) + rest == text(vs[0]) + tail;
      assert ReadsBack(read, text, vs[0]);
      assert read(text(vs[0]) + tail) == Some(Parsed(vs[0], tail));
      ManyRoundTrip(read, text, vs[1..], rest);
      assert [vs[0]] + vs[1..] == vs;
      ManyPrepend(read, text(vs[0]) + tail, |vs| - 1, vs[0], tail, vs[1..], rest);
    }
  }

  lemma {:induction false} ConcatSnoc<T>(text: T -> string, vs: seq<T>, v: T)
    ensures Concat(text, vs + [v]) == Concat(text, vs) + text(v)
  {
    if vs == [] {
      assert [] + [v] == [v];
      assert Concat(text, [v]) == text(v) + Concat(text, []);
    } else {
      assert (vs + [v])[1..] == vs[1..] + [v];
      ConcatSnoc(text, vs[1..], v);
      AppendAssoc3(text(vs[0]), Concat(text, vs[1..]), text(v));
    }
  }

  /** Canonical transactions, one after another, decode back to themselves. */
  lemma TxsRoundTrip(vtx: seq<TxData>, rest: string)
    requires forall k :: 0 <= k < |vtx| ==> Canonical(vtx[k])
    ensures ReadMany(ReadTx, Concat(TxText, vtx) + rest, |vtx|) == Some(Parsed(vtx, rest))
  {
    forall k | 0 <= k < |vtx|
      ensures ReadsBack(ReadTx, TxText, vtx[k])
    {
      forall tail: string
        ensures ReadTx(TxText(vtx[k]) + tail) == Some(Parsed(vtx[k], tail))
      {
        TxRoundTrip(vtx[k], tail);
      }
    }
    ManyRoundTrip(ReadTx, TxText, vtx, rest);
  }

  /** decode(encode(b)) == b for a block of fewer than 0xfd canonical transactions. */
  lemma BlockRoundTrip(b: BlockData, rest: string)
    requires CanonicalBlock(b)
    ensures ReadBlock(BlockText(b) + rest) == Some(Parsed(b, rest))
  {
    var hT, cT, tT := HeaderText(b.header), VarIntText(|b.vtx|), Concat(TxText, b.vtx);
    var r2 := tT + rest;
    var r1 := cT + r2;
    assert BlockText(b) == hT + cT + tT;
    AppendAssocRest(hT, cT, tT, rest);
    HeaderRoundTrip(b.header, r1);
    VarIntShortRoundTrip(|b.vtx|, r2);
    TxsRoundTrip(b.vtx, rest);
    ReadBlockParts(hT + r1, b, r1, r2, rest);
  }

  lemma AppendAssocRest(a: string, b: string, c: string, rest: string)
    ensures a + b + c + rest == a + (b + (c + rest))
  {
    assert a + b + c + rest == (a + b) + (c + rest);
  }

  /** The text encode produced, and nothing after it, decodes to the block. */
  lemma ExactBlockRoundTrip(b: BlockData)
    requires CanonicalBlock(b)
    ensures ReadBlock(BlockText(b)) == Some(Parsed(b, ""))
  {
    BlockRoundTrip(b, "");
    assert BlockText(b) + "" == BlockText(b);
  }

  /** ReadBlock, step by step. */
  lemma ReadBlockParts(r: string, b: BlockData, r1: string, r2: string, rest: string)
    requires ReadHeader(r) == Some(Parsed(b.header, r1))
    requires ReadVarInt(r1) == Some(Parsed(|b.vtx| as nat, r2))
    requires ReadMany(ReadTx, r2, |b.vtx|) == Some(Parsed(b.vtx, rest))
    ensures ReadBlock(r) == Some(Parsed(b, rest))
  {
  }

  /** The parts of a block, read in wire order. */
  lemma ReadBlockSteps(r: string) returns (r1: string, r2: string)
    requires ReadBlock(r).Some?
    ensures var p := ReadBlock(r).value; var b := p.value;
      ReadHeader(r) == Some(Parsed(b.header, r1)) &&
      ReadVarInt(r1) == Some(Parsed(|b.vtx| as nat, r2)) &&
      ReadMany(ReadTx, r2, |b.vtx|) == Some(Parsed(b.vtx, p.rest))
  {
    r1 := ReadHeader(r).value.rest;
    r2 := ReadVarInt(r1).value.rest;
  }

  /** The transaction area of a block text: what follows the header and the count. */
  function TxsArea(r: string): (area: string)
    requires ReadBlock(r).Some?
    ensures |area| <= |r|
  {
    ReadVarInt(ReadHeader(r).value.rest).value.rest
  }

  // ---------------------------------------------------------------------------
  // The objects

  class BlockHeader {
    var version: nat
    var prevBlock: string
    var merkleRoot: string
    var timestamp: nat
    var bits: nat
    var nonce: nat
    var hex: string

    function Data(): HeaderData
      reads this
    {
      HeaderData(version, prevBlock, merkleRoot, timestamp, bits, nonce)
    }

    /** `new BlockHeader()`: no text, so nothing is decoded.  The fields JavaScript leaves
        undefined start as zero and the empty string here. */
    constructor Empty()
      ensures hex == "" && Data() == HeaderData(0, "", "", 0, 0, 0)
    {
      version, prevBlock, merkleRoot, timestamp, bits, nonce := 0, "", "", 0, 0, 0;
      hex := "";
    }

    /** `new BlockHeader(hex)`: decodes the text with a parser of its own. */
    constructor FromHex(hex: string)
      requires ReadHeader(hex).Some?
      ensures this.hex == hex && Data() == ReadHeader(hex).value.value
    {
      this.hex := hex;
      new;
      Decode(null);
    }

    /** `decode(p)`; with no parser it decodes `this.hex`. */
    method Decode(p0: Parser?)
      requires p0 == null ==> ReadHeader(hex).Some?
      requires p0 != null ==> p0.i <= |p0.s| && ReadHeader(p0.Rest()).Some?
      modifies this, p0
      ensures hex == old(hex)
      ensures p0 == null ==> Data() == ReadHeader(hex).value.value
      ensures p0 != null ==> p0.i <= |p0.s| && ReadHeader(old(p0.Rest())) == Some(Parsed(Data(), p0.Rest()))
      ensures p0 != null ==> old(p0.i) <= p0.i && p0.storageContexts == old(p0.storageContexts)
    {
      if p0 == null {
        var p := new Parser(hex);
        DecodeFields(p);
      } else {
        DecodeFields(p0);
      }
    }

    /** The six field reads of `decode`, in wire order. */
    method DecodeFields(p: Parser)
      requires p.i <= |p.s| && ReadHeader(p.Rest()).Some?
      modifies this`version, this`prevBlock, this`merkleRoot, this`timestamp, this`bits,
        this`nonce, p`i
      ensures old(p.i) <= p.i <= |p.s| && ReadHeader(old(p.Rest())) == Some(Parsed(Data(), p.Rest()))
    {
      ghost var x0 := p.Rest();
      ghost var parsed := ReadHeader(x0).value;
      ghost var x1, x2, x3, x4, x5 := ReadHeaderSteps(x0);
      DecodeInOrder(p, parsed.value, x1, x2, x3, x4, x5, parsed.rest);
    }

    /** The reads of `decode` one after the other, each from where the previous one stopped. */
    method DecodeInOrder(p: Parser, ghost h: HeaderData, ghost x1: string, ghost x2: string,
                         ghost x3: string, ghost x4: string, ghost x5: string, ghost rest: string)
      requires p.i <= |p.s|
      requires ReadInt(p.Rest(), SzHex32) == Some(Parsed(h.version, x1))
      requires ReadText(x1, SzHex256, false) == Some(Parsed(h.prevBlock, x2))
      requires ReadText(x2, SzHex256, false) == Some(Parsed(h.merkleRoot, x3))
      requires ReadInt(x3, SzHex32) == Some(Parsed(h.timestamp, x4))
      requires ReadInt(x4, SzHex32) == Some(Parsed(h.bits, x5))
      requires ReadInt(x5, SzHex32) == Some(Parsed(h.nonce, rest))
      modifies this`version, this`prevBlock, this`merkleRoot, this`timestamp, this`bits,
        this`nonce, p`i
      ensures old(p.i) <= p.i <= |p.s| && p.Rest() == rest && Data() == h
    {
      var v, prev, root := DecodeFront(p, h.version, x1, h.prevBlock, x2, h.merkleRoot, x3);
      var time, target, n := DecodeBack(p, h.timestamp, x4, h.bits, x5, h.nonce, rest);
      version, prevBlock, merkleRoot, timestamp, bits, nonce := v, prev, root, time, target, n;
    }

    /** `encode(s)`: appends the 160 characters to the given serializer (a new one when none
        is given) and returns everything it holds. */
    method Encode(s0: Serializer?) returns (out: string)
      modifies s0
      ensures s0 != null ==> s0.s == old(s0.s) + HeaderText(Data()) && out == s0.s
      ensures s0 == null ==> out == HeaderText(Data())
    {
      if s0 == null {
        var s := new Serializer();
        EncodeFields(s);
        assert s.s == "" + HeaderText(Data());
        out := s.s;
      } else {
        EncodeFields(s0);
        out := s0.s;
      }
    }

    /** The field writes of `encode`, in wire order. */
    method EncodeFields(s: Serializer)
      modifies s
      ensures s.s == old(s.s) + HeaderText(Data())
    {
      ghost var s00 := s.s;
      s.WriteInt(SzHex32, version);
      s.Write(prevBlock, false);
      s.Write(merkleRoot, false);
      s.WriteInt(SzHex32, timestamp);
      s.WriteInt(SzHex32, bits);
      s.WriteInt(SzHex32, nonce);
      AppendAssocHead7(s00, IntText(SzHex32, version), prevBlock, merkleRoot, IntText(SzHex32, timestamp),
        IntText(SzHex32, bits), IntText(SzHex32, nonce));
    }
  }

  /** `p.next(SZ_HEX256)`: a hash, taken as it stands. */
  method NextHash(p: Parser) returns (t: string)
    requires p.i <= |p.s| && ReadText(p.Rest(), SzHex256, false).Some?
    modifies p`i
    ensures old(p.i) <= p.i <= |p.s| && ReadText(old(p.Rest()), SzHex256, false) == Some(Parsed(t, p.Rest()))
  {
    t := p.Next(SzHex256, false);
  }

  /** Version, previous block hash and merkle root. */
  method DecodeFront(p: Parser, ghost version: nat, ghost x1: string, ghost prevBlock: string,
                     ghost x2: string, ghost merkleRoot: string, ghost x3: string)
    returns (v: nat, prev: string, root: string)
    requires p.i <= |p.s|
    requires ReadInt(p.Rest(), SzHex32) == Some(Parsed(version, x1))
    requires ReadText(x1, SzHex256, false) == Some(Parsed(prevBlock, x2))
    requires ReadText(x2, SzHex256, false) == Some(Parsed(merkleRoot, x3))
    modifies p`i
    ensures old(p.i) <= p.i <= |p.s| && p.Rest() == x3
    ensures v == version && prev == prevBlock && root == merkleRoot
  {
    v := p.NextInt(SzHex32);
    prev := NextHash(p);
    root := NextHash(p);
  }

  /** Timestamp, bits and nonce. */
  method DecodeBack(p: Parser, ghost timestamp: nat, ghost x4: string, ghost bits: nat,
                    ghost x5: string, ghost nonce: nat, ghost rest: string)
    returns (time: nat, target: nat, n: nat)
    requires p.i <= |p.s|
    requires ReadInt(p.Rest(), SzHex32) == Some(Parsed(timestamp, x4))
    requires ReadInt(x4, SzHex32) == Some(Parsed(bits, x5))
    requires ReadInt(x5, SzHex32) == Some(Parsed(nonce, rest))
    modifies p`i
    ensures old(p.i) <= p.i <= |p.s| && p.Rest() == rest
    ensures time == timestamp && target == bits && n == nonce
  {
    time := p.NextInt(SzHex32);
    target := p.NextInt(SzHex32);
    n := p.NextInt(SzHex32);
  }

  /** The decoded fields of a list of transaction objects. */
  function TxsData(ts: seq<Transaction>): (d: seq<TxData>)
    reads ts
    ensures |d| == |ts|
  {
    if ts == [] then [] else TxsData(ts[..|ts| - 1]) + [ts[|ts| - 1].Data()]
  }

  /** The texts the transaction objects keep, one after the other. */
  function TxHexes(ts: seq<Transaction>): string
    reads ts
  {
    if ts == [] then "" else TxHexes(ts[..|ts| - 1]) + ts[|ts| - 1].hex
  }

  /** The transaction objects tile r up to rest: the first one's hex is exactly the text
      `ReadTx` consumes at the start of r and it holds what was read there, and the others
      tile what follows. */
  predicate Tiles(read: string -> Option<Parsed<TxData>>, ts: seq<Transaction>, r: string, rest: string)
    reads ts
    decreases |ts|
  {
    if ts == [] then r == rest
    else
      match read(r)
      case None => false
      case Some(pr) => pr.value == ts[0].Data() && ts[0].hex + pr.rest == r && Tiles(read, ts[1..], pr.rest, rest)
  }

  /** A transaction read at the end of a tiling extends it. */
  lemma {:induction false} TilesSnoc(read: string -> Option<Parsed<TxData>>, ts: seq<Transaction>, t: Transaction,
                                     r: string, cur: string, cur': string)
    requires Tiles(read, ts, r, cur) && read(cur) == Some(Parsed(t.Data(), cur')) && t.hex + cur' == cur
    ensures Tiles(read, ts + [t], r, cur')
    decreases |ts|
  {
    if ts == [] {
      assert [t][1..] == [];
    } else {
      var pr := read(r).value;
      TilesSnoc(read, ts[1..], t, pr.rest, cur, cur');
      assert (ts + [t])[1..] == ts[1..] + [t];
    }
  }

  class Block {
    var hex: string
    var header: BlockHeader
    var vtx: seq<Transaction>

    function Data(): BlockData
      reads this, header, vtx
    {
      BlockData(header.Data(), TxsData(vtx))
    }

    /** `new Block(hex)`: a fresh header object, then decode. */
    constructor FromHex(hex: string)
      requires ReadBlock(hex).Some?
      ensures this.hex == hex && fresh(header)
      ensures Data() == ReadBlock(hex).value.value
      ensures TxHexes(vtx) + ReadBlock(hex).value.rest == TxsArea(hex)
      ensures Tiles(ReadTx, vtx, TxsArea(hex), ReadBlock(hex).value.rest)
    {
      this.hex := hex;
      header := new BlockHeader.Empty();
      vtx := [];
      new;
      Decode();
    }

    /** `decode()`: the header through the block's own parser, the count, then each
        transaction through the shared-parser constructor, which keeps its exact text. */
    method Decode()
      requires ReadBlock(hex).Some?
      modifies this, header
      ensures hex == old(hex) && header == old(header)
      ensures Data() == ReadBlock(hex).value.value
      ensures TxHexes(vtx) + ReadBlock(hex).value.rest == TxsArea(hex)
      ensures Tiles(ReadTx, vtx, TxsArea(hex), ReadBlock(hex).value.rest)
    {
      ghost var b := ReadBlock(hex).value;
      ghost var r1, r2 := ReadBlockSteps(hex);
      var p := new Parser(hex);
      DecodeInOrder(p, b.value, r1, r2, b.rest);
    }

    /** The header, the count and the transactions, each from where the previous part
        stopped. */
    method DecodeInOrder(p: Parser, ghost d: BlockData, ghost r1: string, ghost r2: string,
                         ghost rest: string)
      requires p.i <= |p.s|
      requires ReadHeader(p.Rest()) == Some(Parsed(d.header, r1))
      requires ReadVarInt(r1) == Some(Parsed(|d.vtx| as nat, r2))
      requires ReadMany(ReadTx, r2, |d.vtx|) == Some(Parsed(d.vtx, rest))
      modifies this`vtx, header, p
      ensures header == old(header) && Data() == d && Decoded(vtx, r2, |d.vtx|, rest)
    {
      header.Decode(p);
      assert header.Data() == d.header && p.Rest() == r1;
      DecodeBody(p, d.vtx, r2, rest);
    }

    /** The count, then that many transactions, into `vtx`. */
    method DecodeBody(p: Parser, ghost txs: seq<TxData>, ghost r2: string, ghost rest: string)
      requires p.i <= |p.s|
      requires ReadVarInt(p.Rest()) == Some(Parsed(|txs| as nat, r2))
      requires ReadMany(ReadTx, r2, |txs|) == Some(Parsed(txs, rest))
      modifies this`vtx, p
      ensures TxsData(vtx) == txs && Decoded(vtx, r2, |txs|, rest)
    {
      var count := p.NextVarInt();
      vtx := DecodeTxs(p, count);
      DecodedIs(vtx, r2, |txs|, p.Rest(), txs, rest);
    }

    /** `encode()`: header, `writeVarInt(vtx.length)`, then each transaction, on one
        serializer. */
    method Encode() returns (out: string)
      ensures out == BlockText(old(Data()))
    {
      ghost var b := Data();
      var s := new Serializer();
      var _ := header.Encode(s);
      ghost var s1 := s.s;
      assert TxsData(vtx) == b.vtx && s1 == "" + HeaderText(b.header);
      s.WriteVarInt(|vtx|);
      ghost var s2 := s.s;
      assert TxsData(vtx) == b.vtx && s2 == s1 + VarIntText(|b.vtx|);
      WriteTxs(s, vtx);
      out := s.s;
      BlockTextOf(b, b.header, b.vtx, s1, s2, out);
    }
  }

  /** The three appends of `Block.encode` on a fresh serializer give the block text. */
  lemma BlockTextOf(b: BlockData, h: HeaderData, d: seq<TxData>, s1: string, s2: string, out: string)
    requires b == BlockData(h, d)
    requires s1 == "" + HeaderText(h) && s2 == s1 + VarIntText(|d|) && out == s2 + Concat(TxText, d)
    ensures out == BlockText(b)
  {
    assert s1 == HeaderText(h);
  }

  /** What the block's transaction loop knows after j of k turns: the j objects tile r up
      to cur, and k - j more transactions can be read from cur. */
  ghost predicate TxsLoop(r: string, k: nat, j: nat, ts: seq<Transaction>, cur: string)
    reads ts
  {
    j <= k && |ts| == j && Tiles(ReadTx, ts, r, cur) && ReadMany(ReadTx, cur, k - j).Some?
  }

  /** The k transaction objects ts were read from r, leaving rest: their fields are what
      `ReadMany` reads, their texts joined cover r up to rest, and each one's text is the
      exact slice it was read from. */
  ghost predicate Decoded(ts: seq<Transaction>, r: string, k: nat, rest: string)
    reads ts
  {
    ReadMany(ReadTx, r, k) == Some(Parsed(TxsData(ts), rest)) && TxHexes(ts) + rest == r &&
    Tiles(ReadTx, ts, r, rest)
  }

  /** What `ReadMany` reads is all a decoded list can hold. */
  lemma DecodedIs(ts: seq<Transaction>, r: string, k: nat, rest: string, vs: seq<TxData>, rest': string)
    requires Decoded(ts, r, k, rest) && ReadMany(ReadTx, r, k) == Some(Parsed(vs, rest'))
    ensures TxsData(ts) == vs && rest == rest' && Decoded(ts, r, k, rest')
  {
  }

  /** The first object of a list, then the others. */
  lemma {:induction false} TxsCons(ts: seq<Transaction>)
    requires ts != []
    ensures TxsData(ts) == [ts[0].Data()] + TxsData(ts[1..])
    ensures TxHexes(ts) == ts[0].hex + TxHexes(ts[1..])
    decreases |ts|
  {
    var n := |ts|;
    if n == 1 {
      assert ts[1..] == [] && ts[..0] == [];
    } else {
      var init := ts[..n - 1];
      TxsCons(init);
      assert init[0] == ts[0] && init[1..] == ts[1..][..n - 2] && ts[1..][n - 2] == ts[n - 1];
      AppendAssoc3(ts[0].hex, TxHexes(ts[1..][..n - 2]), ts[n - 1].hex);
    }
  }

  /** A tiling joins up: the objects' fields are what `ReadMany` reads from r, and their
      texts, one after the other, are r up to rest. */
  lemma {:induction false} TilesJoined(read: string -> Option<Parsed<TxData>>, ts: seq<Transaction>, r: string, rest: string)
    requires Tiles(read, ts, r, rest)
    ensures ReadMany(read, r, |ts|) == Some(Parsed(TxsData(ts), rest))
    ensures TxHexes(ts) + rest == r
    decreases |ts|
  {
    if ts != [] {
      var pr := read(r).value;
      TilesJoined(read, ts[1..], pr.rest, rest);
      TxsCons(ts);
      AppendAssoc3(ts[0].hex, TxHexes(ts[1..]), rest);
    }
  }

  /** The loop facts before the first turn. */
  lemma LoopStart(r: string, k: nat)
    requires ReadMany(ReadTx, r, k).Some?
    ensures TxsLoop(r, k, 0, [], r)
  {
  }

  /** Before each turn there is one more transaction to read. */
  lemma LoopHasNext(r: string, k: nat, j: nat, ts: seq<Transaction>, cur: string)
    requires j < k && TxsLoop(r, k, j, ts, cur)
    ensures ReadTx(cur).Some?
  {
  }

  /** The loop facts after the last turn. */
  lemma LoopDone(r: string, k: nat, ts: seq<Transaction>, cur: string)
    requires TxsLoop(r, k, k, ts, cur)
    ensures Decoded(ts, r, k, cur)
  {
    TilesJoined(ReadTx, ts, r, cur);
  }

  /** Turn j of the block's transaction loop. */
  method DecodeTxsStep(p: Parser, ghost r: string, k: nat, j: nat, ts: seq<Transaction>,
                       ghost cur: string)
    returns (j': nat, ts': seq<Transaction>, ghost cur': string)
    requires p.i <= |p.s| && cur == p.Rest() && j < k && TxsLoop(r, k, j, ts, cur)
    modifies p
    ensures old(p.i) <= p.i <= |p.s| && cur' == p.Rest() && p.storageContexts == old(p.storageContexts)
    ensures j' == j + 1 && TxsLoop(r, k, j', ts', cur')
  {
    LoopHasNext(r, k, j, ts, cur);
    var t := new Transaction.FromParser(p);
    cur' := p.Rest();
    SliceJoin(p.s, old(p.i), p.i);
    StepFacts(r, k, j, ts, t, cur, cur');
    ts' := ts + [t];
    j' := j + 1;
  }

  /** The loop predicates after one more transaction object. */
  lemma StepFacts(r: string, k: nat, j: nat, ts: seq<Transaction>, t: Transaction, cur: string, cur': string)
    requires j < k && TxsLoop(r, k, j, ts, cur)
    requires ReadTx(cur) == Some(Parsed(t.Data(), cur')) && t.hex + cur' == cur
    ensures TxsLoop(r, k, j + 1, ts + [t], cur')
  {
    TilesSnoc(ReadTx, ts, t, r, cur, cur');
  }


  lemma SliceJoin(s: string, a: nat, b: nat)
    requires a <= b <= |s|
    ensures s[a..b] + s[b..] == s[a..]
  {
  }

  /** The block's transaction loop: k transactions, each through the shared parser. */
  method DecodeTxs(p: Parser, k: nat) returns (ts: seq<Transaction>)
    requires p.i <= |p.s| && ReadMany(ReadTx, p.Rest(), k).Some?
    modifies p
    ensures old(p.i) <= p.i <= |p.s| && p.storageContexts == old(p.storageContexts)
    ensures Decoded(ts, old(p.Rest()), k, p.Rest())
  {
    ghost var r := p.Rest();
    ghost var cur := r;
    ts := [];
    var j := 0;
    LoopStart(r, k);
    while j < k
      invariant old(p.i) <= p.i <= |p.s| && cur == p.Rest() && p.storageContexts == old(p.storageContexts)
      invariant TxsLoop(r, k, j, ts, cur)
      decreases k - j
    {
      j, ts, cur := DecodeTxsStep(p, r, k, j, ts, cur);
    }
    LoopDone(r, k, ts, cur);
  }

  /** The block's encode loop: each transaction appends its own encoding. */
  method WriteTxs(s: Serializer, ts: seq<Transaction>)
    modifies s
    ensures s.s == old(s.s) + Concat(TxText, old(TxsData(ts)))
  {
    ghost var s0 := s.s;
    ghost var d := TxsData(ts);
    var k := 0;
    while k < |ts|
      invariant 0 <= k <= |ts|
      invariant s.s == s0 + Concat(TxText, d[..k])
    {
      TxsDataAt(ts, k);
      var _ := ts[k].Encode(s);
      ConcatStep(TxText, s0, d, k);
      k := k + 1;
    }
    assert d[..|ts|] == d;
  }

  lemma {:induction false} TxsDataAt(ts: seq<Transaction>, k: nat)
    requires k < |ts|
    ensures TxsData(ts)[k] == ts[k].Data()
    decreases |ts|
  {
    if k < |ts| - 1 {
      TxsDataAt(ts[..|ts| - 1], k);
    }
  }

  /** Appending record k to the text of the first k records gives the text of the first k + 1. */
  lemma ConcatStep<T>(text: T -> string, s0: string, d: seq<T>, k: nat)
    requires k < |d|
    ensures s0 + Concat(text, d[..k]) + text(d[k]) == s0 + Concat(text, d[..k + 1])
  {
    assert d[..k + 1] == d[..k] + [d[k]];
    ConcatSnoc(text, d[..k], d[k]);
    AppendAssoc3(s0, Concat(text, d[..k]), text(d[k]));
  }

  /** A block built from text that encode produced decodes to the original, and encoding it
      again gives that text back. */
  method EncodeDecodeRoundTrip(b: BlockData) returns (blk: Block, again: string)
    requires CanonicalBlock(b)
    ensures blk.Data() == b && again == BlockText(b)
  {
    ExactBlockRoundTrip(b);
    blk := new Block.FromHex(BlockText(b));
    again := blk.Encode();
  }
}
