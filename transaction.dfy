/**
 * The legacy (pre-SegWit) transaction layout of transaction.js over the hex codec.
 *
 * `ReadTx` is what `decode` reads from the unread text and `TxText` is what `encode`
 * appends; the `Transaction` class holds the decoded fields and its constructors and
 * methods are specified by these two functions.
 */
module Transactions {

  import opened Wrappers
  import opened JsText
  import opened HexCodec

  datatype Outpoint = Outpoint(hash: string, n: nat)
  datatype TxIn = TxIn(prevout: Outpoint, scriptSig: string, sequence: nat)
  datatype TxOut = TxOut(amount: nat, scriptPubKey: string)
  datatype TxData = TxData(version: nat, vin: seq<TxIn>, vout: seq<TxOut>, lockTime: nat)

  const Max32: nat := 0x1_0000_0000

  // ---------------------------------------------------------------------------
  // The wire layout, read

  /** One input: 64-character hash, n, script length, 2*length script characters, sequence. */
  function ReadInput(r: string): Option<Parsed<TxIn>>
  {
    match ReadText(r, SzHex256, false)
    case None => None
    case Some(hash) =>
    match ReadInt(hash.rest, SzHex32)
    case None => None
    case Some(n) =>
    match ReadVarInt(n.rest)
    case None => None
    case Some(len) =>
    match ReadText(len.rest, len.value * 2, false)
    case None => None
    case Some(script) =>
    match ReadInt(script.rest, SzHex32)
    case None => None
    case Some(sequence) =>
    Some(Parsed(TxIn(Outpoint(hash.value, n.value), script.value, sequence.value), sequence.rest))
  }

  /** `count` records one after the other, each read by `read` from what the previous one
      left: decode's input loop and its output loop. */
  function ReadMany<T>(read: string -> Option<Parsed<T>>, r: string, count: nat): (p: Option<Parsed<seq<T>>>)
    ensures p.Some? ==> |p.value.value| == count
    decreases count
  {
    if count == 0 then Some(Parsed([], r))
    else
      match read(r)
      case None => None
      case Some(first) =>
      match ReadMany(read, first.rest, count - 1)
      case None => None
      case Some(others) =>
      Some(Parsed([first.value] + others.value, others.rest))
  }

  /** One output: 16-character amount, script length, 2*length script characters. */
  function ReadOutput(r: string): Option<Parsed<TxOut>>
  {
    match ReadInt(r, SzHex64)
    case None => None
    case Some(amount) =>
    match ReadVarInt(amount.rest)
    case None => None
    case Some(len) =>
    match ReadText(len.rest, len.value * 2, false)
    case None => None
    case Some(script) =>
    Some(Parsed(TxOut(amount.value, script.value), script.rest))
  }

  /** `decode`: version, input count, inputs, output count, outputs, lockTime. */
  function ReadTx(r: string): Option<Parsed<TxData>>
  {
    match ReadInt(r, SzHex32)
    case None => None
    case Some(version) =>
    match ReadVarInt(version.rest)
    case None => None
    case Some(vins) =>
    match ReadMany(ReadInput, vins.rest, vins.value)
    case None => None
    case Some(vin) =>
    match ReadVarInt(vin.rest)
    case None => None
    case Some(vouts) =>
    match ReadMany(ReadOutput, vouts.rest, vouts.value)
    case None => None
    case Some(vout) =>
    match ReadInt(vout.rest, SzHex32)
    case None => None
    case Some(lockTime) =>
    Some(Parsed(TxData(version.value, vin.value, vout.value, lockTime.value), lockTime.rest))
  }

  // ---------------------------------------------------------------------------
  // The wire layout, written

  /** What encode appends for one input; the hash and the script go out as they are. */
  function InputText(v: TxIn): string
  {
    v.prevout.hash + IntText(SzHex32, v.prevout.n) + VarIntText(|v.scriptSig| / 2) +
    v.scriptSig + IntText(SzHex32, v.sequence)
  }

  function InputsText(vs: seq<TxIn>): string
  {
    if vs == [] then "" else InputText(vs[0]) + InputsText(vs[1..])
  }

  function OutputText(v: TxOut): string
  {
    IntText(SzHex64, v.amount) + VarIntText(|v.scriptPubKey| / 2) + v.scriptPubKey
  }

  function OutputsText(vs: seq<TxOut>): string
  {
    if vs == [] then "" else OutputText(vs[0]) + OutputsText(vs[1..])
  }

  /** What `encode` appends for a whole transaction. */
  function TxText(tx: TxData): string
  {
    IntText(SzHex32, tx.version) + VarIntText(|tx.vin|) + InputsText(tx.vin) +
    VarIntText(|tx.vout|) + OutputsText(tx.vout) + IntText(SzHex32, tx.lockTime)
  }

  /** A record followed by k more records are k + 1 records. */
  lemma ManyPrepend<T>(read: string -> Option<Parsed<T>>, r: string, k: nat, v: T, mid: string,
                       vs: seq<T>, rest: string)
    requires read(r) == Some(Parsed(v, mid)) && ReadMany(read, mid, k) == Some(Parsed(vs, rest))
    ensures ReadMany(read, r, k + 1) == Some(Parsed([v] + vs, rest))
  {
  }

  /** k + 1 records are a first record and k more. */
  lemma ManyFirst<T>(read: string -> Option<Parsed<T>>, r: string, k: nat, vs: seq<T>, rest: string)
    returns (mid: string)
    requires ReadMany(read, r, k + 1) == Some(Parsed(vs, rest))
    ensures |vs| == k + 1
    ensures read(r) == Some(Parsed(vs[0], mid)) && ReadMany(read, mid, k) == Some(Parsed(vs[1..], rest))
  {
    mid := read(r).value.rest;
  }

  /** j records followed by one more are j + 1 records: what each turn of a decode loop adds. */
  lemma {:induction false} ManySnoc<T>(read: string -> Option<Parsed<T>>, r: string, j: nat, vs: seq<T>,
                                      v: T, cur: string, after: string)
    requires ReadMany(read, r, j) == Some(Parsed(vs, cur))
    requires read(cur) == Some(Parsed(v, after))
    ensures ReadMany(read, r, j + 1) == Some(Parsed(vs + [v], after))
    decreases j
  {
    if j == 0 {
      assert [v] + [] == vs + [v];
      ManyPrepend(read, r, 0, v, after, [], after);
    } else {
      var mid := ManyFirst(read, r, j - 1, vs, cur);
      var tail := vs[1..];
      ManySnoc(read, mid, j - 1, tail, v, cur, after);
      assert [vs[0]] + (tail + [v]) == vs + [v];
      ManyPrepend(read, r, j, vs[0], mid, tail + [v], after);
    }
  }

  /** Where a decode loop stands after j of its count turns: the j records read so far are vs,
      cur is what they left, and the other count - j records are there to be read. */
  ghost predicate ReadSoFar<T>(read: string -> Option<Parsed<T>>, r: string, count: nat, j: nat,
                               vs: seq<T>, cur: string)
  {
    j <= count && ReadMany(read, r, j) == Some(Parsed(vs, cur)) && ReadMany(read, cur, count - j).Some?
  }

  /** After all `count` turns the loop has read exactly what `ReadMany` reads. */
  lemma SoFarDone<T>(read: string -> Option<Parsed<T>>, r: string, count: nat, vs: seq<T>, cur: string)
    requires ReadSoFar(read, r, count, count, vs, cur)
    ensures ReadMany(read, r, count) == Some(Parsed(vs, cur))
  {
  }

  /** Before each turn of a decode loop there is one more record to read. */
  lemma SoFarHasNext<T>(read: string -> Option<Parsed<T>>, r: string, count: nat, j: nat,
                        vs: seq<T>, cur: string)
    requires j < count && ReadSoFar(read, r, count, j, vs, cur)
    ensures read(cur).Some?
  {
    var all := ReadMany(read, cur, count - j).value;
    var _ := ManyFirst(read, cur, count - j - 1, all.value, all.rest);
  }

  /** One turn of a decode loop: reading the next record moves it from j turns to j + 1. */
  lemma SoFarStep<T>(read: string -> Option<Parsed<T>>, r: string, count: nat, j: nat,
                     vs: seq<T>, cur: string, v: T, after: string)
    requires j < count && ReadSoFar(read, r, count, j, vs, cur)
    requires read(cur) == Some(Parsed(v, after))
    ensures ReadSoFar(read, r, count, j + 1, vs + [v], after)
  {
    ManySnoc(read, r, j, vs, v, cur, after);
    var all := ReadMany(read, cur, count - j).value;
    var mid := ManyFirst(read, cur, count - j - 1, all.value, all.rest);
  }

  /** Appending record k to the text of the first k records gives the text of the first k + 1. */
  lemma InputsTextStep(s0: string, vs: seq<TxIn>, k: nat)
    requires k < |vs|
    ensures s0 + InputsText(vs[..k]) + InputText(vs[k]) == s0 + InputsText(vs[..k + 1])
  {
    InputsTextPrefix(vs, k);
    AppendAssoc3(s0, InputsText(vs[..k]), InputText(vs[k]));
  }

  lemma InputsTextPrefix(vs: seq<TxIn>, k: nat)
    requires k < |vs|
    ensures InputsText(vs[..k + 1]) == InputsText(vs[..k]) + InputText(vs[k])
  {
    assert vs[..k + 1] == vs[..k] + [vs[k]];
    InputsTextSnoc(vs[..k], vs[k]);
  }

  lemma {:induction false} InputsTextSnoc(vs: seq<TxIn>, v: TxIn)
    ensures InputsText(vs + [v]) == InputsText(vs) + InputText(v)
    decreases |vs|
  {
    var ws := vs + [v];
    if vs == [] {
      assert ws[1..] == [];
      assert InputsText(ws) == InputText(v) + "";
    } else {
      assert ws[0] == vs[0] && ws[1..] == vs[1..] + [v];
      InputsTextSnoc(vs[1..], v);
      AppendAssoc3(InputText(vs[0]), InputsText(vs[1..]), InputText(v));
    }
  }

  /** Appending record k to the text of the first k records gives the text of the first k + 1. */
  lemma OutputsTextStep(s0: string, vs: seq<TxOut>, k: nat)
    requires k < |vs|
    ensures s0 + OutputsText(vs[..k]) + OutputText(vs[k]) == s0 + OutputsText(vs[..k + 1])
  {
    OutputsTextPrefix(vs, k);
    AppendAssoc3(s0, OutputsText(vs[..k]), OutputText(vs[k]));
  }

  lemma OutputsTextPrefix(vs: seq<TxOut>, k: nat)
    requires k < |vs|
    ensures OutputsText(vs[..k + 1]) == OutputsText(vs[..k]) + OutputText(vs[k])
  {
    assert vs[..k + 1] == vs[..k] + [vs[k]];
    OutputsTextSnoc(vs[..k], vs[k]);
  }

  lemma {:induction false} OutputsTextSnoc(vs: seq<TxOut>, v: TxOut)
    ensures OutputsText(vs + [v]) == OutputsText(vs) + OutputText(v)
    decreases |vs|
  {
    var ws := vs + [v];
    if vs == [] {
      assert ws[1..] == [];
      assert OutputsText(ws) == OutputText(v) + "";
    } else {
      assert ws[0] == vs[0] && ws[1..] == vs[1..] + [v];
      OutputsTextSnoc(vs[1..], v);
      AppendAssoc3(OutputText(vs[0]), OutputsText(vs[1..]), OutputText(v));
    }
  }

  // ---------------------------------------------------------------------------
  // The reads one field at a time

  /** The fields of one input, read in wire order; r1..r4 are what is left after each. */
  lemma ReadInputSteps(r: string) returns (r1: string, r2: string, r3: string, r4: string)
    requires ReadInput(r).Some?
    ensures var p := ReadInput(r).value; var v := p.value;
      ReadText(r, SzHex256, false) == Some(Parsed(v.prevout.hash, r1)) &&
      ReadInt(r1, SzHex32) == Some(Parsed(v.prevout.n, r2)) &&
      |v.scriptSig| % 2 == 0 &&
      ReadVarInt(r2) == Some(Parsed((|v.scriptSig| / 2) as nat, r3)) &&
      ReadText(r3, |v.scriptSig|, false) == Some(Parsed(v.scriptSig, r4)) &&
      ReadInt(r4, SzHex32) == Some(Parsed(v.sequence, p.rest))
  {
    r1 := ReadText(r, SzHex256, false).value.rest;
    r2 := ReadInt(r1, SzHex32).value.rest;
    r3 := ReadVarInt(r2).value.rest;
    var len := ReadVarInt(r2).value.value;
    var script := ReadText(r3, len * 2, false).value;
    r4 := script.rest;
    HalfOfDouble(len, script.value);
  }

  lemma ReadOutputSteps(r: string) returns (r1: string, r2: string)
    requires ReadOutput(r).Some?
    ensures var p := ReadOutput(r).value; var v := p.value;
      ReadInt(r, SzHex64) == Some(Parsed(v.amount, r1)) &&
      |v.scriptPubKey| % 2 == 0 &&
      ReadVarInt(r1) == Some(Parsed((|v.scriptPubKey| / 2) as nat, r2)) &&
      ReadText(r2, |v.scriptPubKey|, false) == Some(Parsed(v.scriptPubKey, p.rest))
  {
    r1 := ReadInt(r, SzHex64).value.rest;
    r2 := ReadVarInt(r1).value.rest;
    var len := ReadVarInt(r1).value.value;
    HalfOfDouble(len, ReadText(r2, len * 2, false).value.value);
  }

  /** A script of 2 * len characters is len bytes long. */
  lemma HalfOfDouble(len: nat, script: string)
    requires |script| == len * 2
    ensures |script| % 2 == 0 && ((|script| / 2) as nat) == len
  {
  }

  /** A decoded transaction is the one with the fields read. */
  lemma ReadTxIs(x: string, version: nat, vin: seq<TxIn>, vout: seq<TxOut>, lockTime: nat, rest: string)
    requires ReadTx(x).Some?
    requires ReadTx(x).value.value.version == version && ReadTx(x).value.value.vin == vin
    requires ReadTx(x).value.value.vout == vout && ReadTx(x).value.value.lockTime == lockTime
    requires ReadTx(x).value.rest == rest
    ensures ReadTx(x) == Some(Parsed(TxData(version, vin, vout, lockTime), rest))
  {
    var p := ReadTx(x).value;
    assert p.value == TxData(version, vin, vout, lockTime);
  }

  /** The parts of a transaction, read in wire order. */
  lemma ReadTxSteps(x: string) returns (x2: string, x3: string, x4: string, x5: string, x6: string)
    requires ReadTx(x).Some?
    ensures var p := ReadTx(x).value; var tx := p.value;
      ReadInt(x, SzHex32) == Some(Parsed(tx.version, x2)) &&
      ReadVarInt(x2) == Some(Parsed(|tx.vin| as nat, x3)) &&
      ReadMany(ReadInput, x3, |tx.vin|) == Some(Parsed(tx.vin, x4)) &&
      ReadVarInt(x4) == Some(Parsed(|tx.vout| as nat, x5)) &&
      ReadMany(ReadOutput, x5, |tx.vout|) == Some(Parsed(tx.vout, x6)) &&
      ReadInt(x6, SzHex32) == Some(Parsed(tx.lockTime, p.rest))
  {
    x2 := ReadInt(x, SzHex32).value.rest;
    x3 := ReadVarInt(x2).value.rest;
    x4 := ReadMany(ReadInput, x3, ReadVarInt(x2).value.value).value.rest;
    x5 := ReadVarInt(x4).value.rest;
    x6 := ReadMany(ReadOutput, x5, ReadVarInt(x4).value.value).value.rest;
  }

  // ---------------------------------------------------------------------------
  // decode(encode(tx)) == tx

  /** Counts and script byte-lengths below 0xfd, the only range in which varints round-trip. */
  predicate ShortScript(script: string)
  {
    |script| % 2 == 0 && |script| / 2 < 0xfd
  }

  predicate CanonicalInput(v: TxIn)
  {
    |v.prevout.hash| == SzHex256 && v.prevout.n < Max32 && ShortScript(v.scriptSig) &&
    v.sequence < Max32
  }

  predicate CanonicalOutput(v: TxOut)
  {
    v.amount < MaxSafe && ShortScript(v.scriptPubKey)
  }

  /** The transactions encode writes in a form decode reads back. */
  predicate Canonical(tx: TxData)
  {
    tx.version < Max32 && tx.lockTime < Max32 &&
    |tx.vin| < 0xfd && |tx.vout| < 0xfd &&
    (forall k :: 0 <= k < |tx.vin| ==> CanonicalInput(tx.vin[k])) &&
    (forall k :: 0 <= k < |tx.vout| ==> CanonicalOutput(tx.vout[k]))
  }

  lemma TextRoundTrip(t: string, rest: string)
    ensures ReadText(t + rest, |t|, false) == Some(Parsed(t, rest))
  {
    assert (t + rest)[..|t|] == t && (t + rest)[|t|..] == rest;
  }

  lemma Max32Pow()
    ensures Max32 == Pow16(SzHex32)
    ensures MaxSafe < Pow16(SzHex64)
  {
    assert Pow16(8) == 0x1_0000_0000;
    assert Pow16(16) == 0x1_0000_0000_0000_0000;
  }

  lemma InputRoundTrip(v: TxIn, rest: string)
    requires CanonicalInput(v)
    ensures ReadInput(InputText(v) + rest) == Some(Parsed(v, rest))
  {
    Max32Pow();
    var h, nT, lT, sig, sT := v.prevout.hash, IntText(SzHex32, v.prevout.n),
      VarIntText(|v.scriptSig| / 2), v.scriptSig, IntText(SzHex32, v.sequence);
    var r4 := sT + rest;
    var r3 := sig + r4;
    var r2 := lT + r3;
    var r1 := nT + r2;
    AppendNest6(h, nT, lT, sig, sT, rest);
    TextRoundTrip(h, r1);
    IntRoundTrip(SzHex32, v.prevout.n, r2);
    VarIntShortRoundTrip(|sig| / 2, r3);
    TextRoundTrip(sig, r4);
    IntRoundTrip(SzHex32, v.sequence, rest);
    ReadInputParts(h + r1, v, r1, r2, r3, r4, rest);
  }

  /** ReadInput, step by step. */
  lemma ReadInputParts(r: string, v: TxIn, r1: string, r2: string, r3: string, r4: string, rest: string)
    requires ReadText(r, SzHex256, false) == Some(Parsed(v.prevout.hash, r1))
    requires ReadInt(r1, SzHex32) == Some(Parsed(v.prevout.n, r2))
    requires |v.scriptSig| % 2 == 0 && ReadVarInt(r2) == Some(Parsed((|v.scriptSig| / 2) as nat, r3))
    requires ReadText(r3, |v.scriptSig|, false) == Some(Parsed(v.scriptSig, r4))
    requires ReadInt(r4, SzHex32) == Some(Parsed(v.sequence, rest))
    ensures ReadInput(r) == Some(Parsed(v, rest))
  {
    assert (|v.scriptSig| / 2) * 2 == |v.scriptSig|;
  }

  lemma {:induction false} InputsRoundTrip(vs: seq<TxIn>, rest: string)
    requires forall k :: 0 <= k < |vs| ==> CanonicalInput(vs[k])
    ensures ReadMany(ReadInput, InputsText(vs) + rest, |vs|) == Some(Parsed(vs, rest))
  {
    if vs == [] {
      assert InputsText(vs) + rest == rest;
    } else {
      assert CanonicalInput(vs[0]);
      var tail := InputsText(vs[1..]) + rest;
      assert InputsText(vs) + rest == InputText(vs[0]) + tail;
      InputRoundTrip(vs[0], tail);
      InputsRoundTrip(vs[1..], rest);
      ManyPrepend(ReadInput, InputText(vs[0]) + tail, |vs| - 1, vs[0], tail, vs[1..], rest);
      assert [vs[0]] + vs[1..] == vs;
    }
  }

  lemma OutputRoundTrip(v: TxOut, rest: string)
    requires CanonicalOutput(v)
    ensures ReadOutput(OutputText(v) + rest) == Some(Parsed(v, rest))
  {
    Max32Pow();
    var aT, lT, spk := IntText(SzHex64, v.amount), VarIntText(|v.scriptPubKey| / 2), v.scriptPubKey;
    AppendNest4(aT, lT, spk, rest);
    IntRoundTrip(SzHex64, v.amount, lT + (spk + rest));
    VarIntShortRoundTrip(|spk| / 2, spk + rest);
    TextRoundTrip(spk, rest);
  }

  lemma {:induction false} OutputsRoundTrip(vs: seq<TxOut>, rest: string)
    requires forall k :: 0 <= k < |vs| ==> CanonicalOutput(vs[k])
    ensures ReadMany(ReadOutput, OutputsText(vs) + rest, |vs|) == Some(Parsed(vs, rest))
  {
    if vs == [] {
      assert OutputsText(vs) + rest == rest;
    } else {
      assert CanonicalOutput(vs[0]);
      var tail := OutputsText(vs[1..]) + rest;
      assert OutputsText(vs) + rest == OutputText(vs[0]) + tail;
      OutputRoundTrip(vs[0], tail);
      OutputsRoundTrip(vs[1..], rest);
      ManyPrepend(ReadOutput, OutputText(vs[0]) + tail, |vs| - 1, vs[0], tail, vs[1..], rest);
      assert [vs[0]] + vs[1..] == vs;
    }
  }

  /** decode(encode(tx)) == tx, and the cursor ends just past the encoding. */
  lemma TxRoundTrip(tx: TxData, rest: string)
    requires Canonical(tx)
    ensures ReadTx(TxText(tx) + rest) == Some(Parsed(tx, rest))
  {
    Max32Pow();
    var x6 := IntText(SzHex32, tx.lockTime) + rest;
    var x5 := OutputsText(tx.vout) + x6;
    var x4 := VarIntText(|tx.vout|) + x5;
    var x3 := InputsText(tx.vin) + x4;
    var x2 := VarIntText(|tx.vin|) + x3;
    var x1 := IntText(SzHex32, tx.version) + x2;
    TxTextSplit(tx, rest);
    IntRoundTrip(SzHex32, tx.version, x2);
    VarIntShortRoundTrip(|tx.vin|, x3);
    InputsRoundTrip(tx.vin, x4);
    VarIntShortRoundTrip(|tx.vout|, x5);
    OutputsRoundTrip(tx.vout, x6);
    IntRoundTrip(SzHex32, tx.lockTime, rest);
    ReadTxParts(x1, tx, x2, x3, x4, x5, x6, rest);
  }

  lemma TxTextSplit(tx: TxData, rest: string)
    ensures TxText(tx) + rest ==
      IntText(SzHex32, tx.version) + (VarIntText(|tx.vin|) + (InputsText(tx.vin) +
      (VarIntText(|tx.vout|) + (OutputsText(tx.vout) + (IntText(SzHex32, tx.lockTime) + rest)))))
  {
    AppendAssoc7(IntText(SzHex32, tx.version), VarIntText(|tx.vin|), InputsText(tx.vin),
      VarIntText(|tx.vout|), OutputsText(tx.vout), IntText(SzHex32, tx.lockTime), rest);
  }

  lemma TakeAll<T>(xs: seq<T>)
    ensures xs[..|xs|] == xs
  {
  }

  lemma AppendAssoc3(a: string, b: string, c: string)
    ensures a + b + c == a + (b + c)
  {
  }

  lemma AppendAssoc4(a: string, b: string, c: string, d: string)
    ensures a + b + c + d == a + (b + c + d)
  {
    AppendAssoc3(a, b, c);
    AppendAssoc3(a + b + c, d, "");
    assert a + b + c + d == (a + b) + (c + d);
  }

  lemma AppendNest4(a: string, b: string, c: string, d: string)
    ensures a + b + c + d == a + (b + (c + d))
  {
    assert a + b + c + d == (a + b) + (c + d);
  }

  lemma AppendNest6(a: string, b: string, c: string, d: string, e: string, f: string)
    ensures a + b + c + d + e + f == a + (b + (c + (d + (e + f))))
  {
    AppendNest4(c, d, e, f);
    assert a + b + c + d + e + f == (a + b) + (c + d + e + f);
    AppendNest4(a, b, c + d + e + f, "");
  }

  lemma AppendAssoc6(a: string, b: string, c: string, d: string, e: string, f: string)
    ensures a + b + c + d + e + f == a + (b + c + d + e + f)
  {
    assert a + b + c + d + e + f == (a + b + c + d) + (e + f);
    assert (a + b + c + d) + (e + f) == (a + b + c) + (d + e + f);
    assert (a + b + c) + (d + e + f) == (a + b) + (c + d + e + f);
  }

  lemma AppendAssoc7(a: string, b: string, c: string, d: string, e: string, f: string, g: string)
    ensures a + b + c + d + e + f + g == a + (b + (c + (d + (e + (f + g)))))
  {
    assert a + b + c + d + e + f + g == (a + b + c + d + e) + (f + g);
    assert (a + b + c + d + e) + (f + g) == (a + b + c + d) + (e + (f + g));
    assert (a + b + c + d) + (e + (f + g)) == (a + b + c) + (d + (e + (f + g)));
    assert (a + b + c) + (d + (e + (f + g))) == (a + b) + (c + (d + (e + (f + g))));
  }

  lemma AppendAssocHead7(a: string, b: string, c: string, d: string, e: string, f: string, g: string)
    ensures a + b + c + d + e + f + g == a + (b + c + d + e + f + g)
  {
    AppendAssoc6(a, b, c, d, e, f);
    AppendAssoc3(a, b + c + d + e + f, g);
  }

  /** ReadTx, step by step. */
  lemma ReadTxParts(r: string, tx: TxData, x2: string, x3: string, x4: string, x5: string,
                    x6: string, rest: string)
    requires ReadInt(r, SzHex32) == Some(Parsed(tx.version, x2))
    requires ReadVarInt(x2) == Some(Parsed(|tx.vin| as nat, x3))
    requires ReadMany(ReadInput, x3, |tx.vin|) == Some(Parsed(tx.vin, x4))
    requires ReadVarInt(x4) == Some(Parsed(|tx.vout| as nat, x5))
    requires ReadMany(ReadOutput, x5, |tx.vout|) == Some(Parsed(tx.vout, x6))
    requires ReadInt(x6, SzHex32) == Some(Parsed(tx.lockTime, rest))
    ensures ReadTx(r) == Some(Parsed(tx, rest))
  {
  }

  // ---------------------------------------------------------------------------
  // encode(decode(x)) == x

  /** The counts and script lengths of a decoded transaction fit a one-character-pair varint. */
  predicate ShortCounts(tx: TxData)
  {
    |tx.vin| < 0xfd && |tx.vout| < 0xfd &&
    (forall k :: 0 <= k < |tx.vin| ==> |tx.vin[k].scriptSig| / 2 < 0xfd) &&
    (forall k :: 0 <= k < |tx.vout| ==> |tx.vout[k].scriptPubKey| / 2 < 0xfd)
  }

  lemma InputCovers(r: string, v: TxIn, rest: string)
    requires ReadInput(r) == Some(Parsed(v, rest)) && LowerHex(r) && |v.scriptSig| / 2 < 0xfd
    ensures Covers(InputText(v), r, rest) && LowerHex(rest)
  {
    var r1, r2, r3, r4 := ReadInputSteps(r);
    TextCovers(r, SzHex256, v.prevout.hash, r1);
    IntCovers(r1, SzHex32, v.prevout.n, r2);
    VarIntCovers(r2, |v.scriptSig| / 2, r3);
    TextCovers(r3, |v.scriptSig|, v.scriptSig, r4);
    IntCovers(r4, SzHex32, v.sequence, rest);
    var t1 := v.prevout.hash;
    var t2 := t1 + IntText(SzHex32, v.prevout.n);
    var t3 := t2 + VarIntText(|v.scriptSig| / 2);
    var t4 := t3 + v.scriptSig;
    CoversChain(t1, IntText(SzHex32, v.prevout.n), r, r1, r2);
    CoversChain(t2, VarIntText(|v.scriptSig| / 2), r, r2, r3);
    CoversChain(t3, v.scriptSig, r, r3, r4);
    CoversChain(t4, IntText(SzHex32, v.sequence), r, r4, rest);
  }

  lemma {:induction false} InputsCovers(r: string, k: nat, vs: seq<TxIn>, rest: string)
    requires ReadMany(ReadInput, r, k) == Some(Parsed(vs, rest)) && LowerHex(r)
    requires forall j :: 0 <= j < |vs| ==> |vs[j].scriptSig| / 2 < 0xfd
    ensures Covers(InputsText(vs), r, rest) && LowerHex(rest)
  {
    if k == 0 {
      ExactCovers("", r);
    } else {
      var mid := ManyFirst(ReadInput, r, k - 1, vs, rest);
      InputCovers(r, vs[0], mid);
      InputsCovers(mid, k - 1, vs[1..], rest);
      CoversChain(InputText(vs[0]), InputsText(vs[1..]), r, mid, rest);
    }
  }

  lemma OutputCovers(r: string, v: TxOut, rest: string)
    requires ReadOutput(r) == Some(Parsed(v, rest)) && LowerHex(r) && |v.scriptPubKey| / 2 < 0xfd
    requires v.amount < MaxSafe
    ensures Covers(OutputText(v), r, rest) && LowerHex(rest)
  {
    var r1, r2 := ReadOutputSteps(r);
    IntCovers(r, SzHex64, v.amount, r1);
    VarIntCovers(r1, |v.scriptPubKey| / 2, r2);
    TextCovers(r2, |v.scriptPubKey|, v.scriptPubKey, rest);
    var t1 := IntText(SzHex64, v.amount);
    CoversChain(t1, VarIntText(|v.scriptPubKey| / 2), r, r1, r2);
    CoversChain(t1 + VarIntText(|v.scriptPubKey| / 2), v.scriptPubKey, r, r2, rest);
  }

  lemma {:induction false} OutputsCovers(r: string, k: nat, vs: seq<TxOut>, rest: string)
    requires ReadMany(ReadOutput, r, k) == Some(Parsed(vs, rest)) && LowerHex(r)
    requires forall j :: 0 <= j < |vs| ==> |vs[j].scriptPubKey| / 2 < 0xfd
    requires forall j :: 0 <= j < |vs| ==> vs[j].amount < MaxSafe
    ensures Covers(OutputsText(vs), r, rest) && LowerHex(rest)
  {
    if k == 0 {
      ExactCovers("", r);
    } else {
      var mid := ManyFirst(ReadOutput, r, k - 1, vs, rest);
      OutputCovers(r, vs[0], mid);
      OutputsCovers(mid, k - 1, vs[1..], rest);
      CoversChain(OutputText(vs[0]), OutputsText(vs[1..]), r, mid, rest);
    }
  }

  /** encode(decode(x)) == x for lower-case x with short counts and amounts that
      `parseInt` reads exactly: the re-encoding is never longer than the text decode
      consumed, and is that text exactly when the lengths agree. */
  lemma TxReencode(x: string)
    requires ReadTx(x).Some? && LowerHex(x) && ShortCounts(ReadTx(x).value.value)
    requires forall k :: 0 <= k < |ReadTx(x).value.value.vout| ==> ReadTx(x).value.value.vout[k].amount < MaxSafe
    ensures |TxText(ReadTx(x).value.value)| <= |x| - |ReadTx(x).value.rest|
    ensures ReadTx(x).value.rest == x[|x| - |ReadTx(x).value.rest|..]
    ensures TxText(ReadTx(x).value.value) + ReadTx(x).value.rest == x <==>
            |x| - |ReadTx(x).value.rest| == |TxText(ReadTx(x).value.value)|
  {
    var tx, rest := ReadTx(x).value.value, ReadTx(x).value.rest;
    var x2, x3, x4, x5, x6 := ReadTxSteps(x);
    TxCovers(x, tx, rest, x2, x3, x4, x5, x6);
  }

  lemma TxCovers(x: string, tx: TxData, rest: string, x2: string, x3: string, x4: string,
                 x5: string, x6: string)
    requires LowerHex(x) && ShortCounts(tx)
    requires forall k :: 0 <= k < |tx.vout| ==> tx.vout[k].amount < MaxSafe
    requires ReadInt(x, SzHex32) == Some(Parsed(tx.version, x2))
    requires ReadVarInt(x2) == Some(Parsed(|tx.vin| as nat, x3))
    requires ReadMany(ReadInput, x3, |tx.vin|) == Some(Parsed(tx.vin, x4))
    requires ReadVarInt(x4) == Some(Parsed(|tx.vout| as nat, x5))
    requires ReadMany(ReadOutput, x5, |tx.vout|) == Some(Parsed(tx.vout, x6))
    requires ReadInt(x6, SzHex32) == Some(Parsed(tx.lockTime, rest))
    ensures Covers(TxText(tx), x, rest)
  {
    IntCovers(x, SzHex32, tx.version, x2);
    VarIntCovers(x2, |tx.vin|, x3);
    InputsCovers(x3, |tx.vin|, tx.vin, x4);
    VarIntCovers(x4, |tx.vout|, x5);
    OutputsCovers(x5, |tx.vout|, tx.vout, x6);
    IntCovers(x6, SzHex32, tx.lockTime, rest);
    var t1 := IntText(SzHex32, tx.version);
    var t2 := t1 + VarIntText(|tx.vin|);
    var t3 := t2 + InputsText(tx.vin);
    var t4 := t3 + VarIntText(|tx.vout|);
    var t5 := t4 + OutputsText(tx.vout);
    CoversChain(t1, VarIntText(|tx.vin|), x, x2, x3);
    CoversChain(t2, InputsText(tx.vin), x, x3, x4);
    CoversChain(t3, VarIntText(|tx.vout|), x, x4, x5);
    CoversChain(t4, OutputsText(tx.vout), x, x5, x6);
    CoversChain(t5, IntText(SzHex32, tx.lockTime), x, x6, rest);
  }

  /** decode takes the previous-output hash and the script as the wire characters stand, with
      no byte swap: the hash is the first 64 characters and, when the script length uses the
      one-byte varint form, the script starts at character 74. */
  lemma InputReadVerbatim(r: string, v: TxIn, rest: string)
    requires ReadInput(r) == Some(Parsed(v, rest))
    requires ReadInt(r[72..], SzHex8).Some? && ReadInt(r[72..], SzHex8).value.value < 0xfd
    ensures v.prevout.hash == r[..64]
    ensures 74 + |v.scriptSig| <= |r| && v.scriptSig == r[74..74 + |v.scriptSig|]
  {
    var r1, r2, r3, r4 := ReadInputSteps(r);
    ReadIntLayout(r1, SzHex32);
    assert r2 == r[72..];
    ReadIntLayout(r2, SzHex8);
    assert r3 == r[74..];
  }

  /** encode writes the hash and the script as they are: the hash first, and the script at
      character 74 when its byte length is below 0xfd. */
  lemma InputTextVerbatim(v: TxIn)
    requires |v.prevout.hash| == SzHex256 && |v.scriptSig| / 2 < 0xfd
    ensures InputText(v)[..64] == v.prevout.hash
    ensures 74 + |v.scriptSig| <= |InputText(v)| && InputText(v)[74..74 + |v.scriptSig|] == v.scriptSig
  {
    IntTextLayout(SzHex32, v.prevout.n);
    IntTextLayout(SzHex8, |v.scriptSig| / 2);
    var head := v.prevout.hash + IntText(SzHex32, v.prevout.n) + VarIntText(|v.scriptSig| / 2);
    assert |head| == 74;
    assert InputText(v) == head + (v.scriptSig + IntText(SzHex32, v.sequence));
  }

  // ---------------------------------------------------------------------------
  // The object

  class Transaction {
    var version: nat
    var vin: seq<TxIn>
    var vout: seq<TxOut>
    var lockTime: nat
    var hex: string

    function Data(): TxData
      reads this
    {
      TxData(version, vin, vout, lockTime)
    }

    /** `new Transaction(hex)`: decodes the whole string with a parser of its own. */
    constructor FromHex(hex: string)
      requires ReadTx(hex).Some?
      ensures this.hex == hex && Data() == ReadTx(hex).value.value
    {
      this.hex := hex;
      new;
      var p := new Parser(hex);
      Decode(p);
    }

    /** `new Transaction(p, true)`: decodes from a shared cursor and keeps the exact text the
        decode consumed. */
    constructor FromParser(p: Parser)
      requires p.i <= |p.s| && ReadTx(p.Rest()).Some?
      modifies p
      ensures p.i <= |p.s| && ReadTx(old(p.Rest())) == Some(Parsed(Data(), p.Rest()))
      ensures old(p.i) <= p.i && hex == p.s[old(p.i)..p.i]
      ensures p.storageContexts == old(p.storageContexts)
    {
      p.PushStorageContext();
      new;
      Decode(p);
      hex := p.PopStorageContext();
    }

    /** `decode(p)`; with no parser it decodes `this.hex`. */
    method Decode(p0: Parser?)
      requires p0 == null ==> ReadTx(hex).Some?
      requires p0 != null ==> p0.i <= |p0.s| && ReadTx(p0.Rest()).Some?
      modifies this, p0
      ensures hex == old(hex)
      ensures p0 == null ==> Data() == ReadTx(hex).value.value
      ensures p0 != null ==> p0.i <= |p0.s| && ReadTx(old(p0.Rest())) == Some(Parsed(Data(), p0.Rest()))
      ensures p0 != null ==> old(p0.i) <= p0.i && p0.storageContexts == old(p0.storageContexts)
    {
      if p0 == null {
        var p := new Parser(hex);
        DecodeFields(p);
      } else {
        DecodeFields(p0);
      }
    }

    /** The field reads of `decode`, in wire order, from the parser's cursor. */
    method DecodeFields(p: Parser)
      requires p.i <= |p.s| && ReadTx(p.Rest()).Some?
      modifies this`version, this`vin, this`vout, this`lockTime, p`i
      ensures old(p.i) <= p.i <= |p.s| && ReadTx(old(p.Rest())) == Some(Parsed(Data(), p.Rest()))
    {
      ghost var x1 := p.Rest();
      ghost var tx, rest := ReadTx(x1).value.value, ReadTx(x1).value.rest;
      ghost var x2, x3, x4, x5, x6 := ReadTxSteps(x1);
      var ver, ins, outs, lt := ReadFields(p, tx, rest, x2, x3, x4, x5, x6);
      ReadTxIs(x1, ver, ins, outs, lt, rest);
      version, vin, vout, lockTime := ver, ins, outs, lt;
    }

    /** `encode(s)`: appends to the given serializer (a new one when none is given) and
        returns everything it holds. */
    method Encode(s0: Serializer?) returns (out: string)
      modifies s0
      ensures s0 != null ==> s0.s == old(s0.s) + TxText(Data()) && out == s0.s
      ensures s0 == null ==> out == TxText(Data())
    {
      if s0 == null {
        var s := new Serializer();
        EncodeFields(s);
        assert s.s == "" + TxText(Data());
        out := s.s;
      } else {
        EncodeFields(s0);
        out := s0.s;
      }
    }

    /** The field writes of `encode`, in wire order. */
    method EncodeFields(s: Serializer)
      modifies s
      ensures s.s == old(s.s) + TxText(Data())
    {
      ghost var s00 := s.s;
      s.WriteInt(SzHex32, version);
      s.WriteVarInt(|vin|);
      WriteInputs(s, vin);
      s.WriteVarInt(|vout|);
      WriteOutputs(s, vout);
      s.WriteInt(SzHex32, lockTime);
      AppendAssocHead7(s00, IntText(SzHex32, version), VarIntText(|vin|), InputsText(vin),
        VarIntText(|vout|), OutputsText(vout), IntText(SzHex32, lockTime));
    }
  }

  /** The body of decode's input loop. */
  /** The reads of `decode` from the parser's cursor, in wire order; x2..x6 and rest are
      what is left after each. */
  method ReadFields(p: Parser, ghost tx: TxData, ghost rest: string, ghost x2: string, ghost x3: string,
                    ghost x4: string, ghost x5: string, ghost x6: string)
    returns (version: nat, vin: seq<TxIn>, vout: seq<TxOut>, lockTime: nat)
    requires p.i <= |p.s|
    requires ReadInt(p.Rest(), SzHex32) == Some(Parsed(tx.version, x2))
    requires ReadVarInt(x2) == Some(Parsed(|tx.vin| as nat, x3))
    requires ReadMany(ReadInput, x3, |tx.vin|) == Some(Parsed(tx.vin, x4))
    requires ReadVarInt(x4) == Some(Parsed(|tx.vout| as nat, x5))
    requires ReadMany(ReadOutput, x5, |tx.vout|) == Some(Parsed(tx.vout, x6))
    requires ReadInt(x6, SzHex32) == Some(Parsed(tx.lockTime, rest))
    modifies p`i
    ensures old(p.i) <= p.i <= |p.s| && p.Rest() == rest
    ensures version == tx.version && vin == tx.vin && vout == tx.vout && lockTime == tx.lockTime
  {
    version := p.NextInt(SzHex32);
    var vins := p.NextVarInt();
    vin := DecodeInputs(p, vins);
    var vouts := p.NextVarInt();
    vout := DecodeOutputs(p, vouts);
    lockTime := p.NextInt(SzHex32);
  }

  method DecodeInput(p: Parser) returns (v: TxIn)
    requires p.i <= |p.s| && ReadInput(p.Rest()).Some?
    modifies p`i
    ensures old(p.i) <= p.i <= |p.s| && ReadInput(old(p.Rest())) == Some(Parsed(v, p.Rest()))
  {
    ghost var r1, r2, r3, r4 := ReadInputSteps(p.Rest());
    var hash := p.Next(SzHex256, false);
    var n := p.NextInt(SzHex32);
    var scriptlen := p.NextVarInt();
    var scriptSig := p.Next(scriptlen * 2, false);
    var sequence := p.NextInt(SzHex32);
    v := TxIn(Outpoint(hash, n), scriptSig, sequence);
  }

  /** Turn j of decode's input loop, from where the first j turns left it. */
  method DecodeInputsStep(p: Parser, ghost r: string, k: nat, j: nat, vs: seq<TxIn>, ghost cur: string)
    returns (j': nat, vs': seq<TxIn>, ghost cur': string)
    requires p.i <= |p.s| && cur == p.Rest() && j < k && ReadSoFar(ReadInput, r, k, j, vs, cur)
    modifies p`i
    ensures old(p.i) <= p.i <= |p.s| && cur' == p.Rest()
    ensures j' == j + 1 && ReadSoFar(ReadInput, r, k, j', vs', cur')
  {
    SoFarHasNext(ReadInput, r, k, j, vs, cur);
    var v := DecodeInput(p);
    cur' := p.Rest();
    SoFarStep(ReadInput, r, k, j, vs, cur, v, cur');
    j' := j + 1;
    vs' := vs + [v];
  }

  /** Decode's input loop: k inputs in order. */
  method DecodeInputs(p: Parser, k: nat) returns (vs: seq<TxIn>)
    requires p.i <= |p.s| && ReadMany(ReadInput, p.Rest(), k).Some?
    modifies p`i
    ensures old(p.i) <= p.i <= |p.s| && ReadMany(ReadInput, old(p.Rest()), k) == Some(Parsed(vs, p.Rest()))
  {
    ghost var r := p.Rest();
    ghost var cur := r;
    vs := [];
    var j := 0;
    while j < k
      invariant old(p.i) <= p.i <= |p.s| && cur == p.Rest()
      invariant ReadSoFar(ReadInput, r, k, j, vs, cur)
      decreases k - j
    {
      j, vs, cur := DecodeInputsStep(p, r, k, j, vs, cur);
    }
  }

  /** The body of decode's output loop. */
  method DecodeOutput(p: Parser) returns (v: TxOut)
    requires p.i <= |p.s| && ReadOutput(p.Rest()).Some?
    modifies p`i
    ensures old(p.i) <= p.i <= |p.s| && ReadOutput(old(p.Rest())) == Some(Parsed(v, p.Rest()))
  {
    ghost var r1, r2 := ReadOutputSteps(p.Rest());
    var amount := p.NextInt(SzHex64);
    var scriptlen := p.NextVarInt();
    var scriptPubKey := p.Next(scriptlen * 2, false);
    v := TxOut(amount, scriptPubKey);
  }

  /** Turn j of decode's output loop, from where the first j turns left it. */
  method DecodeOutputsStep(p: Parser, ghost r: string, k: nat, j: nat, vs: seq<TxOut>, ghost cur: string)
    returns (j': nat, vs': seq<TxOut>, ghost cur': string)
    requires p.i <= |p.s| && cur == p.Rest() && j < k && ReadSoFar(ReadOutput, r, k, j, vs, cur)
    modifies p`i
    ensures old(p.i) <= p.i <= |p.s| && cur' == p.Rest()
    ensures j' == j + 1 && ReadSoFar(ReadOutput, r, k, j', vs', cur')
  {
    SoFarHasNext(ReadOutput, r, k, j, vs, cur);
    var v := DecodeOutput(p);
    cur' := p.Rest();
    SoFarStep(ReadOutput, r, k, j, vs, cur, v, cur');
    j' := j + 1;
    vs' := vs + [v];
  }

  /** Decode's output loop: k outputs in order. */
  method DecodeOutputs(p: Parser, k: nat) returns (vs: seq<TxOut>)
    requires p.i <= |p.s| && ReadMany(ReadOutput, p.Rest(), k).Some?
    modifies p`i
    ensures old(p.i) <= p.i <= |p.s| && ReadMany(ReadOutput, old(p.Rest()), k) == Some(Parsed(vs, p.Rest()))
  {
    ghost var r := p.Rest();
    ghost var cur := r;
    vs := [];
    var j := 0;
    while j < k
      invariant old(p.i) <= p.i <= |p.s| && cur == p.Rest()
      invariant ReadSoFar(ReadOutput, r, k, j, vs, cur)
      decreases k - j
    {
      j, vs, cur := DecodeOutputsStep(p, r, k, j, vs, cur);
    }
  }

  /** Encode's input loop: the inputs in order. */
  method WriteInputs(s: Serializer, vs: seq<TxIn>)
    modifies s
    ensures s.s == old(s.s) + InputsText(vs)
  {
    ghost var s0 := s.s;
    var k := 0;
    while k < |vs|
      invariant 0 <= k <= |vs|
      invariant s.s == s0 + InputsText(vs[..k])
    {
      WriteInput(s, vs[k]);
      InputsTextStep(s0, vs, k);
      k := k + 1;
    }
    TakeAll(vs);
  }

  /** Encode's output loop: the outputs in order. */
  method WriteOutputs(s: Serializer, vs: seq<TxOut>)
    modifies s
    ensures s.s == old(s.s) + OutputsText(vs)
  {
    ghost var s0 := s.s;
    var k := 0;
    while k < |vs|
      invariant 0 <= k <= |vs|
      invariant s.s == s0 + OutputsText(vs[..k])
    {
      WriteOutput(s, vs[k]);
      OutputsTextStep(s0, vs, k);
      k := k + 1;
    }
    TakeAll(vs);
  }

  /** The body of encode's input loop. */
  method WriteInput(s: Serializer, v: TxIn)
    modifies s
    ensures s.s == old(s.s) + InputText(v)
  {
    ghost var before := s.s;
    s.Write(v.prevout.hash, false);
    s.WriteInt(SzHex32, v.prevout.n);
    s.WriteVarInt(|v.scriptSig| / 2);
    s.Write(v.scriptSig, false);
    s.WriteInt(SzHex32, v.sequence);
    AppendAssoc6(before, v.prevout.hash, IntText(SzHex32, v.prevout.n),
      VarIntText(|v.scriptSig| / 2), v.scriptSig, IntText(SzHex32, v.sequence));
  }

  /** The body of encode's output loop. */
  method WriteOutput(s: Serializer, v: TxOut)
    modifies s
    ensures s.s == old(s.s) + OutputText(v)
  {
    ghost var before := s.s;
    s.WriteInt(SzHex64, v.amount);
    s.WriteVarInt(|v.scriptPubKey| / 2);
    s.Write(v.scriptPubKey, false);
    AppendAssoc4(before, IntText(SzHex64, v.amount), VarIntText(|v.scriptPubKey| / 2), v.scriptPubKey);
  }

  /** A transaction built from text that encode produced decodes to the original fields, and
      encoding it again gives that text back. */
  method EncodeDecodeRoundTrip(tx: TxData) returns (t: Transaction, again: string)
    requires Canonical(tx)
    ensures t.Data() == tx && again == TxText(tx)
  {
    TxRoundTrip(tx, "");
    assert TxText(tx) + "" == TxText(tx);
    t := new Transaction.FromHex(TxText(tx));
    again := t.Encode(null);
  }
}
