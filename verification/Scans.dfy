/**
 * The block loop of `run` in tools/jpeg_reference.py over one interval of a scan: the blocks of all components in scan
 * order, each predicted from the last block of its own component.
 */
module Scans {
  import opened Bits
  import opened BitReader
  import opened Huffman
  import opened Coefficients

  /** The codes and the quantizers of a component. */
  datatype Component = Component(dc: Code, ac: Code, q: seq<int>) {
    ghost predicate Valid() {
      dc.Valid() && ac.Valid() && |q| == 64
    }
  }

  /** The decoding tables of a component. */
  datatype Tables = Tables(dc: Table, ac: Table)

  ghost predicate AllValid(comps: seq<Component>) {
    forall c :: 0 <= c < |comps| ==> comps[c].Valid()
  }

  /** `order` gives each block its component. */
  ghost predicate Components(comps: seq<Component>, order: seq<nat>) {
    forall i :: 0 <= i < |order| ==> order[i] < |comps|
  }

  // How a scan is coded

  /** The blocks `zzs` can be coded one after the other, each after the prediction its component is left with. */
  ghost predicate ScanCodable(comps: seq<Component>, order: seq<nat>, zzs: seq<seq<int>>, preds: seq<int>)
    requires Components(comps, order) && |preds| == |comps|
    decreases |order|
  {
    |zzs| == |order| && (order == [] ||
      var c := order[0];
      && Codable(comps[c].dc, comps[c].ac, zzs[0], preds[c])
      && ScanCodable(comps, order[1..], zzs[1..], preds[c := zzs[0][0]]))
  }

  ghost function ScanBits(comps: seq<Component>, order: seq<nat>, zzs: seq<seq<int>>, preds: seq<int>): Bits
    requires Components(comps, order) && |preds| == |comps| && ScanCodable(comps, order, zzs, preds)
    decreases |order|
  {
    if order == [] then [] else
      var c := order[0];
      BlockBits(comps[c].dc, comps[c].ac, zzs[0], preds[c])
      + ScanBits(comps, order[1..], zzs[1..], preds[c := zzs[0][0]])
  }

  lemma {:induction false} ScanAreBits(comps: seq<Component>, order: seq<nat>, zzs: seq<seq<int>>, preds: seq<int>)
    requires Components(comps, order) && |preds| == |comps| && ScanCodable(comps, order, zzs, preds)
    ensures AreBits(ScanBits(comps, order, zzs, preds))
    decreases |order|
  {
    hide Codable, BlockBits, AreBits;
    if order == [] {
      NoExtras();
    } else {
      var c := order[0];
      OneZero(comps[c].dc, comps[c].ac, zzs[0], preds[c]);
      BlockAreBits(comps[c].dc, comps[c].ac, zzs[0], preds[c]);
      ScanAreBits(comps, order[1..], zzs[1..], preds[c := zzs[0][0]]);
      BitsJoin(
        BlockBits(comps[c].dc, comps[c].ac, zzs[0], preds[c]),
        ScanBits(comps, order[1..], zzs[1..], preds[c := zzs[0][0]]));
    }
  }

  lemma OneZero(dc: Code, ac: Code, zz: seq<int>, pred: int)
    requires Codable(dc, ac, zz, pred)
    ensures |zz| == 64
  {
  }

  function NoPredictions(n: nat): (preds: seq<int>)
    ensures |preds| == n && forall i :: 0 <= i < n ==> preds[i] == 0
  {
    seq(n, i => 0)
  }

  // What a reader meets

  /** The stream begins with legal blocks of these components, and then has `rest`. */
  ghost predicate ScanLegal(comps: seq<Component>, order: seq<nat>, stream: Bits, rest: Bits)
    requires Components(comps, order)
    decreases |order|
  {
    if order == [] then stream == rest
    else exists mid :: FirstLegal(comps[order[0]], stream, mid) && ScanLegal(comps, order[1..], mid, rest)
  }

  ghost predicate FirstLegal(comp: Component, stream: Bits, mid: Bits) {
    BlockLegal(comp.dc, comp.ac, stream, mid)
  }

  /** The coefficients that the blocks mean, each block after the prediction its component is left with. */
  ghost predicate ScanReads(
      comps: seq<Component>, order: seq<nat>, stream: Bits, preds: seq<int>, zzs: seq<seq<int>>, rest: Bits)
    requires Components(comps, order) && |preds| == |comps|
    decreases |order|
  {
    |zzs| == |order| &&
    if order == [] then stream == rest
    else exists mid ::
      FirstReads(comps[order[0]], stream, preds[order[0]], zzs[0], mid)
      && ScanReads(comps, order[1..], mid, preds[order[0] := zzs[0][0]], zzs[1..], rest)
  }

  ghost predicate FirstReads(comp: Component, stream: Bits, pred: int, zz: seq<int>, mid: Bits) {
    |zz| == 64 && BlockReads(comp.dc, comp.ac, stream, pred, zz, mid)
  }

  ghost predicate NoScan(comps: seq<Component>, order: seq<nat>, stream: Bits)
    requires Components(comps, order)
  {
    forall rest :: !ScanLegal(comps, order, stream, rest)
  }

  /** After `stream` what is left of the scan is in `left`, from block `i` on. */
  ghost predicate ScanLeft(comps: seq<Component>, order: seq<nat>, stream: Bits, left: Bits, i: nat)
    requires Components(comps, order) && i <= |order|
  {
    forall rest :: ScanLegal(comps, order, stream, rest) <==> ScanLegal(comps, order[i..], left, rest)
  }

  lemma ScanBegins(comps: seq<Component>, order: seq<nat>, stream: Bits)
    requires Components(comps, order)
    ensures ScanLeft(comps, order, stream, stream, 0)
  {
    assert order[0..] == order;
  }

  lemma ScanGoesOn(comps: seq<Component>, order: seq<nat>, stream: Bits, left: Bits, i: nat, left': Bits)
    requires Components(comps, order) && i < |order| && ScanLeft(comps, order, stream, left, i)
    requires comps[order[i]].Valid() && FirstLegal(comps[order[i]], left, left')
    ensures ScanLeft(comps, order, stream, left', i + 1)
  {
    TailBlocks(order, i);
    var comp := comps[order[i]];
    forall rest
      ensures ScanLegal(comps, order, stream, rest) <==> ScanLegal(comps, order[i + 1..], left', rest)
    {
      if ScanLegal(comps, order[i..], left, rest) {
        var mid :| FirstLegal(comps[order[i..][0]], left, mid) && ScanLegal(comps, order[i..][1..], mid, rest);
        hide Code.Valid, BlockLegal;
        BlockLegalUnique(comp.dc, comp.ac, left, mid, left');
      }
      ScanMore(comps, order[i..], left, left', rest);
      hide ScanLegal;
    }
  }

  lemma ScanMore(comps: seq<Component>, order: seq<nat>, stream: Bits, mid: Bits, rest: Bits)
    requires Components(comps, order) && order != [] && FirstLegal(comps[order[0]], stream, mid)
    ensures ScanLegal(comps, order[1..], mid, rest) ==> ScanLegal(comps, order, stream, rest)
  {
    hide FirstLegal;
  }

  lemma ScanStops(comps: seq<Component>, order: seq<nat>, stream: Bits, left: Bits, i: nat)
    requires Components(comps, order) && i < |order| && ScanLeft(comps, order, stream, left, i)
    requires NoBlock(comps[order[i]].dc, comps[order[i]].ac, left)
    ensures NoScan(comps, order, stream)
  {
    TailBlocks(order, i);
    hide BlockLegal;
    forall rest
      ensures !ScanLegal(comps, order, stream, rest)
    {
      assert !ScanLegal(comps, order[i..], left, rest);
    }
  }

  lemma ScanEnds(comps: seq<Component>, order: seq<nat>, stream: Bits, left: Bits)
    requires Components(comps, order) && ScanLeft(comps, order, stream, left, |order|)
    ensures ScanLegal(comps, order, stream, left)
  {
    assert order[|order|..] == [];
    assert ScanLegal(comps, order[|order|..], left, left);
  }

  /** The first block's coefficients, and what comes after it. */
  lemma FirstRead(
      comps: seq<Component>, order: seq<nat>, stream: Bits, preds: seq<int>, zzs: seq<seq<int>>, rest: Bits)
    returns (mid: Bits)
    requires Components(comps, order) && |preds| == |comps| && order != []
    requires ScanReads(comps, order, stream, preds, zzs, rest)
    ensures |zzs| == |order| && FirstReads(comps[order[0]], stream, preds[order[0]], zzs[0], mid) && |zzs[0]| == 64
    ensures ScanReads(comps, order[1..], mid, preds[order[0] := zzs[0][0]], zzs[1..], rest)
  {
    hide BlockReads;
    mid :| FirstReads(comps[order[0]], stream, preds[order[0]], zzs[0], mid)
      && ScanReads(comps, order[1..], mid, preds[order[0] := zzs[0][0]], zzs[1..], rest);
  }

  /** A stream that means some coefficients is legal. */
  lemma {:induction false} ScanReadsLegal(
      comps: seq<Component>, order: seq<nat>, stream: Bits, preds: seq<int>, zzs: seq<seq<int>>, rest: Bits)
    requires Components(comps, order) && |preds| == |comps| && ScanReads(comps, order, stream, preds, zzs, rest)
    ensures ScanLegal(comps, order, stream, rest)
    decreases |order|
  {
    hide BlockReads, BlockLegal;
    if order == [] {
    } else {
      var c := comps[order[0]];
      var mid :| FirstReads(c, stream, preds[order[0]], zzs[0], mid)
        && ScanReads(comps, order[1..], mid, preds[order[0] := zzs[0][0]], zzs[1..], rest);
      LegalIffReads(c.dc, c.ac, stream, preds[order[0]], mid);
      ScanReadsLegal(comps, order[1..], mid, preds[order[0] := zzs[0][0]], zzs[1..], rest);
      assert FirstLegal(c, stream, mid);
    }
  }

  /** What is coded means its coefficients. */
  lemma {:induction false} CodedScan(
      stream: Bits, comps: seq<Component>, order: seq<nat>, zzs: seq<seq<int>>, preds: seq<int>, rest: Bits)
    requires Components(comps, order) && |preds| == |comps| && BlocksCome(stream, comps, order, zzs, preds, rest)
    ensures ScanReads(comps, order, stream, preds, zzs, rest)
    decreases |order|
  {
    hide Codable, BlockBits, BlockReads;
    if order == [] {
      NoBlocks(stream, comps, zzs, preds, rest);
    } else {
      var c := order[0];
      var left := FirstBlock(stream, comps, order, zzs, preds, rest);
      hide BlocksCome;
      BlockCodedReads(comps[c].dc, comps[c].ac, zzs[0], preds[c], left);
      CodedScan(left, comps, order[1..], zzs[1..], preds[c := zzs[0][0]], rest);
      assert FirstReads(comps[c], stream, preds[c], zzs[0], left);
    }
  }

  /** The blocks still to be read, and then `rest`. */
  ghost predicate BlocksCome(
      stream: Bits, comps: seq<Component>, order: seq<nat>, zzs: seq<seq<int>>, preds: seq<int>, rest: Bits)
    requires Components(comps, order) && |preds| == |comps|
  {
    ScanCodable(comps, order, zzs, preds) && stream == ScanBits(comps, order, zzs, preds) + rest
  }

  /** The first block, and what comes after it. */
  lemma FirstBlock(
      stream: Bits, comps: seq<Component>, order: seq<nat>, zzs: seq<seq<int>>, preds: seq<int>, rest: Bits)
    returns (left: Bits)
    requires Components(comps, order) && |preds| == |comps| && order != []
    requires BlocksCome(stream, comps, order, zzs, preds, rest)
    ensures |zzs| == |order| && |zzs[0]| == 64
    ensures var c := order[0];
            && Codable(comps[c].dc, comps[c].ac, zzs[0], preds[c])
            && stream == BlockBits(comps[c].dc, comps[c].ac, zzs[0], preds[c]) + left
            && BlocksCome(left, comps, order[1..], zzs[1..], preds[c := zzs[0][0]], rest)
  {
    hide Codable, BlockBits;
    var c := order[0];
    OneZero(comps[c].dc, comps[c].ac, zzs[0], preds[c]);
    left := ScanBits(comps, order[1..], zzs[1..], preds[c := zzs[0][0]]) + rest;
  }

  lemma NoBlocks(stream: Bits, comps: seq<Component>, zzs: seq<seq<int>>, preds: seq<int>, rest: Bits)
    requires |preds| == |comps| && BlocksCome(stream, comps, [], zzs, preds, rest)
    ensures stream == rest && zzs == []
  {
  }

  /** The block holds the coefficients, each times its quantizer and in its place. */
  ghost predicate Holds(block: seq<int>, zz: seq<int>, q: seq<int>) {
    && |block| == 64 && |zz| == 64 && |q| == 64
    && forall j :: 0 <= j < 64 ==> Zigzag(j) < 64 && block[Zigzag(j)] == zz[j] * q[j]
  }

  lemma PlacedHolds(coef: array<int>, zz: seq<int>, q: seq<int>)
    requires Placed(coef, zz, q, 64)
    ensures Holds(coef[..], zz, q)
  {
    ZigzagOnce();
  }

  ghost predicate AllHold(out: seq<seq<int>>, comps: seq<Component>, order: seq<nat>, zzs: seq<seq<int>>, n: nat)
    requires Components(comps, order)
  {
    && n <= |order| && |zzs| == |order| && |out| == n
    && forall i :: 0 <= i < n ==> Holds(out[i], zzs[i], comps[order[i]].q)
  }

  ghost predicate TablesFor(comps: seq<Component>, tables: seq<Tables>) {
    |tables| == |comps| && forall c :: 0 <= c < |comps| ==> TablesOf(comps[c], tables[c])
  }

  ghost predicate TablesOf(comp: Component, tables: Tables) {
    && TableFor(comp.dc.counts, tables.dc) && tables.dc.values == comp.dc.values
    && TableFor(comp.ac.counts, tables.ac) && tables.ac.values == comp.ac.values
  }

  lemma TailBlocks<T>(s: seq<T>, i: nat)
    requires i < |s|
    ensures s[i..] != [] && s[i..][0] == s[i] && s[i..][1..] == s[i + 1..]
  {
  }

  /**
   * The loop over the blocks. On every stream it succeeds exactly when legal blocks come, which it consumes, and gives
   * what they mean, with predictions chained by component.
   */
  method Blocks(
      reader: Reader, comps: seq<Component>, tables: seq<Tables>, order: seq<nat>, ghost zzs: seq<seq<int>>,
      ghost rest: Bits)
    returns (ok: bool, out: seq<seq<int>>)
    requires reader.Valid() && AllValid(comps) && TablesFor(comps, tables) && Components(comps, order)
    modifies reader
    ensures ok ==> reader.Valid()
    ensures if ok then ScanLegal(comps, order, old(reader.Remaining()), reader.Remaining())
            else NoScan(comps, order, old(reader.Remaining()))
    ensures ok && ScanReads(comps, order, old(reader.Remaining()), NoPredictions(|comps|), zzs, rest) ==>
      reader.Remaining() == rest && AllHold(out, comps, order, zzs, |order|)
  {
    hide Reader.Valid, Reader.Remaining, BlockReads, BlockLegal, NoBlock, Holds, Placed, TableFor, Code.Valid;
    hide ScanReads, ScanLegal, NoScan, ScanLeft;
    var preds := NoPredictions(|comps|);
    ghost var stream := reader.Remaining();
    ghost var means := ScanReads(comps, order, stream, preds, zzs, rest);
    ReadsCounted(comps, order, stream, preds, zzs, rest);
    ok, out := true, [];
    assert order[0..] == order && zzs[0..] == zzs;
    ScanBegins(comps, order, stream);
    for i := 0 to |order|
      invariant reader.Valid() && |preds| == |comps| && ScanLeft(comps, order, stream, reader.Remaining(), i)
      invariant means ==> |zzs| == |order| && AllHold(out, comps, order, zzs, i)
      invariant means ==> ScanReads(comps, order[i..], reader.Remaining(), preds, zzs[i..], rest)
    {
      var c := order[i];
      ghost var zz, left, before := [], [], reader.Remaining();
      if means {
        TailBlocks(order, i);
        TailBlocks(zzs, i);
        left := FirstRead(comps, order[i..], before, preds, zzs[i..], rest);
        zz := zzs[i];
      }
      assert comps[c].Valid() && TablesOf(comps[c], tables[c]);
      var good, coef, pred := Block(
        reader, tables[c].dc, tables[c].ac, preds[c], comps[c].q, comps[c].dc, comps[c].ac, zz, left);
      if !good {
        ScanStops(comps, order, stream, before, i);
        return false, out;
      }
      ScanGoesOn(comps, order, stream, before, i, reader.Remaining());
      if means { PlacedHolds(coef, zz, comps[c].q); }
      out := out + [coef[..]];
      preds := preds[c := pred];
    }
    ScanEnds(comps, order, stream, reader.Remaining());
    if means { ReadsNothing(comps, order, reader.Remaining(), preds, zzs, rest); }
  }

  lemma ReadsCounted(
      comps: seq<Component>, order: seq<nat>, stream: Bits, preds: seq<int>, zzs: seq<seq<int>>, rest: Bits)
    requires Components(comps, order) && |preds| == |comps|
    ensures ScanReads(comps, order, stream, preds, zzs, rest) ==> |zzs| == |order|
  {
  }

  lemma ReadsNothing(
      comps: seq<Component>, order: seq<nat>, stream: Bits, preds: seq<int>, zzs: seq<seq<int>>, rest: Bits)
    requires Components(comps, order) && |preds| == |comps| && |zzs| == |order|
    requires ScanReads(comps, order[|order|..], stream, preds, zzs[|order|..], rest)
    ensures stream == rest
  {
    assert order[|order|..] == [];
  }

  method BuildAll(comps: seq<Component>) returns (tables: seq<Tables>)
    requires AllValid(comps)
    ensures TablesFor(comps, tables)
  {
    hide TableFor;
    tables := [];
    for c := 0 to |comps|
      invariant |tables| == c && forall b :: 0 <= b < c ==> TablesOf(comps[b], tables[b])
    {
      assert comps[c].Valid();
      var dc := Build(comps[c].dc.counts, comps[c].dc.values);
      var ac := Build(comps[c].ac.counts, comps[c].ac.values);
      tables := tables + [Tables(dc, ac)];
    }
  }

  /** The data mean these coefficients. */
  ghost predicate DataRead(data: seq<int>, comps: seq<Component>, order: seq<nat>, zzs: seq<seq<int>>)
    requires Components(comps, order) && forall i :: 0 <= i < |data| ==> 0 <= data[i] < 256
  {
    exists rest :: ScanReads(comps, order, DataBits(data, 0), NoPredictions(|comps|), zzs, rest)
  }

  ghost predicate DataLegal(data: seq<int>, comps: seq<Component>, order: seq<nat>)
    requires Components(comps, order) && forall i :: 0 <= i < |data| ==> 0 <= data[i] < 256
  {
    exists rest :: ScanLegal(comps, order, DataBits(data, 0), rest)
  }

  /**
   * From bytes to blocks. On every data it succeeds exactly when they begin with legal blocks, and gives what these
   * mean; so where the data are coded blocks, packed and stuffed, every coefficient of every block comes back.
   */
  method Scan(data: seq<int>, comps: seq<Component>, order: seq<nat>, ghost zzs: seq<seq<int>>)
    returns (ok: bool, out: seq<seq<int>>)
    requires AllValid(comps) && Components(comps, order)
    requires forall i :: 0 <= i < |data| ==> 0 <= data[i] < 256
    ensures ok <==> DataLegal(data, comps, order)
    ensures DataRead(data, comps, order, zzs) ==> ok && AllHold(out, comps, order, zzs, |order|)
    ensures ScanData(data, comps, order, zzs) ==> ok && AllHold(out, comps, order, zzs, |order|)
  {
    hide Reader.Valid, AllValid, AllHold, ScanData, BlocksCome, TablesFor, ScanReads, ScanLegal;
    var tables := BuildAll(comps);
    var reader := new Reader(data);
    if ScanData(data, comps, order, zzs) { CodedData(data, comps, order, zzs); }
    ghost var rest := [];
    if DataRead(data, comps, order, zzs) {
      rest :| ScanReads(comps, order, DataBits(data, 0), NoPredictions(|comps|), zzs, rest);
      ScanReadsLegal(comps, order, DataBits(data, 0), NoPredictions(|comps|), zzs, rest);
    }
    ok, out := Blocks(reader, comps, tables, order, zzs, rest);
  }

  lemma CodedData(data: seq<int>, comps: seq<Component>, order: seq<nat>, zzs: seq<seq<int>>)
    requires Components(comps, order) && ScanData(data, comps, order, zzs)
    requires forall i :: 0 <= i < |data| ==> 0 <= data[i] < 256
    ensures DataRead(data, comps, order, zzs)
  {
    hide ScanData, BlocksCome, ScanReads;
    var rest := DataBlocks(data, comps, order, zzs);
    CodedScan(DataBits(data, 0), comps, order, zzs, NoPredictions(|comps|), rest);
  }

  /** The data are the blocks' bits, packed into bytes and stuffed. */
  ghost predicate ScanData(data: seq<int>, comps: seq<Component>, order: seq<nat>, zzs: seq<seq<int>>)
    requires Components(comps, order)
  {
    var preds := NoPredictions(|comps|);
    && ScanCodable(comps, order, zzs, preds)
    && (ScanAreBits(comps, order, zzs, preds); data == Stuffed(Packed(ScanBits(comps, order, zzs, preds))))
  }

  lemma DataBlocks(data: seq<int>, comps: seq<Component>, order: seq<nat>, zzs: seq<seq<int>>) returns (rest: Bits)
    requires Components(comps, order) && ScanData(data, comps, order, zzs)
    requires forall i :: 0 <= i < |data| ==> 0 <= data[i] < 256
    ensures BlocksCome(DataBits(data, 0), comps, order, zzs, NoPredictions(|comps|), rest)
  {
    var preds := NoPredictions(|comps|);
    ScanAreBits(comps, order, zzs, preds);
    var bits := ScanBits(comps, order, zzs, preds);
    NoExtras();
    hide *;
    assert bits + [] == bits;
    rest := FillOf(bits, []);
    assert [] + rest == rest;
    Together(data, comps, order, zzs, bits, rest);
  }

  lemma Together(
      data: seq<int>, comps: seq<Component>, order: seq<nat>, zzs: seq<seq<int>>, bits: Bits, rest: Bits)
    requires Components(comps, order) && ScanData(data, comps, order, zzs) && AreBits(bits)
    requires forall i :: 0 <= i < |data| ==> 0 <= data[i] < 256
    requires ScanCodable(comps, order, zzs, NoPredictions(|comps|))
      && bits == ScanBits(comps, order, zzs, NoPredictions(|comps|))
    requires DataBits(Stuffed(Packed(bits)), 0) == bits + rest
    ensures BlocksCome(DataBits(data, 0), comps, order, zzs, NoPredictions(|comps|), rest)
  {
    hide ScanBits, ScanCodable, AreBits, DataBits, Stuffed, Packed;
  }
}
