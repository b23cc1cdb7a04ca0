/** Transactions, their wire form and their JSON form (crates/grin-ext/src/transaction.rs). */
module Transactions {
  import opened Outcomes
  import opened ByteStrings
  import opened Codec
  import opened Curves
  import opened Kernels
  import opened Slates
  import opened StableSort
  import Schnorr
  import Aggregation
  import Modular

  datatype TxInput = TxInput(features: byte, commitment: Bytes33)
  datatype TxOutput = TxOutput(features: byte, commitment: Bytes33, rangeproof: ByteVec)

  /** A single-kernel transaction, as the network reads it. */
  datatype Transaction = Transaction(
    offset: Bytes32, inputs: seq<TxInput>, outputs: seq<TxOutput>, kernel: KernelFeatures, excess: Bytes33,
    signature: Bytes64)
  {
    predicate Countable() {
      |inputs| <= U64_MAX && |outputs| <= U64_MAX
    }
  }

  function InputBytes(i: TxInput): Bytes {
    [i.features] + i.commitment
  }

  function OutputBytes(o: TxOutput): Bytes {
    [o.features] + o.commitment + U64Bytes(|o.rangeproof|) + o.rangeproof
  }

  function Counts(inputs: nat, outputs: nat): Bytes
    requires inputs <= U64_MAX && outputs <= U64_MAX
  {
    U64Bytes(inputs) + U64Bytes(outputs) + U64Bytes(1)
  }

  /** The wire form. */
  function TxBytes(tx: Transaction): Bytes
    requires tx.Countable()
  {
    tx.offset + Counts(|tx.inputs|, |tx.outputs|) + WriteMany(InputBytes, tx.inputs)
      + WriteMany(OutputBytes, tx.outputs) + KernelBytes(tx.kernel) + tx.excess + tx.signature
  }

  // ----- reading back ------------------------------------------------------------------------

  function ReadInput(b: Bytes): Parse<TxInput> {
    var (features, b) :- TakeU8(b);
    var (commitment, b) :- Take(33, b);
    Ok((TxInput(features, commitment), b))
  }

  function ReadOutput(b: Bytes): Parse<TxOutput> {
    var (features, b) :- TakeU8(b);
    var (commitment, b) :- Take(33, b);
    var (len, b) :- TakeU64(b);
    var (rangeproof, b) :- Take(len, b);
    Ok((TxOutput(features, commitment, rangeproof), b))
  }

  /** The format as a reader of it: fixed widths, counted lists, a kernel whose length its first byte
      tells. */
  function ReadTx(b: Bytes): Parse<Transaction> {
    var (offset, b) :- Take(32, b);
    var (inputCount, b) :- TakeU64(b);
    var (outputCount, b) :- TakeU64(b);
    var (kernelCount, b) :- TakeU64(b);
    var _ :- Need(kernelCount == 1, "not a single-kernel transaction");
    var (inputs, b) :- ReadMany(ReadInput, inputCount, b);
    var (outputs, b) :- ReadMany(ReadOutput, outputCount, b);
    var (kernel, b) :- ReadKernel(b);
    var (excess, b) :- Take(33, b);
    var (signature, b) :- Take(64, b);
    Ok((Transaction(offset, inputs, outputs, kernel, excess, signature), b))
  }

  lemma InputRoundTrips(i: TxInput, t: Bytes)
    ensures RoundTrips(InputBytes, ReadInput, i, t)
  {
    assert InputBytes(i) + t == [i.features] + (i.commitment + t);
    TakeWritten([i.features], i.commitment + t);
    TakeWritten(i.commitment, t);
  }

  lemma OutputRoundTrips(o: TxOutput, t: Bytes)
    ensures RoundTrips(OutputBytes, ReadOutput, o, t)
  {
    hide U64Bytes, TakeU64;
    var b3 := o.rangeproof + t;
    var b2 := U64Bytes(|o.rangeproof|) + b3;
    var b1 := o.commitment + b2;
    assert OutputBytes(o) + t == [o.features] + b1;
    TakeWritten([o.features], b1);
    TakeWritten(o.commitment, b2);
    WordsWritten(0, 0, |o.rangeproof|, b3);
    TakeWritten(o.rangeproof, t);
  }

  /** The bytes read back as the transaction they were written for. */
  lemma TxRoundTrips(tx: Transaction, t: Bytes)
    requires tx.Countable()
    ensures ReadTx(TxBytes(tx) + t) == Ok((tx, t))
  {
    hide U64Bytes, TakeU64, Take, ReadInput, ReadOutput, InputBytes, OutputBytes, ReadKernel, KernelBytes, ReadMany,
      WriteMany;
    var b8 := tx.signature + t;
    var b7 := tx.excess + b8;
    var b6 := KernelBytes(tx.kernel) + b7;
    var b5 := WriteMany(OutputBytes, tx.outputs) + b6;
    var b4 := WriteMany(InputBytes, tx.inputs) + b5;
    var b3 := U64Bytes(1) + b4;
    var b2 := U64Bytes(|tx.outputs|) + b3;
    var b1 := U64Bytes(|tx.inputs|) + b2;
    assert TxBytes(tx) + t == tx.offset + b1;
    TakeWritten(tx.offset, b1);
    WordsWritten(0, 0, |tx.inputs|, b2);
    WordsWritten(0, 0, |tx.outputs|, b3);
    WordsWritten(0, 0, 1, b4);
    ListsRoundTrip(tx, b5, b6);
    KernelRoundTrips(tx.kernel, b7);
    TakeWritten(tx.excess, b8);
    TakeWritten(tx.signature, t);
  }

  lemma ListsRoundTrip(tx: Transaction, t1: Bytes, t2: Bytes)
    ensures ReadMany(ReadInput, |tx.inputs|, WriteMany(InputBytes, tx.inputs) + t1) == Ok((tx.inputs, t1))
    ensures ReadMany(ReadOutput, |tx.outputs|, WriteMany(OutputBytes, tx.outputs) + t2) == Ok((tx.outputs, t2))
  {
    hide ReadInput, ReadOutput, InputBytes, OutputBytes;
    forall i, t | i in tx.inputs ensures RoundTrips(InputBytes, ReadInput, i, t) { InputRoundTrips(i, t); }
    forall o, t | o in tx.outputs ensures RoundTrips(OutputBytes, ReadOutput, o, t) { OutputRoundTrips(o, t); }
    ReadManyRoundTrips(InputBytes, ReadInput, tx.inputs, t1);
    ReadManyRoundTrips(OutputBytes, ReadOutput, tx.outputs, t2);
  }

  /** One reading: byte strings that begin with two transactions begin with the same transaction. */
  lemma TxBytesUnique(a: Transaction, b: Transaction, t: Bytes, u: Bytes)
    requires a.Countable() && b.Countable() && TxBytes(a) + t == TxBytes(b) + u
    ensures a == b && t == u
  {
    hide TxBytes, ReadTx;
    TxRoundTrips(a, t);
    TxRoundTrips(b, u);
  }

  /** The capacity the encoders reserve. */
  function Capacity(inputs: seq<TxInput>, outputs: seq<TxOutput>, kernel: KernelFeatures): nat {
    32 + 24 + |inputs| * (1 + 33) + ProofSizes(outputs) + |KernelBytes(kernel)| + 33 + 64
  }

  function ProofSizes(outputs: seq<TxOutput>): nat {
    if outputs == [] then 0 else 1 + 33 + 8 + |outputs[0].rangeproof| + ProofSizes(outputs[1..])
  }

  lemma {:induction false} InputsLength(inputs: seq<TxInput>)
    ensures |WriteMany(InputBytes, inputs)| == |inputs| * 34
  {
    if inputs != [] {
      InputsLength(inputs[1..]);
    }
  }

  lemma {:induction false} OutputsLength(outputs: seq<TxOutput>)
    ensures |WriteMany(OutputBytes, outputs)| == ProofSizes(outputs)
  {
    if outputs != [] {
      OutputsLength(outputs[1..]);
    }
  }

  /** The buffer is never reallocated: what is written is exactly what was reserved. */
  lemma CapacityExact(tx: Transaction)
    requires tx.Countable()
    ensures |TxBytes(tx)| == Capacity(tx.inputs, tx.outputs, tx.kernel)
  {
    hide InputBytes, OutputBytes, KernelBytes, U64Bytes;
    InputsLength(tx.inputs);
    OutputsLength(tx.outputs);
  }

  // ----- where everything stands -------------------------------------------------------------

  /** One byte and a commitment. */
  ghost predicate InputAt(b: Bytes, at: nat, i: TxInput) {
    at + 34 <= |b| && b[at] == i.features && b[at + 1..at + 34] == i.commitment
  }

  /** The same, then the proof's length in eight bytes, and the proof. */
  ghost predicate OutputAt(b: Bytes, at: nat, o: TxOutput) {
    && at + 42 + |o.rangeproof| <= |b|
    && b[at] == o.features && b[at + 1..at + 34] == o.commitment
    && BeValue(b[at + 34..at + 42]) == |o.rangeproof| && b[at + 42..at + 42 + |o.rangeproof|] == o.rangeproof
  }

  /** How many bytes outputs take. */
  function OutputSizes(outputs: seq<TxOutput>): nat {
    if outputs == [] then 0 else 42 + |outputs[0].rangeproof| + OutputSizes(outputs[1..])
  }

  lemma InputPlaced(i: TxInput, a: Bytes, c: Bytes)
    ensures InputAt(a + InputBytes(i) + c, |a|, i)
  {
    var item := InputBytes(i);
    var b := a + item + c;
    Middle(a, item, c);
    assert item[1..34] == i.commitment;
    RangeWithin(b, |a|, 34, |a| + 1, 33);
    assert b[|a|] == b[|a|..|a| + 34][0];
  }

  lemma OutputLayout(o: TxOutput)
    ensures var b := OutputBytes(o);
      && |b| == 42 + |o.rangeproof| && b[0] == o.features && b[1..34] == o.commitment
      && BeValue(b[34..42]) == |o.rangeproof| && b[42..] == o.rangeproof
  {
    hide U64Bytes, BeValue;
    WordValues(0, 0, |o.rangeproof|);
    assert OutputBytes(o)[34..42] == U64Bytes(|o.rangeproof|);
  }

  lemma OutputPlaced(o: TxOutput, a: Bytes, c: Bytes)
    ensures OutputAt(a + OutputBytes(o) + c, |a|, o)
  {
    hide OutputBytes, BeValue;
    var item := OutputBytes(o);
    var b, n := a + item + c, |item|;
    OutputLayout(o);
    Middle(a, item, c);
    RangeWithin(b, |a|, n, |a| + 1, 33);
    RangeWithin(b, |a|, n, |a| + 34, 8);
    RangeWithin(b, |a|, n, |a| + 42, n - 42);
    assert item[42..n] == item[42..];
    assert b[|a|] == b[|a|..|a| + n][0];
  }

  lemma {:induction false} SizesAgree(outputs: seq<TxOutput>)
    ensures OutputSizes(outputs) == ProofSizes(outputs)
  {
    if outputs != [] {
      SizesAgree(outputs[1..]);
    }
  }

  /** An input of 34 bytes each from byte 56 on; the outputs behind them. */
  lemma InputPlace(tx: Transaction, i: nat)
    requires tx.Countable() && i < |tx.inputs|
    ensures InputAt(TxBytes(tx), 56 + 34 * i, tx.inputs[i])
  {
    hide InputBytes, OutputBytes, KernelBytes, Counts, InputAt, WriteMany;
    var head := tx.offset + Counts(|tx.inputs|, |tx.outputs|);
    assert |head| == 56 by { CountsLength(|tx.inputs|, |tx.outputs|); }
    var tail := WriteMany(OutputBytes, tx.outputs) + KernelBytes(tx.kernel) + tx.excess + tx.signature;
    WriteManyAround(InputBytes, tx.inputs, i);
    InputsLength(tx.inputs[..i]);
    var before, after := WriteMany(InputBytes, tx.inputs[..i]), WriteMany(InputBytes, tx.inputs[i + 1..]);
    InputPlaced(tx.inputs[i], head + before, after + tail);
    assert TxBytes(tx) == (head + before) + InputBytes(tx.inputs[i]) + (after + tail);
  }

  lemma OutputPlace(tx: Transaction, i: nat)
    requires tx.Countable() && i < |tx.outputs|
    ensures OutputAt(TxBytes(tx), 56 + 34 * |tx.inputs| + OutputSizes(tx.outputs[..i]), tx.outputs[i])
  {
    hide InputBytes, OutputBytes, KernelBytes, Counts, OutputAt, WriteMany;
    var head := tx.offset + Counts(|tx.inputs|, |tx.outputs|) + WriteMany(InputBytes, tx.inputs);
    InputsLength(tx.inputs);
    assert |head| == 56 + 34 * |tx.inputs| by { CountsLength(|tx.inputs|, |tx.outputs|); }
    var tail := KernelBytes(tx.kernel) + tx.excess + tx.signature;
    WriteManyAround(OutputBytes, tx.outputs, i);
    OutputsLength(tx.outputs[..i]);
    SizesAgree(tx.outputs[..i]);
    var before, after := WriteMany(OutputBytes, tx.outputs[..i]), WriteMany(OutputBytes, tx.outputs[i + 1..]);
    OutputPlaced(tx.outputs[i], head + before, after + tail);
    assert TxBytes(tx) == (head + before) + OutputBytes(tx.outputs[i]) + (after + tail);
  }

  lemma CountsLength(inputs: nat, outputs: nat)
    requires inputs <= U64_MAX && outputs <= U64_MAX
    ensures |Counts(inputs, outputs)| == 24
  {
    hide U64Bytes;
  }

  /** The fixed parts: first the offset and the counts of inputs, outputs and kernels in eight bytes each. */
  lemma TxHead(tx: Transaction)
    requires tx.Countable()
    ensures var b := TxBytes(tx);
      && |b| >= 56 && b[..32] == tx.offset
      && BeValue(b[32..40]) == |tx.inputs| && BeValue(b[40..48]) == |tx.outputs| && BeValue(b[48..56]) == 1
  {
    hide InputBytes, OutputBytes, KernelBytes, Counts, BeValue, WriteMany;
    CountsAre(|tx.inputs|, |tx.outputs|);
    var counts := Counts(|tx.inputs|, |tx.outputs|);
    var rest := WriteMany(InputBytes, tx.inputs) + WriteMany(OutputBytes, tx.outputs) + KernelBytes(tx.kernel)
      + tx.excess + tx.signature;
    var b := TxBytes(tx);
    assert b == tx.offset + counts + rest;
    assert b[32..40] == counts[..8] && b[40..48] == counts[8..16] && b[48..56] == counts[16..];
  }

  lemma CountsAre(inputs: nat, outputs: nat)
    requires inputs <= U64_MAX && outputs <= U64_MAX
    ensures var b := Counts(inputs, outputs);
      |b| == 24 && BeValue(b[..8]) == inputs && BeValue(b[8..16]) == outputs && BeValue(b[16..]) == 1
  {
    hide U64Bytes, BeValue;
    WordValues(0, 0, inputs);
    WordValues(0, 0, outputs);
    WordValues(0, 0, 1);
    var b := Counts(inputs, outputs);
    assert b[..8] == U64Bytes(inputs) && b[8..16] == U64Bytes(outputs) && b[16..] == U64Bytes(1);
  }

  /** At the end, behind inputs and outputs, the kernel, the excess and the signature. */
  lemma TxTail(tx: Transaction)
    requires tx.Countable()
    ensures var b, kernelAt := TxBytes(tx), 56 + 34 * |tx.inputs| + OutputSizes(tx.outputs);
      && |b| >= kernelAt + 97 && OnWire(tx.kernel, b[kernelAt..|b| - 97])
      && b[|b| - 97..|b| - 64] == tx.excess && b[|b| - 64..] == tx.signature
  {
    hide InputBytes, OutputBytes, KernelBytes, Counts, OnWire, WriteMany, OutputSizes;
    InputsLength(tx.inputs);
    OutputsLength(tx.outputs);
    SizesAgree(tx.outputs);
    KernelLayout(tx.kernel);
    assert |Counts(|tx.inputs|, |tx.outputs|)| == 24 by { CountsLength(|tx.inputs|, |tx.outputs|); }
    var head := tx.offset + Counts(|tx.inputs|, |tx.outputs|) + WriteMany(InputBytes, tx.inputs)
      + WriteMany(OutputBytes, tx.outputs);
    LastThree(head, KernelBytes(tx.kernel), tx.excess, tx.signature);
  }

  lemma LastThree(head: Bytes, kernel: Bytes, excess: Bytes33, signature: Bytes64)
    ensures var b := head + kernel + excess + signature;
      b[|head|..|b| - 97] == kernel && b[|b| - 97..|b| - 64] == excess && b[|b| - 64..] == signature
  {
  }

  // ----- the encoders ------------------------------------------------------------------------

  /** The buffer the slate encoder fills. */
  method EmitTx(
    offset: Bytes32, inputs: seq<TxInput>, outputs: seq<TxOutput>, kernelBytes: Bytes, excess: Bytes33,
    signature: Bytes64) returns (out: Bytes)
    requires |inputs| <= U64_MAX && |outputs| <= U64_MAX
    ensures out == offset + Counts(|inputs|, |outputs|) + WriteMany(InputBytes, inputs)
      + WriteMany(OutputBytes, outputs) + kernelBytes + excess + signature
  {
    hide U64Bytes, InputBytes, OutputBytes;
    out := offset;
    out := out + U64Bytes(|inputs|);
    out := out + U64Bytes(|outputs|);
    out := out + U64Bytes(1);
    ghost var head := offset + Counts(|inputs|, |outputs|);
    assert out == head;
    for i := 0 to |inputs|
      invariant out == head + WriteMany(InputBytes, inputs[..i])
    {
      out := out + InputBytes(inputs[i]);
      WriteManySnoc(InputBytes, inputs, i);
    }
    assert inputs[..|inputs|] == inputs;
    ghost var middle := head + WriteMany(InputBytes, inputs);
    for i := 0 to |outputs|
      invariant out == middle + WriteMany(OutputBytes, outputs[..i])
    {
      out := out + OutputBytes(outputs[i]);
      WriteManySnoc(OutputBytes, outputs, i);
    }
    assert outputs[..|outputs|] == outputs;
    out := out + kernelBytes;
    out := out + excess;
    out := out + signature;
  }

  /** What the slate encoder is given. */
  datatype BuildParams = BuildParams(
    slate: Slate, senderInputs: seq<TxInput>, senderChangeOutputs: seq<TxOutput>, signature: Bytes64)

  predicate Proved(coms: seq<Commit>) {
    forall i | 0 <= i < |coms| :: coms[i].p.Some?
  }

  function OutputFrom(com: Commit): TxOutput
    requires com.p.Some?
  {
    TxOutput(com.f, com.c, com.p.value)
  }

  function OutputsFrom(coms: seq<Commit>): (outputs: seq<TxOutput>)
    requires Proved(coms)
    ensures |outputs| == |coms| && forall i | 0 <= i < |coms| :: outputs[i] == OutputFrom(coms[i])
  {
    if coms == [] then [] else [OutputFrom(coms[0])] + OutputsFrom(coms[1..])
  }

  /** The slate's commitments as outputs; one without a proof stops the build. */
  function OutputsOf(coms: seq<Commit>): Outcome<seq<TxOutput>> {
    if Proved(coms) then Ok(OutputsFrom(coms)) else Err("output in slate.coms is missing its rangeproof")
  }

  /** The public excesses of everyone who signed. */
  function ExcessKeys(sigs: seq<Participant>): seq<Bytes33> {
    if sigs == [] then [] else [sigs[0].xs] + ExcessKeys(sigs[1..])
  }

  /** The transaction a finished slate describes, or why it describes none. */
  function SlateTransaction(c: Curve, params: BuildParams): Outcome<Transaction>
    requires c.order > 0
  {
    var slate := params.slate;
    var _ :- Need(slate.sta == Standard3, "slate_to_transaction_bytes expects S3");
    var _ :- Need(slate.sigs != [], "S3 slate must contain at least one participant");
    var outputs :- OutputsOf(Coms(slate));
    var total :- Schnorr.AddPoints(c, slate.sigs[0].xs, ExcessKeys(slate.sigs[1..]));
    var excess :- PubkeyToCommitment(c, total);
    var kernel :- FromSlateFields(slate.feat, slate.fee, slate.featArgs);
    var _ :- ToV2Bytes(kernel);
    Ok(Transaction(slate.off, params.senderInputs, outputs + params.senderChangeOutputs,
                   kernel, excess, params.signature))
  }

  /** The part both forms of the slate encoder share. */
  method Assemble(c: Curve, params: BuildParams) returns (r: Outcome<Transaction>)
    requires c.order > 0
    ensures r == SlateTransaction(c, params)
  {
    hide Schnorr.PointAdd, PubkeyToCommitment, KernelBytes, FromSlateFields, InRange;
    var slate := params.slate;
    if slate.sta != Standard3 {
      return Err("slate_to_transaction_bytes expects S3");
    }
    if |slate.sigs| == 0 {
      return Err("S3 slate must contain at least one participant");
    }
    var outputs: seq<TxOutput> :- CollectOutputs(Coms(slate));
    var total :- SumExcesses(c, slate.sigs);
    var excess :- PubkeyToCommitment(c, total);
    var kernel :- FromSlateFields(slate.feat, slate.fee, slate.featArgs);
    var _ :- ToV2Bytes(kernel);
    return Ok(Transaction(slate.off, params.senderInputs, outputs + params.senderChangeOutputs, kernel, excess,
                          params.signature));
  }

  /** `slate_to_transaction_bytes`. */
  method SlateToTransactionBytes(c: Curve, params: BuildParams) returns (r: Outcome<Bytes>)
    requires c.order > 0
    requires |Coms(params.slate)| + |params.senderChangeOutputs| <= U64_MAX && |params.senderInputs| <= U64_MAX
    ensures match SlateTransaction(c, params)
            case Ok(tx) => tx.Countable() && r == Ok(TxBytes(tx))
            case Err(e) => r == Err(e)
            case Panic(w) => r == Panic(w)
  {
    hide KernelBytes, Schnorr.AddPoints;
    var tx :- Assemble(c, params);
    assert |tx.outputs| <= U64_MAX by { AssembledOutputs(c, params); }
    var out := EmitTx(tx.offset, tx.inputs, tx.outputs, KernelBytes(tx.kernel), tx.excess, tx.signature);
    return Ok(out);
  }

  lemma AssembledOutputs(c: Curve, params: BuildParams)
    requires c.order > 0 && SlateTransaction(c, params).Ok?
    ensures Proved(Coms(params.slate))
    ensures var tx := SlateTransaction(c, params).value;
            && tx.offset == params.slate.off && tx.inputs == params.senderInputs && tx.signature == params.signature
            && tx.outputs == OutputsFrom(Coms(params.slate)) + params.senderChangeOutputs
  {
  }

  lemma {:induction false} PublishedExcesses(c: Curve, sigs: seq<Participant>, ks: seq<int>)
    requires |sigs| == |ks| && forall i | 0 <= i < |ks| :: sigs[i].xs == c.encode(Point(ks[i]))
    ensures ExcessKeys(sigs) == Aggregation.Published(c, ks)
  {
    if ks != [] {
      PublishedExcesses(c, sigs[1..], ks[1..]);
    }
  }

  /** The summed excess of participants with the keys `ks`: the point of their sum, unless some leading part of
      the list cancels out. */
  lemma ExcessTotal(c: Curve, sigs: seq<Participant>, ks: seq<int>)
    requires c.Valid() && Aggregation.AllScalars(c, ks) && ks != [] && |sigs| == |ks|
    requires forall i | 0 <= i < |ks| :: sigs[i].xs == c.encode(Point(ks[i]))
    ensures var total, e := Schnorr.AddPoints(c, sigs[0].xs, ExcessKeys(sigs[1..])), c.Gen(Modular.Sum(ks));
      && (total.Ok? <==> Modular.NoPrefixCancels(0, ks, c.order))
      && (total.Ok? ==> PubkeyToCommitment(c, total.value) == Ok([if c.yIsQr(e) then 8 else 9] + c.encode(e)[1..]))
  {
    hide Schnorr.PointAdd, Modular.Rem, Curve.Valid, Modular.NoPrefixCancels;
    c.OrderBounds();
    PublishedExcesses(c, sigs[1..], ks[1..]);
    assert Aggregation.Published(c, ks) == [sigs[0].xs] + Aggregation.Published(c, ks[1..]);
    assert Aggregation.Published(c, ks)[1..] == ExcessKeys(sigs[1..]);
    Aggregation.TotalAdds(c, ks);
    if Modular.NoPrefixCancels(0, ks, c.order) {
      c.EncodesAt(c.Gen(Modular.Sum(ks)));
    }
  }

  /** The slate's entries as outputs: feature byte, commitment and proof. */
  ghost predicate ProvedOutputs(coms: seq<Commit>, outputs: seq<TxOutput>) {
    |outputs| == |coms| && forall i | 0 <= i < |coms| ::
      outputs[i].features == coms[i].f && outputs[i].commitment == coms[i].c && Some(outputs[i].rangeproof) == coms[i].p
  }

  /** When a finished slate describes a transaction, for participants with the keys `ks`, and which: its proved
      entries and then the sender's change for outputs, its offset and kernel, and the point of the summed keys
      for excess. */
  lemma SlateTransactionExact(c: Curve, params: BuildParams, ks: seq<int>)
    requires c.Valid() && Aggregation.AllScalars(c, ks) && ks != [] && |params.slate.sigs| == |ks|
    requires forall i | 0 <= i < |ks| :: params.slate.sigs[i].xs == c.encode(Point(ks[i]))
    ensures SlateTransaction(c, params).Ok? <==>
      && params.slate.sta == Standard3 && (forall com | com in Coms(params.slate) :: com.p.Some?)
      && FromSlateFields(params.slate.feat, params.slate.fee, params.slate.featArgs).Ok?
      && Modular.NoPrefixCancels(0, ks, c.order)
    ensures SlateTransaction(c, params).Ok? ==> Describes(c, params, ks, SlateTransaction(c, params).value)
  {
    hide Schnorr.AddPoints, Curve.Valid, FromSlateFields, PubkeyToCommitment, Modular.NoPrefixCancels,
      Modular.Sum, Curve.Gen, Describes, SlateTransaction, InRange;
    c.OrderBounds();
    var slate := params.slate;
    assert slate.sigs != [];
    ExcessTotal(c, slate.sigs, ks);
    FieldsInRange(slate.feat, slate.fee, slate.featArgs);
    BuildsWhen(c, params);
    if SlateTransaction(c, params).Ok? {
      SlateDescribed(c, params, ks);
    }
  }

  lemma BuildsWhen(c: Curve, params: BuildParams)
    requires c.order > 0 && params.slate.sigs != []
    ensures var slate := params.slate;
      var total := Schnorr.AddPoints(c, slate.sigs[0].xs, ExcessKeys(slate.sigs[1..]));
      var kernel := FromSlateFields(slate.feat, slate.fee, slate.featArgs);
      SlateTransaction(c, params).Ok? == (
        && slate.sta == Standard3 && (forall com | com in Coms(slate) :: com.p.Some?)
        && total.Ok? && PubkeyToCommitment(c, total.value).Ok? && kernel.Ok? && InRange(kernel.value))
  {
    hide Schnorr.AddPoints, FromSlateFields, PubkeyToCommitment, InRange, KernelBytes, OutputsFrom;
    assert Proved(Coms(params.slate)) <==> forall com | com in Coms(params.slate) :: com.p.Some?;
  }

  lemma SlateDescribed(c: Curve, params: BuildParams, ks: seq<int>)
    requires c.Valid() && Aggregation.AllScalars(c, ks) && ks != [] && |params.slate.sigs| == |ks|
    requires forall i | 0 <= i < |ks| :: params.slate.sigs[i].xs == c.encode(Point(ks[i]))
    requires SlateTransaction(c, params).Ok?
    ensures Describes(c, params, ks, SlateTransaction(c, params).value)
  {
    hide Schnorr.AddPoints, Curve.Valid, FromSlateFields, KernelBytes, PubkeyToCommitment, Modular.NoPrefixCancels,
      Modular.Sum, Curve.Gen, InRange;
    c.OrderBounds();
    ExcessTotal(c, params.slate.sigs, ks);
    var coms, change := Coms(params.slate), params.senderChangeOutputs;
    AssembledOutputs(c, params);
    var outputs := OutputsFrom(coms);
    assert (outputs + change)[..|coms|] == outputs && (outputs + change)[|coms|..] == change;
  }

  ghost predicate Describes(c: Curve, params: BuildParams, ks: seq<int>, tx: Transaction)
    requires c.order > 0
  {
    var slate, n, e := params.slate, |Coms(params.slate)|, c.Gen(Modular.Sum(ks));
    && tx.offset == slate.off && tx.inputs == params.senderInputs && tx.signature == params.signature
    && n <= |tx.outputs| && ProvedOutputs(Coms(slate), tx.outputs[..n]) && tx.outputs[n..] == params.senderChangeOutputs
    && FromSlateFields(slate.feat, slate.fee, slate.featArgs) == Ok(tx.kernel)
    && tx.excess == [if c.yIsQr(e) then 8 else 9] + c.encode(e)[1..]
  }

  lemma FieldsInRange(feat: byte, fee: u64, lockHgt: Option<u64>)
    ensures FromSlateFields(feat, fee, lockHgt).Ok? ==> InRange(FromSlateFields(feat, fee, lockHgt).value)
  {
  }

  method CollectOutputs(coms: seq<Commit>) returns (r: Outcome<seq<TxOutput>>)
    ensures r == OutputsOf(coms)
    ensures r.Ok? ==> |r.value| == |coms|
  {
    var all: seq<TxOutput> := [];
    for i := 0 to |coms|
      invariant |all| == i
      invariant forall j | 0 <= j < i :: coms[j].p.Some? && all[j] == OutputFrom(coms[j])
    {
      if coms[i].p.None? {
        return Err("output in slate.coms is missing its rangeproof");
      }
      all := all + [OutputFrom(coms[i])];
    }
    assert all == OutputsFrom(coms);
    return Ok(all);
  }

  method SumExcesses(c: Curve, sigs: seq<Participant>) returns (r: Outcome<Bytes33>)
    requires c.order > 0 && sigs != []
    ensures r == Schnorr.AddPoints(c, sigs[0].xs, ExcessKeys(sigs[1..]))
  {
    hide Schnorr.PointAdd;
    var total := sigs[0].xs;
    for i := 1 to |sigs|
      invariant Schnorr.AddPoints(c, total, ExcessKeys(sigs[i..]))
             == Schnorr.AddPoints(c, sigs[0].xs, ExcessKeys(sigs[1..]))
    {
      assert sigs[i..][0] == sigs[i] && sigs[i..][1..] == sigs[i + 1..];
      assert ExcessKeys(sigs[i..])[1..] == ExcessKeys(sigs[i + 1..]);
      total :- Schnorr.PointAdd(c, total, sigs[i].xs);
    }
    return Ok(total);
  }

  // ----- the JSON form -----------------------------------------------------------------------

  datatype JsonInput = JsonInput(features: string, commit: Bytes33)
  datatype JsonOutput = JsonOutput(features: string, commit: Bytes33, proof: Bytes)
  datatype JsonTx = JsonTx(
    offset: Bytes32, inputs: seq<JsonInput>, outputs: seq<JsonOutput>, kernel: KernelFeatures, excess: Bytes33,
    excessSig: Bytes64)

  function FeatureStr(f: byte): string {
    if f == 1 then "Coinbase" else "Plain"
  }

  /** The sort key of an input: its BLAKE2b hash, compared as 32 big-endian bytes. */
  function InputKey(blake: Bytes -> Bytes32): TxInput -> int {
    (i: TxInput) => BeValue(blake([i.features] + i.commitment))
  }

  /** An output's proof is not hashed. */
  function OutputKey(blake: Bytes -> Bytes32): TxOutput -> int {
    (o: TxOutput) => BeValue(blake([o.features] + o.commitment))
  }

  function ToJsonInputs(inputs: seq<TxInput>): (r: seq<JsonInput>)
    ensures |r| == |inputs|
    ensures forall i | 0 <= i < |r| :: r[i] == JsonInput(FeatureStr(inputs[i].features), inputs[i].commitment)
  {
    if inputs == [] then [] else
    [JsonInput(FeatureStr(inputs[0].features), inputs[0].commitment)] + ToJsonInputs(inputs[1..])
  }

  function ToJsonOutputs(outputs: seq<TxOutput>): (r: seq<JsonOutput>)
    ensures |r| == |outputs|
    ensures forall i | 0 <= i < |r| ::
      r[i] == JsonOutput(FeatureStr(outputs[i].features), outputs[i].commitment, outputs[i].rangeproof)
  {
    if outputs == [] then [] else
    [JsonOutput(FeatureStr(outputs[0].features), outputs[0].commitment, outputs[0].rangeproof)]
      + ToJsonOutputs(outputs[1..])
  }

  /** Each 32-byte half of a signature, back to front. */
  function ReverseHalves(sig: Bytes64): Bytes64 {
    seq(64, j requires 0 <= j < 64 => if j < 32 then sig[31 - j] else sig[95 - j])
  }

  /** Bytes 0 to 31 of `r` are those of `sig` from 31 down, bytes 32 to 63 those from 63 down. */
  ghost predicate HalvesBackwards(r: Bytes64, sig: Bytes64) {
    && (forall j | 0 <= j < 32 :: r[j] == sig[31 - j])
    && (forall j | 32 <= j < 64 :: r[j] == sig[32 + 63 - j])
  }

  lemma HalvesReversed(sig: Bytes64)
    ensures HalvesBackwards(ReverseHalves(sig), sig)
  {
  }

  method ReverseSignature(sig: Bytes64) returns (r: Bytes64)
    ensures r == ReverseHalves(sig)
    ensures HalvesBackwards(r, sig)
  {
    var out := new byte[64](_ => 0);
    for i := 0 to 32
      invariant forall j | 0 <= j < i :: out[j] == sig[31 - j]
      invariant forall j | 32 <= j < 32 + i :: out[j] == sig[95 - j]
    {
      out[i] := sig[31 - i];
      out[32 + i] := sig[63 - i];
    }
    r := out[..];
  }

  /** `slate_to_transaction_json`, on the transaction it carries. */
  function TxJson(blake: Bytes -> Bytes32, tx: Transaction): JsonTx {
    JsonTx(tx.offset, ToJsonInputs(SortBy(InputKey(blake), tx.inputs)),
           ToJsonOutputs(SortBy(OutputKey(blake), tx.outputs)),
           tx.kernel, tx.excess, ReverseHalves(tx.signature))
  }

  /** The reversal undoes itself, so the node, which applies it again, sees the byte form's signature. */
  lemma ReversalUndone(sig: Bytes64)
    ensures ReverseHalves(ReverseHalves(sig)) == sig
  {
  }

  /** The name the JSON form has for a feature byte. */
  ghost predicate Named(name: string, feature: byte) {
    name == if feature == 1 then "Coinbase" else "Plain"
  }

  /** The JSON body is the byte form's inputs and outputs, each exactly once, in the order of the hashes of
      their feature byte and commitment, under its offset, kernel and excess, with each half of its signature
      last byte first. */
  lemma JsonCarriesTransaction(blake: Bytes -> Bytes32, tx: Transaction)
    ensures var json := TxJson(blake, tx);
            var ins := SortBy(InputKey(blake), tx.inputs);
            var outs := SortBy(OutputKey(blake), tx.outputs);
            && multiset(ins) == multiset(tx.inputs) && multiset(outs) == multiset(tx.outputs)
            && SortedBy(InputKey(blake), ins) && SortedBy(OutputKey(blake), outs)
            && json.inputs == ToJsonInputs(ins) && json.outputs == ToJsonOutputs(outs)
            && ReverseHalves(json.excessSig) == tx.signature
            && json.offset == tx.offset && json.kernel == tx.kernel && json.excess == tx.excess
            && HalvesBackwards(json.excessSig, tx.signature)
            && |json.inputs| == |ins| && |json.outputs| == |outs|
            && (forall i | 0 <= i < |ins| ::
                  Named(json.inputs[i].features, ins[i].features) && json.inputs[i].commit == ins[i].commitment)
            && (forall i | 0 <= i < |outs| ::
                  && Named(json.outputs[i].features, outs[i].features)
                  && json.outputs[i].commit == outs[i].commitment && json.outputs[i].proof == outs[i].rangeproof)
            && (forall i, j | 0 <= i < j < |ins| ::
                  BeValue(blake([ins[i].features] + ins[i].commitment))
                    <= BeValue(blake([ins[j].features] + ins[j].commitment)))
            && (forall i, j | 0 <= i < j < |outs| ::
                  BeValue(blake([outs[i].features] + outs[i].commitment))
                    <= BeValue(blake([outs[j].features] + outs[j].commitment)))
  {
    hide BeValue;
    SortBySorts(InputKey(blake), tx.inputs);
    SortBySorts(OutputKey(blake), tx.outputs);
    ReversalUndone(tx.signature);
    HalvesReversed(tx.signature);
    KeysAreHashes(blake, SortBy(InputKey(blake), tx.inputs), SortBy(OutputKey(blake), tx.outputs));
  }

  /** Inputs and outputs are ordered by the hash of their feature byte and commitment. */
  lemma KeysAreHashes(blake: Bytes -> Bytes32, ins: seq<TxInput>, outs: seq<TxOutput>)
    ensures SortedBy(InputKey(blake), ins) <==> forall i, j | 0 <= i < j < |ins| ::
      BeValue(blake([ins[i].features] + ins[i].commitment)) <= BeValue(blake([ins[j].features] + ins[j].commitment))
    ensures SortedBy(OutputKey(blake), outs) <==> forall i, j | 0 <= i < j < |outs| ::
      BeValue(blake([outs[i].features] + outs[i].commitment)) <= BeValue(blake([outs[j].features] + outs[j].commitment))
  {
    hide BeValue;
    forall i, j | 0 <= i < j < |ins|
      ensures InputKey(blake)(ins[i]) == BeValue(blake([ins[i].features] + ins[i].commitment))
      ensures InputKey(blake)(ins[j]) == BeValue(blake([ins[j].features] + ins[j].commitment))
    {
    }
    forall i, j | 0 <= i < j < |outs|
      ensures OutputKey(blake)(outs[i]) == BeValue(blake([outs[i].features] + outs[i].commitment))
      ensures OutputKey(blake)(outs[j]) == BeValue(blake([outs[j].features] + outs[j].commitment))
    {
    }
  }

  /** The node demands strictly increasing hashes; the body has them exactly when no two inputs, and no two
      outputs, hash alike. */
  lemma SortedAndUniqueExact(blake: Bytes -> Bytes32, tx: Transaction)
    ensures StrictlySorted(InputKey(blake), SortBy(InputKey(blake), tx.inputs))
       <==> DistinctKeys(InputKey(blake), tx.inputs)
    ensures StrictlySorted(OutputKey(blake), SortBy(OutputKey(blake), tx.outputs))
       <==> DistinctKeys(OutputKey(blake), tx.outputs)
  {
    StrictlySortedExact(InputKey(blake), tx.inputs);
    StrictlySortedExact(OutputKey(blake), tx.outputs);
  }

  function FeatureOf(s: string): byte {
    if s == "Coinbase" then 1 else 0
  }

  lemma FeatureNamed(f: byte)
    ensures FeatureOf(FeatureStr(f)) == f <==> f <= 1
  {
    assert "Coinbase"[0] != "Plain"[0];
  }

  /** Every feature name of the JSON form says the byte the byte form has. */
  ghost predicate JsonKeepsFeatures(blake: Bytes -> Bytes32, tx: Transaction) {
    var ins, outs := SortBy(InputKey(blake), tx.inputs), SortBy(OutputKey(blake), tx.outputs);
    && (forall i | 0 <= i < |ins| :: FeatureOf(ToJsonInputs(ins)[i].features) == ins[i].features)
    && (forall i | 0 <= i < |outs| :: FeatureOf(ToJsonOutputs(outs)[i].features) == outs[i].features)
  }

  predicate NamedFeatures(tx: Transaction) {
    && (forall i | i in tx.inputs :: i.features <= 1)
    && (forall o | o in tx.outputs :: o.features <= 1)
  }

  /** The byte form keeps any feature byte; the JSON form has names for two of them. It says what the byte
      form says exactly when every feature byte, of inputs and of outputs, is 0 or 1. */
  lemma JsonFeaturesExact(blake: Bytes -> Bytes32, tx: Transaction)
    ensures JsonKeepsFeatures(blake, tx) <==> NamedFeatures(tx)
  {
    hide FeatureStr, FeatureOf, SortBy;
    var ins, outs := SortBy(InputKey(blake), tx.inputs), SortBy(OutputKey(blake), tx.outputs);
    SortBySorts(InputKey(blake), tx.inputs);
    SortBySorts(OutputKey(blake), tx.outputs);
    forall i | 0 <= i < |ins|
      ensures FeatureOf(ToJsonInputs(ins)[i].features) == ins[i].features <==> ins[i].features <= 1
    {
      FeatureNamed(ins[i].features);
    }
    forall i | 0 <= i < |outs|
      ensures FeatureOf(ToJsonOutputs(outs)[i].features) == outs[i].features <==> outs[i].features <= 1
    {
      FeatureNamed(outs[i].features);
    }
    SameMembers(tx.inputs, ins);
    SameMembers(tx.outputs, outs);
  }

  lemma SameMembers<T>(a: seq<T>, b: seq<T>)
    requires multiset(a) == multiset(b)
    ensures forall x :: x in a <==> x in b
  {
    assert forall x :: x in a <==> x in multiset(a);
    assert forall x :: x in b <==> x in multiset(b);
  }

  /** The same, on what the slate encoder is given: the feature bytes of the outputs come with the slate,
      from whoever wrote it. */
  lemma SlateFeaturesExact(c: Curve, blake: Bytes -> Bytes32, params: BuildParams)
    requires c.order > 0 && SlateTransaction(c, params).Ok?
    ensures JsonKeepsFeatures(blake, SlateTransaction(c, params).value)
       <==> && (forall i | i in params.senderInputs :: i.features <= 1)
            && (forall com | com in Coms(params.slate) :: com.f <= 1)
            && (forall o | o in params.senderChangeOutputs :: o.features <= 1)
  {
    hide SlateTransaction, JsonKeepsFeatures;
    var tx := SlateTransaction(c, params).value;
    AssembledOutputs(c, params);
    JsonFeaturesExact(blake, tx);
    var coms := Coms(params.slate);
    var received := OutputsFrom(coms);
    if forall com | com in coms :: com.f <= 1 {
      forall o | o in received ensures o.features <= 1 {
        var i :| 0 <= i < |received| && received[i] == o;
        assert coms[i] in coms;
      }
    }
    if NamedFeatures(tx) {
      forall com | com in coms ensures com.f <= 1 {
        var i :| 0 <= i < |coms| && coms[i] == com;
        assert received[i] in received;
        assert received[i] in tx.outputs;
      }
    }
  }
}
