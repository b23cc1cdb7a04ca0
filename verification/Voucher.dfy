/** Single-party transactions: making a voucher and sweeping it (crates/grin-ext/src/voucher.rs). */
module Vouchers {
  import opened Outcomes
  import opened ByteStrings
  import opened Codec
  import opened Modular
  import opened Curves
  import opened Kernels
  import opened Transactions
  import opened Keychains
  import opened PathSearch
  import opened Balance
  import opened Wallet
  import opened StableSort
  import Schnorr

  datatype ChangePath = ChangePath(path: Path4, amount: u64)

  datatype CreateParams = CreateParams(
    ext: Bytes64, legacy: Option<Bytes64>, inputs: seq<UnspentOutput>, voucherAmount: u64, fee: u64,
    voucherPath: Path4, change: Option<ChangePath>, kernelOffset: Bytes32, kernelNonce: Bytes32,
    bpPrivateNonce: Bytes32, changeBpPrivateNonce: Bytes32)

  /** The voucher, its secret blind, the change if any, and the transaction that makes them. */
  datatype CreateResult = CreateResult(
    voucher: OutputInfo, voucherBlind: Bytes32, change: Option<OutputInfo>, tx: Transaction)

  datatype SweepParams = SweepParams(
    ext: Bytes64, voucherCommitment: Bytes33, voucherBlind: Bytes32, voucherAmount: u64, voucherFeatures: byte,
    claimerPath: Path4, fee: u64, kernelOffset: Bytes32, kernelNonce: Bytes32, bpPrivateNonce: Bytes32)

  datatype SweepResult = SweepResult(output: OutputInfo, tx: Transaction)

  /** Change is minted like any other output, when there is any. */
  function MintChange(lib: Library, p: CreateParams): Outcome<Option<(Bytes32, OutputInfo)>>
    requires lib.curve.order > 0
  {
    match p.change
    case None => Ok(None)
    case Some(ch) =>
      var minted :- MintOutput(lib, p.ext, ch.path, ch.amount, p.changeBpPrivateNonce);
      Ok(Some(minted))
  }

  function OutBlinds(voucherBlind: Bytes32, change: Option<(Bytes32, OutputInfo)>): seq<Bytes32> {
    [voucherBlind] + ChangeBlinds(change)
  }

  function AllOutputs(voucher: OutputInfo, change: Option<(Bytes32, OutputInfo)>): seq<TxOutput> {
    [PlainOutput(voucher)] + ChangeOutputs(ChangeInfo(change))
  }

  function ChangeAmount(p: CreateParams): u64 {
    match p.change case None => 0 case Some(ch) => ch.amount
  }

  /** `create_grin_voucher`. */
  function CreateVoucher(lib: Library, blake: Bytes -> Bytes32, p: CreateParams): Outcome<CreateResult>
    requires lib.curve.order > 0
  {
    var inputBlinds :- InputBlinds(lib, p.ext, p.legacy, p.inputs);
    var (voucherBlind, voucher) :- MintOutput(lib, p.ext, p.voucherPath, p.voucherAmount, p.bpPrivateNonce);
    var change :- MintChange(lib, p);
    var signingKey := SenderBlindExcess(lib.curve, inputBlinds, OutBlinds(voucherBlind, change), p.kernelOffset);
    var (excess, signature) :- SignKernel(lib.curve, blake, Plain(p.fee), signingKey, p.kernelNonce);
    Ok(CreateResult(voucher, voucherBlind, ChangeInfo(change),
                    Transaction(p.kernelOffset, ToTxInputs(p.inputs), AllOutputs(voucher, change), Plain(p.fee), excess,
                                signature)))
  }

  /** The transaction of the wallet's own inputs and outputs. */
  function VoucherTransaction(
    offset: Bytes32, inputs: seq<UnspentOutput>, outputs: seq<TxOutput>, kernel: KernelFeatures, excess: Bytes33,
    signature: Bytes64): (tx: Transaction)
    ensures |tx.inputs| == |inputs| && tx.outputs == outputs
  {
    Transaction(offset, ToTxInputs(inputs), outputs, kernel, excess, signature)
  }

  /** `serialize_voucher_tx`: the second encoder, over the wallet's own inputs. */
  method SerializeVoucherTx(
    offset: Bytes32, inputs: seq<UnspentOutput>, outputs: seq<TxOutput>, kernel: KernelFeatures, excess: Bytes33,
    signature: Bytes64) returns (out: Bytes)
    requires |inputs| <= U64_MAX && |outputs| <= U64_MAX
    ensures out == TxBytes(VoucherTransaction(offset, inputs, outputs, kernel, excess, signature))
  {
    hide U64Bytes, InputBytes, OutputBytes, KernelBytes;
    ghost var txInputs := ToTxInputs(inputs);
    out := offset;
    out := out + U64Bytes(|inputs|);
    out := out + U64Bytes(|outputs|);
    out := out + U64Bytes(1);
    ghost var head := offset + Counts(|inputs|, |outputs|);
    assert out == head;
    for i := 0 to |inputs|
      invariant out == head + WriteMany(InputBytes, txInputs[..i])
    {
      VoucherInputBytes(inputs[i]);
      out := out + [if inputs[i].isCoinbase then 1 else 0] + inputs[i].commitment;
      WriteManySnoc(InputBytes, txInputs, i);
    }
    assert txInputs[..|inputs|] == txInputs;
    ghost var middle := head + WriteMany(InputBytes, txInputs);
    for i := 0 to |outputs|
      invariant out == middle + WriteMany(OutputBytes, outputs[..i])
    {
      VoucherOutputBytes(outputs[i]);
      out := out + [outputs[i].features] + outputs[i].commitment + U64Bytes(|outputs[i].rangeproof|)
        + outputs[i].rangeproof;
      WriteManySnoc(OutputBytes, outputs, i);
    }
    assert outputs[..|outputs|] == outputs;
    out := out + KernelBytes(kernel);
    out := out + excess;
    out := out + signature;
  }

  lemma VoucherInputBytes(input: UnspentOutput)
    ensures forall out: Bytes ::
      out + [if input.isCoinbase then 1 else 0] + input.commitment == out + InputBytes(ToTxInput(input))
  {
  }

  lemma VoucherOutputBytes(o: TxOutput)
    ensures forall out: Bytes ::
      out + [o.features] + o.commitment + U64Bytes(|o.rangeproof|) + o.rangeproof == out + OutputBytes(o)
  {
    hide U64Bytes;
  }

  /** The hash `serialize_voucher_tx_json` sorts the wallet's inputs by. */
  function WalletInputKey(blake: Bytes -> Bytes32): UnspentOutput -> int {
    (i: UnspentOutput) => BeValue(blake([if i.isCoinbase then 1 else 0] + i.commitment))
  }

  function WalletJsonInputs(inputs: seq<UnspentOutput>): seq<JsonInput> {
    if inputs == [] then []
    else
      [JsonInput(if inputs[0].isCoinbase then "Coinbase" else "Plain", inputs[0].commitment)]
        + WalletJsonInputs(inputs[1..])
  }

  /** `serialize_voucher_tx_json`. */
  function VoucherJson(
    blake: Bytes -> Bytes32, offset: Bytes32, inputs: seq<UnspentOutput>, outputs: seq<TxOutput>,
    kernel: KernelFeatures,
    excess: Bytes33, signature: Bytes64): JsonTx
  {
    JsonTx(offset, WalletJsonInputs(SortBy(WalletInputKey(blake), inputs)),
           ToJsonOutputs(SortBy(OutputKey(blake), outputs)), kernel, excess, ReverseHalves(signature))
  }

  lemma {:induction false} InsertThenConvert(blake: Bytes -> Bytes32, x: UnspentOutput, s: seq<UnspentOutput>)
    ensures ToTxInputs(Insert(WalletInputKey(blake), x, s)) == Insert(InputKey(blake), ToTxInput(x), ToTxInputs(s))
  {
    hide BeValue;
    var wallet, tx := WalletInputKey(blake), InputKey(blake);
    assert wallet(x) == tx(ToTxInput(x));
    if s != [] {
      assert wallet(s[0]) == tx(ToTxInput(s[0]));
      if wallet(x) > wallet(s[0]) {
        InsertThenConvert(blake, x, s[1..]);
      }
    }
  }

  lemma {:induction false} SortThenConvert(blake: Bytes -> Bytes32, s: seq<UnspentOutput>)
    ensures ToTxInputs(SortBy(WalletInputKey(blake), s)) == SortBy(InputKey(blake), ToTxInputs(s))
  {
    if s != [] {
      SortThenConvert(blake, s[1..]);
      InsertThenConvert(blake, s[0], SortBy(WalletInputKey(blake), s[1..]));
    }
  }

  lemma {:induction false} WalletJsonNames(s: seq<UnspentOutput>)
    ensures WalletJsonInputs(s) == ToJsonInputs(ToTxInputs(s))
  {
    if s != [] {
      WalletJsonNames(s[1..]);
    }
  }

  /** The voucher's own JSON encoder and the slate's agree on every transaction. */
  lemma VoucherJsonIsSlateJson(
    blake: Bytes -> Bytes32, offset: Bytes32, inputs: seq<UnspentOutput>, outputs: seq<TxOutput>,
    kernel: KernelFeatures,
    excess: Bytes33, signature: Bytes64)
    ensures VoucherJson(blake, offset, inputs, outputs, kernel, excess, signature)
         == TxJson(blake, VoucherTransaction(offset, inputs, outputs, kernel, excess, signature))
  {
    SortThenConvert(blake, inputs);
    WalletJsonNames(SortBy(WalletInputKey(blake), inputs));
  }

  lemma OutBlindsCanonical(
    lib: Library, p: CreateParams, voucherBlind: Bytes32, voucher: OutputInfo, change: Option<(Bytes32, OutputInfo)>)
    requires lib.curve.order > 0
    requires MintOutput(lib, p.ext, p.voucherPath, p.voucherAmount, p.bpPrivateNonce) == Ok((voucherBlind, voucher))
    requires MintChange(lib, p) == Ok(change)
    ensures AllCanonical(lib.curve, OutBlinds(voucherBlind, change))
  {
    hide MintOutput, PedersenCommit, Canonical;
    MintedOpens(lib, p.ext, p.voucherPath, p.voucherAmount, p.bpPrivateNonce);
    if p.change.Some? {
      MintedOpens(lib, p.ext, p.change.value.path, p.change.value.amount, p.changeBpPrivateNonce);
    }
  }

  /** The same, step by step, with the bytes to broadcast and their JSON form. */
  method CreateGrinVoucher(lib: Library, blake: Bytes -> Bytes32, p: CreateParams)
    returns (r: Outcome<(CreateResult, Bytes, JsonTx)>)
    requires lib.curve.order > 0 && |p.inputs| <= U64_MAX
    ensures match CreateVoucher(lib, blake, p)
            case Ok(result) => result.tx.Countable() && r == Ok((result, TxBytes(result.tx), TxJson(blake, result.tx)))
            case Err(e) => r == Err(e)
            case Panic(w) => r == Panic(w)
  {
    hide MintOutput, SignKernel, BlindSum, BlindSub, TxBytes, TxJson, VoucherJson;
    var inputBlinds, _ :- DeriveInputBlinds(lib, p.ext, p.legacy, p.inputs);
    InputBlindsCanonical(lib, p.ext, p.legacy, p.inputs);
    var minted :- MintOutput(lib, p.ext, p.voucherPath, p.voucherAmount, p.bpPrivateNonce);
    var (voucherBlind, voucher) := minted;
    var change :- MintChange(lib, p);
    var outBlinds := [voucherBlind];
    var outputs := [PlainOutput(voucher)];
    if change.Some? {
      outBlinds := outBlinds + [change.value.0];
      outputs := outputs + [PlainOutput(change.value.1)];
    }
    assert outBlinds == OutBlinds(voucherBlind, change) && outputs == AllOutputs(voucher, change);
    OutBlindsCanonical(lib, p, voucherBlind, voucher, change);
    var outSum := SumBlinds(lib.curve, outBlinds);
    var inSum := SumBlinds(lib.curve, inputBlinds);
    var signingKey := BlindSub(lib.curve, BlindSub(lib.curve, outSum, inSum), p.kernelOffset);
    var signed :- SignKernel(lib.curve, blake, Plain(p.fee), signingKey, p.kernelNonce);
    var tx := VoucherTransaction(p.kernelOffset, p.inputs, outputs, Plain(p.fee), signed.0, signed.1);
    var bytes := SerializeVoucherTx(p.kernelOffset, p.inputs, outputs, Plain(p.fee), signed.0, signed.1);
    VoucherJsonIsSlateJson(blake, p.kernelOffset, p.inputs, outputs, Plain(p.fee), signed.0, signed.1);
    var json := VoucherJson(blake, p.kernelOffset, p.inputs, outputs, Plain(p.fee), signed.0, signed.1);
    return Ok((CreateResult(voucher, voucherBlind, ChangeInfo(change), tx), bytes, json));
  }

  /** `sweep_grin_voucher`. */
  function SweepVoucher(lib: Library, blake: Bytes -> Bytes32, p: SweepParams): Outcome<SweepResult>
    requires lib.curve.order > 0
  {
    if p.voucherAmount <= p.fee then Err("nothing to claim") else
    var (claimerBlind, output) :- MintOutput(lib, p.ext, p.claimerPath, p.voucherAmount - p.fee, p.bpPrivateNonce);
    var signingKey := BlindSub(lib.curve, BlindSub(lib.curve, claimerBlind, p.voucherBlind), p.kernelOffset);
    var (excess, signature) :- SignKernel(lib.curve, blake, Plain(p.fee), signingKey, p.kernelNonce);
    Ok(SweepResult(output,
                   Transaction(p.kernelOffset, [TxInput(if p.voucherFeatures == 1 then 1 else 0, p.voucherCommitment)],
                               [PlainOutput(output)], Plain(p.fee), excess, signature)))
  }

  method SweepGrinVoucher(lib: Library, blake: Bytes -> Bytes32, p: SweepParams)
    returns (r: Outcome<(SweepResult, Bytes, JsonTx)>)
    requires lib.curve.order > 0
    ensures match SweepVoucher(lib, blake, p)
            case Ok(result) => result.tx.Countable() && r == Ok((result, TxBytes(result.tx), TxJson(blake, result.tx)))
            case Err(e) => r == Err(e)
            case Panic(w) => r == Panic(w)
  {
    hide MintOutput, SignKernel, BlindSub, TxBytes, TxJson, VoucherJson;
    if p.voucherAmount <= p.fee {
      return Err("nothing to claim");
    }
    var minted :- MintOutput(lib, p.ext, p.claimerPath, p.voucherAmount - p.fee, p.bpPrivateNonce);
    var signingKey := BlindSub(lib.curve, BlindSub(lib.curve, minted.0, p.voucherBlind), p.kernelOffset);
    var signed :- SignKernel(lib.curve, blake, Plain(p.fee), signingKey, p.kernelNonce);
    var inputs := [UnspentOutput([0, 0, 0, 0], p.voucherAmount, p.voucherCommitment, p.voucherFeatures == 1)];
    var outputs := [PlainOutput(minted.1)];
    assert inputs[1..] == [];
    assert ToTxInputs(inputs) == [TxInput(if p.voucherFeatures == 1 then 1 else 0, p.voucherCommitment)];
    var tx := VoucherTransaction(p.kernelOffset, inputs, outputs, Plain(p.fee), signed.0, signed.1);
    var bytes := SerializeVoucherTx(p.kernelOffset, inputs, outputs, Plain(p.fee), signed.0, signed.1);
    VoucherJsonIsSlateJson(blake, p.kernelOffset, inputs, outputs, Plain(p.fee), signed.0, signed.1);
    var json := VoucherJson(blake, p.kernelOffset, inputs, outputs, Plain(p.fee), signed.0, signed.1);
    return Ok((SweepResult(minted.1, tx), bytes, json));
  }

  // ----- creating ----------------------------------------------------------------------------

  function CreatedOpenings(p: CreateParams, voucherBlind: Bytes32, change: Option<(Bytes32, OutputInfo)>): seq<Opened> {
    [Opened(p.voucherAmount, voucherBlind)] + ChangeOpenings(change)
  }

  lemma CreatedOutputsOpen(
    lib: Library, p: CreateParams, voucherBlind: Bytes32, voucher: OutputInfo, change: Option<(Bytes32, OutputInfo)>)
    requires lib.curve.order > 0
    requires MintOutput(lib, p.ext, p.voucherPath, p.voucherAmount, p.bpPrivateNonce) == Ok((voucherBlind, voucher))
    requires MintChange(lib, p) == Ok(change)
    ensures OpensAll(lib.curve, OutCommitments(AllOutputs(voucher, change)), CreatedOpenings(p, voucherBlind, change))
    ensures Blinds(CreatedOpenings(p, voucherBlind, change)) == OutBlinds(voucherBlind, change)
    ensures Values(CreatedOpenings(p, voucherBlind, change)) == p.voucherAmount + ChangeAmount(p)
  {
    hide MintOutput, PedersenCommit;
    MintedOpens(lib, p.ext, p.voucherPath, p.voucherAmount, p.bpPrivateNonce);
    if p.change.Some? {
      MintedOpens(lib, p.ext, p.change.value.path, p.change.value.amount, p.changeBpPrivateNonce);
      var last := [Opened(change.value.1.amount, change.value.0)];
      assert CreatedOpenings(p, voucherBlind, change)[1..] == last;
      assert last[1..] == [] && Values(last) == change.value.1.amount && Blinds(last) == [change.value.0];
    } else {
      assert CreatedOpenings(p, voucherBlind, change)[1..] == [];
    }
  }

  /** The code checks no amounts. The transaction it builds satisfies the network's equation exactly when
      the amounts of the inputs are those of the voucher, the change and the fee together; its signature
      verifies against its excess unless the response happens to be zero; and the blind handed to the
      recipient opens the voucher. */
  lemma CreateBalancesExactly(lib: Library, blake: Bytes -> Bytes32, p: CreateParams)
    requires lib.curve.Valid() && ScalarValue(p.kernelOffset) < lib.curve.order
    requires CreateVoucher(lib, blake, p).Ok?
    requires Amounts(p.inputs) < lib.curve.order && p.voucherAmount + ChangeAmount(p) + p.fee < lib.curve.order
    ensures var result := CreateVoucher(lib, blake, p).value;
      && (TxBalances(lib.curve, result.tx) <==> Amounts(p.inputs) == p.voucherAmount + ChangeAmount(p) + p.fee)
      && (TxSigned(lib.curve, blake, result.tx) <==> ScalarValue(result.tx.signature[32..]) != 0)
      && PedersenCommit(lib.curve, p.voucherAmount, result.voucherBlind) == Ok(result.voucher.commitment)
  {
    hide Rem, Curve.Valid, ScalarValue, MintOutput, SignKernel, PedersenCommit, CommitForm, InputBlinds, Balances,
      SenderBlindExcess, TxSigned, OutBlinds, AllOutputs, MintChange, OpensAll;
    var c := lib.curve;
    c.OrderBounds();
    var inputBlinds := InputBlinds(lib, p.ext, p.legacy, p.inputs).value;
    var (voucherBlind, voucher) := MintOutput(lib, p.ext, p.voucherPath, p.voucherAmount, p.bpPrivateNonce).value;
    var change := MintChange(lib, p).value;
    var tx := CreateVoucher(lib, blake, p).value.tx;
    var signingKey := SenderBlindExcess(c, inputBlinds, OutBlinds(voucherBlind, change), p.kernelOffset);
    var signed := SignKernel(c, blake, Plain(p.fee), signingKey, p.kernelNonce).value;
    assert signed == (tx.excess, tx.signature);
    KernelSigned(c, blake, signingKey, p.kernelNonce, tx);
    MintedOpens(lib, p.ext, p.voucherPath, p.voucherAmount, p.bpPrivateNonce);
    InputBlindsOpen(lib, p.ext, p.legacy, p.inputs);
    PairedSums(p.inputs, inputBlinds);
    CreatedOutputsOpen(lib, p, voucherBlind, voucher, change);
    InputBlindsCanonical(lib, p.ext, p.legacy, p.inputs);
    OutBlindsCanonical(lib, p, voucherBlind, voucher, change);
    ExcessScalar(c, inputBlinds, OutBlinds(voucherBlind, change), p.kernelOffset);
    assert 0 < ScalarValue(signingKey) < c.order by { NonZeroBounds(c, signingKey); }
    BalanceExact(c, InCommitments(tx.inputs), Paired(p.inputs, inputBlinds), OutCommitments(tx.outputs),
                 CreatedOpenings(p, voucherBlind, change), p.fee, ScalarValue(signingKey), ScalarValue(p.kernelOffset));
  }

  /** The blinds, as numbers, that a signing key is made of. */
  ghost predicate KeyCancels(c: Curve, outputs: int, inputs: int, offset: Bytes32)
    requires c.order > 0
  {
    Congruent(outputs - inputs - ScalarValue(offset), 0, c.order)
  }

  lemma KeyUsable(c: Curve, key: Bytes32, k: int)
    requires c.Valid() && ScalarValue(key) < c.order && Congruent(ScalarValue(key), k, c.order)
    ensures NonZero(c, key).Some? <==> !Congruent(k, 0, c.order)
  {
    hide Rem, Curve.Valid, ScalarValue;
    c.OrderBounds();
    SmallIsRemainder(ScalarValue(key), c.order);
    SmallIsRemainder(0, c.order);
  }

  /** When a voucher can be made, and of what its transaction is: the caller's inputs under their features, the
      voucher and then the change as plain outputs, a plain kernel with the caller's fee, and the caller's offset. */
  lemma CreateExact(lib: Library, blake: Bytes -> Bytes32, p: CreateParams)
    requires lib.curve.Valid() && Canonical(lib.curve, p.kernelOffset)
    ensures var ins := InputBlinds(lib, p.ext, p.legacy, p.inputs);
      var voucher := MintOutput(lib, p.ext, p.voucherPath, p.voucherAmount, p.bpPrivateNonce);
      var change := MintChange(lib, p);
      var r := CreateVoucher(lib, blake, p);
      && (r.Ok? <==>
            && ins.Ok? && voucher.Ok? && change.Ok? && NonZero(lib.curve, p.kernelNonce).Some?
            && !KeyCancels(lib.curve, Sum(Scalars(OutBlinds(voucher.value.0, change.value))), Sum(Scalars(ins.value)),
                           p.kernelOffset))
      && (r.Ok? ==>
            && r.value.tx.inputs == ToTxInputs(p.inputs) && r.value.tx.offset == p.kernelOffset
            && r.value.tx.kernel == Plain(p.fee)
            && r.value.tx.outputs == [TxOutput(0, voucher.value.1.commitment, voucher.value.1.proof)]
                 + ChangeOutputs(r.value.change)
            && r.value.voucher == voucher.value.1 && r.value.voucherBlind == voucher.value.0
            && (p.change.None? ==> r.value.change.None?)
            && (p.change.Some? ==>
                  var minted := MintOutput(lib, p.ext, p.change.value.path, p.change.value.amount,
                                           p.changeBpPrivateNonce);
                  minted.Ok? && r.value.change == Some(minted.value.1))
            && SignedUnder(lib.curve, r.value.tx.signature, p.kernelNonce))
  {
    hide Rem, Curve.Valid, ScalarValue, MintOutput, SignKernel, InputBlinds, SenderBlindExcess, Sum, Scalars,
      ToTxInputs, OutBlinds, OnWire, NonZero, SignedUnder;
    var c := lib.curve;
    c.OrderBounds();
    var ins := InputBlinds(lib, p.ext, p.legacy, p.inputs);
    var voucher := MintOutput(lib, p.ext, p.voucherPath, p.voucherAmount, p.bpPrivateNonce);
    var change := MintChange(lib, p);
    if ins.Ok? && voucher.Ok? && change.Ok? {
      InputBlindsCanonical(lib, p.ext, p.legacy, p.inputs);
      OutBlindsCanonical(lib, p, voucher.value.0, voucher.value.1, change.value);
      var outs := OutBlinds(voucher.value.0, change.value);
      ExcessScalar(c, ins.value, outs, p.kernelOffset);
      var key := SenderBlindExcess(c, ins.value, outs, p.kernelOffset);
      PlainSigns(c, blake, p.fee, key, p.kernelNonce);
      KeyUsable(c, key, Sum(Scalars(outs)) - Sum(Scalars(ins.value)) - ScalarValue(p.kernelOffset));
    }
  }

  /** A plain kernel is signed exactly when key and nonce are usable. */
  lemma PlainSigns(c: Curve, blake: Bytes -> Bytes32, fee: u64, key: Bytes32, nonce: Bytes32)
    requires c.Valid()
    ensures var r := SignKernel(c, blake, Plain(fee), key, nonce);
      && (r.Ok? <==> NonZero(c, key).Some? && NonZero(c, nonce).Some?)
      && (r.Ok? ==> SignedUnder(c, r.value.1, nonce))
  {
    hide Curve.Valid, BeValue, SignKernel, OnWire, Schnorr.SignWithNonce;
    c.OrderBounds();
    KernelLayout(Plain(fee));
    SignsExactly(c, blake, Plain(fee), KernelBytes(Plain(fee)), key, nonce);
    if SignKernel(c, blake, Plain(fee), key, nonce).Ok? {
      Schnorr.SignExact(c, key, nonce, blake(KernelBytes(Plain(fee))));
    }
  }

  /** A signature made with this nonce. */
  ghost predicate SignedUnder(c: Curve, signature: Bytes64, nonce: Bytes32) {
    signature[..32] == c.encode(Point(ScalarValue(nonce)))[1..]
  }

  lemma NonZeroBounds(c: Curve, b: Bytes32)
    requires NonZero(c, b).Some?
    ensures 0 < ScalarValue(b) < c.order
  {
  }

  // ----- sweeping ----------------------------------------------------------------------------

  /** A sweep balances exactly when the amount and the blind the claimer was given open the voucher's
      commitment; nothing else about the voucher matters. */
  lemma SweepBalancesExactly(lib: Library, blake: Bytes -> Bytes32, p: SweepParams)
    requires lib.curve.Valid() && ScalarValue(p.kernelOffset) < lib.curve.order
    requires SweepVoucher(lib, blake, p).Ok?
    requires p.voucherAmount < lib.curve.order && ScalarValue(p.voucherBlind) < lib.curve.order
    ensures var result := SweepVoucher(lib, blake, p).value;
      && (TxBalances(lib.curve, result.tx) <==>
            lib.curve.OnCurve(Opening(lib.curve, p.voucherAmount, ScalarValue(p.voucherBlind)))
            && p.voucherCommitment == CommitForm(lib.curve,
                  Opening(lib.curve, p.voucherAmount, ScalarValue(p.voucherBlind))))
      && (TxSigned(lib.curve, blake, result.tx) <==> ScalarValue(result.tx.signature[32..]) != 0)
      && result.output.amount + p.fee == p.voucherAmount
  {
    hide Rem, Curve.Valid, ScalarValue, MintOutput, SignKernel, PedersenCommit, CommitForm, Balances,
      BlindSub, TxSigned,
      Opening;
    var c := lib.curve;
    c.OrderBounds();
    var (claimerBlind, output) :=
      MintOutput(lib, p.ext, p.claimerPath, p.voucherAmount - p.fee, p.bpPrivateNonce).value;
    var tx := SweepVoucher(lib, blake, p).value.tx;
    var signingKey := BlindSub(c, BlindSub(c, claimerBlind, p.voucherBlind), p.kernelOffset);
    var signed := SignKernel(c, blake, Plain(p.fee), signingKey, p.kernelNonce).value;
    assert signed == (tx.excess, tx.signature);
    KernelSigned(c, blake, signingKey, p.kernelNonce, tx);
    MintedOpens(lib, p.ext, p.claimerPath, p.voucherAmount - p.fee, p.bpPrivateNonce);
    NonZeroBounds(c, signingKey);
    SweepExcess(c, claimerBlind, p.voucherBlind, p.kernelOffset);
    SweepEquation(c, p.voucherCommitment, p.voucherAmount, p.voucherBlind, claimerBlind, output.commitment, p.fee,
                  ScalarValue(signingKey), ScalarValue(p.kernelOffset));
    assert InCommitments(tx.inputs) == [p.voucherCommitment];
    assert OutCommitments(tx.outputs) == [output.commitment];
  }

  /** When a sweep can be made, and of what its transaction is: the voucher's output for input, as a coinbase if its
      feature byte is 1 and as plain otherwise, one plain output of the amount less the fee, a plain kernel with the
      fee, and the caller's offset. */
  lemma SweepExact(lib: Library, blake: Bytes -> Bytes32, p: SweepParams)
    requires lib.curve.Valid()
    ensures p.voucherAmount <= p.fee ==> !SweepVoucher(lib, blake, p).Ok?
    ensures p.voucherAmount > p.fee ==>
      var output := MintOutput(lib, p.ext, p.claimerPath, p.voucherAmount - p.fee, p.bpPrivateNonce);
      var r := SweepVoucher(lib, blake, p);
      && (r.Ok? <==>
            && output.Ok? && NonZero(lib.curve, p.kernelNonce).Some?
            && !KeyCancels(lib.curve, ScalarValue(output.value.0), ScalarValue(p.voucherBlind), p.kernelOffset))
      && (r.Ok? ==>
            && Sweeps(p, r.value) && r.value.output == output.value.1
            && SignedUnder(lib.curve, r.value.tx.signature, p.kernelNonce))
  {
    hide Rem, Curve.Valid, ScalarValue, MintOutput, SignKernel, BlindSub, NonZero, SignedUnder;
    var c := lib.curve;
    c.OrderBounds();
    if p.voucherAmount > p.fee {
      var output := MintOutput(lib, p.ext, p.claimerPath, p.voucherAmount - p.fee, p.bpPrivateNonce);
      if output.Ok? {
        var claimer := output.value.0;
        SweepExcess(c, claimer, p.voucherBlind, p.kernelOffset);
        var key := BlindSub(c, BlindSub(c, claimer, p.voucherBlind), p.kernelOffset);
        PlainSigns(c, blake, p.fee, key, p.kernelNonce);
        DifferenceBound(c, BlindSub(c, claimer, p.voucherBlind), p.kernelOffset);
        KeyUsable(c, key, ScalarValue(claimer) - ScalarValue(p.voucherBlind) - ScalarValue(p.kernelOffset));
      }
    }
  }

  ghost predicate Sweeps(p: SweepParams, r: SweepResult) {
    && |r.tx.inputs| == 1 && r.tx.inputs[0].commitment == p.voucherCommitment
    && (p.voucherFeatures <= 1 ==> r.tx.inputs[0].features == p.voucherFeatures)
    && (p.voucherFeatures > 1 ==> r.tx.inputs[0].features == 0)
    && r.tx.outputs == [TxOutput(0, r.output.commitment, r.output.proof)]
    && r.tx.kernel == Plain(p.fee) && r.tx.offset == p.kernelOffset
  }

  lemma DifferenceBound(c: Curve, a: Bytes32, b: Bytes32)
    requires c.Valid()
    ensures ScalarValue(BlindSub(c, a, b)) < c.order
  {
    hide Rem, Curve.Valid, ScalarBytes;
    c.OrderBounds();
    ScalarRoundTrip(c, Rem(ScalarValue(a) - ScalarValue(b), c.order));
  }

  lemma SweepExcess(c: Curve, claimer: Bytes32, voucher: Bytes32, offset: Bytes32)
    requires c.Valid()
    ensures Congruent(ScalarValue(BlindSub(c, BlindSub(c, claimer, voucher), offset)),
                      ScalarValue(claimer) - ScalarValue(voucher) - ScalarValue(offset), c.order)
  {
    hide Rem, Curve.Valid, ScalarBytes, ScalarValue;
    c.OrderBounds();
    var n := c.order;
    var a: int, b: int, k: int := ScalarValue(claimer), ScalarValue(voucher), ScalarValue(offset);
    var d := Rem(a - b, n);
    ScalarRoundTrip(c, d);
    RemainderCongruent(a - b, n);
    CongruentSub(d, a - b, k, k, n);
    RemainderCongruent(d - k, n);
    ScalarRoundTrip(c, Rem(d - k, n));
  }

  lemma SweepEquation(
    c: Curve, voucher: Bytes33, amount: u64, voucherBlind: Bytes32, claimerBlind: Bytes32, claimed: Bytes33, fee: u64,
    e: int, offset: int)
    requires c.Valid() && fee < amount && amount < c.order && 0 < e < c.order
    requires PedersenCommit(c, amount - fee, claimerBlind) == Ok(claimed)
    requires Congruent(e, ScalarValue(claimerBlind) - ScalarValue(voucherBlind) - offset, c.order)
    ensures Balances(c, [voucher], [claimed], fee, CommitForm(c, Point(e)), offset)
      <==> c.OnCurve(Opening(c, amount, ScalarValue(voucherBlind)))
           && voucher == CommitForm(c, Opening(c, amount, ScalarValue(voucherBlind)))
  {
    hide Rem, Curve.Valid, ScalarValue, CommitForm, Equation;
    c.OrderBounds();
    var excess := CommitForm(c, Point(e));
    var outPoint := Opening(c, amount - fee, ScalarValue(claimerBlind));
    var inPoint := Opening(c, amount, ScalarValue(voucherBlind));
    assert Committed(c, [claimed], [outPoint]);
    assert Committed(c, [excess], [Point(e)]);
    forall v: Point | c.OnCurve(v)
      ensures Equation(c, [v], [outPoint], fee, Point(e), offset) <==> v == inPoint
    {
      OnlyVoucherBalances(c, v, amount, ScalarValue(voucherBlind), ScalarValue(claimerBlind), fee, e, offset);
    }
    if c.OnCurve(inPoint) && voucher == CommitForm(c, inPoint) {
      assert Committed(c, [voucher], [inPoint]);
    }
    if Balances(c, [voucher], [claimed], fee, excess, offset) {
      var ip, op, ep :| Committed(c, [voucher], ip) && Committed(c, [claimed], op) && Committed(c, [excess], [ep])
        && Equation(c, ip, op, fee, ep, offset);
      CommittedUnique(c, [claimed], op, [outPoint]);
      CommittedUnique(c, [excess], [ep], [Point(e)]);
      assert [ep][0] == [Point(e)][0] && ip == [ip[0]];
    }
  }

  /** The one input that balances a sweep is the point the claimed amount and blind open. */
  lemma OnlyVoucherBalances(
    c: Curve, v: Point, amount: int, voucherBlind: int, claimerBlind: int, fee: int, e: int, offset: int)
    requires c.Valid() && c.OnCurve(v)
    requires Congruent(e, claimerBlind - voucherBlind - offset, c.order)
    ensures Equation(c, [v], [Opening(c, amount - fee, claimerBlind)], fee, Point(e), offset)
      <==> v == Opening(c, amount, voucherBlind)
  {
    hide Rem, Curve.Valid, Equation;
    c.OrderBounds();
    var n, h := c.order, c.h;
    var outPoint := Opening(c, amount - fee, claimerBlind);
    EquationOnLogs(c, [v], [outPoint], fee, Point(e), offset);
    assert Logs([v]) == [v.log] && Logs([outPoint]) == [outPoint.log];
    assert Sum([v.log]) == v.log && Sum([outPoint.log]) == outPoint.log;
    RemainderCongruent((amount - fee) * h + claimerBlind, n);
    CongruentAdd(outPoint.log, (amount - fee) * h + claimerBlind, fee * h, fee * h, n);
    assert (amount - fee) * h == amount * h - fee * h;
    CongruentAdd(e, claimerBlind - voucherBlind - offset, v.log + offset, v.log + offset, n);
    var l, r := amount * h + claimerBlind, v.log + claimerBlind - voucherBlind;
    SmallIsRemainder(v.log, n);
    if Congruent(l, r, n) {
      CongruentSub(l, r, claimerBlind - voucherBlind, claimerBlind - voucherBlind, n);
    }
    if Congruent(amount * h + voucherBlind, v.log, n) {
      CongruentAdd(amount * h + voucherBlind, v.log, claimerBlind - voucherBlind, claimerBlind - voucherBlind, n);
    }
  }

  // ----- the two together --------------------------------------------------------------------

  /** The sweep of what the creation handed over: its amount, its blind and its commitment. */
  predicate HandedOver(create: CreateResult, sweep: SweepParams) {
    && sweep.voucherCommitment == create.voucher.commitment
    && sweep.voucherBlind == create.voucherBlind
    && sweep.voucherAmount == create.voucher.amount
  }

  /** A voucher made from balanced amounts and swept with what was handed over: both transactions satisfy
      the network, and everything the sender put in is the claimer's output, the change and the two
      fees. */
  lemma CreateThenSweepConserves(
    lib: Library, claimer: Library, blake: Bytes -> Bytes32, create: CreateParams, sweep: SweepParams,
    made: CreateResult, swept: SweepResult)
    requires lib.curve.Valid() && claimer.curve == lib.curve
    requires ScalarValue(create.kernelOffset) < lib.curve.order && ScalarValue(sweep.kernelOffset) < lib.curve.order
    requires CreateVoucher(lib, blake, create) == Ok(made) && SweepVoucher(claimer, blake, sweep) == Ok(swept)
    requires HandedOver(made, sweep)
    requires Amounts(create.inputs) == create.voucherAmount + ChangeAmount(create) + create.fee < lib.curve.order
    ensures TxBalances(lib.curve, made.tx) && TxBalances(lib.curve, swept.tx)
    ensures made.voucher.commitment in OutCommitments(made.tx.outputs)
    ensures InCommitments(swept.tx.inputs) == [made.voucher.commitment]
    ensures made.tx.outputs != [] && made.tx.outputs[0] == PlainOutput(made.voucher)
    ensures sweep.voucherFeatures == made.tx.outputs[0].features ==>
      swept.tx.inputs == [TxInput(made.tx.outputs[0].features, made.tx.outputs[0].commitment)]
    ensures Amounts(create.inputs) == swept.output.amount + ChangeAmount(create) + create.fee + sweep.fee
  {
    hide Rem, Curve.Valid, ScalarValue, SignKernel, CommitForm, TxBalances, TxSigned, InputBlinds, SenderBlindExcess,
      BlindSub, Opening, MintChange, MintOutput;
    lib.curve.OrderBounds();
    CreateBalancesExactly(lib, blake, create);
    NonZeroBounds(lib.curve, made.voucherBlind);
    MintedOpens(lib, create.ext, create.voucherPath, create.voucherAmount, create.bpPrivateNonce);
    SweepBalancesExactly(claimer, blake, sweep);
    assert OutCommitments(made.tx.outputs)[0] == made.voucher.commitment;
  }
}
