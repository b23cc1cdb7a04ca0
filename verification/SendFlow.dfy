/** Sending: the sender's first slate, the receiver's answer and the broadcastable transaction
    (crates/grin-ext/src/wallet_flows.rs). */
module SendFlow {
  import opened Outcomes
  import opened ByteStrings
  import opened Modular
  import opened Curves
  import opened Schnorr
  import opened Aggregation
  import opened Kernels
  import opened Slates
  import opened Keychains
  import opened PathSearch
  import opened Recovery
  import opened Balance
  import opened Transactions
  import opened Wallet
  import opened SlateBuilder

  datatype SendParams = SendParams(
    ext: Bytes64, legacy: Option<Bytes64>, inputs: seq<UnspentOutput>, amount: u64, fee: u64,
    kernelFeatures: KernelFeatures, changePath: Path4, kernelOffset: Bytes32, kernelNonce: Bytes32,
    bpPrivateNonce: Bytes32)

  /** The first slate, what the sender keeps for the last step, its change if any, and what each input's
      derivation was. */
  datatype Made = Made(slate: Slate, context: SenderContext, change: Option<OutputInfo>, derivations: seq<string>)

  datatype SignParams = SignParams(ext: Bytes64, path: Path4, kernelNonce: Bytes32, bpPrivateNonce: Bytes32)

  datatype Signed = Signed(slate: Slate, output: OutputInfo, kernelExcess: Bytes33)

  datatype Finalized = Finalized(slate: Slate, signature: Bytes64, kernelExcess: Bytes33, tx: Transaction)

  // ----- the sender's first slate ------------------------------------------------------------

  /** What is left of the inputs. Their total is a plain u64 sum; the target is a checked one. */
  function Change(inputs: seq<UnspentOutput>, amount: u64, fee: u64): Outcome<u64> {
    if Amounts(inputs) > U64_MAX then Panic("attempt to add with overflow")
    else if amount + fee > U64_MAX then Err("amount + fee overflows u64")
    else if Amounts(inputs) < amount + fee then Err("insufficient inputs")
    else Ok(Amounts(inputs) - (amount + fee))
  }

  /** Which stop comes first: a total of more than 64 bits panics, a target of more is an error of its own, and only
      then are the inputs found too small. */
  lemma WhyNoChange(inputs: seq<UnspentOutput>, amount: u64, fee: u64)
    ensures Change(inputs, amount, fee).Panic? <==> Amounts(inputs) >= 0x1_0000_0000_0000_0000
    ensures Change(inputs, amount, fee) == Err("amount + fee overflows u64") <==>
      Amounts(inputs) < 0x1_0000_0000_0000_0000 <= amount + fee
    ensures Change(inputs, amount, fee) == Err("insufficient inputs") <==>
      Amounts(inputs) < amount + fee < 0x1_0000_0000_0000_0000
  {
    assert "amount + fee overflows u64"[0] != "insufficient inputs"[0];
  }

  function MintChange(lib: Library, p: SendParams, amount: u64): Outcome<Option<(Bytes32, OutputInfo)>>
    requires lib.curve.order > 0
  {
    if amount == 0 then Ok(None) else
    var minted :- MintOutput(lib, p.ext, p.changePath, amount, p.bpPrivateNonce);
    Ok(Some(minted))
  }

  function InputEntries(inputs: seq<UnspentOutput>): (coms: seq<Commit>)
    ensures |coms| == |inputs|
    ensures forall i | 0 <= i < |inputs| :: coms[i] == InputEntry(inputs[i].commitment, inputs[i].isCoinbase)
  {
    if inputs == [] then [] else [InputEntry(inputs[0].commitment, inputs[0].isCoinbase)] + InputEntries(inputs[1..])
  }

  function ChangeEntries(change: Option<OutputInfo>): seq<Commit> {
    match change case None => [] case Some(info) => [OutputEntry(info.commitment, info.proof, false)]
  }

  /** `create_send_transaction`, the slate id given. */
  function CreateSend(lib: Library, p: SendParams, id: string): Outcome<Made>
    requires lib.curve.order > 0
  {
    if p.inputs == [] then Err("no inputs provided") else
    var blinds :- InputBlinds(lib, p.ext, p.legacy, p.inputs);
    var left :- Change(p.inputs, p.amount, p.fee);
    var change :- MintChange(lib, p, left);
    var excess := SenderBlindExcess(lib.curve, blinds, ChangeBlinds(change), p.kernelOffset);
    var (s1, context) :- SenderInit(lib.curve, InitParams(p, excess), id);
    Ok(Made(s1.(coms := Some(InputEntries(p.inputs) + ChangeEntries(ChangeInfo(change)))), context, ChangeInfo(change),
            InputTags(lib, p.ext, p.legacy, p.inputs)))
  }

  function InitParams(p: SendParams, excess: Bytes32): SenderInitParams {
    SenderInitParams(p.amount, p.fee, p.kernelFeatures, excess, p.kernelOffset, p.kernelNonce)
  }

  lemma {:induction false} AmountsSnoc(inputs: seq<UnspentOutput>, i: nat)
    requires i < |inputs|
    ensures Amounts(inputs[..i + 1]) == Amounts(inputs[..i]) + inputs[i].amount
    ensures Amounts(inputs[..i + 1]) <= Amounts(inputs)
    decreases i
  {
    if i == 0 {
      assert inputs[..1][1..] == [];
    } else {
      AmountsSnoc(inputs[1..], i - 1);
      assert inputs[..i + 1][1..] == inputs[1..][..i] && inputs[..i][1..] == inputs[1..][..i - 1];
    }
  }

  method SumAmounts(inputs: seq<UnspentOutput>) returns (r: Outcome<u64>)
    ensures r == if Amounts(inputs) > U64_MAX then Panic("attempt to add with overflow") else Ok(Amounts(inputs))
  {
    var total: u64 := 0;
    for i := 0 to |inputs|
      invariant total == Amounts(inputs[..i])
    {
      AmountsSnoc(inputs, i);
      if total + inputs[i].amount > U64_MAX {
        return Panic("attempt to add with overflow");
      }
      total := total + inputs[i].amount;
    }
    assert inputs[..|inputs|] == inputs;
    return Ok(total);
  }

  lemma OneMore<T>(s: seq<T>, i: nat, x: T)
    requires i < |s| && s[i] == x
    ensures s[..i + 1] == s[..i] + [x] && [] + [x] == [x]
  {
  }

  method AddInputs(slate: Slate, inputs: seq<UnspentOutput>) returns (s: Slate)
    requires slate.coms.None? && inputs != []
    ensures s == slate.(coms := Some(InputEntries(inputs)))
  {
    s := slate;
    ghost var entries := InputEntries(inputs);
    for i := 0 to |inputs|
      invariant i == 0 ==> s == slate
      invariant i > 0 ==> s == slate.(coms := Some(entries[..i]))
    {
      var entry := InputEntry(inputs[i].commitment, inputs[i].isCoinbase);
      OneMore(entries, i, entry);
      s := AddCommit(s, entry);
    }
    assert entries[..|inputs|] == entries;
  }

  lemma ChangeCanonical(lib: Library, p: SendParams, left: u64, change: Option<(Bytes32, OutputInfo)>)
    requires lib.curve.order > 0 && MintChange(lib, p, left) == Ok(change)
    ensures AllCanonical(lib.curve, ChangeBlinds(change))
  {
    hide MintOutput, PedersenCommit, Canonical;
    if left != 0 {
      MintedOpens(lib, p.ext, p.changePath, left, p.bpPrivateNonce);
    }
  }

  method CreateSendTransaction(lib: Library, p: SendParams, id: string) returns (r: Outcome<Made>)
    requires lib.curve.order > 0
    ensures r == CreateSend(lib, p, id)
  {
    hide MintOutput, BlindSum, BlindSub, PublicKey, InputEntries;
    if |p.inputs| == 0 {
      return Err("no inputs provided");
    }
    var inputBlinds, tags :- DeriveInputBlinds(lib, p.ext, p.legacy, p.inputs);
    InputBlindsCanonical(lib, p.ext, p.legacy, p.inputs);
    var total :- SumAmounts(p.inputs);
    if p.amount + p.fee > U64_MAX {
      return Err("amount + fee overflows u64");
    }
    var target: u64 := p.amount + p.fee;
    if total < target {
      return Err("insufficient inputs");
    }
    var change :- MintChange(lib, p, total - target);
    ChangeCanonical(lib, p, total - target, change);
    var outSum := SumBlinds(lib.curve, ChangeBlinds(change));
    var inSum := SumBlinds(lib.curve, inputBlinds);
    var excess := BlindSub(lib.curve, BlindSub(lib.curve, outSum, inSum), p.kernelOffset);
    var opening :- SenderInit(lib.curve, InitParams(p, excess), id);
    var slate := AddInputs(opening.0, p.inputs);
    if change.Some? {
      slate := AddCommit(slate, OutputEntry(change.value.1.commitment, change.value.1.proof, false));
    } else {
      assert InputEntries(p.inputs) + [] == InputEntries(p.inputs);
    }
    return Ok(Made(slate, opening.1, ChangeInfo(change), tags));
  }

  /** What a first slate comes with: the inputs cover amount, fee and change to the unit, the change is
      minted only when there is some, and the sender's excess is change minus inputs minus offset. */
  lemma MadeFacts(lib: Library, p: SendParams, id: string, made: Made)
    returns (blinds: seq<Bytes32>, change: Option<(Bytes32, OutputInfo)>)
    requires lib.curve.Valid() && CreateSend(lib, p, id) == Ok(made)
    ensures InputBlinds(lib, p.ext, p.legacy, p.inputs) == Ok(blinds)
    ensures Change(p.inputs, p.amount, p.fee).Ok?
    ensures MintChange(lib, p, Change(p.inputs, p.amount, p.fee).value) == Ok(change)
    ensures made.change == ChangeInfo(change)
    ensures Values(ChangeOpenings(change)) == Amounts(p.inputs) - p.amount - p.fee
    ensures made.change.Some? <==> Amounts(p.inputs) > p.amount + p.fee
    ensures OpenedBy(lib.curve, made.slate, made.context)
    ensures made.slate.coms == Some(InputEntries(p.inputs) + ChangeEntries(made.change))
    ensures made.slate.amt == p.amount && made.slate.fee == p.fee && made.slate.off == p.kernelOffset
    ensures made.slate.feat == FeatureByte(p.kernelFeatures) && made.slate.featArgs == LockArgs(p.kernelFeatures)
    ensures Canonical(lib.curve, p.kernelOffset) ==>
      Congruent(ScalarValue(made.context.blindExcess),
                Sum(Scalars(ChangeBlinds(change))) - Sum(Scalars(blinds)) - ScalarValue(p.kernelOffset),
                lib.curve.order)
    ensures OpensAll(lib.curve, OutCommitments(ChangeOutputs(made.change)), ChangeOpenings(change))
  {
    hide Rem, Curve.Valid, PublicKey, MintOutput, InputBlinds, SenderBlindExcess, InputEntries,
      PedersenCommit, ScalarValue;
    lib.curve.OrderBounds();
    blinds := InputBlinds(lib, p.ext, p.legacy, p.inputs).value;
    change := MintChange(lib, p, Change(p.inputs, p.amount, p.fee).value).value;
    InputBlindsCanonical(lib, p.ext, p.legacy, p.inputs);
    ChangeCanonical(lib, p, Change(p.inputs, p.amount, p.fee).value, change);
    if Canonical(lib.curve, p.kernelOffset) {
      ExcessScalar(lib.curve, blinds, ChangeBlinds(change), p.kernelOffset);
    }
    if change.Some? {
      var left := Change(p.inputs, p.amount, p.fee).value;
      MintedOpens(lib, p.ext, p.changePath, left, p.bpPrivateNonce);
      assert ChangeOpenings(change)[1..] == [];
    }
  }

  /** When a sender can start: with inputs whose blinds are found, which add up to amount and fee or more, none of the
      sums too large for 64 bits, a change that can be minted if there is any, and secrets that do not cancel out. */
  lemma CreateExact(lib: Library, p: SendParams, id: string)
    requires lib.curve.Valid() && Canonical(lib.curve, p.kernelOffset)
    ensures var ins := InputBlinds(lib, p.ext, p.legacy, p.inputs);
      CreateSend(lib, p, id).Ok? <==>
        && p.inputs != [] && ins.Ok? && p.amount + p.fee <= Amounts(p.inputs) <= U64_MAX
        && NonZero(lib.curve, p.kernelNonce).Some?
        && var left := Amounts(p.inputs) - p.amount - p.fee;
           if left == 0 then Startable(lib.curve, 0, Sum(Scalars(ins.value)), p.kernelOffset)
           else
             var change := MintOutput(lib, p.ext, p.changePath, left, p.bpPrivateNonce);
             change.Ok?
             && Startable(lib.curve, ScalarValue(change.value.0), Sum(Scalars(ins.value)), p.kernelOffset)
  {
    hide Rem, Curve.Valid, ScalarValue, MintOutput, InputBlinds, SenderBlindExcess, Sum, Scalars, InputEntries, NonZero,
      Startable, SenderInit, MintChange;
    var ins, left := InputBlinds(lib, p.ext, p.legacy, p.inputs), Change(p.inputs, p.amount, p.fee);
    if ins.Ok? && left.Ok? && MintChange(lib, p, left.value).Ok? {
      var change := MintChange(lib, p, left.value).value;
      StartsWhen(lib, p, id, ins.value, left.value, change);
    }
    if left.Ok? {
      ChangeMinted(lib, p, left.value);
    }
  }

  /** Change less inputs less offset is not zero. */
  ghost predicate Startable(c: Curve, change: int, inputs: int, offset: Bytes32)
    requires c.order > 0
  {
    !Congruent(change - inputs - ScalarValue(offset), 0, c.order)
  }

  lemma ChangeMinted(lib: Library, p: SendParams, left: u64)
    requires lib.curve.order > 0
    ensures var minted := MintOutput(lib, p.ext, p.changePath, left, p.bpPrivateNonce);
      && (MintChange(lib, p, left).Ok? <==> left == 0 || minted.Ok?)
      && (MintChange(lib, p, left).Ok? ==>
            ChangeSum(MintChange(lib, p, left).value) == if left == 0 then 0 else ScalarValue(minted.value.0))
  {
    hide MintOutput, ScalarValue;
    if MintChange(lib, p, left).Ok? && left != 0 {
      var blind := MintOutput(lib, p.ext, p.changePath, left, p.bpPrivateNonce).value.0;
      assert [blind][1..] == [] && Scalars([blind]) == [ScalarValue(blind) as int];
      assert Sum([ScalarValue(blind) as int]) == ScalarValue(blind);
    }
  }

  ghost function ChangeSum(change: Option<(Bytes32, OutputInfo)>): int {
    Sum(Scalars(ChangeBlinds(change)))
  }

  lemma StartsWhen(
    lib: Library, p: SendParams, id: string, blinds: seq<Bytes32>, left: u64, change: Option<(Bytes32, OutputInfo)>)
    requires lib.curve.Valid() && Canonical(lib.curve, p.kernelOffset)
    requires InputBlinds(lib, p.ext, p.legacy, p.inputs) == Ok(blinds) && MintChange(lib, p, left) == Ok(change)
    ensures SenderInit(lib.curve, InitParams(p, SenderBlindExcess(lib.curve, blinds, ChangeBlinds(change),
                                                                  p.kernelOffset)), id).Ok?
       <==> NonZero(lib.curve, p.kernelNonce).Some?
            && Startable(lib.curve, ChangeSum(change), Sum(Scalars(blinds)), p.kernelOffset)
  {
    hide Rem, Curve.Valid, BeValue, InputBlinds, SenderBlindExcess, Sum, Scalars, MintChange, SenderInit;
    var c := lib.curve;
    c.OrderBounds();
    InputBlindsCanonical(lib, p.ext, p.legacy, p.inputs);
    ChangeCanonical(lib, p, left, change);
    ExcessScalar(c, blinds, ChangeBlinds(change), p.kernelOffset);
    var excess := SenderBlindExcess(c, blinds, ChangeBlinds(change), p.kernelOffset);
    OpensExactly(c, InitParams(p, excess), id);
    SmallIsRemainder(ScalarValue(excess), c.order);
    SmallIsRemainder(0, c.order);
  }

  /** The first slate as it goes out: what the sender opens, with the inputs for references, 1 for a coinbase and 0 for
      any other, and the change, if there is any, for an output. */
  lemma FirstSlate(lib: Library, p: SendParams, id: string, made: Made)
    requires lib.curve.Valid() && CreateSend(lib, p, id) == Ok(made)
    ensures var n := |p.inputs|;
      && made.slate.coms.Some? && |made.slate.coms.value| == n + (if made.change.Some? then 1 else 0)
      && (forall i | 0 <= i < n ::
            made.slate.coms.value[i] == Commit(if p.inputs[i].isCoinbase then 1 else 0, p.inputs[i].commitment, None))
      && (made.change.Some? ==>
            made.slate.coms.value[n] == Commit(0, made.change.value.commitment, Some(made.change.value.proof)))
    ensures exists excess: Bytes32 ::
      SenderInit(lib.curve, SenderInitParams(p.amount, p.fee, p.kernelFeatures, excess, p.kernelOffset,
                                             p.kernelNonce), id)
        == Ok((made.slate.(coms := None), made.context))
  {
    hide Curve.Valid, PublicKey, MintOutput, InputBlinds, SenderBlindExcess, PedersenCommit;
    lib.curve.OrderBounds();
    var blinds := InputBlinds(lib, p.ext, p.legacy, p.inputs).value;
    var change := MintChange(lib, p, Change(p.inputs, p.amount, p.fee).value).value;
    var excess := SenderBlindExcess(lib.curve, blinds, ChangeBlinds(change), p.kernelOffset);
    var opening := SenderInit(lib.curve, InitParams(p, excess), id).value;
    assert opening.0 == made.slate.(coms := None);
    var coms := made.slate.coms.value;
    forall i | 0 <= i < |p.inputs|
      ensures coms[i] == Commit(if p.inputs[i].isCoinbase then 1 else 0, p.inputs[i].commitment, None)
    {
      assert coms[i] == InputEntries(p.inputs)[i];
    }
  }

  // ----- the receiver's answer ---------------------------------------------------------------

  /** The kernel excess two participants sum to, in commitment form. */
  function KernelExcess(c: Curve, sigs: seq<Participant>): Outcome<Bytes33>
    requires c.order > 0 && |sigs| >= 2
  {
    var key :- PointAdd(c, sigs[0].xs, sigs[1].xs);
    PubkeyToCommitment(c, key)
  }

  function LastOutput(path: Path4, amount: u64, coms: seq<Commit>): Outcome<OutputInfo> {
    if coms == [] then Err("S2 slate has empty coms after receiver_round_s2") else
    match coms[|coms| - 1].p
    case None => Err("S2 slate's last com is missing its bulletproof")
    case Some(proof) => Ok(OutputInfo(path, amount, coms[|coms| - 1].c, proof))
  }

  /** `sign_incoming_send_slate`. */
  function SignIncoming(lib: Library, blake: Bytes -> Bytes32, s1: Slate, q: SignParams): Outcome<Signed>
    requires lib.curve.order > 0
  {
    if s1.sta != Standard1 then Err("sign_incoming_send_slate expects S1") else
    var blind :- DeriveBlind(lib, q.ext, q.path, s1.amt, Regular);
    var s2 :- ReceiverRound(lib, blake, s1, RoundParams(q, blind));
    Report(lib.curve, q.path, s1.amt, s2)
  }

  /** What the receiver keeps of its answer: the output, which comes last, and the kernel excess. */
  function Report(c: Curve, path: Path4, amount: u64, s2: Slate): Outcome<Signed>
    requires c.order > 0 && |s2.sigs| >= 2
  {
    var excess :- KernelExcess(c, s2.sigs);
    var output :- LastOutput(path, amount, Coms(s2));
    Ok(Signed(s2, output, excess))
  }

  function RoundParams(q: SignParams, blind: Bytes32): ReceiverParams {
    ReceiverParams(q.ext, q.path, blind, q.kernelNonce, q.bpPrivateNonce)
  }

  /** The receiver's answer adds one output, minted for the slate's amount, and its signature; what it
      reports as its output is that one. */
  lemma SignedFacts(lib: Library, blake: Bytes -> Bytes32, s1: Slate, q: SignParams, signed: Signed)
    returns (blind: Bytes32)
    requires lib.curve.order > 0 && SignIncoming(lib, blake, s1, q) == Ok(signed)
    ensures DeriveBlind(lib, q.ext, q.path, s1.amt, Regular) == Ok(blind)
    ensures Answers(s1, signed.slate)
    ensures ReceiverSigs(lib.curve, blake, s1, RoundParams(q, blind)) == Ok(signed.slate.sigs)
    ensures MintOutput(lib, q.ext, q.path, s1.amt, q.bpPrivateNonce) == Ok((blind, signed.output))
    ensures Coms(signed.slate) == Coms(s1) + [OutputEntry(signed.output.commitment, signed.output.proof, false)]
    ensures |s1.sigs| == 1 && |signed.slate.sigs| == 2 && signed.slate.sigs[0] == s1.sigs[0]
    ensures Ok(signed.slate.sigs[1].xs) == PublicKey(lib.curve, blind)
    ensures KernelExcess(lib.curve, signed.slate.sigs) == Ok(signed.kernelExcess)
  {
    hide DeriveBlind, ReceiverRound, CreateRecoverableOutput, KernelExcess, ReceiverSigs, PublicKey;
    blind := DeriveBlind(lib, q.ext, q.path, s1.amt, Regular).value;
    ReceiverAnswers(lib, blake, s1, RoundParams(q, blind), signed.slate);
  }

  /** When a receiver can answer a slate: when its blind is found, the output can be minted under it, and its signing
      succeeds. */
  lemma AnswersExactly(lib: Library, blake: Bytes -> Bytes32, s1: Slate, q: SignParams)
    requires lib.curve.Valid()
    ensures var blind := DeriveBlind(lib, q.ext, q.path, s1.amt, Regular);
      SignIncoming(lib, blake, s1, q).Ok? <==>
        && blind.Ok? && ReceiverSigs(lib.curve, blake, s1, RoundParams(q, blind.value)).Ok?
        && CreateRecoverableOutput(lib, q.ext, s1.amt, blind.value, q.path, Regular, q.bpPrivateNonce).Ok?
  {
    hide Curve.Valid, DeriveBlind, CreateRecoverableOutput, ReceiverSigs, PointAdd, PubkeyToCommitment;
    lib.curve.OrderBounds();
    var blind := DeriveBlind(lib, q.ext, q.path, s1.amt, Regular);
    if blind.Ok? && ReceiverSigs(lib.curve, blake, s1, RoundParams(q, blind.value)).Ok? {
      SignedOnFirst(lib.curve, blake, s1, RoundParams(q, blind.value));
    }
  }

  /** Whoever could sign sees a first slate, and a kernel excess. */
  lemma SignedOnFirst(c: Curve, blake: Bytes -> Bytes32, s1: Slate, p: ReceiverParams)
    requires c.Valid() && ReceiverSigs(c, blake, s1, p).Ok?
    ensures s1.sta == Standard1 && KernelExcess(c, ReceiverSigs(c, blake, s1, p).value).Ok?
  {
    hide Curve.Valid, Message, ReceiverPart, PublicKey;
    c.OrderBounds();
    var sigs := ReceiverSigs(c, blake, s1, p).value;
    var key := PointAdd(c, sigs[0].xs, sigs[1].xs);
    SumDecodes(c, sigs[0].xs, sigs[1].xs);
  }

  lemma SumDecodes(c: Curve, a: Bytes33, b: Bytes33)
    requires c.Valid() && PointAdd(c, a, b).Ok?
    ensures c.decode(PointAdd(c, a, b).value).Some?
  {
    hide Curve.Valid;
    c.OrderBounds();
    var sum := c.Add(c.decode(a).value, c.decode(b).value);
    c.EncodesAt(sum);
  }

  // ----- the transaction ---------------------------------------------------------------------

  /** The entries that carry a proof, in order. */
  function WithProofs(coms: seq<Commit>): (r: seq<Commit>)
    ensures Proved(r) && |r| <= |coms|
  {
    if coms == [] then [] else (if coms[0].p.Some? then [coms[0]] else []) + WithProofs(coms[1..])
  }

  lemma {:induction false} WithProofsAppend(a: seq<Commit>, b: seq<Commit>)
    ensures WithProofs(a + b) == WithProofs(a) + WithProofs(b)
  {
    if a == [] {
      assert a + b == b;
    } else {
      WithProofsAppend(a[1..], b);
      assert (a + b)[0] == a[0] && (a + b)[1..] == a[1..] + b;
      Associative(if a[0].p.Some? then [a[0]] else [], WithProofs(a[1..]), WithProofs(b));
    }
  }

  lemma Associative<T>(a: seq<T>, b: seq<T>, c: seq<T>)
    ensures a + (b + c) == (a + b) + c
  {
  }

  method KeepOutputs(coms: seq<Commit>) returns (r: seq<Commit>)
    ensures r == WithProofs(coms)
  {
    r := [];
    for i := 0 to |coms|
      invariant r == WithProofs(coms[..i])
    {
      assert coms[..i + 1] == coms[..i] + [coms[i]] && [coms[i]][1..] == [];
      WithProofsAppend(coms[..i], [coms[i]]);
      if coms[i].p.Some? {
        r := r + [coms[i]];
      }
    }
    assert coms[..|coms|] == coms;
  }

  function BuildFrom(s3: Slate, inputs: seq<UnspentOutput>, signature: Bytes64): BuildParams {
    BuildParams(s3.(coms := Some(WithProofs(Coms(s3)))), ToTxInputs(inputs), [], signature)
  }

  /** `finalize_send_slate`. */
  function FinalizeSend(c: Curve, blake: Bytes -> Bytes32, s2: Slate, context: SenderContext,
                        inputs: seq<UnspentOutput>)
    : Outcome<Finalized>
    requires c.order > 0
  {
    var (s3, signature) :- SenderFinalize(c, blake, s2, context);
    var excess :- KernelExcess(c, s3.sigs);
    var tx :- SlateTransaction(c, BuildFrom(s3, inputs, signature));
    Ok(Finalized(s3, signature, excess, tx))
  }

  method FinalizeSendSlate(
    c: Curve, blake: Bytes -> Bytes32, s2: Slate, context: SenderContext, inputs: seq<UnspentOutput>)
    returns (r: Outcome<(Finalized, Bytes, JsonTx)>)
    requires c.order > 0 && |Coms(s2)| <= U64_MAX && |inputs| <= U64_MAX
    ensures match FinalizeSend(c, blake, s2, context, inputs)
            case Ok(done) => done.tx.Countable() && r == Ok((done, TxBytes(done.tx), TxJson(blake, done.tx)))
            case Err(e) => r == Err(e)
            case Panic(w) => r == Panic(w)
  {
    hide SenderFinalize, KernelExcess, SlateTransaction, TxBytes, TxJson, WithProofs;
    var finished :- SenderFinalize(c, blake, s2, context);
    FinalizedKeeps(c, blake, s2, context, finished.0, finished.1);
    var excess :- KernelExcess(c, finished.0.sigs);
    var outputsOnly := KeepOutputs(Coms(finished.0));
    var params := BuildParams(finished.0.(coms := Some(outputsOnly)), ToTxInputs(inputs), [], finished.1);
    var bytes :- SlateToTransactionBytes(c, params);
    var assembled := Assemble(c, params);
    return Ok((Finalized(finished.0, finished.1, excess, assembled.value), bytes, TxJson(blake, assembled.value)));
  }

  lemma FinalizedKeeps(
    c: Curve, blake: Bytes -> Bytes32, s2: Slate, context: SenderContext, s3: Slate, signature: Bytes64)
    requires c.order > 0 && SenderFinalize(c, blake, s2, context) == Ok((s3, signature))
    ensures |s2.sigs| == 2 && |s3.sigs| == 2 && s3 == s2.(sta := Standard3, sigs := s3.sigs)
    ensures s3.sigs[0].xs == s2.sigs[0].xs && s3.sigs[1].xs == s2.sigs[1].xs
  {
    hide Complete, CheckAnswer, Schnorr.Verify, TermsOf;
    FinalizedIsSigned(c, blake, s2, context, s3, signature);
  }

  /** Whatever slate comes back to the sender: a transaction that is built spends exactly the sender's
      inputs, makes exactly the outputs the slate proves, each once and in order, with no input reference
      among them, is offset as the slate says, and its kernel signature verifies against its excess, which
      is the one reported. */
  lemma FinalizedFacts(
    c: Curve, blake: Bytes -> Bytes32, s2: Slate, context: SenderContext, inputs: seq<UnspentOutput>, done: Finalized)
    requires c.order > 0 && FinalizeSend(c, blake, s2, context, inputs) == Ok(done)
    ensures done.tx.inputs == ToTxInputs(inputs)
    ensures done.tx.outputs == OutputsFrom(WithProofs(Coms(s2)))
    ensures done.tx.offset == s2.off
    ensures FromSlateFields(s2.feat, s2.fee, s2.featArgs) == Ok(done.tx.kernel)
    ensures |s2.sigs| == 2 && KernelExcess(c, s2.sigs) == Ok(done.tx.excess) && done.kernelExcess == done.tx.excess
    ensures TxSigned(c, blake, done.tx)
  {
    hide SenderFinalize, PointAdd, Schnorr.Verify, WithProofs, FromSlateFields, SigMsg, PubkeyToCommitment, OutputsFrom;
    var (s3, signature) := SenderFinalize(c, blake, s2, context).value;
    FinalizedIsSigned(c, blake, s2, context, s3, signature);
    PairExcess(c, s3, inputs, signature);
    var terms := TermsOf(c, blake, s2, s2.sigs[0], s2.sigs[1]).value;
    assert PubkeyToCommitment(c, terms.keyTotal) == Ok(done.tx.excess);
    assert OutputsFrom(WithProofs(Coms(s2))) + [] == OutputsFrom(WithProofs(Coms(s2)));
  }

  /** The slate's kernel fields are those of this kernel. */
  predicate SameKernelFields(slate: Slate, kernel: KernelFeatures) {
    && slate.feat == FeatureByte(kernel)
    && (!kernel.Coinbase? ==> slate.fee == kernel.fee)
    && (kernel.HeightLocked? || kernel.Nrd? ==> slate.featArgs == LockArgs(kernel))
  }

  /** The last step compares neither the kernel, the fee, the offset nor the change of the slate that comes
      back with what the sender kept. The transaction has them exactly when that slate does. */
  lemma AnswerNotCompared(
    c: Curve, blake: Bytes -> Bytes32, s2: Slate, context: SenderContext, inputs: seq<UnspentOutput>, done: Finalized,
    change: OutputInfo)
    requires c.order > 0 && FinalizeSend(c, blake, s2, context, inputs) == Ok(done)
    ensures done.tx.offset == context.kernelOffset <==> s2.off == context.kernelOffset
    ensures done.tx.kernel == context.kernelFeatures <==> SameKernelFields(s2, context.kernelFeatures)
    ensures FeeOf(done.tx.kernel) == context.fee <==> (if s2.feat == 1 then context.fee == 0 else s2.fee == context.fee)
    ensures PlainOutput(change) in done.tx.outputs
       <==> OutputEntry(change.commitment, change.proof, false) in WithProofs(Coms(s2))
  {
    hide FinalizeSend, WithProofs, TxSigned, KernelExcess;
    FinalizedFacts(c, blake, s2, context, inputs, done);
    var coms := WithProofs(Coms(s2));
    var outputs := OutputsFrom(coms);
    if PlainOutput(change) in outputs {
      var i :| 0 <= i < |outputs| && outputs[i] == PlainOutput(change);
      assert outputs[i] == OutputFrom(coms[i]) && coms[i] in coms;
      assert coms[i] == OutputEntry(change.commitment, change.proof, false);
    }
    if OutputEntry(change.commitment, change.proof, false) in coms {
      var i :| 0 <= i < |coms| && coms[i] == OutputEntry(change.commitment, change.proof, false);
      assert outputs[i] == PlainOutput(change) && outputs[i] in outputs;
    }
  }

  /** With two participants the encoder sums the same two excesses. */
  lemma PairExcess(c: Curve, s3: Slate, inputs: seq<UnspentOutput>, signature: Bytes64)
    requires c.order > 0 && |s3.sigs| == 2 && s3.sta == Standard3
    ensures SlateTransaction(c, BuildFrom(s3, inputs, signature)).Ok? == (
      var kernel := FromSlateFields(s3.feat, s3.fee, s3.featArgs);
      KernelExcess(c, s3.sigs).Ok? && kernel.Ok? && InRange(kernel.value))
    ensures SlateTransaction(c, BuildFrom(s3, inputs, signature)).Ok? ==>
      var tx := SlateTransaction(c, BuildFrom(s3, inputs, signature)).value;
      && KernelExcess(c, s3.sigs) == Ok(tx.excess) && FromSlateFields(s3.feat, s3.fee, s3.featArgs) == Ok(tx.kernel)
      && tx.inputs == ToTxInputs(inputs) && tx.outputs == OutputsFrom(WithProofs(Coms(s3))) + []
      && tx.offset == s3.off && tx.signature == signature
  {
    hide PointAdd, WithProofs, FromSlateFields, KernelBytes, InRange;
    var rest := s3.sigs[1..];
    assert rest[1..] == [] && ExcessKeys(rest) == [s3.sigs[1].xs] && [s3.sigs[1].xs][1..] == [];
    var keys := [s3.sigs[1].xs];
    var sum := PointAdd(c, s3.sigs[0].xs, keys[0]);
    if sum.Ok? {
      assert AddPoints(c, sum.value, []) == Ok(sum.value);
      assert AddPoints(c, s3.sigs[0].xs, keys) == sum;
    } else {
      assert !AddPoints(c, s3.sigs[0].xs, keys).Ok?;
    }
  }

  // ----- the whole flow ----------------------------------------------------------------------

  lemma InputsHaveNoProofs(inputs: seq<UnspentOutput>, i: nat)
    requires i <= |inputs|
    ensures WithProofs(InputEntries(inputs)[i..]) == []
    decreases |inputs| - i
  {
    if i < |inputs| {
      InputsHaveNoProofs(inputs, i + 1);
      assert InputEntries(inputs)[i..][1..] == InputEntries(inputs)[i + 1..];
    }
  }

  /** Of the answered slate's entries the proofs pick the change and the receiver's output. */
  lemma SentOutputs(inputs: seq<UnspentOutput>, change: Option<OutputInfo>, received: OutputInfo)
    ensures OutputsFrom(WithProofs(InputEntries(inputs) + ChangeEntries(change)
                                   + [OutputEntry(received.commitment, received.proof, false)]))
         == ChangeOutputs(change) + [PlainOutput(received)]
  {
    hide InputEntries;
    var last := [OutputEntry(received.commitment, received.proof, false)];
    InputsHaveNoProofs(inputs, 0);
    assert InputEntries(inputs)[0..] == InputEntries(inputs);
    WithProofsAppend(InputEntries(inputs) + ChangeEntries(change), last);
    WithProofsAppend(InputEntries(inputs), ChangeEntries(change));
    assert last[1..] == [] && WithProofs(last) == last;
    if change.Some? {
      assert ChangeEntries(change)[1..] == [] && WithProofs(ChangeEntries(change)) == ChangeEntries(change);
    }
    assert WithProofs(InputEntries(inputs) + ChangeEntries(change) + last) == ChangeEntries(change) + last;
    assert OutputsFrom(ChangeEntries(change) + last) == ChangeOutputs(change) + [PlainOutput(received)];
  }

  /** The excess of two published keys is the point of the summed secrets. */
  lemma ExcessOfSum(c: Curve, a: Bytes32, b: Bytes32, sigs: seq<Participant>)
    requires c.Valid() && |sigs| >= 2 && NonZero(c, a).Some? && NonZero(c, b).Some?
    requires Ok(sigs[0].xs) == PublicKey(c, a) && Ok(sigs[1].xs) == PublicKey(c, b)
    requires KernelExcess(c, sigs).Ok?
    ensures var e := Rem(ScalarValue(a) + ScalarValue(b), c.order);
            0 < e < c.order && KernelExcess(c, sigs) == Ok(CommitForm(c, Point(e)))
  {
    hide Rem, Curve.Valid, CommitForm, ScalarValue, PointAdd;
    c.OrderBounds();
    var x, y := NonZero(c, a).value, NonZero(c, b).value;
    KeyOf(c, a);
    KeyOf(c, b);
    PointAddAdds(c, Point(x), Point(y));
    c.EncodesAt(c.Add(Point(x), Point(y)));
  }

  /** The openings behind the finished transaction's outputs: the change, then what the receiver minted. */
  function SentOpenings(change: Option<(Bytes32, OutputInfo)>, received: OutputInfo, blind: Bytes32): seq<Opened> {
    ChangeOpenings(change) + [Opened(received.amount, blind)]
  }

  lemma SentOpen(c: Curve, change: Option<(Bytes32, OutputInfo)>, received: OutputInfo, blind: Bytes32)
    requires c.order > 0
    requires OpensAll(c, OutCommitments(ChangeOutputs(ChangeInfo(change))), ChangeOpenings(change))
    requires PedersenCommit(c, received.amount, blind) == Ok(received.commitment)
    ensures OpensAll(c, OutCommitments(ChangeOutputs(ChangeInfo(change)) + [PlainOutput(received)]),
                     SentOpenings(change, received, blind))
    ensures Values(SentOpenings(change, received, blind)) == Values(ChangeOpenings(change)) + received.amount
    ensures Sum(Scalars(Blinds(SentOpenings(change, received, blind))))
         == Sum(Scalars(ChangeBlinds(change))) + ScalarValue(blind)
  {
    hide PedersenCommit, ScalarValue;
    var last := [Opened(received.amount, blind)];
    assert last[1..] == [];
    ValuesAppend(ChangeOpenings(change), last);
    assert Values(last) == received.amount && Blinds(last) == [blind];
    if change.Some? {
      assert ChangeOpenings(change)[1..] == [] && Blinds(ChangeOpenings(change)) == ChangeBlinds(change);
    }
    ScalarsAppend(ChangeBlinds(change), [blind]);
    SumAppend(Scalars(ChangeBlinds(change)), Scalars([blind]));
    assert [blind][1..] == [] && Scalars([blind]) == [ScalarValue(blind) as int];
    assert Sum([ScalarValue(blind) as int]) == ScalarValue(blind);
  }

  /** The made slate with another amount or kernel on it: the participants, the commitments, the offset and all
      else are as the sender wrote them. */
  ghost predicate Reworded(made: Slate, asked: Slate) {
    asked == made.(amt := asked.amt, fee := asked.fee, feat := asked.feat, featArgs := asked.featArgs)
  }

  /** What a finished send comes to when the receiver signs for another amount or kernel than the sender asked
      for, which the last step does not notice. The transaction still spends exactly the sender's inputs and
      makes exactly the change and the receiver's output, both wallets report its excess, and its signature
      verifies; it satisfies the network's equation exactly when what the receiver took and the kernel's fee
      are together what the sender set aside. */
  lemma AnsweredConserves(
    lib: Library, receiver: Library, blake: Bytes -> Bytes32, p: SendParams, id: string, q: SignParams, made: Made,
    asked: Slate, signed: Signed, done: Finalized)
    requires lib.curve.Valid() && receiver.curve == lib.curve && U64_MAX < lib.curve.order
    requires Canonical(lib.curve, p.kernelOffset)
    requires CreateSend(lib, p, id) == Ok(made) && Reworded(made.slate, asked)
    requires SignIncoming(receiver, blake, asked, q) == Ok(signed)
    requires FinalizeSend(lib.curve, blake, signed.slate, made.context, p.inputs) == Ok(done)
    requires Amounts(p.inputs) - p.amount - p.fee + asked.amt + asked.fee < lib.curve.order
    ensures signed.output.amount == asked.amt
    ensures Amounts(p.inputs) == p.amount + p.fee + (if made.change.Some? then made.change.value.amount else 0)
    ensures made.change.Some? <==> Amounts(p.inputs) > p.amount + p.fee
    ensures done.tx.inputs == ToTxInputs(p.inputs)
    ensures done.tx.outputs == ChangeOutputs(made.change) + [PlainOutput(signed.output)]
    ensures done.kernelExcess == done.tx.excess == signed.kernelExcess
    ensures done.tx.offset == p.kernelOffset
    ensures FromSlateFields(asked.feat, asked.fee, asked.featArgs) == Ok(done.tx.kernel)
    ensures TxSigned(lib.curve, blake, done.tx)
    ensures TxBalances(lib.curve, done.tx) <==> asked.amt + FeeOf(done.tx.kernel) == p.amount + p.fee
  {
    hide Rem, Curve.Valid, InputBlinds, MintChange, DeriveBlind, CreateSend, SignIncoming, FinalizeSend,
      TxSigned, Balances,
      ScalarValue, OpenedBy, ReceiverSigs, KernelExcess, InputEntries, MintOutput, OutputsFrom, WithProofs,
      PedersenCommit,
      OpensAll, CommitForm, FromSlateFields, Sum, Scalars;
    var c := lib.curve;
    c.OrderBounds();
    var blinds, change := MadeFacts(lib, p, id, made);
    var blind := SignedFacts(receiver, blake, asked, q, signed);
    FinalizedFacts(c, blake, signed.slate, made.context, p.inputs, done);
    SentOutputs(p.inputs, made.change, signed.output);
    MintedOpens(receiver, q.ext, q.path, asked.amt, q.bpPrivateNonce);
    InputBlindsOpen(lib, p.ext, p.legacy, p.inputs);
    PairedSums(p.inputs, blinds);
    SentOpen(c, change, signed.output, blind);
    SentFee(signed.slate, done.tx.kernel);
    OpeningKeys(c, made.slate, made.context);
    ExcessOfSum(c, made.context.blindExcess, blind, signed.slate.sigs);
    ExcessCongruent(c.order, ScalarValue(made.context.blindExcess), ScalarValue(blind),
                    Sum(Scalars(ChangeBlinds(change))), Sum(Scalars(blinds)), ScalarValue(p.kernelOffset));
    BalanceExact(c, InCommitments(done.tx.inputs), Paired(p.inputs, blinds), OutCommitments(done.tx.outputs),
                 SentOpenings(change, signed.output, blind), FeeOf(done.tx.kernel),
                 Rem(ScalarValue(made.context.blindExcess) + ScalarValue(blind), c.order), ScalarValue(p.kernelOffset));
  }

  /** The promise of the send flow. When all three steps succeed, the inputs are the receiver's amount, the
      fee and the change to the unit; the transaction spends exactly those inputs and makes exactly the
      change and the receiver's output; both wallets report the excess that is in it; and its signature
      verifies against that excess. It satisfies the network's equation exactly when the sender did not ask
      for a coinbase kernel, which the parameters do not rule out and which charges nothing, or asked for no
      fee. */
  lemma SendConserves(
    lib: Library, receiver: Library, blake: Bytes -> Bytes32, p: SendParams, id: string, q: SignParams, made: Made,
    signed: Signed, done: Finalized)
    requires lib.curve.Valid() && receiver.curve == lib.curve && U64_MAX < lib.curve.order
    requires Canonical(lib.curve, p.kernelOffset)
    requires CreateSend(lib, p, id) == Ok(made) && SignIncoming(receiver, blake, made.slate, q) == Ok(signed)
    requires FinalizeSend(lib.curve, blake, signed.slate, made.context, p.inputs) == Ok(done)
    ensures signed.output.amount == p.amount
    ensures Amounts(p.inputs) == p.amount + p.fee + (if made.change.Some? then made.change.value.amount else 0)
    ensures made.change.Some? <==> Amounts(p.inputs) > p.amount + p.fee
    ensures done.tx.inputs == ToTxInputs(p.inputs)
    ensures done.tx.outputs == ChangeOutputs(made.change) + [PlainOutput(signed.output)]
    ensures done.kernelExcess == done.tx.excess == signed.kernelExcess
    ensures done.tx.offset == p.kernelOffset
    ensures TxSigned(lib.curve, blake, done.tx)
    ensures TxBalances(lib.curve, done.tx) <==> !p.kernelFeatures.Coinbase? || p.fee == 0
  {
    hide Curve.Valid, InputBlinds, CreateSend, SignIncoming, FinalizeSend, TxSigned, TxBalances, OpenedBy,
      InputEntries, FromSlateFields, OpensAll, ScalarValue, Sum, Scalars, Rem, MintChange;
    lib.curve.OrderBounds();
    var _, _ := MadeFacts(lib, p, id, made);
    assert Reworded(made.slate, made.slate);
    AnsweredConserves(lib, receiver, blake, p, id, q, made, made.slate, signed, done);
    SentFee(made.slate, done.tx.kernel);
    CoinbaseKept(p.kernelFeatures, p.fee, done.tx.kernel);
  }

  lemma OpeningKeys(c: Curve, s1: Slate, context: SenderContext)
    requires c.order > 0 && OpenedBy(c, s1, context)
    ensures |s1.sigs| == 1 && Ok(s1.sigs[0].xs) == PublicKey(c, context.blindExcess)
    ensures NonZero(c, context.blindExcess).Some?
  {
  }

  lemma SentFee(slate: Slate, kernel: KernelFeatures)
    requires FromSlateFields(slate.feat, slate.fee, slate.featArgs) == Ok(kernel)
    ensures FeeOf(kernel) == if kernel == Coinbase then 0 else slate.fee
  {
  }

  lemma ExcessCongruent(n: int, a: int, b: int, changes: int, ins: int, offset: int)
    requires n > 0 && Congruent(a, changes - ins - offset, n)
    ensures Congruent(Rem(a + b, n), (changes + b) - ins - offset, n)
  {
    hide Rem;
    CongruentAdd(a, changes - ins - offset, b, b, n);
    RemainderCongruent(a + b, n);
  }

  /** Whatever slate with the sender's participant and id an honest receiver answers, the sender's last step
      succeeds exactly when neither its own share of the response nor the whole response is zero, the two
      scalars no verifier accepts. */
  lemma AnsweredCompletes(
    receiver: Library, blake: Bytes -> Bytes32, asked: Slate, context: SenderContext, inputs: seq<UnspentOutput>,
    q: SignParams, signed: Signed, blind: Bytes32)
    requires receiver.curve.Valid() && OpenedBy(receiver.curve, asked, context)
    requires SignIncoming(receiver, blake, asked, q) == Ok(signed)
    requires DeriveBlind(receiver, q.ext, q.path, asked.amt, Regular) == Ok(blind)
    ensures |signed.slate.sigs| == 2 && Usable(receiver.curve, Pair(context, RoundParams(q, blind)))
    ensures TermsOf(receiver.curve, blake, signed.slate, signed.slate.sigs[0], signed.slate.sigs[1]).Ok?
    ensures
      var terms := TermsOf(receiver.curve, blake, signed.slate, signed.slate.sigs[0], signed.slate.sigs[1]).value;
      var pair := Pair(context, RoundParams(q, blind));
      var shares := Shares(receiver.curve, pair, terms.nonceTotal, terms.keyTotal, terms.msg);
      FinalizeSend(receiver.curve, blake, signed.slate, context, inputs).Ok? == (
        shares[0] != 0 && Rem(shares[0] + shares[1], receiver.curve.order) != 0)
  {
    hide Rem, Curve.Valid, DeriveBlind, SignIncoming, OpenedBy, ReceiverSigs, KernelExcess, TermsOf,
      SenderFinalize, FinalizeSend, Shares, Usable, MintOutput, Ceremony;
    var c := receiver.curve;
    c.OrderBounds();
    var blind' := SignedFacts(receiver, blake, asked, q, signed);
    var pair, s2 := RoundParams(q, blind), signed.slate;
    ReceiverJoins(c, blake, asked, context, pair, s2.sigs);
    SameTerms(c, blake, asked, s2);
    var terms := TermsOf(c, blake, s2, s2.sigs[0], s2.sigs[1]).value;
    FinalizeExact(c, blake, asked, context, pair, s2, terms);
    OnlySigningFails(c, blake, s2, context, inputs);
  }

  /** An honest run never gets stuck: the sender's last step succeeds on the receiver's answer exactly when
      neither its own share of the response nor the whole response is zero. */
  lemma SendCompletes(
    lib: Library, receiver: Library, blake: Bytes -> Bytes32, p: SendParams, id: string, q: SignParams, made: Made,
    signed: Signed, blind: Bytes32)
    requires lib.curve.Valid() && receiver.curve == lib.curve
    requires CreateSend(lib, p, id) == Ok(made) && SignIncoming(receiver, blake, made.slate, q) == Ok(signed)
    requires DeriveBlind(receiver, q.ext, q.path, p.amount, Regular) == Ok(blind)
    ensures |signed.slate.sigs| == 2 && Usable(lib.curve, Pair(made.context, RoundParams(q, blind)))
    ensures TermsOf(lib.curve, blake, signed.slate, signed.slate.sigs[0], signed.slate.sigs[1]).Ok?
    ensures var terms := TermsOf(lib.curve, blake, signed.slate, signed.slate.sigs[0], signed.slate.sigs[1]).value;
      var pair := Pair(made.context, RoundParams(q, blind));
      var shares := Shares(lib.curve, pair, terms.nonceTotal, terms.keyTotal, terms.msg);
      FinalizeSend(lib.curve, blake, signed.slate, made.context, p.inputs).Ok? == (
        shares[0] != 0 && Rem(shares[0] + shares[1], lib.curve.order) != 0)
  {
    hide Rem, Curve.Valid, DeriveBlind, CreateSend, SignIncoming, OpenedBy, TermsOf, FinalizeSend, Shares, Usable,
      InputEntries, Values, OpensAll;
    lib.curve.OrderBounds();
    var _, _ := MadeFacts(lib, p, id, made);
    AnsweredCompletes(receiver, blake, made.slate, made.context, p.inputs, q, signed, blind);
  }

  /** Once the excesses add up, the last step can fail only over the signature. */
  lemma OnlySigningFails(c: Curve, blake: Bytes -> Bytes32, s2: Slate, context: SenderContext,
                         inputs: seq<UnspentOutput>)
    requires c.order > 0 && |s2.sigs| == 2 && KernelExcess(c, s2.sigs).Ok?
    requires TermsOf(c, blake, s2, s2.sigs[0], s2.sigs[1]).Ok?
    ensures FinalizeSend(c, blake, s2, context, inputs).Ok? == SenderFinalize(c, blake, s2, context).Ok?
  {
    hide KernelExcess, TermsOf, SenderFinalize, SlateTransaction;
    if SenderFinalize(c, blake, s2, context).Ok? {
      var (s3, signature) := SenderFinalize(c, blake, s2, context).value;
      FinalizedKeeps(c, blake, s2, context, s3, signature);
      SameExcess(c, s2.sigs, s3.sigs);
      PairExcess(c, s3, inputs, signature);
      TermsKernel(c, blake, s2, s2.sigs[0], s2.sigs[1]);
    }
  }

  lemma SameExcess(c: Curve, a: seq<Participant>, b: seq<Participant>)
    requires c.order > 0 && |a| == |b| == 2 && a[0].xs == b[0].xs && a[1].xs == b[1].xs
    ensures KernelExcess(c, a) == KernelExcess(c, b)
  {
  }

  lemma TermsKernel(c: Curve, blake: Bytes -> Bytes32, slate: Slate, a: Participant, b: Participant)
    requires c.order > 0 && TermsOf(c, blake, slate, a, b).Ok?
    ensures var kernel := FromSlateFields(slate.feat, slate.fee, slate.featArgs); kernel.Ok? && InRange(kernel.value)
  {
    hide PointAdd, FromSlateFields, InRange;
  }
}
