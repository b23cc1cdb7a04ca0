/** What the voucher and the send flow have in common: the blinds of the inputs, the outputs they mint,
    and what the network asks of a transaction. */
module Wallet {
  import opened Outcomes
  import opened ByteStrings
  import opened Modular
  import opened Curves
  import opened Keychains
  import opened PathSearch
  import opened Recovery
  import opened Balance
  import opened Kernels
  import opened Transactions
  import Schnorr

  /** An output this wallet made, as it is kept for spending later. */
  datatype OutputInfo = OutputInfo(path: Path4, amount: u64, commitment: Bytes33, proof: ByteVec)

  /** The blinds of all inputs, in order; the first that cannot be derived stops. */
  function InputBlinds(lib: Library, v3: Bytes64, legacy: Option<Bytes64>, inputs: seq<UnspentOutput>)
    : (r: Outcome<seq<Bytes32>>)
    requires lib.curve.order > 0
    ensures r.Ok? ==> |r.value| == |inputs|
  {
    if inputs == [] then Ok([]) else
    var (blind, _) :- Fallback(lib, v3, legacy, inputs[0]);
    var rest :- InputBlinds(lib, v3, legacy, inputs[1..]);
    Ok([blind] + rest)
  }

  lemma {:induction false} InputBlindsSnoc(
    lib: Library, v3: Bytes64, legacy: Option<Bytes64>, inputs: seq<UnspentOutput>, i: nat)
    requires lib.curve.order > 0 && i < |inputs|
    ensures InputBlinds(lib, v3, legacy, inputs[..i + 1]) == (
      var blinds :- InputBlinds(lib, v3, legacy, inputs[..i]);
      var (blind, _) :- Fallback(lib, v3, legacy, inputs[i]);
      Ok(blinds + [blind]))
    ensures !InputBlinds(lib, v3, legacy, inputs[..i + 1]).Ok? ==>
      InputBlinds(lib, v3, legacy, inputs) == InputBlinds(lib, v3, legacy, inputs[..i + 1])
    decreases i
  {
    hide Fallback;
    if i == 0 {
      assert inputs[..1] == [inputs[0]] && [inputs[0]][1..] == [] && inputs[..0] == [];
      if Fallback(lib, v3, legacy, inputs[0]).Ok? {
        var first := [Fallback(lib, v3, legacy, inputs[0]).value.0];
        assert first + [] == first == [] + first;
      }
    } else {
      InputBlindsSnoc(lib, v3, legacy, inputs[1..], i - 1);
      assert inputs[..i + 1][1..] == inputs[1..][..i] && inputs[..i][1..] == inputs[1..][..i - 1];
      if InputBlinds(lib, v3, legacy, inputs[..i + 1]).Ok? {
        var first := Fallback(lib, v3, legacy, inputs[0]).value.0;
        var rest := InputBlinds(lib, v3, legacy, inputs[1..][..i - 1]).value;
        var last := Fallback(lib, v3, legacy, inputs[i]).value.0;
        assert [first] + (rest + [last]) == ([first] + rest) + [last];
      }
    }
  }

  /** What each input's derivation is called in diagnostics. */
  function InputTags(lib: Library, v3: Bytes64, legacy: Option<Bytes64>, inputs: seq<UnspentOutput>)
    : (tags: seq<string>)
    requires lib.curve.order > 0 && InputBlinds(lib, v3, legacy, inputs).Ok?
    ensures |tags| == |inputs|
  {
    if inputs == [] then [] else
    [Fallback(lib, v3, legacy, inputs[0]).value.1] + InputTags(lib, v3, legacy, inputs[1..])
  }

  lemma {:induction false} InputTagsAt(lib: Library, v3: Bytes64, legacy: Option<Bytes64>,
    inputs: seq<UnspentOutput>, i: nat)
    requires lib.curve.order > 0 && InputBlinds(lib, v3, legacy, inputs).Ok? && i < |inputs|
    ensures Fallback(lib, v3, legacy, inputs[i]).Ok?
    ensures InputTags(lib, v3, legacy, inputs)[i] == Fallback(lib, v3, legacy, inputs[i]).value.1
  {
    hide Fallback;
    if i > 0 {
      InputTagsAt(lib, v3, legacy, inputs[1..], i - 1);
    }
  }

  /** These are the names of the first derivations. */
  ghost predicate TagsSoFar(
    lib: Library, v3: Bytes64, legacy: Option<Bytes64>, inputs: seq<UnspentOutput>, tags: seq<string>)
    requires lib.curve.order > 0
  {
    |tags| <= |inputs| && forall j | 0 <= j < |tags| ::
      Fallback(lib, v3, legacy, inputs[j]).Ok? && tags[j] == Fallback(lib, v3, legacy, inputs[j]).value.1
  }

  lemma TagAdded(
    lib: Library, v3: Bytes64, legacy: Option<Bytes64>, inputs: seq<UnspentOutput>, tags: seq<string>, tag: string)
    requires lib.curve.order > 0 && TagsSoFar(lib, v3, legacy, inputs, tags) && |tags| < |inputs|
    requires var derived := Fallback(lib, v3, legacy, inputs[|tags|]); derived.Ok? && derived.value.1 == tag
    ensures TagsSoFar(lib, v3, legacy, inputs, tags + [tag])
  {
    hide Fallback;
  }

  lemma AllTagged(lib: Library, v3: Bytes64, legacy: Option<Bytes64>, inputs: seq<UnspentOutput>, tags: seq<string>)
    requires lib.curve.order > 0 && InputBlinds(lib, v3, legacy, inputs).Ok?
    requires TagsSoFar(lib, v3, legacy, inputs, tags) && |tags| == |inputs|
    ensures tags == InputTags(lib, v3, legacy, inputs)
  {
    hide Fallback, InputBlinds, InputTags;
    var named := InputTags(lib, v3, legacy, inputs);
    forall j | 0 <= j < |inputs|
      ensures tags[j] == named[j]
    {
      InputTagsAt(lib, v3, legacy, inputs, j);
    }
  }

  method DeriveInputBlinds(lib: Library, v3: Bytes64, legacy: Option<Bytes64>, inputs: seq<UnspentOutput>)
    returns (r: Outcome<seq<Bytes32>>, tags: seq<string>)
    requires lib.curve.order > 0
    ensures r == InputBlinds(lib, v3, legacy, inputs)
    ensures r.Ok? ==> tags == InputTags(lib, v3, legacy, inputs)
  {
    hide Fallback, TagsSoFar;
    var blinds: seq<Bytes32> := [];
    tags := [];
    assert TagsSoFar(lib, v3, legacy, inputs, []) by { NoTags(lib, v3, legacy, inputs); }
    for i := 0 to |inputs|
      invariant InputBlinds(lib, v3, legacy, inputs[..i]) == Ok(blinds)
      invariant |tags| == i && TagsSoFar(lib, v3, legacy, inputs, tags)
    {
      InputBlindsSnoc(lib, v3, legacy, inputs, i);
      var derived :- DeriveInputBlind(lib, v3, legacy, inputs[i]);
      blinds := blinds + [derived.0];
      TagAdded(lib, v3, legacy, inputs, tags, derived.1);
      tags := tags + [derived.1];
    }
    assert inputs[..|inputs|] == inputs;
    r := Ok(blinds);
    AllTagged(lib, v3, legacy, inputs, tags);
  }

  lemma NoTags(lib: Library, v3: Bytes64, legacy: Option<Bytes64>, inputs: seq<UnspentOutput>)
    requires lib.curve.order > 0
    ensures TagsSoFar(lib, v3, legacy, inputs, [])
  {
  }

  function ToTxInput(input: UnspentOutput): TxInput {
    TxInput(if input.isCoinbase then 1 else 0, input.commitment)
  }

  function ToTxInputs(inputs: seq<UnspentOutput>): (r: seq<TxInput>)
    ensures |r| == |inputs| && forall i | 0 <= i < |r| :: r[i] == ToTxInput(inputs[i])
  {
    if inputs == [] then [] else [ToTxInput(inputs[0])] + ToTxInputs(inputs[1..])
  }

  /** A spent coinbase output goes in under feature 1, any other under 0. */
  lemma SpentAs(inputs: seq<UnspentOutput>, i: nat)
    requires i < |inputs|
    ensures |ToTxInputs(inputs)| == |inputs|
    ensures ToTxInputs(inputs)[i].commitment == inputs[i].commitment
    ensures inputs[i].isCoinbase ==> ToTxInputs(inputs)[i].features == 1
    ensures !inputs[i].isCoinbase ==> ToTxInputs(inputs)[i].features == 0
  {
  }

  function Amounts(inputs: seq<UnspentOutput>): nat {
    if inputs == [] then 0 else inputs[0].amount + Amounts(inputs[1..])
  }

  /** The inputs with the blinds derived for them. */
  function Paired(inputs: seq<UnspentOutput>, blinds: seq<Bytes32>): (os: seq<Opened>)
    requires |inputs| == |blinds|
    ensures |os| == |inputs| && forall i | 0 <= i < |os| :: os[i] == Opened(inputs[i].amount, blinds[i])
  {
    if inputs == [] then [] else [Opened(inputs[0].amount, blinds[0])] + Paired(inputs[1..], blinds[1..])
  }

  lemma {:induction false} PairedSums(inputs: seq<UnspentOutput>, blinds: seq<Bytes32>)
    requires |inputs| == |blinds|
    ensures Values(Paired(inputs, blinds)) == Amounts(inputs)
    ensures Blinds(Paired(inputs, blinds)) == blinds
  {
    if inputs != [] {
      PairedSums(inputs[1..], blinds[1..]);
    }
  }

  /** Derived blinds open the commitments they were derived for, so whatever amounts the caller named are
      the ones on chain. */
  lemma {:induction false} InputBlindsOpen(lib: Library, v3: Bytes64, legacy: Option<Bytes64>,
    inputs: seq<UnspentOutput>)
    requires lib.curve.order > 0 && InputBlinds(lib, v3, legacy, inputs).Ok?
    ensures OpensAll(lib.curve, InCommitments(ToTxInputs(inputs)),
                     Paired(inputs, InputBlinds(lib, v3, legacy, inputs).value))
  {
    hide PedersenCommit, Candidates;
    if inputs != [] {
      InputBlindsOpen(lib, v3, legacy, inputs[1..]);
      FirstOpeningExact(lib, Candidates(v3, legacy, inputs[0].path), inputs[0]);
      var blinds := InputBlinds(lib, v3, legacy, inputs).value;
      var cs, os := InCommitments(ToTxInputs(inputs)), Paired(inputs, blinds);
      forall i | 0 <= i < |os|
        ensures PedersenCommit(lib.curve, os[i].value, os[i].blind) == Ok(cs[i])
      {
        if i > 0 {
          assert os[i] == Paired(inputs[1..], blinds[1..])[i - 1];
          assert cs[i] == InCommitments(ToTxInputs(inputs[1..]))[i - 1];
        }
      }
    }
  }

  /** Derived blinds are secret keys. */
  lemma {:induction false} InputBlindsCanonical(
    lib: Library, v3: Bytes64, legacy: Option<Bytes64>, inputs: seq<UnspentOutput>)
    requires lib.curve.order > 0 && InputBlinds(lib, v3, legacy, inputs).Ok?
    ensures AllCanonical(lib.curve, InputBlinds(lib, v3, legacy, inputs).value)
  {
    hide Fallback, Candidates;
    if inputs != [] {
      InputBlindsCanonical(lib, v3, legacy, inputs[1..]);
      FirstOpeningExact(lib, Candidates(v3, legacy, inputs[0].path), inputs[0]);
      FallbackCanonical(lib, v3, legacy, inputs[0]);
    }
  }

  lemma FallbackCanonical(lib: Library, v3: Bytes64, legacy: Option<Bytes64>, input: UnspentOutput)
    requires lib.curve.order > 0 && Fallback(lib, v3, legacy, input).Ok?
    ensures Canonical(lib.curve, Fallback(lib, v3, legacy, input).value.0)
  {
    hide Candidates, CommitForm;
    FirstOpeningExact(lib, Candidates(v3, legacy, input.path), input);
  }

  /** The commitments of inputs or of outputs. */
  function CommitmentsOf<T>(of: T -> Bytes33, items: seq<T>): (r: seq<Bytes33>)
    ensures |r| == |items| && forall i | 0 <= i < |r| :: r[i] == of(items[i])
  {
    if items == [] then [] else [of(items[0])] + CommitmentsOf(of, items[1..])
  }

  function InCommitments(inputs: seq<TxInput>): (r: seq<Bytes33>)
    ensures |r| == |inputs| && forall i | 0 <= i < |r| :: r[i] == inputs[i].commitment
  {
    CommitmentsOf((i: TxInput) => i.commitment, inputs)
  }

  function OutCommitments(outputs: seq<TxOutput>): (r: seq<Bytes33>)
    ensures |r| == |outputs| && forall i | 0 <= i < |r| :: r[i] == outputs[i].commitment
  {
    CommitmentsOf((o: TxOutput) => o.commitment, outputs)
  }

  /** Derive a blind and mint a seed-recoverable output with it. */
  function MintOutput(lib: Library, ext: Bytes64, path: Path4, amount: u64, privateNonce: Bytes32)
    : Outcome<(Bytes32, OutputInfo)>
    requires lib.curve.order > 0
  {
    var blind :- DeriveBlind(lib, ext, path, amount, Regular);
    var (commitment, proof, _) :- CreateRecoverableOutput(lib, ext, amount, blind, path, Regular, privateNonce);
    Ok((blind, OutputInfo(path, amount, commitment, proof)))
  }

  /** When the wallet mints an output, and as what: under the switched blind its path derives, with the amount and
      the path it was asked for, and the commitment and proof of a recoverable output. */
  lemma WalletMints(
    lib: Library, ext: Bytes64, path: Path4, amount: u64, privateNonce: Bytes32, blind: Bytes32, info: OutputInfo)
    requires lib.curve.order > 0
    ensures MintOutput(lib, ext, path, amount, privateNonce) == Ok((blind, info)) <==>
      && DeriveBlind(lib, ext, path, amount, Regular) == Ok(blind) && info.path == path && info.amount == amount
      && exists nonce :: CreateRecoverableOutput(lib, ext, amount, blind, path, Regular, privateNonce)
           == Ok((info.commitment, info.proof, nonce))
  {
    hide DeriveBlind, CreateRecoverableOutput;
    var made := CreateRecoverableOutput(lib, ext, amount, blind, path, Regular, privateNonce);
    if made.Ok? {
      assert made == Ok((made.value.0, made.value.1, made.value.2));
    }
  }

  lemma MintedOpens(lib: Library, ext: Bytes64, path: Path4, amount: u64, privateNonce: Bytes32)
    requires lib.curve.order > 0 && MintOutput(lib, ext, path, amount, privateNonce).Ok?
    ensures var (blind, info) := MintOutput(lib, ext, path, amount, privateNonce).value;
            && info.amount == amount && PedersenCommit(lib.curve, amount, blind) == Ok(info.commitment)
            && Canonical(lib.curve, blind)
  {
    hide CommitForm, DeriveBlind;
  }

  /** Every output the wallet mints is found again from the seed, ready to spend. */
  lemma MintedIsRecoverable(lib: Library, ext: Bytes64, path: Path4, amount: u64, privateNonce: Bytes32)
    requires lib.curve.Valid() && lib.Rewinds()
    requires MintOutput(lib, ext, path, amount, privateNonce).Ok?
    ensures var (blind, info) := MintOutput(lib, ext, path, amount, privateNonce).value;
            RecoverOutput(lib, ext, info.commitment, info.proof)
              == Ok(Some(RecoveredOutput(amount, [4] + PathBytes(path), path, path[3], Regular, blind)))
  {
    hide Curve.Valid, PedersenCommit, DeriveBlind, CreateRecoverableOutput, RecoverOutput;
    var (blind, info) := MintOutput(lib, ext, path, amount, privateNonce).value;
    RecoveryComplete(lib, ext, amount, blind, path, Regular, privateNonce);
  }

  /** An output the wallet minted under either of its keys, at an index the scan reaches, is identified: the
      scan finds a path, no further than the one it was minted at, and spending it from that path, as a
      coinbase or not, derives the blind it was minted with. */
  lemma MintedIsIdentified(
    lib: Library, v3: Bytes64, legacy: Option<Bytes64>, key: Bytes64, n: u32, amount: u64, privateNonce: Bytes32,
    maxN: u32, found: Option<Path4>, isCoinbase: bool)
    requires lib.curve.Valid() && n <= maxN && (key == v3 || legacy == Some(key))
    requires MintOutput(lib, key, [0, 0, n, 0], amount, privateNonce).Ok?
    requires var (_, info) := MintOutput(lib, key, [0, 0, n, 0], amount, privateNonce).value;
             Identifies(lib, v3, legacy, info.commitment, amount, maxN, found)
    ensures found.Some? && found.value[2] <= n
    ensures var (blind, info) := MintOutput(lib, key, [0, 0, n, 0], amount, privateNonce).value;
            var r := Fallback(lib, v3, legacy, UnspentOutput(found.value, amount, info.commitment, isCoinbase));
            r.Ok? && r.value.0 == blind
  {
    hide Curve.Valid, PedersenCommit, DeriveBlind, CreateRecoverableOutput, Fallback, Candidates;
    lib.curve.OrderBounds();
    var path: Path4 := [0, 0, n, 0];
    var (blind, info) := MintOutput(lib, key, path, amount, privateNonce).value;
    MintedOpens(lib, key, path, amount, privateNonce);
    var candidate := Candidate(Tag(key != v3, Regular, true), key, Regular, path);
    assert candidate in Candidates(v3, legacy, path) by { RegularTried(v3, legacy, key, path); }
    FallbackFindsTheBlind(lib, v3, legacy, AtIndex(info.commitment, amount, n), candidate, blind);
    var input := AtIndex(info.commitment, amount, found.value[2]);
    FallbackOpens(lib, v3, legacy, input);
    OneBlindOpens(lib.curve, amount, Fallback(lib, v3, legacy, input).value.0, blind);
    SameBlind(lib, v3, legacy, input, isCoinbase);
  }

  lemma RegularTried(v3: Bytes64, legacy: Option<Bytes64>, key: Bytes64, path: Path4)
    requires key == v3 || legacy == Some(key)
    ensures Candidate(Tag(key != v3, Regular, true), key, Regular, path) in Candidates(v3, legacy, path)
  {
    assert Candidate(Tag(key != v3, Regular, true), key, Regular, path) in CandidatesFor(v3, legacy, path, Regular);
  }

  // ----- change ------------------------------------------------------------------------------

  function PlainOutput(info: OutputInfo): TxOutput {
    TxOutput(0, info.commitment, info.proof)
  }

  function ChangeInfo(change: Option<(Bytes32, OutputInfo)>): Option<OutputInfo> {
    match change case None => None case Some((_, info)) => Some(info)
  }

  function ChangeBlinds(change: Option<(Bytes32, OutputInfo)>): seq<Bytes32> {
    match change case None => [] case Some((blind, _)) => [blind]
  }

  function ChangeOutputs(change: Option<OutputInfo>): seq<TxOutput> {
    match change case None => [] case Some(info) => [PlainOutput(info)]
  }

  function ChangeOpenings(change: Option<(Bytes32, OutputInfo)>): seq<Opened> {
    match change case None => [] case Some((blind, info)) => [Opened(info.amount, blind)]
  }

  // ----- what the network asks ---------------------------------------------------------------

  function FeeOf(kernel: KernelFeatures): u64 {
    if kernel.Coinbase? then 0 else kernel.fee
  }

  /** Outputs plus fee equal inputs plus excess plus offset, on the commitments. */
  ghost predicate TxBalances(c: Curve, tx: Transaction)
    requires c.order > 0
  {
    Balances(c, InCommitments(tx.inputs), OutCommitments(tx.outputs), FeeOf(tx.kernel),
             tx.excess, ScalarValue(tx.offset))
  }

  /** The kernel signature verifies against the excess. */
  ghost predicate TxSigned(c: Curve, blake: Bytes -> Bytes32, tx: Transaction)
    requires c.order > 0
  {
    SigMsg(blake, tx.kernel).Ok? && exists key ::
      PubkeyToCommitment(c, key) == Ok(tx.excess)
      && Schnorr.Verify(c, tx.signature, SigMsg(blake, tx.kernel).value, key) == Ok(true)
  }

  /** Sign a kernel alone: the excess in commitment form and the signature. */
  function SignKernel(c: Curve, blake: Bytes -> Bytes32, kernel: KernelFeatures, signingKey: Bytes32, nonce: Bytes32)
    : Outcome<(Bytes33, Bytes64)>
    requires c.order > 0
  {
    var msg :- SigMsg(blake, kernel);
    var key :- PublicKey(c, signingKey);
    var excess :- PubkeyToCommitment(c, key);
    var signature :- Schnorr.SignWithNonce(c, signingKey, nonce, msg);
    Ok((excess, signature))
  }

  /** When a kernel can be signed alone, and what comes of it: the point of the key in commitment form, and the
      signature of the hash of the kernel's wire bytes. */
  lemma SignsExactly(
    c: Curve, blake: Bytes -> Bytes32, kernel: KernelFeatures, wire: Bytes, signingKey: Bytes32, nonce: Bytes32)
    requires c.Valid() && OnWire(kernel, wire) && (kernel.Nrd? ==> 1 <= kernel.relativeHeight <= 10080)
    ensures var x, k := ScalarValue(signingKey), ScalarValue(nonce);
      var r := SignKernel(c, blake, kernel, signingKey, nonce);
      && (r.Ok? <==> 0 < x < c.order && 0 < k < c.order)
      && (r.Ok? ==>
            && r.value.0 == [if c.yIsQr(Point(x)) then 8 else 9] + c.encode(Point(x))[1..]
            && Ok(r.value.1) == Schnorr.SignWithNonce(c, signingKey, nonce, blake(wire)))
  {
    hide Curve.Valid, ScalarValue, Schnorr.SignWithNonce, Schnorr.Verify, OnWire, SigMsg;
    c.OrderBounds();
    MessageExact(blake, kernel, wire);
    Schnorr.SignVerifies(c, signingKey, nonce, blake(wire));
    if NonZero(c, signingKey).Some? {
      PublicKeyDecodes(c, signingKey);
    }
  }

  lemma KernelSigned(
    c: Curve, blake: Bytes -> Bytes32, signingKey: Bytes32, nonce: Bytes32, tx: Transaction)
    requires c.Valid()
    requires SignKernel(c, blake, tx.kernel, signingKey, nonce) == Ok((tx.excess, tx.signature))
    ensures NonZero(c, signingKey).Some? && tx.excess == CommitForm(c, Point(ScalarValue(signingKey)))
    ensures TxSigned(c, blake, tx) <==> ScalarValue(tx.signature[32..]) != 0
  {
    hide Rem, Curve.Valid, CommitForm, ScalarValue, Schnorr.SignWithNonce, Schnorr.Challenge, Schnorr.ChecksWith,
      Schnorr.IsQrKey, SigMsg;
    c.OrderBounds();
    var msg := SigMsg(blake, tx.kernel).value;
    Schnorr.SignVerifies(c, signingKey, nonce, msg);
    PublicKeyDecodes(c, signingKey);
    if ScalarValue(tx.signature[32..]) != 0 {
      var key := PublicKey(c, signingKey).value;
      assert PubkeyToCommitment(c, key) == Ok(tx.excess)
        && Schnorr.Verify(c, tx.signature, msg, key) == Ok(true);
    }
  }
}
