/** Flows that complete and whose transactions do not balance, in a group large enough for every amount. */
module FlowWitnesses {
  import opened Outcomes
  import opened ByteStrings
  import opened Modular
  import opened Curves
  import opened Schnorr
  import opened Aggregation
  import opened Kernels
  import opened Slates
  import opened Keychains
  import opened PathSearch
  import opened Recovery
  import opened Balance
  import opened Wallet
  import opened SlateBuilder
  import opened SendFlow
  import opened Samples
  import Vouchers

  // ----- a coinbase send with a fee ----------------------------------------------------------

  /** A group large enough for every amount, with challenge 0. */
  function Wide(): Curve {
    SampleCurve(0x8000_0000_0000_0000, 0)
  }

  lemma WideGroup()
    ensures Wide().Valid() && Wide().order == 0x1_0000_0000_0000_0001
  {
    ManyScalars();
    CurveExists(0x8000_0000_0000_0000, 0);
  }

  /** The sender's wallet derives the secret 1, the receiver's the secret 2. */
  function SenderLib(): Library {
    SampleLibrary(Wide(), ScalarBytes(1), ScalarBytes(1))
  }

  function ReceiverLib(): Library {
    SampleLibrary(Wide(), ScalarBytes(2), ScalarBytes(2))
  }

  function Ext(): Bytes64 {
    seq(64, _ => 0)
  }

  function SpentInput(): UnspentOutput {
    UnspentOutput([0, 0, 0, 0], 2, CommitForm(Wide(), Point(5)), false)
  }

  /** Two coins in, one to the receiver and one as a fee. */
  function SampleSend(kernel: KernelFeatures): SendParams {
    SendParams(Ext(), None, [SpentInput()], 1, 1, kernel, [0, 0, 0, 0], ScalarBytes(0),
               ScalarBytes(1), ScalarBytes(1))
  }

  function Sign(): SignParams {
    SignParams(Ext(), [0, 0, 0, 0], ScalarBytes(1), ScalarBytes(1))
  }

  /** In the sample groups H is 2·G. */
  lemma Commits(value: u64, blind: nat)
    requires 0 < blind < Wide().order && 2 * value + blind < Wide().order
    ensures PedersenCommit(Wide(), value, ScalarBytes(blind)) == Ok(CommitForm(Wide(), Point(2 * value + blind)))
  {
    hide Curve.Valid, ScalarBytes, ScalarValue, CommitForm, SampleEncode, SampleDecode;
    WideGroup();
    NonZeroOf(Wide(), blind);
    SmallIsRemainder(2 * value + blind, Wide().order);
  }

  lemma DerivesSecret(secret: nat, amount: u64, path: seq<u32>)
    requires 0 < secret < Wide().order
    ensures DeriveBlind(SampleLibrary(Wide(), ScalarBytes(secret), ScalarBytes(secret)), Ext(), path, amount, Regular)
         == Ok(ScalarBytes(secret))
  {
    hide Curve.Valid, ScalarBytes, ScalarValue, SampleEncode, SampleDecode;
    WideGroup();
    NonZeroOf(Wide(), secret);
  }

  lemma InputDerives()
    ensures InputBlinds(SenderLib(), Ext(), None, [SpentInput()]) == Ok([ScalarBytes(1)])
  {
    hide Curve.Valid, ScalarBytes, ScalarValue, CommitForm, SampleEncode, SampleDecode, PedersenCommit, DeriveBlind,
      Candidates, Fallback, Ext;
    WideGroup();
    Commits(2, 1);
    DerivesSecret(1, 2, [0, 0, 0, 0]);
    var input := SpentInput();
    var first := Candidate(Tag(false, Regular, true), Ext(), Regular, [0, 0, 0, 0]);
    assert first in Candidates(Ext(), None, input.path) by { FirstCandidate(); }
    FallbackFindsTheBlind(SenderLib(), Ext(), None, input, first, ScalarBytes(1));
    assert [input][1..] == [] && [ScalarBytes(1)] + [] == [ScalarBytes(1)];
  }

  lemma FirstCandidate()
    ensures Candidate(Tag(false, Regular, true), Ext(), Regular, [0, 0, 0, 0]) in Candidates(Ext(), None, [0, 0, 0, 0])
  {
    hide Ext;
    var path: Path4 := [0, 0, 0, 0];
    assert Candidates(Ext(), None, path)[0] == Candidate(Tag(false, Regular, true), Ext(), Regular, path);
  }

  /** The sender's excess is minus the one input blind. */
  function Excess(): Bytes32 {
    SenderBlindExcess(Wide(), [ScalarBytes(1)], [], ScalarBytes(0))
  }

  lemma ExcessIsMinusOne()
    ensures ScalarValue(Excess()) == Wide().order - 1 && NonZero(Wide(), Excess()) == Some(Wide().order - 1)
  {
    hide Curve.Valid, ScalarBytes, ScalarValue, SampleEncode, SampleDecode, SenderBlindExcess, Rem;
    WideGroup();
    var c, n := Wide(), Wide().order;
    ScalarRoundTrip(c, 0);
    ScalarRoundTrip(c, 1);
    var ins := [ScalarBytes(1)];
    assert ins[1..] == [] && Scalars(ins) == [1] && Sum([1]) == 1;
    ExcessScalar(c, ins, [], ScalarBytes(0));
    SmallIsRemainder(ScalarValue(Excess()), n);
    RemainderUnique(-1, -1, n - 1, n);
  }

  lemma SendStarts(kernel: KernelFeatures)
    requires kernel == Coinbase || kernel.Plain?
    ensures var r := CreateSend(SenderLib(), SampleSend(kernel), "");
      && r.Ok? && r.value.context.blindExcess == Excess() && r.value.context.kernelNonce == ScalarBytes(1)
      && r.value.context.kernelFeatures == kernel && r.value.context.kernelOffset == ScalarBytes(0)
      && r.value.slate.sta == Standard1 && r.value.slate.amt == 1 && r.value.slate.fee == 1
      && r.value.slate.feat == FeatureByte(kernel) <= 1 && r.value.slate.off == ScalarBytes(0)
      && OpenedBy(Wide(), r.value.slate, r.value.context)
  {
    hide Curve.Valid, ScalarBytes, ScalarValue, SampleEncode, SampleDecode, InputBlinds, SenderBlindExcess, CommitForm,
      InputEntries, Fallback, Ext;
    WideGroup();
    InputDerives();
    ExcessIsMinusOne();
    NonZeroOf(Wide(), 1);
    InputAmount();
    assert [SpentInput()][1..] == [];
  }

  lemma InputAmount()
    ensures Amounts([SpentInput()]) == 2
  {
    assert [SpentInput()][1..] == [];
  }

  /** A participant's slate stays the participant's whatever else is written on it. */
  lemma StillOpened(a: Slate, b: Slate, context: SenderContext)
    requires OpenedBy(Wide(), a, context) && b.sigs == a.sigs && b.id == a.id
    ensures OpenedBy(Wide(), b, context)
  {
    hide Wide;
  }

  lemma ReceiverMints()
    ensures CreateRecoverableOutput(ReceiverLib(), Ext(), 1, ScalarBytes(2), [0, 0, 0, 0], Regular, ScalarBytes(1)).Ok?
  {
    hide Curve.Valid, ScalarBytes, ScalarValue, SampleEncode, SampleDecode, CommitForm, PedersenCommit, PathBytes;
    WideGroup();
    Commits(1, 2);
  }

  /** The two keys sum to 1·G, the two nonces to 2·G. */
  lemma TotalsSum(msg: Bytes32, a: Participant, b: Participant)
    requires a.xs == Wide().encode(Point(Wide().order - 1)) && b.xs == Wide().encode(Point(2))
    requires a.nonce == b.nonce == Wide().encode(Point(1))
    ensures Totals(Wide(), msg, a, b) == Ok(Terms(msg, Wide().encode(Point(1)), Wide().encode(Point(2))))
  {
    hide Wide, Curve.Valid, SampleEncode, SampleDecode, PointAdd, Rem;
    WideGroup();
    AddsTo(Wide().order - 1, 2, 1);
    AddsTo(1, 1, 2);
  }

  lemma AddsTo(x: int, y: int, sum: int)
    requires 0 < x < Wide().order && 0 < y < Wide().order && 0 < sum < Wide().order
    requires x + y == sum || x + y == sum + Wide().order
    ensures PointAdd(Wide(), Wide().encode(Point(x)), Wide().encode(Point(y))) == Ok(Wide().encode(Point(sum)))
  {
    hide Wide, Curve.Valid, SampleEncode, SampleDecode, PointAdd, Rem;
    WideGroup();
    PointAddAdds(Wide(), Point(x), Point(y));
    RemainderUnique(x + y, if x + y == sum then 0 else 1, sum, Wide().order);
  }

  lemma KeyIs(secret: nat)
    requires 0 < secret < Wide().order
    ensures PublicKey(Wide(), ScalarBytes(secret)) == Ok(Wide().encode(Point(secret)))
    ensures NonZero(Wide(), ScalarBytes(secret)) == Some(secret)
  {
    hide Curve.Valid, ScalarBytes, ScalarValue, SampleEncode, SampleDecode, NonZero;
    WideGroup();
    NonZeroOf(Wide(), secret);
    KeyOf(Wide(), ScalarBytes(secret));
  }

  /** With challenge 0 a share is the signed nonce. */
  lemma ShareIsNonce(x: int, msg: Bytes32)
    ensures PartialScalar(Wide(), x, 1, Wide().encode(Point(2)), Wide().encode(Point(1)), msg) == 1
  {
    hide Curve.Valid, SampleEncode, SampleDecode;
    WideGroup();
    var c := Wide();
    c.EncodesAt(Point(2));
    assert Challenge(c, QrForm(c, c.encode(Point(2))), c.encode(Point(1)), msg) == 0;
    assert Response(true, 1, 0, x) == 1;
  }

  lemma ReceiverPartOk(msg: Bytes32)
    ensures var terms := Terms(msg, Wide().encode(Point(1)), Wide().encode(Point(2)));
      ReceiverPart(Wide(), RoundParams(Sign(), ScalarBytes(2)),
                   Wide().encode(Point(2)), Wide().encode(Point(1)), terms).Ok?
  {
    hide Curve.Valid, ScalarBytes, ScalarValue, SampleEncode, SampleDecode, NonZero, PartialVerify,
      PartialSign, PublicKey,
      PartialScalar, Ext;
    WideGroup();
    KeyIs(2);
    KeyIs(1);
    var parties := [Party(ScalarBytes(2), ScalarBytes(1))];
    var rt, pt := Wide().encode(Point(2)), Wide().encode(Point(1));
    ShareIsNonce(2, msg);
    SharePasses(Wide(), parties, rt, pt, msg, 0);
  }

  /** The participants once the receiver has signed. */
  lemma ReceiverSigns(blake: Bytes -> Bytes32, s1: Slate)
    requires s1.sta == Standard1 && s1.feat <= 1
    requires s1.sigs == [Participant(Wide().encode(Point(Wide().order - 1)), Wide().encode(Point(1)), None)]
    ensures var r := ReceiverSigs(Wide(), blake, s1, RoundParams(Sign(), ScalarBytes(2)));
      && r.Ok? && |r.value| == 2 && r.value[0] == s1.sigs[0]
      && r.value[1].xs == Wide().encode(Point(2)) && r.value[1].nonce == Wide().encode(Point(1))
  {
    hide Wide, Curve.Valid, ScalarBytes, SampleEncode, SampleDecode, PublicKey, ReceiverPart, Totals, Ext;
    WideGroup();
    KeyIs(1);
    KeyIs(2);
    var msg := Message(blake, s1).value;
    TotalsSum(msg, s1.sigs[0], Participant(Wide().encode(Point(2)), Wide().encode(Point(1)), None));
    ReceiverPartOk(msg);
  }

  lemma ReceiverAnswersSend(blake: Bytes -> Bytes32, s1: Slate)
    requires s1.sta == Standard1 && s1.feat <= 1 && s1.amt == 1
    requires s1.sigs == [Participant(Wide().encode(Point(Wide().order - 1)), Wide().encode(Point(1)), None)]
    ensures SignIncoming(ReceiverLib(), blake, s1, Sign()).Ok?
  {
    hide Wide, Curve.Valid, ScalarBytes, SampleEncode, SampleDecode, DeriveBlind, CreateRecoverableOutput, ReceiverSigs,
      PointAdd, PubkeyToCommitment, Ext;
    WideGroup();
    DerivesSecret(2, 1, [0, 0, 0, 0]);
    ReceiverMints();
    ReceiverSigns(blake, s1);
    AddsTo(Wide().order - 1, 2, 1);
    assert PubkeyToCommitment(Wide(), Wide().encode(Point(1))).Ok? by { HasForm(); }
  }

  lemma HasForm()
    ensures PubkeyToCommitment(Wide(), Wide().encode(Point(1))).Ok?
  {
    hide Wide, Curve.Valid;
    WideGroup();
    Wide().EncodesAt(Point(1));
  }

  lemma OpeningSigs(s1: Slate, context: SenderContext)
    requires OpenedBy(Wide(), s1, context) && context.blindExcess == Excess() && context.kernelNonce == ScalarBytes(1)
    ensures s1.sigs == [Participant(Wide().encode(Point(Wide().order - 1)), Wide().encode(Point(1)), None)]
  {
    hide Wide, Curve.Valid, ScalarBytes, PublicKey, Excess;
    WideGroup();
    KeyIs(1);
    ExcessIsMinusOne();
    KeyOf(Wide(), Excess());
  }

  /** Both shares are 1. */
  lemma SharesAreOne(context: SenderContext, msg: Bytes32)
    requires context.blindExcess == Excess() && context.kernelNonce == ScalarBytes(1)
    ensures var pair := Pair(context, RoundParams(Sign(), ScalarBytes(2)));
      && Usable(Wide(), pair)
      && var shares := Shares(Wide(), pair, Wide().encode(Point(2)), Wide().encode(Point(1)), msg);
      && shares[0] == 1 && shares[1] == 1
  {
    hide Wide, Curve.Valid, ScalarBytes, ScalarValue, NonZero, Excess, PartialScalar, Ext;
    WideGroup();
    ExcessIsMinusOne();
    KeyIs(1);
    KeyIs(2);
    var pair := Pair(context, RoundParams(Sign(), ScalarBytes(2)));
    assert pair[0] == Party(Excess(), ScalarBytes(1)) && pair[1] == Party(ScalarBytes(2), ScalarBytes(1));
    ShareIsNonce(NonZero(Wide(), Excess()).value, msg);
    ShareIsNonce(2, msg);
  }

  /** The answered slate sums to the totals both sides sign against. */
  lemma AnsweredTerms(blake: Bytes -> Bytes32, s1: Slate, signed: Signed)
    requires SignIncoming(ReceiverLib(), blake, s1, Sign()) == Ok(signed)
    requires s1.sta == Standard1 && s1.feat <= 1 && s1.amt == 1
    requires s1.sigs == [Participant(Wide().encode(Point(Wide().order - 1)), Wide().encode(Point(1)), None)]
    ensures |signed.slate.sigs| == 2
    ensures var terms := TermsOf(Wide(), blake, signed.slate, signed.slate.sigs[0], signed.slate.sigs[1]);
      terms.Ok? && terms.value.keyTotal == Wide().encode(Point(1)) && terms.value.nonceTotal == Wide().encode(Point(2))
  {
    hide Wide, Curve.Valid, ScalarBytes, SignIncoming, DeriveBlind, ReceiverSigs, KernelExcess, MintOutput, Totals, Ext;
    WideGroup();
    DerivesSecret(2, 1, [0, 0, 0, 0]);
    var blind := SignedFacts(ReceiverLib(), blake, s1, Sign(), signed);
    ReceiverSigns(blake, s1);
    TotalsSum(Message(blake, signed.slate).value, signed.slate.sigs[0], signed.slate.sigs[1]);
  }

  /** Any slate with the sender's participant, for one coin and a kernel without a height, is answered, and the
      sender finishes what comes back. */
  lemma AnsweredAndFinished(blake: Bytes -> Bytes32, asked: Slate, context: SenderContext)
    requires OpenedBy(Wide(), asked, context) && context.blindExcess == Excess()
    requires context.kernelNonce == ScalarBytes(1)
    requires asked.sta == Standard1 && asked.feat <= 1 && asked.amt == 1
    ensures var signed := SignIncoming(ReceiverLib(), blake, asked, Sign());
      signed.Ok? && FinalizeSend(Wide(), blake, signed.value.slate, context, [SpentInput()]).Ok?
  {
    hide Wide, Curve.Valid, ScalarBytes, SignIncoming, FinalizeSend, OpenedBy, Excess, TermsOf, Ext,
      DeriveBlind, SpentInput, Shares, Usable, Rem;
    WideGroup();
    OpeningSigs(asked, context);
    ReceiverAnswersSend(blake, asked);
    var signed := SignIncoming(ReceiverLib(), blake, asked, Sign()).value;
    AnsweredTerms(blake, asked, signed);
    DerivesSecret(2, 1, [0, 0, 0, 0]);
    AnsweredCompletes(ReceiverLib(), blake, asked, context, [SpentInput()], Sign(), signed, ScalarBytes(2));
    var terms := TermsOf(Wide(), blake, signed.slate, signed.slate.sigs[0], signed.slate.sigs[1]).value;
    SharesAreOne(context, terms.msg);
    SmallIsRemainder(2, Wide().order);
  }

  lemma ZeroOffset()
    ensures Canonical(Wide(), ScalarBytes(0))
  {
    hide Wide, Curve.Valid, ScalarBytes, ScalarValue;
    WideGroup();
    ScalarRoundTrip(Wide(), 0);
  }

  /** All three steps succeed on two coins, one sent and one as a fee, with a coinbase kernel asked for; the
      transaction they build does not balance. */
  lemma CoinbaseSendFails(blake: Bytes -> Bytes32)
    ensures var made := CreateSend(SenderLib(), SampleSend(Coinbase), "");
      && made.Ok?
      && var signed := SignIncoming(ReceiverLib(), blake, made.value.slate, Sign());
      && signed.Ok?
      && var done := FinalizeSend(Wide(), blake, signed.value.slate, made.value.context, [SpentInput()]);
      && done.Ok? && done.value.tx.kernel == Coinbase && !TxBalances(Wide(), done.value.tx)
  {
    hide Wide, Curve.Valid, ScalarBytes, CreateSend, SignIncoming, FinalizeSend, OpenedBy, TxBalances, TxSigned, Excess,
      Ext, SpentInput, ScalarValue;
    WideGroup();
    SendStarts(Coinbase);
    InputAmount();
    var made := CreateSend(SenderLib(), SampleSend(Coinbase), "").value;
    AnsweredAndFinished(blake, made.slate, made.context);
    var signed := SignIncoming(ReceiverLib(), blake, made.slate, Sign()).value;
    var done := FinalizeSend(Wide(), blake, signed.slate, made.context, [SpentInput()]).value;
    ZeroOffset();
    AnsweredConserves(SenderLib(), ReceiverLib(), blake, SampleSend(Coinbase), "", Sign(), made, made.slate, signed,
                      done);
  }

  // ----- an answer for another fee and offset ------------------------------------------------

  /** The sender asks for a fee of 1; the receiver answers a slate that says 2, and any offset. The last step
      goes through: the kernel pays 2, at the receiver's offset, and with the sender's own offset the
      transaction does not balance. */
  lemma OtherAnswerFinishes(blake: Bytes -> Bytes32, off: Bytes32)
    ensures var made := CreateSend(SenderLib(), SampleSend(Plain(1)), "");
      && made.Ok? && made.value.context.kernelFeatures == Plain(1) && made.value.context.kernelOffset == ScalarBytes(0)
      && var signed := SignIncoming(ReceiverLib(), blake, made.value.slate.(fee := 2, off := off), Sign());
      && signed.Ok?
      && var done := FinalizeSend(Wide(), blake, signed.value.slate, made.value.context, [SpentInput()]);
      && done.Ok? && done.value.tx.kernel == Plain(2) && done.value.tx.offset == off
      && (off == ScalarBytes(0) ==> !TxBalances(Wide(), done.value.tx))
  {
    hide Wide, Curve.Valid, ScalarBytes, CreateSend, SignIncoming, FinalizeSend, OpenedBy, TxBalances, TxSigned, Excess,
      Ext, SpentInput, ScalarValue;
    WideGroup();
    SendStarts(Plain(1));
    InputAmount();
    var made := CreateSend(SenderLib(), SampleSend(Plain(1)), "").value;
    var asked := made.slate.(fee := 2, off := off);
    StillOpened(made.slate, asked, made.context);
    AnsweredAndFinished(blake, asked, made.context);
    var signed := SignIncoming(ReceiverLib(), blake, asked, Sign()).value;
    var done := FinalizeSend(Wide(), blake, signed.slate, made.context, [SpentInput()]).value;
    FinalizedFacts(Wide(), blake, signed.slate, made.context, [SpentInput()], done);
    assert Answers(asked, signed.slate) by { var _ := SignedFacts(ReceiverLib(), blake, asked, Sign(), signed); }
    if off == ScalarBytes(0) {
      ZeroOffset();
      AnsweredConserves(SenderLib(), ReceiverLib(), blake, SampleSend(Plain(1)), "", Sign(), made, asked, signed, done);
    }
  }

  // ----- a voucher for more than its inputs --------------------------------------------------

  /** Two coins in, a voucher of three, no fee. */
  function BigVoucher(): Vouchers.CreateParams {
    Vouchers.CreateParams(Ext(), None, [SpentInput()], 3, 0, [0, 0, 0, 0], None, ScalarBytes(1), ScalarBytes(1),
                 ScalarBytes(1), ScalarBytes(1))
  }

  lemma VoucherMints()
    ensures var minted := MintOutput(SenderLib(), Ext(), [0, 0, 0, 0], 3, ScalarBytes(1));
      minted.Ok? && minted.value.0 == ScalarBytes(1)
  {
    hide Curve.Valid, ScalarBytes, ScalarValue, SampleEncode, SampleDecode, CommitForm, PedersenCommit, PathBytes,
      DeriveBlind, Ext;
    WideGroup();
    DerivesSecret(1, 3, [0, 0, 0, 0]);
    Commits(3, 1);
  }

  /** The input's blind, the voucher's and the offset are 1, so the signing key is -1. */
  function VoucherKey(): Bytes32 {
    SenderBlindExcess(Wide(), [ScalarBytes(1)], [ScalarBytes(1)], ScalarBytes(1))
  }

  lemma VoucherKeyUsable()
    ensures NonZero(Wide(), VoucherKey()).Some?
  {
    hide Curve.Valid, ScalarBytes, ScalarValue, SampleEncode, SampleDecode, SenderBlindExcess, Rem;
    WideGroup();
    var c, n := Wide(), Wide().order;
    ScalarRoundTrip(c, 1);
    var ones := [ScalarBytes(1)];
    assert ones[1..] == [] && Scalars(ones) == [1] && Sum([1]) == 1;
    ExcessScalar(c, ones, ones, ScalarBytes(1));
    SmallIsRemainder(ScalarValue(VoucherKey()), n);
    RemainderUnique(-1, -1, n - 1, n);
  }

  lemma SignsAny(blake: Bytes -> Bytes32, key: Bytes32)
    requires NonZero(Wide(), key).Some?
    ensures SignKernel(Wide(), blake, Plain(0), key, ScalarBytes(1)).Ok?
  {
    hide Wide, Curve.Valid, ScalarBytes, ScalarValue, SampleEncode, SampleDecode, NonZero, SignWithNonce,
      Verify, PublicKey;
    WideGroup();
    KeyIs(1);
    KeyOf(Wide(), key);
    PublicKeyDecodes(Wide(), key);
    SignVerifies(Wide(), key, ScalarBytes(1), SigMsg(blake, Plain(0)).value);
  }

  /** The voucher is made, and its transaction does not balance. */
  lemma BigVoucherFails(blake: Bytes -> Bytes32)
    ensures var r := Vouchers.CreateVoucher(SenderLib(), blake, BigVoucher());
      r.Ok? && !TxBalances(Wide(), r.value.tx)
  {
    hide Wide, Curve.Valid, ScalarBytes, ScalarValue, TxBalances, TxSigned, Ext, SpentInput, MintOutput, InputBlinds,
      SignKernel, SenderBlindExcess;
    WideGroup();
    InputDerives();
    VoucherMints();
    VoucherKeyUsable();
    SignsAny(blake, VoucherKey());
    assert [ScalarBytes(1)] + [] == [ScalarBytes(1)];
    ScalarRoundTrip(Wide(), 1);
    InputAmount();
    assert Vouchers.CreateVoucher(SenderLib(), blake, BigVoucher()).Ok?;
    Vouchers.CreateBalancesExactly(SenderLib(), blake, BigVoucher());
  }
}
