/** The standard ceremony: sender opens, receiver signs, sender finishes
    (crates/grin-ext/src/slate_builder/standard.rs). */
module SlateBuilder {
  import opened Outcomes
  import opened ByteStrings
  import opened Modular
  import opened Curves
  import opened Schnorr
  import opened Aggregation
  import opened Kernels
  import opened Slates
  import opened Keychains
  import opened Recovery

  datatype SenderContext = SenderContext(
    slateId: string, amount: u64, fee: u64, kernelFeatures: KernelFeatures, blindExcess: Bytes32, kernelNonce: Bytes32,
    kernelOffset: Bytes32)

  datatype SenderInitParams = SenderInitParams(
    amount: u64, fee: u64, kernelFeatures: KernelFeatures, blindExcess: Bytes32, kernelOffset: Bytes32,
    kernelNonce: Bytes32)

  /** `sender_init_s1_with_id`. */
  function SenderInit(c: Curve, p: SenderInitParams, id: string): Outcome<(Slate, SenderContext)>
    requires c.order > 0
  {
    var xs :- PublicKey(c, p.blindExcess);
    var nonce :- PublicKey(c, p.kernelNonce);
    Ok((Slate(4, 2, id, Standard1, p.kernelOffset, 2, p.amount, p.fee, FeatureByte(p.kernelFeatures), 0,
              [Participant(xs, nonce, None)], None, None, LockArgs(p.kernelFeatures)),
        SenderContext(id, p.amount, p.fee, p.kernelFeatures, p.blindExcess, p.kernelNonce, p.kernelOffset)))
  }

  /** When a sender can open a slate, and what it says: format 4 for block headers of version 2, two participants, no
      cut-off height, no commitments and no payment proof yet, the points of the two secrets, the kernel's feature
      byte and height; the sender keeps what it asked for and the secrets. */
  lemma OpensExactly(c: Curve, p: SenderInitParams, id: string)
    requires c.Valid()
    ensures var x, k := BeValue(p.blindExcess), BeValue(p.kernelNonce);
      && (SenderInit(c, p, id).Ok? <==> 0 < x < c.order && 0 < k < c.order)
      && (SenderInit(c, p, id).Ok? ==>
            SenderInit(c, p, id).value == (
              Slate(4, 2, id, Standard1, p.kernelOffset, 2, p.amount, p.fee, KernelBytes(p.kernelFeatures)[0], 0,
                    [Participant(c.encode(Point(x)), c.encode(Point(k)), None)], None, None,
                    match p.kernelFeatures
                    case HeightLocked(_, height) => Some(height)
                    case Nrd(_, height) => Some(height as u64)
                    case _ => None),
              SenderContext(id, p.amount, p.fee, p.kernelFeatures, p.blindExcess, p.kernelNonce, p.kernelOffset)))
  {
    hide BeValue, KernelBytes, Curve.Valid, OnWire;
    c.OrderBounds();
    KernelLayout(p.kernelFeatures);
    if NonZero(c, p.blindExcess).Some? && NonZero(c, p.kernelNonce).Some? {
      PublicKeyDecodes(c, p.blindExcess);
      PublicKeyDecodes(c, p.kernelNonce);
    }
  }

  /** `partial_to_slate_part`: the x coordinate of the nonce total, then the share. */
  function SlatePart(nonceTotal: Bytes33, partial: Bytes32): Bytes64 {
    nonceTotal[1..] + partial
  }

  /** The message and the totals two participants sign against. */
  datatype Terms = Terms(msg: Bytes32, keyTotal: Bytes33, nonceTotal: Bytes33)

  /** What the slate's kernel signs. */
  function Message(blake: Bytes -> Bytes32, slate: Slate): Outcome<Bytes32> {
    var kernel :- FromSlateFields(slate.feat, slate.fee, slate.featArgs);
    SigMsg(blake, kernel)
  }

  function TermsOf(c: Curve, blake: Bytes -> Bytes32, slate: Slate, a: Participant, b: Participant): Outcome<Terms>
    requires c.order > 0
  {
    var msg :- Message(blake, slate);
    Totals(c, msg, a, b)
  }

  function Totals(c: Curve, msg: Bytes32, a: Participant, b: Participant): Outcome<Terms>
    requires c.order > 0
  {
    var keyTotal :- PointAdd(c, a.xs, b.xs);
    var nonceTotal :- PointAdd(c, a.nonce, b.nonce);
    Ok(Terms(msg, keyTotal, nonceTotal))
  }

  /** The receiver's secrets for one slate, and the seed and path its output is minted with. */
  datatype ReceiverParams = ReceiverParams(
    ext: Bytes64, path: Path4, outputBlind: Bytes32, kernelNonce: Bytes32, bpPrivateNonce: Bytes32)

  /** The participants once the receiver has signed: its own share is checked before it leaves. */
  function ReceiverSigs(c: Curve, blake: Bytes -> Bytes32, s1: Slate, p: ReceiverParams)
    : (r: Outcome<seq<Participant>>)
    requires c.order > 0
    ensures r.Ok? ==> |r.value| == 2
  {
    var _ :- Need(s1.sta == Standard1, "receiver_round_s2 expects an S1 slate");
    var _ :- Need(|s1.sigs| == 1, "S1 slate must contain exactly 1 sigs entry");
    var msg :- Message(blake, s1);
    var key :- PublicKey(c, p.outputBlind);
    var nonce :- PublicKey(c, p.kernelNonce);
    var terms :- Totals(c, msg, s1.sigs[0], Participant(key, nonce, None));
    var part :- ReceiverPart(c, p, key, nonce, terms);
    Ok(s1.sigs + [Participant(key, nonce, Some(part))])
  }

  function ReceiverPart(c: Curve, p: ReceiverParams, key: Bytes33, nonce: Bytes33, terms: Terms): Outcome<Bytes64>
    requires c.order > 0
  {
    var partial :- PartialSign(c, p.outputBlind, p.kernelNonce, terms.nonceTotal, terms.keyTotal, terms.msg);
    var ok :- PartialVerify(c, partial, nonce, key, terms.nonceTotal, terms.keyTotal, terms.msg);
    var _ :- Need(ok, "receiver partial signature failed self-verification");
    Ok(SlatePart(terms.nonceTotal, partial))
  }

  /** `receiver_round_s2`, as every wallet flow calls it. */
  function ReceiverRound(lib: Library, blake: Bytes -> Bytes32, s1: Slate, p: ReceiverParams): (r: Outcome<Slate>)
    requires lib.curve.order > 0
    ensures r.Ok? ==> |r.value.sigs| == 2
  {
    var sigs :- ReceiverSigs(lib.curve, blake, s1, p);
    var (commitment, proof, _) :-
      CreateRecoverableOutput(lib, p.ext, s1.amt, p.outputBlind, p.path, Regular, p.bpPrivateNonce);
    Ok(AddCommit(s1, OutputEntry(commitment, proof, false)).(sta := Standard2, sigs := sigs))
  }

  /** What the sender checks of an answer before it signs: the totals, and that the receiver's half was
      made over them. */
  function CheckAnswer(c: Curve, blake: Bytes -> Bytes32, s2: Slate, slateId: string): (r: Outcome<Terms>)
    requires c.order > 0
    ensures r.Ok? ==> |s2.sigs| == 2 && s2.sigs[1].part.Some?
  {
    if s2.sta != Standard2 then Err("sender_finalize_s3 expects an S2 slate")
    else if |s2.sigs| != 2 then Err("S2 slate must contain exactly 2 sigs entries")
    else if s2.id != slateId then Err("slate_id mismatch")
    else if s2.sigs[1].part.None? then Err("S2 slate missing receiver partial signature")
    else
      var terms :- TermsOf(c, blake, s2, s2.sigs[0], s2.sigs[1]);
      CheckShare(c, terms, s2.sigs[1], s2.sigs[1].part.value)
  }

  function CheckShare(c: Curve, terms: Terms, receiver: Participant, part: Bytes64): Outcome<Terms>
    requires c.order > 0
  {
    var _ :- Need(part[..32] == terms.nonceTotal[1..], "receiver `part` R-component doesn't match computed R_total");
    var ok :- PartialVerify(c, part[32..], receiver.nonce, receiver.xs, terms.nonceTotal, terms.keyTotal, terms.msg);
    var _ :- Need(ok, "receiver partial signature does not verify");
    Ok(terms)
  }

  /** The sender's own share, the sum of both and the check of the whole. */
  function Complete(c: Curve, terms: Terms, ctx: SenderContext, share: Bytes32): Outcome<(Bytes32, Bytes64)>
    requires c.order > 0
  {
    var own :- PartialSign(c, ctx.blindExcess, ctx.kernelNonce, terms.nonceTotal, terms.keyTotal, terms.msg);
    var total :- Aggregate(c, [own, share]);
    var sig := FinalSignature(terms.nonceTotal, total);
    var good :- Verify(c, sig, terms.msg, terms.keyTotal);
    var _ :- Need(good, "aggregated signature failed verification");
    Ok((own, sig))
  }

  /** `sender_finalize_s3`: the finished slate and the kernel signature. */
  function SenderFinalize(c: Curve, blake: Bytes -> Bytes32, s2: Slate, ctx: SenderContext): Outcome<(Slate, Bytes64)>
    requires c.order > 0
  {
    var terms :- CheckAnswer(c, blake, s2, ctx.slateId);
    var (own, sig) :- Complete(c, terms, ctx, s2.sigs[1].part.value[32..]);
    Ok((s2.(sta := Standard3,
            sigs := [s2.sigs[0].(part := Some(SlatePart(terms.nonceTotal, own))), s2.sigs[1]]), sig))
  }

  // ----- the two-party ceremony --------------------------------------------------------------

  function Pair(ctx: SenderContext, p: ReceiverParams): seq<Party> {
    [Party(ctx.blindExcess, ctx.kernelNonce), Party(p.outputBlind, p.kernelNonce)]
  }

  /** The sender's side of a fresh slate: its context holds the secrets of the one participant. */
  ghost predicate OpenedBy(c: Curve, s1: Slate, ctx: SenderContext)
    requires c.order > 0
  {
    && PublicKey(c, ctx.blindExcess).Ok? && PublicKey(c, ctx.kernelNonce).Ok?
    && s1.sigs == [Participant(PublicKey(c, ctx.blindExcess).value, PublicKey(c, ctx.kernelNonce).value, None)]
    && s1.id == ctx.slateId
  }

  /** Two published points summed are the point sum of the pair. */
  lemma PairTotal(c: Curve, a: int, b: int)
    requires c.order > 0
    ensures Total(c, Published(c, [a, b])) == PointAdd(c, c.encode(Point(a)), c.encode(Point(b)))
  {
    hide PointAdd;
    assert [a, b][1..] == [b] && [b][1..] == [];
    assert Published(c, [b]) == [c.encode(Point(b))] + Published(c, []);
    assert Published(c, [a, b]) == [c.encode(Point(a)), c.encode(Point(b))];
    var first, second := c.encode(Point(a)), c.encode(Point(b));
    assert Published(c, [a, b])[1..] == [second] && [second][1..] == [];
    var sum := PointAdd(c, first, second);
    match sum
    case Ok(total) => assert AddPoints(c, total, []) == Ok(total);
    case Err(_) =>
    case Panic(_) =>
  }

  ghost function KeyPoint(c: Curve, secret: Bytes32): Bytes33
    requires NonZero(c, secret).Some?
  {
    c.encode(Point(NonZero(c, secret).value))
  }

  lemma KeyOf(c: Curve, secret: Bytes32)
    requires c.Valid() && NonZero(c, secret).Some?
    ensures PublicKey(c, secret) == Ok(KeyPoint(c, secret))
  {
    SmallIsRemainder(NonZero(c, secret).value, c.order);
  }

  /** The totals of a pair are the totals of its ceremony. */
  lemma PairCeremony(c: Curve, ctx: SenderContext, p: ReceiverParams, rt: Bytes33, pt: Bytes33)
    requires c.Valid() && Usable(c, Pair(ctx, p))
    requires PointAdd(c, KeyPoint(c, Pair(ctx, p)[0].key), KeyPoint(c, Pair(ctx, p)[1].key)) == Ok(pt)
    requires PointAdd(c, KeyPoint(c, Pair(ctx, p)[0].nonce), KeyPoint(c, Pair(ctx, p)[1].nonce)) == Ok(rt)
    ensures Ceremony(c, Pair(ctx, p), rt, pt)
  {
    hide Rem, Curve.Valid, ScalarValue, PointAdd, Total, Published;
    c.OrderBounds();
    var parties := Pair(ctx, p);
    var xs: int, xr: int := NonZero(c, ctx.blindExcess).value, NonZero(c, p.outputBlind).value;
    var ks: int, kr: int := NonZero(c, ctx.kernelNonce).value, NonZero(c, p.kernelNonce).value;
    var last := [parties[1]];
    assert parties[1..] == last && last[1..] == [];
    assert Keys(c, last) == [xr] && Nonces(c, last) == [kr];
    assert Keys(c, parties) == [xs] + Keys(c, last) && Nonces(c, parties) == [ks] + Nonces(c, last);
    assert [xs] + [xr] == [xs, xr] && [ks] + [kr] == [ks, kr];
    PairTotal(c, xs, xr);
    PairTotal(c, ks, kr);
  }

  /** A receiver who answered a sender's slate has set up a ceremony between the two. */
  lemma ReceiverJoins(
    c: Curve, blake: Bytes -> Bytes32, s1: Slate, ctx: SenderContext, p: ReceiverParams, sigs: seq<Participant>)
    requires c.Valid() && OpenedBy(c, s1, ctx) && ReceiverSigs(c, blake, s1, p) == Ok(sigs)
    ensures Usable(c, Pair(ctx, p))
    ensures |sigs| == 2 && sigs[0] == s1.sigs[0] && TermsOf(c, blake, s1, sigs[0], sigs[1]).Ok?
    ensures var terms := TermsOf(c, blake, s1, sigs[0], sigs[1]).value;
      && Ceremony(c, Pair(ctx, p), terms.nonceTotal, terms.keyTotal)
      && var shares := Shares(c, Pair(ctx, p), terms.nonceTotal, terms.keyTotal, terms.msg);
      && shares[1] != 0
      && sigs[1] == Participant(PublicKey(c, p.outputBlind).value, PublicKey(c, p.kernelNonce).value,
                                Some(SlatePart(terms.nonceTotal, ScalarBytes(shares[1]))))
  {
    hide Rem, Curve.Valid, ScalarBytes, ScalarValue, PointAdd, PartialVerify, PartialSign, Challenge, SigMsg,
      FromSlateFields, Ceremony, Shares;
    c.OrderBounds();
    var key, nonce := PublicKey(c, p.outputBlind).value, PublicKey(c, p.kernelNonce).value;
    var terms := TermsOf(c, blake, s1, s1.sigs[0], Participant(key, nonce, None)).value;
    KeyOf(c, ctx.blindExcess);
    KeyOf(c, ctx.kernelNonce);
    KeyOf(c, p.outputBlind);
    KeyOf(c, p.kernelNonce);
    PairCeremony(c, ctx, p, terms.nonceTotal, terms.keyTotal);
    EverySharePasses(c, Pair(ctx, p), terms.nonceTotal, terms.keyTotal, terms.msg, 1);
  }

  /** The ceremony always completes. Whatever answer an honest receiver gives to the sender's slate, the
      sender's last step succeeds exactly when neither its own share nor the summed response is zero, and
      then the signature verifies under the sum of the two public excesses. */
  lemma FinalizeExact(
    c: Curve, blake: Bytes -> Bytes32, s1: Slate, ctx: SenderContext, p: ReceiverParams, s2: Slate, terms: Terms)
    requires c.Valid() && OpenedBy(c, s1, ctx) && ReceiverSigs(c, blake, s1, p) == Ok(s2.sigs)
    requires Answers(s1, s2) && |s2.sigs| == 2 && TermsOf(c, blake, s2, s2.sigs[0], s2.sigs[1]) == Ok(terms)
    requires Usable(c, Pair(ctx, p))
    ensures var shares := Shares(c, Pair(ctx, p), terms.nonceTotal, terms.keyTotal, terms.msg);
      && (SenderFinalize(c, blake, s2, ctx).Ok? <==> shares[0] != 0 && Rem(shares[0] + shares[1], c.order) != 0)
  {
    hide Rem, Curve.Valid, ScalarBytes, ScalarValue, PointAdd, PartialVerify, PartialSign, Challenge, SigMsg,
      FromSlateFields, Verify, Aggregate, TermsOf, Ceremony, Shares, FinalSignature, ReceiverSigs, Usable;
    c.OrderBounds();
    var parties := Pair(ctx, p);
    var rt, pt, msg := terms.nonceTotal, terms.keyTotal, terms.msg;
    ReceiverJoins(c, blake, s1, ctx, p, s2.sigs);
    SameTerms(c, blake, s1, s2);
    var shares := Shares(c, parties, rt, pt, msg);
    assert SlatePart(rt, ScalarBytes(shares[1]))[..32] == rt[1..];
    assert SlatePart(rt, ScalarBytes(shares[1]))[32..] == ScalarBytes(shares[1]);
    EverySharePasses(c, parties, rt, pt, msg, 0);
    EverySharePasses(c, parties, rt, pt, msg, 1);
    PairAggregates(c, parties, rt, pt, msg);
  }

  /** What an answer leaves as it was: everything but the state, the participants and the commitments. */
  ghost predicate Answers(s1: Slate, s2: Slate) {
    && s2.sta == Standard2 && s2.id == s1.id && s2.off == s1.off && s2.amt == s1.amt && s2.fee == s1.fee
    && s2.feat == s1.feat && s2.featArgs == s1.featArgs
  }

  lemma SameTerms(c: Curve, blake: Bytes -> Bytes32, s1: Slate, s2: Slate)
    requires c.order > 0 && Answers(s1, s2)
    ensures forall a, b :: TermsOf(c, blake, s1, a, b) == TermsOf(c, blake, s2, a, b)
  {
    hide PointAdd, SigMsg, FromSlateFields;
  }

  /** Whatever slate comes back, if the last step succeeds then the slate answers this context, the
      receiver's half was made over the totals of the two participants and checks out, and the signature
      verifies, for the kernel of that slate, under the sum of its two public excesses. Only the state and
      the sender's own half change. */
  lemma FinalizedIsSigned(c: Curve, blake: Bytes -> Bytes32, s2: Slate, ctx: SenderContext, s3: Slate, sig: Bytes64)
    requires c.order > 0 && SenderFinalize(c, blake, s2, ctx) == Ok((s3, sig))
    ensures s2.sta == Standard2 && s2.id == ctx.slateId && |s2.sigs| == 2 && s2.sigs[1].part.Some?
    ensures TermsOf(c, blake, s2, s2.sigs[0], s2.sigs[1]).Ok?
    ensures var terms := TermsOf(c, blake, s2, s2.sigs[0], s2.sigs[1]).value;
      && Verify(c, sig, terms.msg, terms.keyTotal) == Ok(true)
      && HalfChecks(c, terms, s2.sigs[1])
    ensures Finished(s2, s3, sig)
  {
    hide TermsOf, Verify, PartialSign, Aggregate, CheckAnswer, HalfChecks;
    var terms := CheckAnswer(c, blake, s2, ctx.slateId).value;
    AnswerChecked(c, blake, s2, ctx.slateId, terms);
    assert sig[..32] == terms.nonceTotal[1..];
  }

  lemma AnswerChecked(c: Curve, blake: Bytes -> Bytes32, s2: Slate, slateId: string, terms: Terms)
    requires c.order > 0 && CheckAnswer(c, blake, s2, slateId) == Ok(terms)
    ensures s2.sta == Standard2 && s2.id == slateId && |s2.sigs| == 2
    ensures TermsOf(c, blake, s2, s2.sigs[0], s2.sigs[1]) == Ok(terms) && HalfChecks(c, terms, s2.sigs[1])
  {
    hide TermsOf, PartialVerify;
  }

  /** The finished slate is the answered one with the state moved on and the sender's half filled in, under
      the signature's nonce. */
  ghost predicate Finished(s2: Slate, s3: Slate, sig: Bytes64) {
    && |s2.sigs| == 2 && |s3.sigs| == 2 && s3 == s2.(sta := Standard3, sigs := s3.sigs)
    && s3.sigs[1] == s2.sigs[1] && s3.sigs[0] == s2.sigs[0].(part := s3.sigs[0].part)
    && s3.sigs[0].part.Some? && s3.sigs[0].part.value[..32] == sig[..32]
  }

  /** A participant's half is made over these totals and passes the check on it. */
  ghost predicate HalfChecks(c: Curve, terms: Terms, half: Participant)
    requires c.order > 0
  {
    && half.part.Some? && half.part.value[..32] == terms.nonceTotal[1..]
    && PartialVerify(c, half.part.value[32..], half.nonce, half.xs, terms.nonceTotal, terms.keyTotal, terms.msg)
       == Ok(true)
  }

  /** Aggregating the pair's shares. */
  lemma PairAggregates(c: Curve, parties: seq<Party>, rt: Bytes33, pt: Bytes33, msg: Bytes32)
    requires Ceremony(c, parties, rt, pt) && |parties| == 2
    requires var shares := Shares(c, parties, rt, pt, msg); shares[1] != 0
    ensures var shares := Shares(c, parties, rt, pt, msg);
      var own, other := ScalarBytes(shares[0]), ScalarBytes(shares[1]);
      var s := Rem(shares[0] + shares[1], c.order);
      && Aggregate(c, [own, other]) == (if shares[0] == 0 then Err("invalid first partial") else Ok(ScalarBytes(s)))
      && (shares[0] != 0 ==>
            Verify(c, FinalSignature(rt, ScalarBytes(s)), msg, pt) ==
              if s == 0 then Err("invalid s scalar") else Ok(true))
  {
    hide Rem, Curve.Valid, ScalarBytes, NonZero, Verify, FinalSignature, Ceremony, Challenge;
    CeremonyFacts(c, parties, rt, pt);
    var shares := Shares(c, parties, rt, pt, msg);
    NonZeroOf(c, shares[0]);
    assert [ScalarBytes(shares[0]), ScalarBytes(shares[1])][0] == ScalarBytes(shares[0]);
    if shares[0] != 0 {
      assert shares == [shares[0], shares[1]] && shares[1..] == [shares[1]] && shares[1..][1..] == [];
      assert Encoded(shares[1..]) == [ScalarBytes(shares[1])] + Encoded([]);
      assert Encoded(shares) == [ScalarBytes(shares[0]), ScalarBytes(shares[1])];
      assert Sum(shares[1..]) == shares[1];
      assert Sum(shares) == shares[0] + shares[1];
      AggregateVerifiesExactly(c, parties, rt, pt, msg, shares);
    }
  }

  /** When a receiver's signing succeeds: on a first slate of one participant, with a kernel, with secrets that are
      usable, when neither the keys nor the nonces cancel out, and unless its own share happens to be zero. */
  lemma ReceiverSignsExactly(c: Curve, blake: Bytes -> Bytes32, s1: Slate, p: ReceiverParams)
    requires c.Valid()
    ensures ReceiverSigs(c, blake, s1, p).Ok? <==>
      && s1.sta == Standard1 && |s1.sigs| == 1 && FromSlateFields(s1.feat, s1.fee, s1.featArgs).Ok?
      && NonZero(c, p.outputBlind).Some? && NonZero(c, p.kernelNonce).Some?
      && var msg := SigMsg(blake, FromSlateFields(s1.feat, s1.fee, s1.featArgs).value);
      && var keyTotal := PointAdd(c, s1.sigs[0].xs, KeyPoint(c, p.outputBlind));
      && var nonceTotal := PointAdd(c, s1.sigs[0].nonce, KeyPoint(c, p.kernelNonce));
      && msg.Ok? && keyTotal.Ok? && nonceTotal.Ok?
      && ShareOf(c, Party(p.outputBlind, p.kernelNonce), nonceTotal.value, keyTotal.value, msg.value) != 0
  {
    hide Rem, Curve.Valid, ScalarBytes, ScalarValue, PointAdd, PartialVerify, PartialSign, Challenge, SigMsg,
      FromSlateFields, NonZero, PublicKey, ShareOf, KeyPoint;
    c.OrderBounds();
    if NonZero(c, p.outputBlind).Some? && NonZero(c, p.kernelNonce).Some? {
      KeyOf(c, p.outputBlind);
      KeyOf(c, p.kernelNonce);
      forall terms: Terms
        ensures ReceiverPart(c, p, KeyPoint(c, p.outputBlind), KeyPoint(c, p.kernelNonce), terms).Ok?
           <==> ShareOf(c, Party(p.outputBlind, p.kernelNonce), terms.nonceTotal, terms.keyTotal, terms.msg) != 0
      {
        PartMade(c, p, terms);
      }
    } else {
      NoKey(c, p);
    }
  }

  lemma NoKey(c: Curve, p: ReceiverParams)
    requires c.order > 0 && !(NonZero(c, p.outputBlind).Some? && NonZero(c, p.kernelNonce).Some?)
    ensures !PublicKey(c, p.outputBlind).Ok? || !PublicKey(c, p.kernelNonce).Ok?
  {
  }

  lemma PartMade(c: Curve, p: ReceiverParams, terms: Terms)
    requires c.Valid() && NonZero(c, p.outputBlind).Some? && NonZero(c, p.kernelNonce).Some?
    ensures ReceiverPart(c, p, KeyPoint(c, p.outputBlind), KeyPoint(c, p.kernelNonce), terms).Ok?
       <==> ShareOf(c, Party(p.outputBlind, p.kernelNonce), terms.nonceTotal, terms.keyTotal, terms.msg) != 0
  {
    hide Rem, Curve.Valid, ScalarBytes, ScalarValue, PartialVerify, PartialSign, NonZero, KeyPoint, PublicKey, ShareOf;
    KeyOf(c, p.outputBlind);
    KeyOf(c, p.kernelNonce);
    var parties := [Party(p.outputBlind, p.kernelNonce)];
    SharePasses(c, parties, terms.nonceTotal, terms.keyTotal, terms.msg, 0);
  }

  /** What the receiver's round leaves as it was, and the output it appends. */
  lemma ReceiverAnswers(lib: Library, blake: Bytes -> Bytes32, s1: Slate, p: ReceiverParams, s2: Slate)
    requires lib.curve.order > 0 && ReceiverRound(lib, blake, s1, p) == Ok(s2)
    ensures s2 == s1.(sta := Standard2, sigs := s2.sigs, coms := s2.coms)
    ensures Answers(s1, s2) && ReceiverSigs(lib.curve, blake, s1, p) == Ok(s2.sigs)
    ensures PublicKey(lib.curve, p.outputBlind).Ok? && PublicKey(lib.curve, p.kernelNonce).Ok?
    ensures s1.sta == Standard1 && |s1.sigs| == 1 && |s2.sigs| == 2 && s2.sigs[0] == s1.sigs[0]
    ensures Ok(s2.sigs[1].xs) == PublicKey(lib.curve, p.outputBlind)
    ensures CreateRecoverableOutput(lib, p.ext, s1.amt, p.outputBlind, p.path, Regular, p.bpPrivateNonce).Ok?
    ensures var (commitment, proof, _) :=
              CreateRecoverableOutput(lib, p.ext, s1.amt, p.outputBlind, p.path, Regular, p.bpPrivateNonce).value;
            Coms(s2) == Coms(s1) + [OutputEntry(commitment, proof, false)]
  {
    hide ReceiverPart, TermsOf, CreateRecoverableOutput, PublicKey;
  }
}
