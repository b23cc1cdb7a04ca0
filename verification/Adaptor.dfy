/** Adaptor signatures: a share that lacks a secret t until t is added, and gives t away once it is. */
module Adaptors {
  import opened Outcomes
  import opened ByteStrings
  import opened Modular
  import opened Curves
  import opened Schnorr
  import opened Aggregation

  function AdaptorPartialSign(
    c: Curve, secretKey: Bytes32, secretNonce: Bytes32, nonceTotalNoT: Bytes33, keyTotal: Bytes33, adaptor: Bytes33,
    msg: Bytes32): Outcome<Bytes32>
    requires c.order > 0
  {
    var nonceTotal :- PointAdd(c, nonceTotalNoT, adaptor);
    PartialSign(c, secretKey, secretNonce, nonceTotal, keyTotal, msg)
  }

  function AdaptorPartialVerify(
    c: Curve, partial: Bytes32, nonce: Bytes33, key: Bytes33, nonceTotalNoT: Bytes33, keyTotal: Bytes33,
    adaptor: Bytes33, msg: Bytes32): Outcome<bool>
    requires c.order > 0
  {
    var nonceTotal :- PointAdd(c, nonceTotalNoT, adaptor);
    PartialVerify(c, partial, nonce, key, nonceTotal, keyTotal, msg)
  }

  function CompleteAdaptor(c: Curve, partial: Bytes32, secret: Bytes32): Outcome<Bytes32>
    requires c.order > 0
  {
    match NonZero(c, partial)
    case None => Err("invalid adaptor partial s")
    case Some(s) =>
      match NonZero(c, secret)
      case None => Err("invalid adaptor secret t")
      case Some(t) => Ok(ScalarBytes(Rem(s + t, c.order)))
  }

  function ExtractAdaptorSecret(c: Curve, completed: Bytes32, partial: Bytes32): Outcome<Bytes32>
    requires c.order > 0
  {
    match NonZero(c, completed)
    case None => Err("invalid completed s")
    case Some(s) =>
      match NonZero(c, partial)
      case None => Err("invalid adaptor partial s")
      case Some(s') => Ok(ScalarBytes(Rem(s - s', c.order)))
  }

  /** Whoever holds the share before and after learns the secret, unless the two cancel to zero. */
  lemma ExtractUndoesComplete(c: Curve, partial: Bytes32, secret: Bytes32)
    requires c.Valid() && NonZero(c, partial).Some? && NonZero(c, secret).Some?
    ensures var completed := CompleteAdaptor(c, partial, secret);
      && completed.Ok?
      && ExtractAdaptorSecret(c, completed.value, partial)
         == if ScalarValue(completed.value) == 0 then Err("invalid completed s") else Ok(secret)
  {
    hide Rem, Curve.Valid, ScalarBytes, ScalarValue;
    c.OrderBounds();
    var n, s', t := c.order, NonZero(c, partial).value, NonZero(c, secret).value;
    var s := Rem(s' + t, n);
    NonZeroOf(c, s);
    ScalarRoundTrip(c, s);
    RemainderCongruent(s' + t, n);
    CongruentSub(s, s' + t, s', s', n);
    SmallIsRemainder(t, n);
    ScalarRoundTrip(c, t);
    ScalarInjective(ScalarBytes(t), secret);
  }

  /** The ceremony of an adaptor signature: the participants' nonces and the adaptor point t·G make up the
      nonce total that everyone signs against. */
  ghost predicate AdaptorCeremony(
    c: Curve, parties: seq<Party>, t: int, nonceTotalNoT: Bytes33, nonceTotal: Bytes33, keyTotal: Bytes33)
  {
    && Ceremony(c, parties, nonceTotalNoT, keyTotal)
    && 0 < t < c.order
    && PointAdd(c, nonceTotalNoT, c.encode(Point(t))) == Ok(nonceTotal)
  }

  lemma AdaptorCeremonyFacts(
    c: Curve, parties: seq<Party>, t: int, nonceTotalNoT: Bytes33, nonceTotal: Bytes33, keyTotal: Bytes33)
    requires AdaptorCeremony(c, parties, t, nonceTotalNoT, nonceTotal, keyTotal)
    ensures c.Valid() && 2 < c.order && parties != [] && Usable(c, parties) && 0 < t < c.order
  {
  }

  /** The share every participant makes is the one over the full nonce total, and passes the adaptor check
      before anyone knows t. */
  lemma AdaptorSharePasses(
    c: Curve, parties: seq<Party>, t: int, rNoT: Bytes33, rt: Bytes33, pt: Bytes33, msg: Bytes32, i: nat)
    requires AdaptorCeremony(c, parties, t, rNoT, rt, pt) && i < |parties|
    ensures Usable(c, parties)
    ensures var share := Shares(c, parties, rt, pt, msg)[i];
      && share >= 0
      && AdaptorPartialSign(c, parties[i].key, parties[i].nonce, rNoT, pt, c.encode(Point(t)), msg)
         == Ok(ScalarBytes(share))
      && AdaptorPartialVerify(c, ScalarBytes(share), PublicKey(c, parties[i].nonce).value,
                              PublicKey(c, parties[i].key).value, rNoT, pt, c.encode(Point(t)), msg)
         == if share == 0 then Err("invalid partial s scalar") else Ok(true)
  {
    hide Rem, Curve.Valid, ScalarBytes, ScalarValue, PartialVerify, PartialSign, Shares, PublicKey, PointAdd, Usable;
    AdaptorCeremonyFacts(c, parties, t, rNoT, rt, pt);
    SharePasses(c, parties, rt, pt, msg, i);
  }

  lemma AdaptorTotal(
    c: Curve, parties: seq<Party>, t: int, rNoT: Bytes33, rt: Bytes33, pt: Bytes33)
    requires AdaptorCeremony(c, parties, t, rNoT, rt, pt)
    ensures var r := c.Gen(Sum(Nonces(c, parties)) + t);
            var p := c.Gen(Sum(Keys(c, parties)));
            c.OnCurve(r) && c.OnCurve(p) && rt == c.encode(r) && pt == c.encode(p)
  {
    hide Rem, Curve.Valid, PointAdd;
    c.OrderBounds();
    var n := c.order;
    TotalAdds(c, Nonces(c, parties));
    TotalAdds(c, Keys(c, parties));
    var r0 := c.Gen(Sum(Nonces(c, parties)));
    PointAddAdds(c, r0, Point(t));
    RemainderCongruent(Sum(Nonces(c, parties)), n);
    CongruentAdd(r0.log, Sum(Nonces(c, parties)), t, t, n);
  }

  lemma NonceResponse(qr: bool, t: int, e: int)
    ensures Response(qr, t, e, 0) == Signed(qr, t)
  {
  }

  /** What the finished aggregate verifies to, for any shares whatever: exactly those adding up to the
      honest shares plus the branch of t that the nonce total picks. */
  lemma AdaptorAggregateExactly(
    c: Curve, parties: seq<Party>, t: int, rNoT: Bytes33, rt: Bytes33, pt: Bytes33, msg: Bytes32, ss: seq<int>)
    requires AdaptorCeremony(c, parties, t, rNoT, rt, pt) && AllScalars(c, ss) && ss != []
    ensures Aggregate(c, Encoded(ss)) == Ok(ScalarBytes(Rem(Sum(ss), c.order)))
    ensures Verify(c, FinalSignature(rt, ScalarBytes(Rem(Sum(ss), c.order))), msg, pt)
         == if Rem(Sum(ss), c.order) == 0 then Err("invalid s scalar")
            else Ok(Congruent(Sum(ss), Sum(Shares(c, parties, rt, pt, msg)) + Signed(IsQrKey(c, rt), t), c.order))
  {
    hide Rem, Curve.Valid, Curve.Times, ScalarBytes, Verify, Challenge, FinalSignature, Aggregate, Response,
      AdaptorCeremony, Shares, Nonces, Keys, Sum, Encoded, Usable;
    AdaptorCeremonyFacts(c, parties, t, rNoT, rt, pt);
    var n := c.order;
    AggregateAdds(c, ss);
    AdaptorTotal(c, parties, t, rNoT, rt, pt);
    var kSum, xSum := Sum(Nonces(c, parties)), Sum(Keys(c, parties));
    var r, p := c.Gen(kSum + t), c.Gen(xSum);
    c.EncodesAt(r);
    c.EncodesAt(p);
    var s, qr, e := Rem(Sum(ss), n), IsQrKey(c, rt), Challenge(c, rt, pt, msg);
    VerifyMeans(c, r, p, s, msg);
    ChallengeIgnoresPrefix(c, rt, pt, msg);
    SharesAdd(c, parties, rt, pt, msg);
    var shareSum := Sum(Shares(c, parties, rt, pt, msg));
    NonceResponse(qr, t, e);
    ResponsesAdd(qr, n, e, shareSum, kSum, xSum, Signed(qr, t), t, 0);
    ResponsePoint(c, qr, kSum + t, e, xSum, shareSum + Signed(qr, t));
    SmallIsRemainder(s, n);
  }

  /** No non-zero scalar is its own negation. */
  lemma NotOwnNegation(c: Curve, t: int)
    requires c.Valid() && 0 < t < c.order
    ensures !Congruent(t, -t, c.order)
  {
    hide Rem, Curve.Valid;
    c.OrderBounds();
    c.EncodesAt(Point(t));
    SmallIsRemainder(t, c.order);
  }

  /** Completing the share of participant `j` with the scalar `u` and aggregating it with everyone else's
      yields a signature under the total. */
  ghost predicate CompletesWith(
    c: Curve, parties: seq<Party>, rt: Bytes33, pt: Bytes33, msg: Bytes32, j: nat, u: nat)
    requires c.order > 0 && Usable(c, parties) && j < |parties|
  {
    var partials := Encoded(Shares(c, parties, rt, pt, msg));
    var completed := CompleteAdaptor(c, partials[j], ScalarBytes(u));
    completed.Ok? && Succeeds(c, partials[j := completed.value], rt, pt, msg)
  }

  /** None of the scalars the code reads on the way is zero: the shares, the completed one and the sum. */
  ghost predicate NoneZero(shares: seq<int>, j: nat, u: int, n: int)
    requires n > 0 && j < |shares|
  {
    && (forall i | 0 <= i < |shares| :: shares[i] != 0)
    && Rem(shares[j] + u, n) != 0 && Rem(Sum(shares) + u, n) != 0
  }

  /** The documentation adds t to the adaptor share and promises a valid aggregate. The code negates the
      participants' nonces, but not t, when the nonce total has a non-square y: the completion with t
      verifies exactly when the total is on the square branch, the completion with -t exactly when it is
      on the other, and neither when a scalar on the way is zero. */
  lemma CompletionExact(
    c: Curve, parties: seq<Party>, t: int, rNoT: Bytes33, rt: Bytes33, pt: Bytes33, msg: Bytes32, j: nat, u: nat)
    requires AdaptorCeremony(c, parties, t, rNoT, rt, pt) && j < |parties|
    requires u == t || u == c.order - t
    ensures c.order > 0 && Usable(c, parties)
    ensures CompletesWith(c, parties, rt, pt, msg, j, u)
       <==> NoneZero(Shares(c, parties, rt, pt, msg), j, u, c.order) && IsQrKey(c, rt) == (u == t)
  {
    hide Rem, Curve.Valid, ScalarBytes, Verify, FinalSignature, Aggregate, IsQrKey, AdaptorCeremony, Shares, Sum,
      Encoded, CompleteAdaptor, Usable, Congruent, NonZero;
    AdaptorCeremonyFacts(c, parties, t, rNoT, rt, pt);
    var shares := Shares(c, parties, rt, pt, msg);
    if i :| 0 <= i < |shares| && shares[i] == 0 {
      ZeroShareStops(c, shares, j, u, i);
    } else {
      CompletedShares(c, shares, j, u);
      if Rem(shares[j] + u, c.order) != 0 {
        CompletedVerifies(c, parties, t, rNoT, rt, pt, msg, j, u);
      }
    }
  }

  /** A zero share stops the completion or the aggregation. */
  lemma ZeroShareStops(c: Curve, shares: seq<int>, j: nat, u: nat, i: nat)
    requires c.Valid() && j < |shares| && i < |shares| && shares[i] == 0
    requires forall k | 0 <= k < |shares| :: shares[k] >= 0
    ensures var partials := Encoded(shares);
      var completed := CompleteAdaptor(c, partials[j], ScalarBytes(u));
      completed.Ok? ==> !Aggregate(c, partials[j := completed.value]).Ok?
  {
    hide Rem, Curve.Valid, ScalarBytes, Aggregate, Encoded, NonZero;
    c.OrderBounds();
    NonZeroOf(c, 0);
    EncodedAt(shares, i);
    var partials := Encoded(shares);
    var completed := CompleteAdaptor(c, partials[j], ScalarBytes(u));
    if completed.Ok? {
      AggregateRefuses(c, partials[j := completed.value], i);
    }
  }

  /** With no share zero, the completed list is the shares with the completed scalar in place, and stops the
      aggregation when that scalar is zero. */
  lemma CompletedShares(c: Curve, shares: seq<int>, j: nat, u: nat)
    requires c.Valid() && j < |shares| && 0 < u < c.order
    requires forall k | 0 <= k < |shares| :: 0 < shares[k] < c.order
    ensures var completed := Rem(shares[j] + u, c.order);
      && CompleteAdaptor(c, Encoded(shares)[j], ScalarBytes(u)) == Ok(ScalarBytes(completed))
      && Encoded(shares)[j := ScalarBytes(completed)] == Encoded(shares[j := completed])
      && (completed == 0 ==> !Aggregate(c, Encoded(shares[j := completed])).Ok?)
  {
    hide Rem, Curve.Valid, ScalarBytes, Aggregate, Encoded, NonZero, CompleteAdaptor;
    c.OrderBounds();
    var completed := Rem(shares[j] + u, c.order);
    var replaced := shares[j := completed];
    EncodedAt(shares, j);
    CompleteMeans(c, shares[j], u);
    forall i | 0 <= i < |shares|
      ensures Encoded(replaced)[i] == Encoded(shares)[j := ScalarBytes(completed)][i]
    {
      EncodedAt(replaced, i);
      EncodedAt(shares, i);
    }
    if completed == 0 {
      NonZeroOf(c, 0);
      EncodedAt(replaced, j);
      AggregateRefuses(c, Encoded(replaced), j);
    }
  }

  /** The completed shares as scalars: what they aggregate to verifies exactly on the branch of `u`. */
  lemma CompletedVerifies(
    c: Curve, parties: seq<Party>, t: int, rNoT: Bytes33, rt: Bytes33, pt: Bytes33, msg: Bytes32, j: nat, u: nat)
    requires AdaptorCeremony(c, parties, t, rNoT, rt, pt) && j < |parties|
    requires u == t || u == c.order - t
    requires AllScalars(c, Shares(c, parties, rt, pt, msg))
    requires Rem(Shares(c, parties, rt, pt, msg)[j] + u, c.order) != 0
    ensures var shares := Shares(c, parties, rt, pt, msg);
      Succeeds(c, Encoded(shares[j := Rem(shares[j] + u, c.order)]), rt, pt, msg) == (
        Rem(Sum(shares) + u, c.order) != 0 && IsQrKey(c, rt) == (u == t))
  {
    hide Rem, Curve.Valid, ScalarBytes, Verify, FinalSignature, Aggregate, IsQrKey, AdaptorCeremony, Shares, Sum,
      Encoded, Usable, AllScalars;
    AdaptorCeremonyFacts(c, parties, t, rNoT, rt, pt);
    var n := c.order;
    var shares := Shares(c, parties, rt, pt, msg);
    var completed := Rem(shares[j] + u, n);
    var ss := shares[j := completed];
    ReplacedScalar(c, shares, j, completed);
    CompletedSum(shares, j, u, n);
    NotOwnNegation(c, t);
    WhichCompletion(Sum(ss), Sum(shares), t, IsQrKey(c, rt), u, n);
    AdaptorAggregateExactly(c, parties, t, rNoT, rt, pt, msg, ss);
  }

  lemma ReplacedScalar(c: Curve, ks: seq<int>, j: nat, v: int)
    requires AllScalars(c, ks) && j < |ks| && 0 < v < c.order
    ensures 0 < ks[j] < c.order && AllScalars(c, ks[j := v]) && ks[j := v] != [] && ks[j := v][j] == v
  {
  }

  lemma CompleteMeans(c: Curve, s: int, u: int)
    requires c.Valid() && 0 < s < c.order && 0 < u < c.order
    ensures CompleteAdaptor(c, ScalarBytes(s), ScalarBytes(u)) == Ok(ScalarBytes(Rem(s + u, c.order)))
  {
    hide Rem, Curve.Valid, ScalarBytes;
    NonZeroOf(c, s);
    NonZeroOf(c, u);
  }

  lemma CompletedSum(shares: seq<int>, j: nat, u: int, n: int)
    requires n > 0 && j < |shares|
    ensures Congruent(Sum(shares[j := Rem(shares[j] + u, n)]), Sum(shares) + u, n)
  {
    hide Rem, Sum;
    var completed := Rem(shares[j] + u, n);
    SumUpdate(shares, j, completed);
    RemainderCongruent(shares[j] + u, n);
    CongruentAdd(Sum(shares) - shares[j], Sum(shares) - shares[j], completed, shares[j] + u, n);
  }

  lemma WhichCompletion(total: int, honest: int, t: int, qr: bool, u: int, n: int)
    requires 0 < t < n && !Congruent(t, -t, n)
    requires (u == t || u == n - t) && Congruent(total, honest + u, n)
    ensures Congruent(total, honest + Signed(qr, t), n) <==> qr == (u == t)
  {
    hide Rem;
    DifferByMultiple(n - t, -t, 1, n);
    DifferByMultiple(honest + (n - t), honest + (-t), 1, n);
    if Congruent(total, honest + Signed(qr, t), n) && qr != (u == t) {
      CongruentSub(honest + t, honest - t, honest, honest, n);
    }
  }
}
