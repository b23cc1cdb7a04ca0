/** Multi-party signing and adaptor signatures: what the shares of any number of participants add up to. */
module Aggregation {
  import opened Outcomes
  import opened ByteStrings
  import opened Modular
  import opened Curves
  import opened Schnorr

  /** One participant's secrets. */
  datatype Party = Party(key: Bytes32, nonce: Bytes32)

  ghost predicate Usable(c: Curve, parties: seq<Party>) {
    forall i | 0 <= i < |parties| :: NonZero(c, parties[i].key).Some? && NonZero(c, parties[i].nonce).Some?
  }

  ghost function Keys(c: Curve, parties: seq<Party>): (ks: seq<int>)
    requires Usable(c, parties)
    ensures |ks| == |parties| && AllScalars(c, ks)
  {
    if parties == [] then [] else [NonZero(c, parties[0].key).value] + Keys(c, parties[1..])
  }

  ghost function Nonces(c: Curve, parties: seq<Party>): (ks: seq<int>)
    requires Usable(c, parties)
    ensures |ks| == |parties| && AllScalars(c, ks)
  {
    if parties == [] then [] else [NonZero(c, parties[0].nonce).value] + Nonces(c, parties[1..])
  }

  ghost predicate AllScalars(c: Curve, ks: seq<int>) {
    forall i | 0 <= i < |ks| :: 0 < ks[i] < c.order
  }

  /** The compressed points of a list of scalars. */
  ghost function Published(c: Curve, ks: seq<int>): (points: seq<Bytes33>)
    ensures |points| == |ks|
  {
    if ks == [] then [] else [c.encode(Point(ks[0]))] + Published(c, ks[1..])
  }

  /** Every participant's share of the response. */
  ghost function Shares(c: Curve, parties: seq<Party>, nonceTotal: Bytes33, keyTotal: Bytes33, msg: Bytes32)
    : (ss: seq<int>)
    requires c.order > 0 && Usable(c, parties)
    ensures |ss| == |parties| && forall i | 0 <= i < |ss| :: ss[i] == ShareOf(c, parties[i], nonceTotal, keyTotal, msg)
  {
    if parties == [] then []
    else [ShareOf(c, parties[0], nonceTotal, keyTotal, msg)] + Shares(c, parties[1..], nonceTotal, keyTotal, msg)
  }

  ghost function ShareOf(c: Curve, party: Party, nonceTotal: Bytes33, keyTotal: Bytes33, msg: Bytes32): (s: nat)
    requires c.order > 0 && NonZero(c, party.key).Some? && NonZero(c, party.nonce).Some?
    ensures s < c.order
  {
    PartialScalar(c, NonZero(c, party.key).value, NonZero(c, party.nonce).value, nonceTotal, keyTotal, msg)
  }

  ghost function Encoded(ss: seq<int>): (bs: seq<Bytes32>)
    requires forall i | 0 <= i < |ss| :: ss[i] >= 0
    ensures |bs| == |ss|
  {
    if ss == [] then [] else [ScalarBytes(ss[0])] + Encoded(ss[1..])
  }

  // ----- sums of points and of scalars -------------------------------------------------------

  lemma PointAddAdds(c: Curve, p: Point, q: Point)
    requires c.Valid() && c.OnCurve(p) && c.OnCurve(q)
    ensures PointAdd(c, c.encode(p), c.encode(q))
         == if Rem(p.log + q.log, c.order) != 0 then Ok(c.encode(c.Add(p, q))) else Err("sum is identity / invalid")
    ensures c.Add(p, q).log == Rem(p.log + q.log, c.order) && 0 <= c.Add(p, q).log < c.order
  {
    c.EncodesAt(p);
    c.EncodesAt(q);
  }

  /** Adding encoded points one by one adds their logarithms, unless a running sum is the identity. */
  lemma {:induction false} AddPointsAdds(c: Curve, acc: Point, ks: seq<int>)
    requires c.Valid() && c.OnCurve(acc) && AllScalars(c, ks)
    decreases |ks|
    ensures AddPoints(c, c.encode(acc), Published(c, ks)).Ok? <==> NoPrefixCancels(acc.log, ks, c.order)
    ensures AddPoints(c, c.encode(acc), Published(c, ks)).Ok? ==>
      var sum := c.Gen(acc.log + Sum(ks));
      c.OnCurve(sum) && AddPoints(c, c.encode(acc), Published(c, ks)) == Ok(c.encode(sum))
  {
    hide Rem, Curve.Valid, PointAdd;
    c.OrderBounds();
    var n := c.order;
    if ks == [] {
      SmallIsRemainder(acc.log, n);
    } else {
      var next := c.Add(acc, Point(ks[0]));
      PointAddAdds(c, acc, Point(ks[0]));
      RemainderCongruent(acc.log + ks[0], n);
      assert Published(c, ks)[1..] == Published(c, ks[1..]);
      if c.OnCurve(next) {
        AddPointsAdds(c, next, ks[1..]);
        NoPrefixCancelsCongruent(next.log, acc.log + ks[0], ks[1..], n);
        CongruentAdd(next.log, acc.log + ks[0], Sum(ks[1..]), Sum(ks[1..]), n);
      }
    }
  }

  /** `point_sum` of published points: it fails exactly when some leading part of the list cancels out. */
  lemma TotalAdds(c: Curve, ks: seq<int>)
    requires c.Valid() && AllScalars(c, ks) && ks != []
    ensures Total(c, Published(c, ks)).Ok? <==> NoPrefixCancels(0, ks, c.order)
    ensures Total(c, Published(c, ks)).Ok? ==>
      c.OnCurve(c.Gen(Sum(ks))) && Total(c, Published(c, ks)) == Ok(c.encode(c.Gen(Sum(ks))))
  {
    hide Rem, Curve.Valid;
    c.OrderBounds();
    AddPointsAdds(c, Point(ks[0]), ks[1..]);
    assert Published(c, ks)[1..] == Published(c, ks[1..]);
    SmallIsRemainder(ks[0], c.order);
  }

  lemma {:induction false} AddScalarsAdds(c: Curve, acc: int, ss: seq<int>)
    requires c.Valid() && 0 <= acc < c.order && AllScalars(c, ss)
    ensures AddScalars(c, acc, Encoded(ss)) == Ok(ScalarBytes(Rem(acc + Sum(ss), c.order)))
    decreases |ss|
  {
    hide Rem, Curve.Valid, ScalarBytes, NonZero;
    c.OrderBounds();
    var n := c.order;
    if ss == [] {
      SmallIsRemainder(acc, n);
    } else {
      NonZeroOf(c, ss[0]);
      assert Encoded(ss)[1..] == Encoded(ss[1..]);
      var next := Rem(acc + ss[0], n);
      AddScalarsAdds(c, next, ss[1..]);
      RemainderCongruent(acc + ss[0], n);
      CongruentAdd(next, acc + ss[0], Sum(ss[1..]), Sum(ss[1..]), n);
    }
  }

  lemma AggregateAdds(c: Curve, ss: seq<int>)
    requires c.Valid() && AllScalars(c, ss) && ss != []
    ensures Aggregate(c, Encoded(ss)) == Ok(ScalarBytes(Rem(Sum(ss), c.order)))
  {
    hide Rem, Curve.Valid, ScalarBytes, NonZero;
    c.OrderBounds();
    NonZeroOf(c, ss[0]);
    assert Encoded(ss)[1..] == Encoded(ss[1..]);
    AddScalarsAdds(c, ss[0], ss[1..]);
  }

  lemma ResponsesAdd(qr: bool, n: int, e: int, s: int, k: int, x: int, s': int, k': int, x': int)
    requires n > 0 && Congruent(s, Response(qr, k, e, x), n) && Congruent(s', Response(qr, k', e, x'), n)
    ensures Congruent(s + s', Response(qr, k + k', e, x + x'), n)
  {
    CongruentAdd(s, Response(qr, k, e, x), s', Response(qr, k', e, x'), n);
    assert e * (x + x') == e * x + e * x';
  }

  lemma NoResponse(qr: bool, e: int)
    ensures Response(qr, 0, e, 0) == 0
  {
  }

  /** The shares add up to the response a single signer with the summed key and nonce would give. */
  lemma {:induction false} SharesAdd(c: Curve, parties: seq<Party>, rt: Bytes33, pt: Bytes33, msg: Bytes32)
    requires c.Valid() && Usable(c, parties)
    ensures Congruent(
      Sum(Shares(c, parties, rt, pt, msg)),
      Response(IsQrKey(c, rt), Sum(Nonces(c, parties)), Challenge(c, QrForm(c, rt), pt, msg), Sum(Keys(c, parties))),
      c.order)
  {
    hide Rem, Curve.Valid, Challenge, QrForm, IsQrKey, NonZero, Response;
    c.OrderBounds();
    var n, e: int, qr := c.order, Challenge(c, QrForm(c, rt), pt, msg), IsQrKey(c, rt);
    if parties == [] {
      NoResponse(qr, e);
    } else {
      var rest := parties[1..];
      SharesAdd(c, rest, rt, pt, msg);
      var x: int, k: int := NonZero(c, parties[0].key).value, NonZero(c, parties[0].nonce).value;
      RemainderCongruent(Response(qr, k, e, x), n);
      ResponsesAdd(qr, n, e, ShareOf(c, parties[0], rt, pt, msg), k, x,
                   Sum(Shares(c, rest, rt, pt, msg)), Sum(Nonces(c, rest)), Sum(Keys(c, rest)));
    }
  }

  // ----- the ceremony ------------------------------------------------------------------------

  /** A complete ceremony's public side: the totals every participant signs against. */
  ghost predicate Ceremony(c: Curve, parties: seq<Party>, rt: Bytes33, pt: Bytes33) {
    && c.Valid() && parties != [] && Usable(c, parties)
    && Total(c, Published(c, Nonces(c, parties))) == Ok(rt)
    && Total(c, Published(c, Keys(c, parties))) == Ok(pt)
  }

  lemma CeremonyFacts(c: Curve, parties: seq<Party>, rt: Bytes33, pt: Bytes33)
    requires Ceremony(c, parties, rt, pt)
    ensures c.Valid() && 2 < c.order && parties != [] && Usable(c, parties)
  {
  }

  /** A share made over any totals passes the check made over the same totals, unless it is zero, which the
      check refuses to read. */
  lemma SharePasses(c: Curve, parties: seq<Party>, rt: Bytes33, pt: Bytes33, msg: Bytes32, i: nat)
    requires c.Valid() && Usable(c, parties) && i < |parties|
    ensures var share := Shares(c, parties, rt, pt, msg)[i];
      && share >= 0
      && PartialSign(c, parties[i].key, parties[i].nonce, rt, pt, msg) == Ok(ScalarBytes(share))
      && PartialVerify(c, ScalarBytes(share), PublicKey(c, parties[i].nonce).value, PublicKey(c, parties[i].key).value,
                       rt, pt, msg)
         == if share == 0 then Err("invalid partial s scalar") else Ok(true)
  {
    hide Rem, Curve.Valid, Curve.Times, ScalarBytes, ScalarValue, Challenge, PartialVerify, Response;
    c.OrderBounds();
    var x, k := NonZero(c, parties[i].key).value, NonZero(c, parties[i].nonce).value;
    var share := Shares(c, parties, rt, pt, msg)[i];
    PublicKeyDecodes(c, parties[i].key);
    PublicKeyDecodes(c, parties[i].nonce);
    PartialVerifyMeans(c, share, Point(k), Point(x), rt, pt, msg);
    ChallengeIgnoresPrefix(c, rt, pt, msg);
    var e := Challenge(c, rt, pt, msg);
    RemainderCongruent(Response(IsQrKey(c, rt), k, e, x), c.order);
    ResponsePoint(c, IsQrKey(c, rt), k, e, x, share);
  }

  /** Each participant's share passes the check the others make on it, unless it is zero, which the check
      refuses to read. */
  lemma EverySharePasses(c: Curve, parties: seq<Party>, rt: Bytes33, pt: Bytes33, msg: Bytes32, i: nat)
    requires Ceremony(c, parties, rt, pt) && i < |parties|
    ensures var share := Shares(c, parties, rt, pt, msg)[i];
      && share >= 0
      && PartialSign(c, parties[i].key, parties[i].nonce, rt, pt, msg) == Ok(ScalarBytes(share))
      && PartialVerify(c, ScalarBytes(share), PublicKey(c, parties[i].nonce).value, PublicKey(c, parties[i].key).value,
                       rt, pt, msg)
         == if share == 0 then Err("invalid partial s scalar") else Ok(true)
  {
    hide Rem, Curve.Valid, ScalarBytes, ScalarValue, PartialVerify, PartialSign, Shares, PublicKey;
    SharePasses(c, parties, rt, pt, msg, i);
  }

  /** Any list of scalars put into the aggregate verifies exactly when its sum is the honest one. */
  lemma AggregateVerifiesExactly(
    c: Curve, parties: seq<Party>, rt: Bytes33, pt: Bytes33, msg: Bytes32, ss: seq<int>)
    requires Ceremony(c, parties, rt, pt) && AllScalars(c, ss) && ss != []
    ensures Aggregate(c, Encoded(ss)) == Ok(ScalarBytes(Rem(Sum(ss), c.order)))
    ensures Verify(c, FinalSignature(rt, ScalarBytes(Rem(Sum(ss), c.order))), msg, pt)
         == if Rem(Sum(ss), c.order) == 0 then Err("invalid s scalar")
            else Ok(Congruent(Sum(ss), Sum(Shares(c, parties, rt, pt, msg)), c.order))
  {
    hide Rem, Curve.Valid, Curve.Times, ScalarBytes, Verify, Challenge, FinalSignature, Aggregate, Response;
    c.OrderBounds();
    var n := c.order;
    AggregateAdds(c, ss);
    TotalAdds(c, Nonces(c, parties));
    TotalAdds(c, Keys(c, parties));
    var r, p := c.Gen(Sum(Nonces(c, parties))), c.Gen(Sum(Keys(c, parties)));
    c.EncodesAt(r);
    c.EncodesAt(p);
    var s := Rem(Sum(ss), n);
    VerifyMeans(c, r, p, s, msg);
    ChallengeIgnoresPrefix(c, rt, pt, msg);
    SharesAdd(c, parties, rt, pt, msg);
    ResponsePoint(c, c.yIsQr(r), Sum(Nonces(c, parties)), Challenge(c, rt, pt, msg), Sum(Keys(c, parties)),
                  Sum(Shares(c, parties, rt, pt, msg)));
    SmallIsRemainder(s, n);
  }

  /** The shares aggregate, and what they aggregate to is a signature under the total. */
  ghost predicate Succeeds(c: Curve, partials: seq<Bytes32>, rt: Bytes33, pt: Bytes33, msg: Bytes32)
    requires c.order > 0
  {
    var total := Aggregate(c, partials);
    total.Ok? && Verify(c, FinalSignature(rt, total.value), msg, pt) == Ok(true)
  }

  /** A share that is no non-zero scalar is refused, wherever it stands. */
  lemma AggregateRefuses(c: Curve, partials: seq<Bytes32>, i: nat)
    requires c.order > 0 && i < |partials| && NonZero(c, partials[i]).None?
    ensures !Aggregate(c, partials).Ok?
  {
    hide NonZero;
    if i > 0 && NonZero(c, partials[0]).Some? {
      AddScalarsRefuses(c, NonZero(c, partials[0]).value, partials[1..], i - 1);
    }
  }

  lemma {:induction false} AddScalarsRefuses(c: Curve, acc: nat, rest: seq<Bytes32>, i: nat)
    requires c.order > 0 && i < |rest| && NonZero(c, rest[i]).None?
    ensures !AddScalars(c, acc, rest).Ok?
    decreases |rest|
  {
    hide NonZero, Rem;
    if i > 0 && NonZero(c, rest[0]).Some? {
      AddScalarsRefuses(c, Rem(acc + NonZero(c, rest[0]).value, c.order), rest[1..], i - 1);
    }
  }

  lemma EncodedAt(ss: seq<int>, i: nat)
    requires (forall k | 0 <= k < |ss| :: ss[k] >= 0) && i < |ss|
    ensures Encoded(ss)[i] == ScalarBytes(ss[i])
  {
    if i > 0 {
      EncodedAt(ss[1..], i - 1);
    }
  }

  /** The promise of the aggregation: for any number of participants the aggregate of their shares is a
      signature under the summed key, whichever branch the summed nonce is on, exactly when no share and
      not their sum is zero. */
  lemma HonestAggregateVerifies(c: Curve, parties: seq<Party>, rt: Bytes33, pt: Bytes33, msg: Bytes32)
    requires Ceremony(c, parties, rt, pt)
    ensures var shares := Shares(c, parties, rt, pt, msg);
      Succeeds(c, Encoded(shares), rt, pt, msg) == (
        (forall i | 0 <= i < |shares| :: shares[i] != 0) && Rem(Sum(shares), c.order) != 0)
  {
    hide ScalarBytes, Verify, FinalSignature, Rem, Curve.Valid, Shares, Ceremony, Aggregate, Encoded, Usable;
    CeremonyFacts(c, parties, rt, pt);
    var shares := Shares(c, parties, rt, pt, msg);
    if i :| 0 <= i < |shares| && shares[i] == 0 {
      EncodedAt(shares, i);
      NonZeroOf(c, 0);
      AggregateRefuses(c, Encoded(shares), i);
    } else {
      AggregateVerifiesExactly(c, parties, rt, pt, msg, shares);
    }
  }

  lemma {:induction false} SumUpdate(xs: seq<int>, j: nat, v: int)
    requires j < |xs|
    ensures Sum(xs[j := v]) == Sum(xs) - xs[j] + v
  {
    assert xs == xs[..j] + ([xs[j]] + xs[j + 1..]);
    assert xs[j := v] == xs[..j] + ([v] + xs[j + 1..]);
    SumAppend(xs[..j], [xs[j]] + xs[j + 1..]);
    SumAppend(xs[..j], [v] + xs[j + 1..]);
    SumAppend([xs[j]], xs[j + 1..]);
    SumAppend([v], xs[j + 1..]);
  }

  /** One wrong share spoils the aggregate, whatever 32 bytes it is replaced by and whatever the other
      shares are. */
  lemma ReplacedShareFails(
    c: Curve, parties: seq<Party>, rt: Bytes33, pt: Bytes33, msg: Bytes32, j: nat, wrong: Bytes32)
    requires Ceremony(c, parties, rt, pt) && j < |parties|
    requires wrong != ScalarBytes(Shares(c, parties, rt, pt, msg)[j])
    ensures !Succeeds(c, Encoded(Shares(c, parties, rt, pt, msg))[j := wrong], rt, pt, msg)
  {
    hide Rem, ScalarBytes, ScalarValue, Verify, FinalSignature, Aggregate, Ceremony, Curve.Valid, Shares, Sum, Encoded,
      Usable, Congruent, NonZero;
    CeremonyFacts(c, parties, rt, pt);
    var shares := Shares(c, parties, rt, pt, msg);
    var partials := Encoded(shares)[j := wrong];
    if i :| 0 <= i < |partials| && NonZero(c, partials[i]).None? {
      AggregateRefuses(c, partials, i);
    } else {
      ReplacedEncoding(c, shares, j, wrong, partials);
      var w: int := NonZero(c, wrong).value;
      AggregateVerifiesExactly(c, parties, rt, pt, msg, shares[j := w]);
      OtherShareOtherSum(shares, j, w, c.order);
    }
  }

  /** When every encoded share reads as a scalar, replacing one of them is replacing its scalar. */
  lemma ReplacedEncoding(c: Curve, shares: seq<int>, j: nat, wrong: Bytes32, partials: seq<Bytes32>)
    requires c.Valid() && j < |shares| && forall i | 0 <= i < |shares| :: 0 <= shares[i] < c.order
    requires partials == Encoded(shares)[j := wrong]
    requires forall i | 0 <= i < |partials| :: NonZero(c, partials[i]).Some?
    requires wrong != ScalarBytes(shares[j])
    ensures NonZero(c, wrong).Some?
    ensures var w: int := NonZero(c, wrong).value;
      && AllScalars(c, shares[j := w]) && Encoded(shares[j := w]) == partials
      && 0 < w < c.order && w != shares[j]
  {
    hide ScalarBytes, ScalarValue, Encoded, NonZero, Curve.Valid;
    assert partials[j] == wrong;
    var w: int := NonZero(c, wrong).value;
    ReadScalar(c, wrong);
    var replaced := shares[j := w];
    forall i | 0 <= i < |shares|
      ensures 0 < replaced[i] < c.order
    {
      if i != j {
        EncodedAt(shares, i);
        assert NonZero(c, partials[i]).Some?;
        NonZeroOf(c, shares[i]);
      }
    }
    var left := Encoded(replaced);
    forall i | 0 <= i < |shares|
      ensures left[i] == partials[i]
    {
      EncodedAt(replaced, i);
      EncodedAt(shares, i);
    }
  }

  /** Bytes that read as a scalar are its encoding. */
  lemma ReadScalar(c: Curve, b: Bytes32)
    requires NonZero(c, b).Some?
    ensures ScalarBytes(NonZero(c, b).value) == b && 0 < NonZero(c, b).value < c.order
  {
    BeBytesOfValue(b);
  }

  lemma OtherShareOtherSum(shares: seq<int>, j: nat, wrong: int, n: int)
    requires 0 < wrong < n && j < |shares| && 0 <= shares[j] < n && wrong != shares[j]
    ensures !Congruent(Sum(shares[j := wrong]), Sum(shares), n)
  {
    hide Rem, Sum;
    SumUpdate(shares, j, wrong);
    var rest := Sum(shares) - shares[j];
    SmallIsRemainder(wrong, n);
    SmallIsRemainder(shares[j], n);
    if Congruent(rest + wrong, rest + shares[j], n) {
      CongruentSub(rest + wrong, rest + shares[j], rest, rest, n);
    }
  }
}
