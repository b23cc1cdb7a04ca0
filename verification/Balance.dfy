/** Blinding-factor sums (crates/grin-ext/src/blind.rs) and the equation a transaction's commitments must
    satisfy: outputs plus fee·H equals inputs plus the kernel excess plus offset·G. */
module Balance {
  import opened Outcomes
  import opened ByteStrings
  import opened Modular
  import opened Curves

  // ----- blinding factors --------------------------------------------------------------------

  function Scalars(bs: seq<Bytes32>): (ks: seq<int>)
    ensures |ks| == |bs|
  {
    if bs == [] then [] else [ScalarValue(bs[0]) as int] + Scalars(bs[1..])
  }

  function BlindSum(c: Curve, bs: seq<Bytes32>): Bytes32
    requires c.order > 0
  {
    ScalarBytes(Rem(Sum(Scalars(bs)), c.order))
  }

  lemma {:induction false} ScalarsAppend(a: seq<Bytes32>, b: seq<Bytes32>)
    ensures Scalars(a + b) == Scalars(a) + Scalars(b)
  {
    hide ScalarValue;
    if a == [] {
      assert a + b == b;
    } else {
      ScalarsAppend(a[1..], b);
      assert (a + b)[0] == a[0] && (a + b)[1..] == a[1..] + b;
      var x, y, z := [ScalarValue(a[0]) as int], Scalars(a[1..]), Scalars(b);
      assert x + (y + z) == (x + y) + z;
    }
  }

  /** Below the group order, as every blind and offset the wallet draws is. */
  predicate Canonical(c: Curve, b: Bytes32) {
    ScalarValue(b) < c.order
  }

  predicate AllCanonical(c: Curve, bs: seq<Bytes32>) {
    forall i | 0 <= i < |bs| :: Canonical(c, bs[i])
  }

  /** `blind::sum`. */
  method SumBlinds(c: Curve, bs: seq<Bytes32>) returns (r: Bytes32)
    requires c.order > 0 && AllCanonical(c, bs)
    ensures r == BlindSum(c, bs)
  {
    hide Rem, ScalarBytes, ScalarValue;
    var acc: int := 0;
    SmallIsRemainder(0, c.order);
    for i := 0 to |bs|
      invariant acc == Rem(Sum(Scalars(bs[..i])), c.order)
    {
      assert bs[..i + 1] == bs[..i] + [bs[i]];
      ScalarsAppend(bs[..i], [bs[i]]);
      SumAppend(Scalars(bs[..i]), Scalars([bs[i]]));
      assert Scalars([bs[i]]) == [ScalarValue(bs[i]) as int] && Sum([ScalarValue(bs[i]) as int]) == ScalarValue(bs[i]);
      RemainderCongruent(Sum(Scalars(bs[..i])), c.order);
      CongruentAdd(acc, Sum(Scalars(bs[..i])), ScalarValue(bs[i]), ScalarValue(bs[i]), c.order);
      acc := Rem(acc + ScalarValue(bs[i]), c.order);
    }
    assert bs[..|bs|] == bs;
    return ScalarBytes(acc);
  }

  function BlindSub(c: Curve, a: Bytes32, b: Bytes32): Bytes32
    requires c.order > 0
  {
    ScalarBytes(Rem(ScalarValue(a) - ScalarValue(b), c.order))
  }

  /** `sender_blind_excess`: outputs minus inputs minus offset. */
  function SenderBlindExcess(c: Curve, inputs: seq<Bytes32>, outputs: seq<Bytes32>, offset: Bytes32): Bytes32
    requires c.order > 0
  {
    BlindSub(c, BlindSub(c, BlindSum(c, outputs), BlindSum(c, inputs)), offset)
  }

  /** The sign convention, on scalars. */
  lemma ExcessScalar(c: Curve, inputs: seq<Bytes32>, outputs: seq<Bytes32>, offset: Bytes32)
    requires c.Valid() && AllCanonical(c, inputs) && AllCanonical(c, outputs) && Canonical(c, offset)
    ensures var e := ScalarValue(SenderBlindExcess(c, inputs, outputs, offset));
            && e < c.order
            && Congruent(e, Sum(Scalars(outputs)) - Sum(Scalars(inputs)) - ScalarValue(offset), c.order)
  {
    hide Rem, Curve.Valid, ScalarBytes, ScalarValue, Sum, Scalars;
    c.OrderBounds();
    var n := c.order;
    var o, i := Sum(Scalars(outputs)), Sum(Scalars(inputs));
    ScalarRoundTrip(c, Rem(o, n));
    ScalarRoundTrip(c, Rem(i, n));
    var d := Rem(Rem(o, n) - Rem(i, n), n);
    ScalarRoundTrip(c, d);
    RemainderCongruent(o, n);
    RemainderCongruent(i, n);
    RemainderCongruent(Rem(o, n) - Rem(i, n), n);
    CongruentSub(Rem(o, n), o, Rem(i, n), i, n);
    var k: int := ScalarValue(offset);
    CongruentSub(d, o - i, k, k, n);
    RemainderCongruent(d - k, n);
    ScalarRoundTrip(c, Rem(d - k, n));
  }

  // ----- commitments as points ---------------------------------------------------------------

  function Logs(ps: seq<Point>): (ks: seq<int>)
    ensures |ks| == |ps|
  {
    if ps == [] then [] else [ps[0].log] + Logs(ps[1..])
  }

  function SumPoints(c: Curve, ps: seq<Point>): Point
    requires c.order > 0
  {
    if ps == [] then c.Gen(0) else c.Add(ps[0], SumPoints(c, ps[1..]))
  }

  lemma {:induction false} SumPointsLog(c: Curve, ps: seq<Point>)
    requires c.order > 0
    ensures SumPoints(c, ps).log == Rem(Sum(Logs(ps)), c.order)
  {
    hide Rem;
    if ps != [] {
      SumPointsLog(c, ps[1..]);
      RemainderCongruent(Sum(Logs(ps[1..])), c.order);
      CongruentAdd(ps[0].log, ps[0].log, SumPoints(c, ps[1..]).log, Sum(Logs(ps[1..])), c.order);
    }
  }

  /** `bs` are the points `ps` in commitment form. */
  ghost predicate Committed(c: Curve, bs: seq<Bytes33>, ps: seq<Point>) {
    |bs| == |ps| && forall i | 0 <= i < |ps| :: c.OnCurve(ps[i]) && CommitForm(c, ps[i]) == bs[i]
  }

  lemma CommittedUnique(c: Curve, bs: seq<Bytes33>, ps: seq<Point>, qs: seq<Point>)
    requires c.Valid() && Committed(c, bs, ps) && Committed(c, bs, qs)
    ensures ps == qs
  {
    hide Curve.Valid, CommitForm;
    forall i | 0 <= i < |ps| ensures ps[i] == qs[i] { CommitFormInjective(c, ps[i], qs[i]); }
  }

  /** What the network checks of a transaction's commitments. */
  ghost predicate Equation(c: Curve, ins: seq<Point>, outs: seq<Point>, fee: int, excess: Point, offset: int)
    requires c.order > 0
  {
    c.Add(SumPoints(c, outs), c.Times(fee, c.Gen(c.h)))
      == c.Add(c.Add(SumPoints(c, ins), excess), c.Gen(offset))
  }

  ghost predicate Balances(c: Curve, ins: seq<Bytes33>, outs: seq<Bytes33>, fee: int, excess: Bytes33, offset: int)
    requires c.order > 0
  {
    exists inPoints, outPoints, e :: Committed(c, ins, inPoints) && Committed(c, outs, outPoints)
      && Committed(c, [excess], [e]) && Equation(c, inPoints, outPoints, fee, e, offset)
  }

  lemma EquationOnLogs(c: Curve, ins: seq<Point>, outs: seq<Point>, fee: int, excess: Point, offset: int)
    requires c.order > 0
    ensures Equation(c, ins, outs, fee, excess, offset)
      <==> Congruent(Sum(Logs(outs)) + fee * c.h, Sum(Logs(ins)) + excess.log + offset, c.order)
  {
    hide Rem, Sum, Logs, SumPoints;
    var n := c.order;
    SumPointsLog(c, outs);
    SumPointsLog(c, ins);
    var o, i := Sum(Logs(outs)), Sum(Logs(ins));
    RemainderCongruent(o, n);
    RemainderCongruent(i, n);
    RemainderCongruent(c.h, n);
    CongruentScale(fee, Rem(c.h, n), c.h, n);
    RemainderCongruent(fee * Rem(c.h, n), n);
    CongruentAdd(Rem(o, n), o, Rem(fee * Rem(c.h, n), n), fee * c.h, n);
    CongruentAdd(Rem(i, n), i, excess.log, excess.log, n);
    RemainderCongruent(Rem(i, n) + excess.log, n);
    RemainderCongruent(offset, n);
    CongruentAdd(Rem(Rem(i, n) + excess.log, n), i + excess.log, Rem(offset, n), offset, n);
  }

  // ----- openings ----------------------------------------------------------------------------

  /** A value and the blind it is committed with. */
  datatype Opened = Opened(value: u64, blind: Bytes32)

  ghost predicate OpensAll(c: Curve, bs: seq<Bytes33>, os: seq<Opened>)
    requires c.order > 0
  {
    |bs| == |os| && forall i | 0 <= i < |os| :: PedersenCommit(c, os[i].value, os[i].blind) == Ok(bs[i])
  }

  function Values(os: seq<Opened>): int {
    if os == [] then 0 else os[0].value + Values(os[1..])
  }

  function Blinds(os: seq<Opened>): (bs: seq<Bytes32>)
    ensures |bs| == |os|
  {
    if os == [] then [] else [os[0].blind] + Blinds(os[1..])
  }

  lemma {:induction false} ValuesAppend(a: seq<Opened>, b: seq<Opened>)
    ensures Values(a + b) == Values(a) + Values(b) && Blinds(a + b) == Blinds(a) + Blinds(b)
  {
    if a == [] {
      assert a + b == b;
    } else {
      ValuesAppend(a[1..], b);
      assert (a + b)[0] == a[0] && (a + b)[1..] == a[1..] + b;
    }
  }

  function OpenedPoints(c: Curve, os: seq<Opened>): (ps: seq<Point>)
    requires c.order > 0
    ensures |ps| == |os|
    ensures forall i | 0 <= i < |os| :: ps[i] == Opening(c, os[i].value, ScalarValue(os[i].blind))
  {
    if os == [] then [] else [Opening(c, os[0].value, ScalarValue(os[0].blind))] + OpenedPoints(c, os[1..])
  }

  lemma OpenedCommitted(c: Curve, bs: seq<Bytes33>, os: seq<Opened>)
    requires c.order > 0 && OpensAll(c, bs, os)
    ensures Committed(c, bs, OpenedPoints(c, os))
  {
    hide Opening, CommitForm, ScalarValue;
    forall i | 0 <= i < |os|
      ensures c.OnCurve(OpenedPoints(c, os)[i]) && CommitForm(c, OpenedPoints(c, os)[i]) == bs[i]
    {
      assert PedersenCommit(c, os[i].value, os[i].blind) == Ok(bs[i]);
    }
  }

  /** Openings add up: values on H, blinds on G. */
  lemma {:induction false} OpenedLogs(c: Curve, os: seq<Opened>)
    requires c.order > 0
    ensures Congruent(Sum(Logs(OpenedPoints(c, os))), Values(os) * c.h + Sum(Scalars(Blinds(os))), c.order)
  {
    hide Rem, ScalarValue;
    if os != [] {
      OpenedLogs(c, os[1..]);
      var first := os[0].value * c.h + ScalarValue(os[0].blind);
      RemainderCongruent(first, c.order);
      CongruentAdd(Rem(first, c.order), first, Sum(Logs(OpenedPoints(c, os[1..]))),
                   Values(os[1..]) * c.h + Sum(Scalars(Blinds(os[1..]))), c.order);
      assert (os[0].value + Values(os[1..])) * c.h == os[0].value * c.h + Values(os[1..]) * c.h;
    }
  }

  lemma NoMultipleOfH(c: Curve, k: int)
    requires c.Valid() && k + c.order > 0 && k < c.order
    ensures Congruent(k * c.h, 0, c.order) <==> k == 0
  {
    hide Rem, Curve.Valid;
    c.OrderBounds();
    SmallIsRemainder(0, c.order);
    if k == 0 {
      assert k * c.h == 0;
    } else if k > 0 {
      c.NothingKillsH(k);
    } else {
      c.NothingKillsH(-k);
      assert -1 * (k * c.h) == -k * c.h;
      if Congruent(k * c.h, 0, c.order) {
        CongruentScale(-1, k * c.h, 0, c.order);
      }
    }
  }

  /** With the excess the code signs for, the equation holds exactly when the values do: what goes in is
      what comes out plus the fee. */
  lemma BalanceExact(
    c: Curve, ins: seq<Bytes33>, inOpen: seq<Opened>, outs: seq<Bytes33>, outOpen: seq<Opened>, fee: int,
    e: int, offset: int)
    requires c.Valid() && OpensAll(c, ins, inOpen) && OpensAll(c, outs, outOpen)
    requires 0 < e < c.order
    requires Congruent(e, Sum(Scalars(Blinds(outOpen))) - Sum(Scalars(Blinds(inOpen))) - offset, c.order)
    requires 0 <= Values(inOpen) < c.order && 0 <= Values(outOpen) + fee < c.order
    ensures Balances(c, ins, outs, fee, CommitForm(c, Point(e)), offset)
      <==> Values(inOpen) == Values(outOpen) + fee
  {
    hide Rem, Curve.Valid, CommitForm, Equation, Sum, Scalars, Blinds, Values, Logs, OpenedPoints, OpensAll;
    c.OrderBounds();
    var inPoints, outPoints := OpenedPoints(c, inOpen), OpenedPoints(c, outOpen);
    OpenedCommitted(c, ins, inOpen);
    OpenedCommitted(c, outs, outOpen);
    EquationOnValues(c, inOpen, outOpen, fee, e, offset);
    if Balances(c, ins, outs, fee, CommitForm(c, Point(e)), offset) {
      var ip, op, ep :| Committed(c, ins, ip) && Committed(c, outs, op) && Committed(c, [CommitForm(c, Point(e))], [ep])
        && Equation(c, ip, op, fee, ep, offset);
      CommittedUnique(c, ins, ip, inPoints);
      CommittedUnique(c, outs, op, outPoints);
      CommittedUnique(c, [CommitForm(c, Point(e))], [ep], [Point(e)]);
      assert [ep][0] == [Point(e)][0];
    } else {
      assert Committed(c, [CommitForm(c, Point(e))], [Point(e)]);
    }
  }

  lemma EquationOnValues(c: Curve, inOpen: seq<Opened>, outOpen: seq<Opened>, fee: int, e: int, offset: int)
    requires c.Valid()
    requires Congruent(e, Sum(Scalars(Blinds(outOpen))) - Sum(Scalars(Blinds(inOpen))) - offset, c.order)
    requires 0 <= Values(inOpen) < c.order && 0 <= Values(outOpen) + fee < c.order
    ensures Equation(c, OpenedPoints(c, inOpen), OpenedPoints(c, outOpen), fee, Point(e), offset)
      <==> Values(inOpen) == Values(outOpen) + fee
  {
    hide Rem, Curve.Valid, Equation, Sum, Scalars, Blinds, Values, Logs, OpenedPoints;
    c.OrderBounds();
    EquationOnLogs(c, OpenedPoints(c, inOpen), OpenedPoints(c, outOpen), fee, Point(e), offset);
    OpenedLogs(c, inOpen);
    OpenedLogs(c, outOpen);
    NoMultipleOfH(c, Values(outOpen) + fee - Values(inOpen));
    LogsToValues(c.order, c.h, Sum(Logs(OpenedPoints(c, outOpen))), Sum(Logs(OpenedPoints(c, inOpen))),
                 Values(outOpen), Values(inOpen), fee, Sum(Scalars(Blinds(outOpen))),
                 Sum(Scalars(Blinds(inOpen))), e, offset);
  }

  /** The blinds cancel against the excess and the offset; what is left is a multiple of H. */
  lemma LogsToValues(
    n: int, h: int, outLog: int, inLog: int, vo: int, vi: int, fee: int, ro: int, ri: int, e: int, offset: int)
    requires n > 0
    requires Congruent(outLog, vo * h + ro, n) && Congruent(inLog, vi * h + ri, n)
    requires Congruent(e, ro - ri - offset, n)
    ensures Congruent(outLog + fee * h, inLog + e + offset, n) <==> Congruent((vo + fee - vi) * h, 0, n)
  {
    hide Rem;
    CongruentAdd(outLog, vo * h + ro, fee * h, fee * h, n);
    CongruentAdd(inLog, vi * h + ri, e, ro - ri - offset, n);
    CongruentAdd(inLog + e, vi * h + ro - offset, offset, offset, n);
    var l, r := vo * h + ro + fee * h, vi * h + ro;
    assert (vo + fee - vi) * h == vo * h + fee * h - vi * h;
    if Congruent(l, r, n) {
      CongruentSub(l, r, r, r, n);
    }
    if Congruent((vo + fee - vi) * h, 0, n) {
      CongruentAdd((vo + fee - vi) * h, 0, r, r, n);
    }
  }
}
