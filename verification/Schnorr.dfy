/** Grin's Schnorr signatures, single-party and aggregated (crates/grin-ext/src/schnorr.rs). */
module Schnorr {
  import opened Outcomes
  import opened ByteStrings
  import opened Modular
  import opened Curves

  /** `pubkey_y_is_qr`. */
  predicate IsQrKey(c: Curve, key: Bytes33) {
    match c.decode(key)
    case Some(p) => c.yIsQr(p)
    case None => false
  }

  /** The nonce with the prefix of its square-y branch. */
  function QrForm(c: Curve, r: Bytes33): Bytes33 {
    [if (r[0] == 2) == IsQrKey(c, r) then 2 else 3] + r[1..]
  }

  /** `challenge_hash`: the prefix of the nonce is dropped. */
  function Challenge(c: Curve, r: Bytes33, p: Bytes33, msg: Bytes32): (e: nat)
    requires c.order > 0
    ensures e < c.order
  {
    Rem(c.challenge(r[1..], p, msg), c.order)
  }

  /** A nonce as its participant uses it: negated when the nonce point has a non-square y. */
  function Signed(isQr: bool, k: int): int {
    if isQr then k else -k
  }

  /** The response of a signer with key `x` to challenge `e`. */
  function Response(isQr: bool, k: int, e: int, x: int): int {
    Signed(isQr, k) + e * x
  }

  function SignWithNonce(c: Curve, secretKey: Bytes32, secretNonce: Bytes32, msg: Bytes32): Outcome<Bytes64>
    requires c.order > 0
  {
    match NonZero(c, secretKey)
    case None => Err("invalid secret key")
    case Some(x) =>
      match NonZero(c, secretNonce)
      case None => Err("invalid nonce")
      case Some(k) =>
        var p := c.encode(c.Gen(x));
        var r := c.encode(c.Gen(k));
        var rQr := QrForm(c, r);
        var s := Rem(Response(IsQrKey(c, r), k, Challenge(c, rQr, p, msg), x), c.order);
        Ok(rQr[1..] + ScalarBytes(s))
  }

  function Verify(c: Curve, sig: Bytes64, msg: Bytes32, publicKey: Bytes33): Outcome<bool>
    requires c.order > 0
  {
    match c.decode(publicKey)
    case None => Err("invalid public key")
    case Some(p) =>
      var rEven := [2] + sig[..32];
      var rOdd := [3] + sig[..32];
      var rQr := if IsQrKey(c, rEven) then rEven else rOdd;
      match NonZero(c, sig[32..])
      case None => Err("invalid s scalar")
      case Some(s) => Ok(ChecksWith(c, rQr, c.encode(p), msg, p, c.Gen(s)))
  }

  /** `check_with_r`. */
  predicate ChecksWith(c: Curve, r: Bytes33, pBytes: Bytes33, msg: Bytes32, p: Point, lhs: Point)
    requires c.order > 0
  {
    match c.decode(r)
    case None => false
    case Some(rPoint) => lhs == c.Add(rPoint, c.Times(Challenge(c, r, pBytes, msg), p))
  }

  function PointAdd(c: Curve, a: Bytes33, b: Bytes33): Outcome<Bytes33>
    requires c.order > 0
  {
    match c.decode(a)
    case None => Err("invalid first pubkey")
    case Some(p) =>
      match c.decode(b)
      case None => Err("invalid second pubkey")
      case Some(q) =>
        if c.OnCurve(c.Add(p, q)) then Ok(c.encode(c.Add(p, q))) else Err("sum is identity / invalid")
  }

  function AddPoints(c: Curve, acc: Bytes33, rest: seq<Bytes33>): Outcome<Bytes33>
    requires c.order > 0
    decreases |rest|
  {
    if rest == [] then Ok(acc) else
    var acc :- PointAdd(c, acc, rest[0]);
    AddPoints(c, acc, rest[1..])
  }

  function Total(c: Curve, points: seq<Bytes33>): Outcome<Bytes33>
    requires c.order > 0
  {
    if points == [] then Err("cannot sum zero points") else AddPoints(c, points[0], points[1..])
  }

  /** `point_sum`. */
  method PointSum(c: Curve, points: seq<Bytes33>) returns (r: Outcome<Bytes33>)
    requires c.order > 0
    ensures r == Total(c, points)
  {
    if |points| == 0 {
      return Err("cannot sum zero points");
    }
    var acc := points[0];
    for i := 1 to |points|
      invariant AddPoints(c, acc, points[i..]) == AddPoints(c, points[0], points[1..])
    {
      assert points[i..][0] == points[i] && points[i..][1..] == points[i + 1..];
      acc :- PointAdd(c, acc, points[i]);
    }
    return Ok(acc);
  }

  function PartialSign(
    c: Curve, secretKey: Bytes32, secretNonce: Bytes32, nonceTotal: Bytes33, keyTotal: Bytes33, msg: Bytes32)
    : Outcome<Bytes32>
    requires c.order > 0
  {
    match NonZero(c, secretKey)
    case None => Err("invalid secret key")
    case Some(x) =>
      match NonZero(c, secretNonce)
      case None => Err("invalid nonce")
      case Some(k) => Ok(ScalarBytes(PartialScalar(c, x, k, nonceTotal, keyTotal, msg)))
  }

  function PartialScalar(c: Curve, x: int, k: int, nonceTotal: Bytes33, keyTotal: Bytes33, msg: Bytes32): (s: nat)
    requires c.order > 0
    ensures s < c.order
  {
    Rem(Response(IsQrKey(c, nonceTotal), k, Challenge(c, QrForm(c, nonceTotal), keyTotal, msg), x), c.order)
  }

  function PartialVerify(
    c: Curve, partial: Bytes32, nonce: Bytes33, key: Bytes33, nonceTotal: Bytes33, keyTotal: Bytes33, msg: Bytes32)
    : Outcome<bool>
    requires c.order > 0
  {
    match NonZero(c, partial)
    case None => Err("invalid partial s scalar")
    case Some(s) =>
      match c.decode(nonce)
      case None => Err("invalid R_i")
      case Some(r) =>
        match c.decode(key)
        case None => Err("invalid P_i")
        case Some(p) =>
          var e := Challenge(c, QrForm(c, nonceTotal), keyTotal, msg);
          var rUsed := if IsQrKey(c, nonceTotal) then r else c.Neg(r);
          Ok(c.Gen(s) == c.Add(rUsed, c.Times(e, p)))
  }

  function AddScalars(c: Curve, acc: nat, rest: seq<Bytes32>): Outcome<Bytes32>
    requires c.order > 0
    decreases |rest|
  {
    if rest == [] then Ok(ScalarBytes(acc)) else
    match NonZero(c, rest[0])
    case None => Err("invalid partial")
    case Some(s) => AddScalars(c, Rem(acc + s, c.order), rest[1..])
  }

  function Aggregate(c: Curve, partials: seq<Bytes32>): Outcome<Bytes32>
    requires c.order > 0
  {
    if partials == [] then Err("cannot aggregate zero partials") else
    match NonZero(c, partials[0])
    case None => Err("invalid first partial")
    case Some(s) => AddScalars(c, s, partials[1..])
  }

  method AggregatePartials(c: Curve, partials: seq<Bytes32>) returns (r: Outcome<Bytes32>)
    requires c.order > 0
    ensures r == Aggregate(c, partials)
  {
    if |partials| == 0 {
      return Err("cannot aggregate zero partials");
    }
    var first := NonZero(c, partials[0]);
    if first.None? {
      return Err("invalid first partial");
    }
    var acc: nat := first.value;
    for i := 1 to |partials|
      invariant AddScalars(c, acc, partials[i..]) == Aggregate(c, partials)
    {
      assert partials[i..][0] == partials[i] && partials[i..][1..] == partials[i + 1..];
      var s := NonZero(c, partials[i]);
      if s.None? {
        return Err("invalid partial");
      }
      acc := Rem(acc + s.value, c.order);
    }
    return Ok(ScalarBytes(acc));
  }

  /** `final_signature`. */
  function FinalSignature(nonceTotal: Bytes33, aggregate: Bytes32): Bytes64 {
    nonceTotal[1..] + aggregate
  }

  // ----- what the checks mean ----------------------------------------------------------------

  /** The verifier, given only x, finds the square-y branch of the nonce point. */
  lemma RecoversQrBranch(c: Curve, r: Point)
    requires c.Valid() && c.OnCurve(r)
    ensures var x := c.encode(r)[1..];
            var rEven := [2] + x; var rOdd := [3] + x;
            c.decode(if IsQrKey(c, rEven) then rEven else rOdd) == Some(c.QrBranch(r))
  {
    var q := c.QrBranch(r);
    c.QrBranchSquare(r);
    c.NegOnCurve(r);
    c.NegOnCurve(q);
    assert c.Encodes(r) && c.Encodes(q) && c.Encodes(c.Neg(q));
    var x := c.encode(r)[1..];
    assert c.encode(q) == [c.encode(q)[0]] + x;
    assert c.encode(c.Neg(q)) == [c.encode(c.Neg(q))[0]] + x;
  }

  /** The nonce with its new prefix is the branch with a square y. */
  lemma QrFormIsBranch(c: Curve, r: Point)
    requires c.Valid() && c.OnCurve(r)
    ensures QrForm(c, c.encode(r)) == c.encode(c.QrBranch(r))
  {
    c.QrBranchSquare(r);
    c.NegOnCurve(r);
    c.EncodesAt(r);
    c.EncodesAt(c.QrBranch(r));
    var q := c.encode(c.QrBranch(r));
    assert q == [q[0]] + q[1..];
  }

  /** What a signature over a known nonce point and key verifies to: an error when its scalar is zero, and
      otherwise whether s·G is the square-y nonce plus the challenge times the key. */
  lemma VerifyMeans(c: Curve, r: Point, p: Point, s: nat, msg: Bytes32)
    requires c.Valid() && c.OnCurve(r) && c.OnCurve(p) && s < c.order
    ensures Verify(c, FinalSignature(c.encode(r), ScalarBytes(s)), msg, c.encode(p))
         == if s == 0 then Err("invalid s scalar")
            else Ok(c.Gen(s) == c.Add(c.QrBranch(r), c.Times(Challenge(c, c.encode(r), c.encode(p), msg), p)))
  {
    hide ScalarBytes;
    var sig := FinalSignature(c.encode(r), ScalarBytes(s));
    assert sig[..32] == c.encode(r)[1..] && sig[32..] == ScalarBytes(s);
    assert c.Encodes(p);
    RecoversQrBranch(c, r);
    NonZeroOf(c, s);
  }

  /** The same for one participant's share. */
  lemma PartialVerifyMeans(
    c: Curve, s: nat, r: Point, p: Point, nonceTotal: Bytes33, keyTotal: Bytes33, msg: Bytes32)
    requires c.Valid() && c.OnCurve(r) && c.OnCurve(p) && s < c.order
    ensures PartialVerify(c, ScalarBytes(s), c.encode(r), c.encode(p), nonceTotal, keyTotal, msg)
         == if s == 0 then Err("invalid partial s scalar")
            else Ok(c.Gen(s) == c.Add(if IsQrKey(c, nonceTotal) then r else c.Neg(r),
                                      c.Times(Challenge(c, nonceTotal, keyTotal, msg), p)))
  {
    hide ScalarBytes;
    assert c.Encodes(r) && c.Encodes(p);
    assert QrForm(c, nonceTotal)[1..] == nonceTotal[1..];
    NonZeroOf(c, s);
  }

  /** (±k + e·x)·G is the sum of the branch of k·G that ±k picks and e times x·G, whatever the integers. */
  lemma ResponsePoint(c: Curve, isQr: bool, k: int, e: int, x: int, s: int)
    requires c.Valid() && Congruent(s, Response(isQr, k, e, x), c.order)
    ensures c.Gen(s) == c.Add(if isQr then c.Gen(k) else c.Neg(c.Gen(k)), c.Times(e, c.Gen(x)))
  {
    var n := c.order;
    RemainderCongruent(k, n);
    RemainderCongruent(x, n);
    CongruentScale(-1, Rem(k, n), k, n);
    CongruentScale(e, Rem(x, n), x, n);
    var nonce := if isQr then c.Gen(k) else c.Neg(c.Gen(k));
    RemainderCongruent(-Rem(k, n), n);
    assert Congruent(nonce.log, Signed(isQr, k), n);
    RemainderCongruent(e * Rem(x, n), n);
    assert Congruent(c.Times(e, c.Gen(x)).log, e * x, n);
    CongruentAdd(nonce.log, Signed(isQr, k), c.Times(e, c.Gen(x)).log, e * x, n);
  }

  /** The equation of the scheme: s is ±k + h·x, with the sign of the branch. */
  ghost predicate IsResponse(c: Curve, s: int, square: bool, k: int, h: int, x: int)
    requires c.order > 0
  {
    Congruent(s, (if square then k else -k) + h * x, c.order)
  }

  /** A challenge is a multiplier only up to the order. */
  lemma ChallengeReduced(c: Curve, k: int, h: int, x: int)
    requires c.order > 0
    ensures Congruent(k + Rem(h, c.order) * x, k + h * x, c.order)
  {
    hide Rem;
    RemainderCongruent(h, c.order);
    CongruentScale(x, Rem(h, c.order), h, c.order);
    CongruentAdd(k, k, x * Rem(h, c.order), x * h, c.order);
  }

  /** What the verifier decides about any 64 bytes whose first half is the x coordinate of a point, under any
      key: the second half, as a number, must be the logarithm of the branch with a square y plus the key's
      times the hash of the nonce's x, the key and the message. */
  lemma VerifyExact(c: Curve, sig: Bytes64, msg: Bytes32, key: Bytes33, r: Point)
    requires c.Valid() && c.OnCurve(r) && c.encode(r)[1..] == sig[..32]
    ensures var s := BeValue(sig[32..]);
      Verify(c, sig, msg, key) == match c.decode(key)
        case None => Err("invalid public key")
        case Some(p) =>
          if s == 0 || s >= c.order then Err("invalid s scalar")
          else Ok(IsResponse(c, s, c.yIsQr(r), r.log, c.challenge(sig[..32], c.encode(p), msg), p.log))
  {
    hide BeValue, Rem, Curve.Valid;
    c.OrderBounds();
    RecoversQrBranch(c, r);
    match c.decode(key)
    case None =>
    case Some(p) =>
      var s: int := BeValue(sig[32..]);
      if 0 < s < c.order {
        var h: int := c.challenge(sig[..32], c.encode(p), msg);
        var k := if c.yIsQr(r) then r.log else -r.log;
        VerifiedLog(c, r, k, h, p);
        SmallIsRemainder(s, c.order);
      }
  }

  /** The logarithm of the branch of a nonce plus a challenge times a key. */
  lemma VerifiedLog(c: Curve, r: Point, k: int, h: int, p: Point)
    requires c.order > 0 && k == if c.yIsQr(r) then r.log else -r.log
    ensures c.Add(c.QrBranch(r), c.Times(Rem(h, c.order), p)).log == Rem(k + h * p.log, c.order)
  {
    hide Rem;
    var e := Rem(h, c.order);
    RemainderCongruent(-r.log, c.order);
    RemainderCongruent(e * p.log, c.order);
    CongruentAdd(c.QrBranch(r).log, k, Rem(e * p.log, c.order), e * p.log, c.order);
    ChallengeReduced(c, k, h, p.log);
  }

  /** No point, no signature. */
  lemma UnknownNonceRefused(c: Curve, sig: Bytes64, msg: Bytes32, key: Bytes33)
    requires c.order > 0 && c.decode([2] + sig[..32]).None? && c.decode([3] + sig[..32]).None?
    ensures Verify(c, sig, msg, key) != Ok(true)
  {
  }

  /** What `partial_verify` decides: the same equation with the participant's own nonce and key, the branch and
      the hash taken from the totals. */
  lemma PartialVerifyExact(
    c: Curve, partial: Bytes32, nonce: Bytes33, key: Bytes33, nonceTotal: Bytes33, keyTotal: Bytes33, msg: Bytes32)
    requires c.Valid() && c.decode(nonce).Some? && c.decode(key).Some?
    ensures var s, r, p := BeValue(partial), c.decode(nonce).value.log, c.decode(key).value.log;
      var square := c.decode(nonceTotal).Some? && c.yIsQr(c.decode(nonceTotal).value);
      PartialVerify(c, partial, nonce, key, nonceTotal, keyTotal, msg)
        == if s == 0 || s >= c.order then Err("invalid partial s scalar")
           else Ok(IsResponse(c, s, square, r, c.challenge(nonceTotal[1..], keyTotal, msg), p))
  {
    hide BeValue, Rem, Curve.Valid;
    c.OrderBounds();
    assert QrForm(c, nonceTotal)[1..] == nonceTotal[1..];
    var s: int := BeValue(partial);
    if 0 < s < c.order {
      var r, p := c.decode(nonce).value, c.decode(key).value;
      var n, e := c.order, Challenge(c, QrForm(c, nonceTotal), keyTotal, msg);
      var used := if IsQrKey(c, nonceTotal) then r else c.Neg(r);
      var k := if IsQrKey(c, nonceTotal) then r.log else -r.log;
      RemainderCongruent(-r.log, n);
      RemainderCongruent(e * p.log, n);
      CongruentAdd(used.log, k, Rem(e * p.log, n), e * p.log, n);
      ChallengeReduced(c, k, c.challenge(nonceTotal[1..], keyTotal, msg), p.log);
      SmallIsRemainder(s, n);
    }
  }

  /** What `partial_sign` returns, as numbers. */
  lemma PartialSignExact(
    c: Curve, secretKey: Bytes32, secretNonce: Bytes32, nonceTotal: Bytes33, keyTotal: Bytes33, msg: Bytes32)
    requires c.Valid()
    ensures var x, k := BeValue(secretKey), BeValue(secretNonce);
      var r := PartialSign(c, secretKey, secretNonce, nonceTotal, keyTotal, msg);
      var square := c.decode(nonceTotal).Some? && c.yIsQr(c.decode(nonceTotal).value);
      && (r.Ok? <==> 0 < x < c.order && 0 < k < c.order)
      && (r.Ok? ==>
            && BeValue(r.value) < c.order
            && IsResponse(c, BeValue(r.value), square, k, c.challenge(nonceTotal[1..], keyTotal, msg), x))
  {
    hide BeValue, BeBytes, Rem, Curve.Valid;
    c.OrderBounds();
    assert QrForm(c, nonceTotal)[1..] == nonceTotal[1..];
    var x: int, k: int := BeValue(secretKey), BeValue(secretNonce);
    var h: int := c.challenge(nonceTotal[1..], keyTotal, msg);
    if 0 < x < c.order && 0 < k < c.order {
      var signed := if IsQrKey(c, nonceTotal) then k else -k;
      var s := Rem(signed + Rem(h, c.order) * x, c.order);
      ScalarRoundTrip(c, s);
      RemainderCongruent(signed + Rem(h, c.order) * x, c.order);
      ChallengeReduced(c, signed, h, x);
    }
  }

  // ----- single signer -----------------------------------------------------------------------

  /** A signature made with a valid key and nonce verifies against the key, on both branches; only the
      one nonce that makes the response zero yields a signature the verifier refuses to read. */
  lemma SignVerifies(c: Curve, secretKey: Bytes32, secretNonce: Bytes32, msg: Bytes32)
    requires c.Valid()
    ensures SignWithNonce(c, secretKey, secretNonce, msg).Ok? <==>
      NonZero(c, secretKey).Some? && NonZero(c, secretNonce).Some?
    ensures SignWithNonce(c, secretKey, secretNonce, msg).Ok? ==>
      var sig := SignWithNonce(c, secretKey, secretNonce, msg).value;
      Verify(c, sig, msg, PublicKey(c, secretKey).value)
        == if ScalarValue(sig[32..]) == 0 then Err("invalid s scalar") else Ok(true)
  {
    hide Curve.Valid, Rem, Response, Verify, ScalarBytes, ScalarValue, Challenge;
    c.OrderBounds();
    if SignWithNonce(c, secretKey, secretNonce, msg).Ok? {
      var x := NonZero(c, secretKey).value;
      var k := NonZero(c, secretNonce).value;
      PublicKeyDecodes(c, secretKey);
      PublicKeyDecodes(c, secretNonce);
      var r := c.encode(Point(k));
      var p := c.encode(Point(x));
      ChallengeIgnoresPrefix(c, r, p, msg);
      var e := Challenge(c, r, p, msg);
      var total := Response(c.yIsQr(Point(k)), k, e, x);
      var s := Rem(total, c.order);
      assert SignWithNonce(c, secretKey, secretNonce, msg).value == FinalSignature(r, ScalarBytes(s));
      assert FinalSignature(r, ScalarBytes(s))[32..] == ScalarBytes(s);
      ScalarRoundTrip(c, s);
      VerifyMeans(c, Point(k), Point(x), s, msg);
      RemainderCongruent(total, c.order);
      ResponsePoint(c, c.yIsQr(Point(k)), k, e, x, s);
    }
  }

  /** What the signature says, as numbers: the nonce's x coordinate, then the response. */
  lemma SignExact(c: Curve, secretKey: Bytes32, secretNonce: Bytes32, msg: Bytes32)
    requires c.Valid() && SignWithNonce(c, secretKey, secretNonce, msg).Ok?
    ensures var x, k := BeValue(secretKey), BeValue(secretNonce);
      var sig := SignWithNonce(c, secretKey, secretNonce, msg).value;
      && sig[..32] == c.encode(Point(k))[1..] && BeValue(sig[32..]) < c.order
      && IsResponse(c, BeValue(sig[32..]), c.yIsQr(Point(k)), k, c.challenge(sig[..32], c.encode(Point(x)), msg), x)
  {
    hide BeValue, BeBytes, Rem, Curve.Valid;
    c.OrderBounds();
    var x: int, k: int := NonZero(c, secretKey).value, NonZero(c, secretNonce).value;
    PublicKeyDecodes(c, secretKey);
    PublicKeyDecodes(c, secretNonce);
    var r, p := c.encode(Point(k)), c.encode(Point(x));
    assert QrForm(c, r)[1..] == r[1..];
    var h: int := c.challenge(r[1..], p, msg);
    var signed := if c.yIsQr(Point(k)) then k else -k;
    var total := signed + Rem(h, c.order) * x;
    var sig := SignWithNonce(c, secretKey, secretNonce, msg).value;
    assert sig == r[1..] + ScalarBytes(Rem(total, c.order));
    assert sig[..32] == r[1..] && sig[32..] == ScalarBytes(Rem(total, c.order));
    ScalarRoundTrip(c, Rem(total, c.order));
    RemainderCongruent(total, c.order);
    ChallengeReduced(c, signed, h, x);
  }

  lemma ChallengeIgnoresPrefix(c: Curve, r: Bytes33, p: Bytes33, msg: Bytes32)
    requires c.order > 0
    ensures Challenge(c, QrForm(c, r), p, msg) == Challenge(c, r, p, msg)
  {
    assert QrForm(c, r)[1..] == r[1..];
  }

  /** For one nonce and key, one response verifies. */
  lemma OneResponseVerifies(c: Curve, r: Point, p: Point, s: nat, s': nat, msg: Bytes32)
    requires c.Valid() && c.OnCurve(r) && c.OnCurve(p) && s < c.order && s' < c.order
    requires Verify(c, FinalSignature(c.encode(r), ScalarBytes(s)), msg, c.encode(p)) == Ok(true)
    requires Verify(c, FinalSignature(c.encode(r), ScalarBytes(s')), msg, c.encode(p)) == Ok(true)
    ensures s == s'
  {
    hide Verify, FinalSignature, ScalarBytes, Challenge;
    VerifyMeans(c, r, p, s, msg);
    VerifyMeans(c, r, p, s', msg);
    SmallIsRemainder(s, c.order);
    SmallIsRemainder(s', c.order);
  }

  /** `partial_verify` accepts one scalar and no other. */
  lemma OnePartialVerifies(
    c: Curve, partial: Bytes32, partial': Bytes32, nonce: Bytes33, key: Bytes33, nonceTotal: Bytes33,
    keyTotal: Bytes33, msg: Bytes32)
    requires c.Valid()
    requires PartialVerify(c, partial, nonce, key, nonceTotal, keyTotal, msg) == Ok(true)
    requires PartialVerify(c, partial', nonce, key, nonceTotal, keyTotal, msg) == Ok(true)
    ensures partial == partial'
  {
    hide ScalarValue, Challenge;
    SmallIsRemainder(NonZero(c, partial).value, c.order);
    SmallIsRemainder(NonZero(c, partial').value, c.order);
    ScalarInjective(partial, partial');
  }
}
