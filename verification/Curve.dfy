/** The group the Grin signatures and commitments live in: secp256k1 (section 2.4.1 of SEC 2 version
    2.0), as a cyclic group of `order` elements with generators G and H, and the three byte encodings
    the code reads and writes: scalars, compressed public keys and commitments. */
module Curves {
  import opened Outcomes
  import opened ByteStrings
  import opened Modular

  /** The point log·G. Every point of the group is one, for exactly one log below the order. */
  datatype Point = Point(log: int)

  /** The curve as its users see it. `h` is the discrete logarithm of H, which nobody knows and nothing
      here depends on. */
  datatype Curve = Curve(
    order: nat,
    h: nat,
    encode: Point -> Bytes33,           // SEC1 compressed form
    decode: Bytes33 -> Option<Point>,
    yIsQr: Point -> bool,               // the y coordinate is a square
    challenge: (Bytes, Bytes, Bytes) -> nat)  // SHA-256 of R.x, P and the message
  {
    predicate OnCurve(p: Point) {
      0 < p.log < order
    }

    function Gen(k: int): (p: Point)
      requires order > 0
    {
      Point(Rem(k, order))
    }

    function Add(p: Point, q: Point): Point
      requires order > 0
    {
      Gen(p.log + q.log)
    }

    function Neg(p: Point): Point
      requires order > 0
    {
      Gen(-p.log)
    }

    function Times(e: int, p: Point): Point
      requires order > 0
    {
      Gen(e * p.log)
    }

    /** What the code relies on: the group is no larger than 32 bytes can number, H generates it too,
        compression keeps a prefix byte for the sign of y and the x coordinate, which a point shares
        with its negation alone, and a square y has a non-square negation. */
    ghost predicate Valid() {
      && 2 < order < Pow256(32)
      && 0 < h < order
      && (forall k | 0 < k < order :: !KillsH(k))
      && (forall p | OnCurve(p) :: Encodes(p))
      && (forall b, p :: decode(b) == Some(p) ==> OnCurve(p))
    }

    /** k·H is the identity. */
    ghost predicate KillsH(k: int)
      requires order > 0
    {
      Rem(k * h, order) == 0
    }

    lemma NothingKillsH(k: int)
      requires Valid() && 0 < k < order
      ensures Rem(k * h, order) != 0
    {
      assert !KillsH(k);
    }

    ghost predicate Encodes(p: Point)
      requires order > 0
    {
      && decode(encode(p)) == Some(p)
      && (encode(p)[0] == 2 || encode(p)[0] == 3)
      && encode(Neg(p))[1..] == encode(p)[1..]
      && encode(Neg(p))[0] != encode(p)[0]
      && yIsQr(Neg(p)) != yIsQr(p)
    }

    lemma OrderBounds()
      requires Valid()
      ensures 2 < order
    {
    }

    lemma EncodesAt(p: Point)
      requires Valid() && OnCurve(p)
      ensures Encodes(p)
    {
    }

    lemma NegOnCurve(p: Point)
      requires order > 0 && OnCurve(p)
      ensures OnCurve(Neg(p)) && Neg(p).log == order - p.log && Neg(Neg(p)) == p
    {
      RemainderUnique(-p.log, -1, order - p.log, order);
      RemainderUnique(-(order - p.log), -1, p.log, order);
    }

    lemma EncodeInjective(p: Point, q: Point)
      requires Valid() && OnCurve(p) && OnCurve(q) && encode(p) == encode(q)
      ensures p == q
    {
      assert Encodes(p) && Encodes(q);
    }

    /** The x coordinate names a point up to its sign. */
    lemma SameX(p: Point, q: Point)
      requires Valid() && OnCurve(p) && OnCurve(q)
      ensures encode(p)[1..] == encode(q)[1..] <==> p == q || p == Neg(q)
    {
      NegOnCurve(q);
      assert Encodes(p) && Encodes(q) && Encodes(Neg(q));
      if encode(p)[1..] == encode(q)[1..] {
        var s := if encode(p)[0] == encode(q)[0] then q else Neg(q);
        assert encode(p) == [encode(p)[0]] + encode(p)[1..];
        assert encode(s) == [encode(s)[0]] + encode(s)[1..];
        EncodeInjective(p, s);
      }
    }

    /** Of a point and its negation, the one with a square y. */
    function QrBranch(p: Point): Point
      requires order > 0
    {
      if yIsQr(p) then p else Neg(p)
    }

    lemma QrBranchSquare(p: Point)
      requires Valid() && OnCurve(p)
      ensures OnCurve(QrBranch(p)) && yIsQr(QrBranch(p))
    {
      NegOnCurve(p);
      assert Encodes(p);
    }
  }

  // ----- scalars -----------------------------------------------------------------------------

  function ScalarBytes(s: nat): Bytes32 {
    BeBytes(s, 32)
  }

  function ScalarValue(b: Bytes32): nat {
    BeValue(b)
  }

  lemma ScalarRoundTrip(c: Curve, s: nat)
    requires c.Valid() && s < c.order
    ensures ScalarValue(ScalarBytes(s)) == s
  {
    BeValueOfBytes(s, 32);
  }

  lemma ScalarInjective(a: Bytes32, b: Bytes32)
    requires ScalarValue(a) == ScalarValue(b)
    ensures a == b
  {
    BeValueInjective(a, b);
  }

  /** 32 bytes as a non-zero scalar; zero and anything from the order up are refused. */
  function NonZero(c: Curve, b: Bytes32): Option<nat> {
    var v := ScalarValue(b);
    if 0 < v < c.order then Some(v) else None
  }

  lemma NonZeroOf(c: Curve, s: nat)
    requires c.Valid() && s < c.order
    ensures NonZero(c, ScalarBytes(s)) == if s == 0 then None else Some(s)
  {
    ScalarRoundTrip(c, s);
  }

  /** `public_key_from_secret_key`. */
  function PublicKey(c: Curve, secret: Bytes32): Outcome<Bytes33>
    requires c.order > 0
  {
    match NonZero(c, secret)
    case Some(k) => Ok(c.encode(c.Gen(k)))
    case None => Err("invalid secp256k1 secret key")
  }

  lemma PublicKeyDecodes(c: Curve, secret: Bytes32)
    requires c.Valid() && NonZero(c, secret).Some?
    ensures var k := NonZero(c, secret).value;
            c.Gen(k) == Point(k) && c.OnCurve(Point(k)) && c.decode(PublicKey(c, secret).value) == Some(Point(k))
  {
    SmallIsRemainder(NonZero(c, secret).value, c.order);
    assert c.Encodes(Point(NonZero(c, secret).value));
  }

  // ----- commitments -------------------------------------------------------------------------

  /** A point in commitment form: prefix 8 when y is a square and 9 otherwise, then x. */
  function CommitForm(c: Curve, p: Point): Bytes33 {
    [if c.yIsQr(p) then 8 else 9] + c.encode(p)[1..]
  }

  lemma CommitFormInjective(c: Curve, p: Point, q: Point)
    requires c.Valid() && c.OnCurve(p) && c.OnCurve(q)
    ensures CommitForm(c, p) == CommitForm(c, q) <==> p == q
  {
    if CommitForm(c, p) == CommitForm(c, q) {
      assert CommitForm(c, p)[0] == CommitForm(c, q)[0];
      assert CommitForm(c, p)[1..] == c.encode(p)[1..] && CommitForm(c, q)[1..] == c.encode(q)[1..];
      c.SameX(p, q);
      assert c.Encodes(q);
    }
  }

  /** v·H + r·G. */
  function Opening(c: Curve, value: int, blind: int): Point
    requires c.order > 0
  {
    c.Gen(value * c.h + blind)
  }

  /** `pedersen_commit`: refuses a blind that is no secret key, and has no form for the identity. */
  function PedersenCommit(c: Curve, value: u64, blind: Bytes32): Outcome<Bytes33>
    requires c.order > 0
  {
    match NonZero(c, blind)
    case None => Err("invalid blinding factor")
    case Some(r) =>
      if c.OnCurve(Opening(c, value, r)) then Ok(CommitForm(c, Opening(c, value, r))) else Err("commit failed")
  }

  /** When a value can be committed to, and the bytes it then has: those of the point value·H + blind·G, behind 8
      when its y is a square and 9 when not. */
  lemma PedersenExact(c: Curve, value: u64, blind: Bytes32, p: Point)
    requires c.Valid() && 0 <= p.log < c.order && Congruent(p.log, value * c.h + BeValue(blind), c.order)
    ensures PedersenCommit(c, value, blind)
         == if !(0 < BeValue(blind) < c.order) then Err("invalid blinding factor")
            else if p.log == 0 then Err("commit failed")
            else Ok([if c.yIsQr(p) then 8 else 9] + c.encode(p)[1..])
  {
    hide BeValue, Rem, Curve.Valid;
    c.OrderBounds();
    SmallIsRemainder(p.log, c.order);
  }

  /** `pubkey_to_commitment`: the same point in commitment form. */
  function PubkeyToCommitment(c: Curve, pubkey: Bytes33): Outcome<Bytes33> {
    match c.decode(pubkey)
    case Some(p) => Ok(CommitForm(c, p))
    case None => Err("invalid 33-byte compressed pubkey")
  }
}
