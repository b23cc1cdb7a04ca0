/** A group, libraries and proofs that meet what the theorems assume of them. */
module Samples {
  import opened Outcomes
  import opened ByteStrings
  import opened Modular
  import opened Curves
  import opened Keychains
  import opened Transport
  import SlateBin
  import Armors

  // ----- a group -----------------------------------------------------------------------------

  /** A group of any odd order that fits 32 bytes, with H = 2·G and -1 a non-residue: the lower half of
      the points has square y. Every challenge is `e`. */
  function SampleCurve(half: nat, e: nat): Curve {
    Curve(2 * half + 1, 2, (p: Point) => SampleEncode(half, p), (b: Bytes33) => SampleDecode(half, b),
          (p: Point) => p.log <= half, (_, _, _) => e)
  }

  /** The sign, then how far the point is from the identity. */
  function SampleEncode(half: nat, p: Point): Bytes33 {
    [if p.log <= half then 2 else 3]
      + ScalarBytes(if 0 < p.log <= half then p.log else if half < p.log <= 2 * half then 2 * half + 1 - p.log else 0)
  }

  function SampleDecode(half: nat, b: Bytes33): Option<Point> {
    var x := ScalarValue(b[1..]);
    if 0 < x <= half && (b[0] == 2 || b[0] == 3)
    then Some(Point(if b[0] == 2 then x else 2 * half + 1 - x)) else None
  }

  lemma WordReadsBack(x: nat)
    requires x < Pow256(32)
    ensures ScalarValue(ScalarBytes(x)) == x
  {
    BeValueOfBytes(x, 32);
  }

  lemma SampleDecodes(half: nat, p: Point)
    requires 0 < p.log <= 2 * half < Pow256(32)
    ensures SampleDecode(half, SampleEncode(half, p)) == Some(p)
  {
    hide ScalarBytes, ScalarValue, Pow256;
    var x := if p.log <= half then p.log else 2 * half + 1 - p.log;
    WordReadsBack(x);
    assert SampleEncode(half, p)[1..] == ScalarBytes(x);
  }

  lemma SampleDecodesPoints(half: nat, b: Bytes33)
    ensures SampleDecode(half, b).Some? ==> 0 < SampleDecode(half, b).value.log <= 2 * half
  {
    hide BeValue;
  }

  lemma SampleNegation(half: nat, p: Point)
    requires 0 < p.log <= 2 * half
    ensures SampleEncode(half, Point(2 * half + 1 - p.log))[1..] == SampleEncode(half, p)[1..]
    ensures SampleEncode(half, Point(2 * half + 1 - p.log))[0] != SampleEncode(half, p)[0]
    ensures SampleEncode(half, p)[0] == 2 || SampleEncode(half, p)[0] == 3
  {
    hide BeBytes;
  }

  lemma SamplePoint(half: nat, e: nat, p: Point)
    requires 0 < 2 * half < Pow256(32) && SampleCurve(half, e).OnCurve(p)
    ensures SampleCurve(half, e).Encodes(p)
  {
    hide SampleEncode, SampleDecode, Rem, Pow256;
    SampleCurve(half, e).NegOnCurve(p);
    assert SampleCurve(half, e).Neg(p) == Point(2 * half + 1 - p.log);
    SampleDecodes(half, p);
    SampleNegation(half, p);
  }

  lemma TwiceIsNoMultiple(k: int, half: nat)
    requires 0 < k < 2 * half + 1
    ensures Rem(k * 2, 2 * half + 1) != 0
  {
    var n := 2 * half + 1;
    if 2 * k < n {
      RemainderUnique(k * 2, 0, k * 2, n);
    } else {
      RemainderUnique(k * 2, 1, k * 2 - n, n);
    }
  }

  /** Every assumption of `Valid` can be met, by groups of any size. */
  lemma CurveExists(half: nat, e: nat)
    requires 1 <= half && 2 * half + 1 < Pow256(32)
    ensures SampleCurve(half, e).Valid()
  {
    hide SampleEncode, SampleDecode, Curve.Encodes, Pow256, Rem;
    var c := SampleCurve(half, e);
    forall k | 0 < k < c.order
      ensures !c.KillsH(k)
    {
      TwiceIsNoMultiple(k, half);
    }
    forall p | c.OnCurve(p)
      ensures c.Encodes(p)
    {
      SamplePoint(half, e, p);
    }
    forall b: Bytes33, p | c.decode(b) == Some(p)
      ensures c.OnCurve(p)
    {
      SampleDecodesPoints(half, b);
    }
  }

  lemma ManyScalars()
    ensures Pow256(32) > 0x1_0000_0000_0000_0000 * 2
  {
    Widths();
    Growth(9, 32);
    assert Pow256(9) == 256 * Pow256(8);
  }

  lemma Growth(i: nat, j: nat)
    requires i <= j
    ensures Pow256(i) <= Pow256(j)
    decreases j - i
  {
    if i < j {
      Growth(i + 1, j);
    }
  }

  // ----- text --------------------------------------------------------------------------------

  /** A text without stops or blanks for any bytes: one character each. */
  function Spell(b: Bytes): string {
    seq(|b|, i requires 0 <= i < |b| => (b[i] as int + 0x100) as char)
  }

  predicate IsSpelling(s: string) {
    forall i | 0 <= i < |s| :: 0x100 <= s[i] as int < 0x200
  }

  function Unspell(s: string): Outcome<Bytes> {
    if IsSpelling(s) then Ok(seq(|s|, i requires 0 <= i < |s| && IsSpelling(s) => s[i] as int - 0x100))
    else Err("not a spelling")
  }

  function UnspellId(s: string): Option<Bytes16> {
    if IsSpelling(s) && |s| == 16 then Some(Unspell(s).value) else None
  }

  lemma SpellingReadsBack(b: Bytes)
    ensures Unspell(Spell(b)) == Ok(b) && Armors.Solid(Spell(b))
  {
    forall c | c in Spell(b)
      ensures c != '.' && !Armors.IsStripped(c)
    {
      var i :| 0 <= i < |b| && Spell(b)[i] == c;
    }
    assert IsSpelling(Spell(b));
    assert Unspell(Spell(b)).value == b;
  }

  function SampleLibs(): Libs {
    Libs(SlateBin.UuidLib(UnspellId, (b: Bytes16) => Spell(b)), (_: Bytes) => true,
         Armors.ArmorLib((_: Bytes) => [0, 0, 0, 0], Spell, Unspell),
         U64_MAX)
  }

  lemma LibsExist()
    ensures SampleLibs().Valid()
  {
    hide Spell, Unspell, Armors.Solid;
    forall b
      ensures SampleLibs().armor.decode(SampleLibs().armor.encode(b)) == Ok(b)
              && Armors.Solid(SampleLibs().armor.encode(b))
    {
      SpellingReadsBack(b);
    }
    forall b: Bytes16
      ensures SampleLibs().uuid.parse(SampleLibs().uuid.format(b)) == Some(b)
    {
      IdReadsBack(b);
    }
  }

  lemma IdReadsBack(b: Bytes16)
    ensures UnspellId(Spell(b)) == Some(b)
  {
    SpellingReadsBack(b);
  }

  // ----- proofs that rewind ------------------------------------------------------------------

  /** A proof that carries its nonce, value and message in the open. */
  function OpenProve(value: u64, blind: Bytes32, nonce: Bytes32, own: Bytes32, message: Bytes): Outcome<ByteVec> {
    if |message| + 40 > U64_MAX then Err("message too long") else Ok(nonce + BeBytes(value, 8) + message)
  }

  function OpenRewind(c: Bytes33, nonce: Bytes32, proof: ByteVec): Outcome<Option<(u64, Bytes)>> {
    if |proof| < 40 || proof[..32] != nonce then Ok(None) else
    BeBytesOfValue(proof[32..40]);
    Widths();
    Ok(Some((BeValue(proof[32..40]), proof[40..])))
  }

  /** Every path derives the same secret, which the switch turns into `switched`. A proof's nonce is the hash
      it is made from. */
  function SampleLibrary(c: Curve, secret: Bytes32, switched: Bytes32): Library {
    Library(c, (_: Bytes64, _: seq<u32>) => Ok(secret), (_: u64, _: Bytes32) => Ok(switched),
            (_: Bytes64) => Ok(ScalarBytes(1)), (_: Bytes33, hash: Bytes32) => Ok(hash), OpenProve, OpenRewind)
  }

  lemma LibraryExists(c: Curve, secret: Bytes32, switched: Bytes32)
    requires c.order > 0
    ensures SampleLibrary(c, secret, switched).Rewinds()
  {
    hide OpenProve, OpenRewind, PedersenCommit;
    var lib := SampleLibrary(c, secret, switched);
    forall value: u64, blind: Bytes32, nonce: Bytes32, own: Bytes32, message: Bytes, c: Bytes33, proof: ByteVec |
      && |message| == 20
      && PedersenCommit(lib.curve, value, blind) == Ok(c) && lib.prove(value, blind, nonce, own, message) == Ok(proof)
      ensures lib.rewind(c, nonce, proof) == Ok(Some((value, message)))
    {
      OpenRewinds(value, blind, nonce, own, message, c, proof);
    }
  }

  lemma OpenRewinds(
    value: u64, blind: Bytes32, nonce: Bytes32, own: Bytes32, message: Bytes, c: Bytes33, proof: ByteVec)
    requires OpenProve(value, blind, nonce, own, message) == Ok(proof)
    ensures OpenRewind(c, nonce, proof) == Ok(Some((value, message)))
  {
    assert proof[..32] == nonce && proof[32..40] == BeBytes(value, 8) && proof[40..] == message;
    Widths();
    BeValueOfBytes(value, 8);
  }

  /** Under another nonce such a proof gives up nothing. */
  lemma OtherNonce(
    value: u64, blind: Bytes32, nonce: Bytes32, own: Bytes32, message: Bytes, c: Bytes33, proof: ByteVec,
    other: Bytes32)
    requires OpenProve(value, blind, nonce, own, message) == Ok(proof) && other != nonce
    ensures OpenRewind(c, other, proof) == Ok(None)
  {
    assert proof[..32] == nonce;
  }
}
