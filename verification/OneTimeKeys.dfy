/** One-time output keys, subaddresses and key images (crates/smirk-wasm/src/output.rs, signing.rs). */
module OneTimeKeys {
  import opened Outcomes
  import opened ByteStrings
  import opened Modular
  import opened Varint

  /** A point of edwards25519: a multiple of the base point plus one of eight torsion points. */
  datatype EdPoint = EdPoint(log: int, torsion: int)

  /** The curve and its hashes as the code uses them. `scalar` reads canonical encodings only, `hash` is
      Keccak-256 before reduction, `hashToPoint` hashes a compressed point, `h` is the second generator. */
  datatype Ed = Ed(
    order: nat,
    compress: EdPoint -> Bytes32,
    decompress: Bytes32 -> Option<EdPoint>,
    scalar: Bytes32 -> Option<nat>,
    scalarBytes: nat -> Bytes32,
    hash: Bytes -> nat,
    hashToPoint: Bytes32 -> EdPoint,
    h: EdPoint)
  {
    predicate OnCurve(p: EdPoint) {
      0 <= p.log < order && 0 <= p.torsion < 8
    }

    /** Compression and the scalar encoding lose nothing. */
    ghost predicate Valid() {
      && order > 1
      && (forall s: nat | s < order :: scalar(scalarBytes(s)) == Some(s))
      && (forall p | OnCurve(p) :: decompress(compress(p)) == Some(p))
      && (forall b, p :: decompress(b) == Some(p) ==> OnCurve(p))
    }

    function Times(s: int, p: EdPoint): (q: EdPoint)
      requires order > 0
      ensures OnCurve(q)
    {
      EdPoint(Rem(s * p.log, order), Rem(s * p.torsion, 8))
    }

    function Add(p: EdPoint, q: EdPoint): (s: EdPoint)
      requires order > 0
      ensures OnCurve(s)
    {
      EdPoint(Rem(p.log + q.log, order), Rem(p.torsion + q.torsion, 8))
    }

    /** s·G. */
    function Base(s: int): (p: EdPoint)
      requires order > 0
      ensures OnCurve(p)
    {
      EdPoint(Rem(s, order), 0)
    }

    function HashToScalar(data: Bytes): (s: nat)
      requires order > 0
    {
      Rem(hash(data), order)
    }
  }

  type SubaddressIndex = Option<(u32, u32)>

  predicate IsPrimary(sub: SubaddressIndex) {
    sub == None || sub == Some((0, 0))
  }

  /** Hs of the shared point and the output's index. */
  function SharedScalar(ed: Ed, shared: EdPoint, outputIndex: u64): nat
    requires ed.order > 0
  {
    ed.HashToScalar(ed.compress(shared) + Encode(outputIndex))
  }

  /** `derive_shared_secret`: eight times the view key times the transaction key. */
  function DeriveSharedSecret(ed: Ed, viewKey: Bytes32, txPubKey: Bytes32, outputIndex: u64): Outcome<nat>
    requires ed.order > 0
  {
    match ed.scalar(viewKey)
    case None => Err("Invalid view key scalar")
    case Some(a) =>
      match ed.decompress(txPubKey)
      case None => Err("Invalid tx_pub_key point")
      case Some(r) => Ok(SharedScalar(ed, ed.Times(a, ed.Times(8, r)), outputIndex))
  }

  const SUBADDR: Bytes := [0x53, 0x75, 0x62, 0x41, 0x64, 0x64, 0x72, 0x00]
  const COMMITMENT_MASK: Bytes :=
    [0x63, 0x6f, 0x6d, 0x6d, 0x69, 0x74, 0x6d, 0x65, 0x6e, 0x74, 0x5f, 0x6d, 0x61, 0x73, 0x6b]

  function SubaddressSecret(ed: Ed, viewKey: Bytes32, major: u32, minor: u32): nat
    requires ed.order > 0
  {
    ed.HashToScalar(SUBADDR + viewKey + LeBytes32(major) + LeBytes32(minor))
  }

  function DeriveKeyOffset(ed: Ed, viewKey: Bytes32, txPubKey: Bytes32, outputIndex: u64, sub: SubaddressIndex)
    : Outcome<nat>
    requires ed.order > 0
  {
    var shared :- DeriveSharedSecret(ed, viewKey, txPubKey, outputIndex);
    if IsPrimary(sub) then Ok(shared)
    else Ok(Rem(shared + SubaddressSecret(ed, viewKey, sub.value.0, sub.value.1), ed.order))
  }

  function MaskFrom(ed: Ed, shared: nat): nat
    requires ed.order > 0
  {
    ed.HashToScalar(COMMITMENT_MASK + ed.scalarBytes(shared))
  }

  function DeriveCommitmentMask(ed: Ed, viewKey: Bytes32, txPubKey: Bytes32, outputIndex: u64): Outcome<nat>
    requires ed.order > 0
  {
    var shared :- DeriveSharedSecret(ed, viewKey, txPubKey, outputIndex);
    Ok(MaskFrom(ed, shared))
  }

  /** mask·G + amount·H. */
  function Commit(ed: Ed, mask: nat, amount: u64): EdPoint
    requires ed.order > 0
  {
    ed.Add(ed.Base(mask), ed.Times(amount, ed.h))
  }

  // ----- what is hashed ----------------------------------------------------------------------

  /** The secret of a subaddress: the hash of 48 bytes, "SubAddr" and a zero, the view key, the account and the
      address in it, four bytes each with the least significant first. */
  lemma SubaddressExact(ed: Ed, viewKey: Bytes32, major: u32, minor: u32, data: Bytes)
    requires ed.order > 0 && |data| == 48
    requires data[..8] == [0x53, 0x75, 0x62, 0x41, 0x64, 0x64, 0x72, 0x00] && data[8..40] == viewKey
    requires LeNumber(data[40..44]) == major && LeNumber(data[44..]) == minor
    ensures SubaddressSecret(ed, viewKey, major, minor) == ed.hash(data) % ed.order
  {
    hide LeBytes32, LeNumber;
    LittleEndian(major);
    LittleEndian(minor);
    LeNumberInjective(data[40..44], LeBytes32(major));
    LeNumberInjective(data[44..], LeBytes32(minor));
    assert data == data[..8] + data[8..40] + data[40..44] + data[44..];
  }

  /** The secret of an output: the hash of the shared point's 32 bytes and the output's index as a varint. */
  lemma SharedExact(ed: Ed, shared: EdPoint, outputIndex: u64, data: Bytes)
    requires ed.order > 0 && |data| > 32 && data[..32] == ed.compress(shared)
    requires Complete(data[32..]) && Value(data[32..]) == outputIndex
    requires |data| > 33 ==> data[|data| - 1] != 0
    ensures SharedScalar(ed, shared, outputIndex) == ed.hash(data) % ed.order
  {
    NoPaddingIsEncoding(data[32..]);
    assert data == data[..32] + data[32..];
  }

  /** The mask of an output: the hash of "commitment_mask" and the secret's 32 bytes. */
  lemma MaskExact(ed: Ed, shared: nat, data: Bytes)
    requires ed.order > 0 && |data| == 47 && data[15..] == ed.scalarBytes(shared)
    requires data[..15]
      == [0x63, 0x6f, 0x6d, 0x6d, 0x69, 0x74, 0x6d, 0x65, 0x6e, 0x74, 0x5f, 0x6d, 0x61, 0x73, 0x6b]
    ensures MaskFrom(ed, shared) == ed.hash(data) % ed.order
  {
    assert data == data[..15] + data[15..];
  }

  /** The shared point: eight times the view key times the transaction key, which leaves no torsion. */
  lemma SecretExact(ed: Ed, viewKey: Bytes32, txPubKey: Bytes32, outputIndex: u64)
    requires ed.order > 0
    ensures DeriveSharedSecret(ed, viewKey, txPubKey, outputIndex).Ok? <==>
      ed.scalar(viewKey).Some? && ed.decompress(txPubKey).Some?
    ensures DeriveSharedSecret(ed, viewKey, txPubKey, outputIndex).Ok? ==>
      var a, r := ed.scalar(viewKey).value, ed.decompress(txPubKey).value;
      DeriveSharedSecret(ed, viewKey, txPubKey, outputIndex)
        == Ok(SharedScalar(ed, EdPoint(a * 8 * r.log % ed.order, 0), outputIndex))
  {
    hide SharedScalar, Rem;
    if ed.scalar(viewKey).Some? && ed.decompress(txPubKey).Some? {
      var a, r := ed.scalar(viewKey).value, ed.decompress(txPubKey).value;
      TimesTimes(ed, a, 8, r);
      assert a * 8 * r.torsion == (a * r.torsion) * 8 + 0;
      RemainderUnique(a * 8 * r.torsion, a * r.torsion, 0, 8);
      RemIs(a * 8 * r.log, ed.order);
    }
  }

  lemma RemIs(x: int, n: int)
    requires n > 0
    ensures Rem(x, n) == x % n
  {
  }

  /** What is added to the spend key: the output's secret, and for a subaddress its secret too. No index and the
      index (0, 0) are the primary address. */
  lemma OffsetExact(ed: Ed, viewKey: Bytes32, txPubKey: Bytes32, outputIndex: u64, major: u32, minor: u32, shared: nat)
    requires ed.order > 0 && DeriveSharedSecret(ed, viewKey, txPubKey, outputIndex) == Ok(shared)
    ensures DeriveKeyOffset(ed, viewKey, txPubKey, outputIndex, None) == Ok(shared)
    ensures DeriveKeyOffset(ed, viewKey, txPubKey, outputIndex, Some((major, minor)))
      == Ok(if major == 0 && minor == 0 then shared
            else (shared + SubaddressSecret(ed, viewKey, major, minor)) % ed.order)
    ensures DeriveCommitmentMask(ed, viewKey, txPubKey, outputIndex) == Ok(MaskFrom(ed, shared))
  {
    hide DeriveSharedSecret, SubaddressSecret, MaskFrom;
  }

  /** A commitment's point: the mask on the base point and the amount on the second generator. */
  lemma CommitExact(ed: Ed, mask: nat, amount: u64)
    requires ed.order > 0
    ensures Commit(ed, mask, amount)
         == EdPoint((mask + amount * ed.h.log) % ed.order, amount * ed.h.torsion % 8)
  {
    hide Rem;
    var n, x: int := ed.order, amount * ed.h.log;
    RemainderCongruent(mask, n);
    RemainderCongruent(x, n);
    CongruentAdd(Rem(mask, n), mask, Rem(x, n), x, n);
    RemIs(mask + x, n);
    SmallIsRemainder(Rem(amount * ed.h.torsion, 8), 8);
    RemIs(amount * ed.h.torsion, 8);
  }

  // ----- what a sender does ------------------------------------------------------------------

  /** The subaddress secret, or nothing for the primary address. */
  function Extra(ed: Ed, viewKey: Bytes32, sub: SubaddressIndex): nat
    requires ed.order > 0
  {
    if IsPrimary(sub) then 0 else SubaddressSecret(ed, viewKey, sub.value.0, sub.value.1)
  }

  /** The address: public spend key D, and the view key's point the sender multiplies. For a subaddress the
      transaction key is a multiple of D and the view point of D; for the primary address, of G. */
  datatype Address = Address(spend: EdPoint, base: EdPoint, view: EdPoint)

  function AddressOf(ed: Ed, viewKey: Bytes32, a: nat, b: nat, sub: SubaddressIndex): Address
    requires ed.order > 0
  {
    var spend := ed.Base(b + Extra(ed, viewKey, sub));
    var base := if IsPrimary(sub) then ed.Base(1) else spend;
    Address(spend, base, ed.Times(a, base))
  }

  /** The published points: of the primary address B and a·G, of a subaddress D = B + m·G and a·D. */
  lemma AddressExact(ed: Ed, viewKey: Bytes32, a: nat, b: nat, major: u32, minor: u32)
    requires ed.order > 1
    ensures AddressOf(ed, viewKey, a, b, None) == AddressOf(ed, viewKey, a, b, Some((0, 0)))
      == Address(EdPoint(b % ed.order, 0), EdPoint(1, 0), EdPoint(a % ed.order, 0))
    ensures (major, minor) != (0, 0) ==>
      var d := (b + SubaddressSecret(ed, viewKey, major, minor)) % ed.order;
      AddressOf(ed, viewKey, a, b, Some((major, minor)))
        == Address(EdPoint(d, 0), EdPoint(d, 0), EdPoint(a * d % ed.order, 0))
  {
    hide Rem, SubaddressSecret;
    var n, d := ed.order, b + SubaddressSecret(ed, viewKey, major, minor);
    RemIs(b, n);
    RemIs(d, n);
    RemIs(a, n);
    SmallIsRemainder(1, n);
    RemIs(a * Rem(d, n), n);
    assert a * 1 == a && a * 0 == 0;
    SmallIsRemainder(0, 8);
  }

  /** An output as it is on chain. */
  datatype Output = Output(key: EdPoint, txKey: EdPoint, commitment: EdPoint)

  /** Pay an address under transaction secret `r`. */
  function Pay(ed: Ed, to: Address, r: nat, outputIndex: u64, amount: u64): Output
    requires ed.order > 0
  {
    var shared := SharedScalar(ed, ed.Times(8, ed.Times(r, to.view)), outputIndex);
    Output(ed.Add(ed.Base(shared), to.spend), ed.Times(r, to.base), Commit(ed, MaskFrom(ed, shared), amount))
  }

  // ----- algebra -----------------------------------------------------------------------------

  lemma TimesTwice(n: int, s: int, t: int, x: int)
    requires n > 0
    ensures Rem(s * Rem(t * x, n), n) == Rem((s * t) * x, n)
  {
    hide Rem;
    RemainderCongruent(t * x, n);
    CongruentScale(s, Rem(t * x, n), t * x, n);
    assert s * (t * x) == (s * t) * x;
  }

  lemma TimesTimes(ed: Ed, s: int, t: int, p: EdPoint)
    requires ed.order > 0
    ensures ed.Times(s, ed.Times(t, p)) == ed.Times(s * t, p)
  {
    hide Rem;
    TimesTwice(ed.order, s, t, p.log);
    TimesTwice(8, s, t, p.torsion);
  }

  lemma BaseAdds(ed: Ed, s: int, t: int)
    requires ed.order > 0
    ensures ed.Add(ed.Base(s), ed.Base(t)) == ed.Base(s + t)
  {
    hide Rem;
    RemainderCongruent(s, ed.order);
    RemainderCongruent(t, ed.order);
    CongruentAdd(Rem(s, ed.order), s, Rem(t, ed.order), t, ed.order);
    SmallIsRemainder(0, 8);
  }

  lemma BaseReduces(ed: Ed, s: int, t: int)
    requires ed.order > 0
    ensures ed.Base(s + Rem(t, ed.order)) == ed.Base(s + t)
  {
    hide Rem;
    RemainderCongruent(t, ed.order);
    CongruentAdd(s, s, Rem(t, ed.order), t, ed.order);
  }

  /** The point both sides hash: the sender's 8·r·(a·X) is the receiver's a·8·(r·X). */
  lemma SharedPointAgrees(ed: Ed, a: nat, r: nat, x: EdPoint)
    requires ed.order > 0
    ensures ed.Times(8, ed.Times(r, ed.Times(a, x))) == ed.Times(a, ed.Times(8, ed.Times(r, x)))
  {
    hide Rem;
    TimesTimes(ed, r, a, x);
    TimesTimes(ed, 8, r * a, x);
    TimesTimes(ed, 8, r, x);
    TimesTimes(ed, a, 8 * r, x);
    assert 8 * (r * a) == a * (8 * r);
  }

  /** The receiver finds the sender's secret, for any address. */
  lemma SecretAgrees(
    ed: Ed, viewKey: Bytes32, a: nat, b: nat, sub: SubaddressIndex, r: nat, outputIndex: u64, amount: u64)
    requires ed.Valid() && ed.scalar(viewKey) == Some(a)
    ensures var to := AddressOf(ed, viewKey, a, b, sub);
            DeriveSharedSecret(ed, viewKey, ed.compress(Pay(ed, to, r, outputIndex, amount).txKey), outputIndex)
              == Ok(SharedScalar(ed, ed.Times(8, ed.Times(r, to.view)), outputIndex))
  {
    hide Rem, Ed.HashToScalar, Encode;
    var to := AddressOf(ed, viewKey, a, b, sub);
    assert ed.OnCurve(ed.Times(r, to.base));
    SharedPointAgrees(ed, a, r, to.base);
  }

  /** Any output paid to the wallet's primary address or to a subaddress is controlled by the spend key
      plus the derived offset. */
  lemma PaidOutputIsControlled(
    ed: Ed, viewKey: Bytes32, a: nat, b: nat, sub: SubaddressIndex, r: nat, outputIndex: u64, amount: u64)
    requires ed.Valid() && ed.scalar(viewKey) == Some(a)
    ensures var output := Pay(ed, AddressOf(ed, viewKey, a, b, sub), r, outputIndex, amount);
            var keyOffset := DeriveKeyOffset(ed, viewKey, ed.compress(output.txKey), outputIndex, sub);
            keyOffset.Ok? && ed.Base(b + keyOffset.value) == output.key
  {
    hide Rem, Ed.Times, SharedScalar, SubaddressSecret;
    SecretAgrees(ed, viewKey, a, b, sub, r, outputIndex, amount);
    var to := AddressOf(ed, viewKey, a, b, sub);
    var s: int := SharedScalar(ed, ed.Times(8, ed.Times(r, to.view)), outputIndex);
    var m: int := Extra(ed, viewKey, sub);
    BaseAdds(ed, s, b + m);
    BaseReduces(ed, b, s + m);
    assert s + (b + m) == b + (s + m);
  }

  // ----- key images --------------------------------------------------------------------------

  /** x times the hash of x·G. */
  function KeyImage(ed: Ed, x: int): Bytes32
    requires ed.order > 0
  {
    ed.compress(ed.Times(x, ed.hashToPoint(ed.compress(ed.Base(x)))))
  }

  /** The one-time private key, reduced. */
  function OneTimeKey(
    ed: Ed, viewKey: Bytes32, spendKey: Bytes32, txPubKey: Bytes32,
    outputIndex: u64, sub: SubaddressIndex): Outcome<nat>
    requires ed.order > 0
  {
    var keyOffset :- DeriveKeyOffset(ed, viewKey, txPubKey, outputIndex, sub);
    match ed.scalar(spendKey)
    case None => Err("Invalid spend key")
    case Some(b) => Ok(Rem(b + keyOffset, ed.order))
  }

  /** `compute_key_image_inner`. */
  function ComputeKeyImage(
    ed: Ed, viewKey: Bytes32, spendKey: Bytes32, txPubKey: Bytes32, outputIndex: u64, sub: SubaddressIndex)
    : Outcome<Bytes32>
    requires ed.order > 0
  {
    var x :- OneTimeKey(ed, viewKey, spendKey, txPubKey, outputIndex, sub);
    Ok(KeyImage(ed, x))
  }

  /** `derive_output_key_image_inner`: the same, hashed from the output key it is given and checked. */
  function DeriveOutputKeyImage(
    ed: Ed, viewKey: Bytes32, spendKey: Bytes32, txPubKey: Bytes32, outputIndex: u64, outputKey: Bytes32,
    sub: SubaddressIndex): Outcome<Bytes32>
    requires ed.order > 0
  {
    var x :- OneTimeKey(ed, viewKey, spendKey, txPubKey, outputIndex, sub);
    match ed.decompress(outputKey)
    case None => Err("Invalid point")
    case Some(p) =>
      if ed.compress(ed.Base(x)) != ed.compress(p) then Err("Output one-time key mismatch")
      else Ok(ed.compress(ed.Times(x, ed.hashToPoint(ed.compress(p)))))
  }

  /** A key image is the hash to a point of the one-time public key, times the one-time private key, which is the
      spend key plus the output's offset. */
  lemma KeyImageExact(
    ed: Ed, viewKey: Bytes32, spendKey: Bytes32, txPubKey: Bytes32, outputIndex: u64, sub: SubaddressIndex)
    requires ed.order > 0
    ensures ComputeKeyImage(ed, viewKey, spendKey, txPubKey, outputIndex, sub).Ok? <==>
      DeriveKeyOffset(ed, viewKey, txPubKey, outputIndex, sub).Ok? && ed.scalar(spendKey).Some?
    ensures ComputeKeyImage(ed, viewKey, spendKey, txPubKey, outputIndex, sub).Ok? ==>
      var x := (ed.scalar(spendKey).value + DeriveKeyOffset(ed, viewKey, txPubKey, outputIndex, sub).value) % ed.order;
      var p := ed.hashToPoint(ed.compress(EdPoint(x, 0)));
      ComputeKeyImage(ed, viewKey, spendKey, txPubKey, outputIndex, sub)
        == Ok(ed.compress(EdPoint(x * p.log % ed.order, x * p.torsion % 8)))
  {
    hide DeriveKeyOffset, Rem;
    if ComputeKeyImage(ed, viewKey, spendKey, txPubKey, outputIndex, sub).Ok? {
      var sum := ed.scalar(spendKey).value + DeriveKeyOffset(ed, viewKey, txPubKey, outputIndex, sub).value;
      var x := Rem(sum, ed.order);
      RemIs(sum, ed.order);
      SmallIsRemainder(x, ed.order);
      var p := ed.hashToPoint(ed.compress(EdPoint(x, 0)));
      RemIs(x * p.log, ed.order);
      RemIs(x * p.torsion, 8);
    }
  }

  /** The checked derivation succeeds exactly when the other does and the key it is given is the one the
      wallet controls, and then they agree. */
  lemma KeyImagesAgree(
    ed: Ed, viewKey: Bytes32, spendKey: Bytes32, txPubKey: Bytes32, outputIndex: u64, outputKey: Bytes32,
    sub: SubaddressIndex, image: Bytes32)
    requires ed.Valid()
    ensures DeriveOutputKeyImage(ed, viewKey, spendKey, txPubKey, outputIndex, outputKey, sub) == Ok(image)
       <==> ComputeKeyImage(ed, viewKey, spendKey, txPubKey, outputIndex, sub) == Ok(image)
            && ed.decompress(outputKey)
               == Some(ed.Base(OneTimeKey(ed, viewKey, spendKey, txPubKey, outputIndex, sub).value))
  {
    hide Rem, DeriveKeyOffset;
    var key := OneTimeKey(ed, viewKey, spendKey, txPubKey, outputIndex, sub);
    if key.Ok? && ed.decompress(outputKey).Some? {
      SameCompression(ed, outputKey, key.value);
    }
  }

  lemma SameCompression(ed: Ed, b: Bytes32, x: int)
    requires ed.Valid() && ed.decompress(b).Some?
    ensures ed.compress(ed.Base(x)) == ed.compress(ed.decompress(b).value) <==> ed.decompress(b) == Some(ed.Base(x))
  {
    assert ed.OnCurve(ed.Base(x)) && ed.OnCurve(ed.decompress(b).value);
  }

  /** One output, one image: however two requests arrive at keys that control the same output key, they
      yield the same image, so a spend is never counted twice or missed. */
  lemma OneImagePerOutput(
    ed: Ed, viewKey: Bytes32, spendKey: Bytes32, txPubKey: Bytes32, outputIndex: u64, sub: SubaddressIndex,
    viewKey': Bytes32, spendKey': Bytes32, txPubKey': Bytes32, outputIndex': u64, sub': SubaddressIndex,
    outputKey: Bytes32)
    requires ed.Valid()
    requires DeriveOutputKeyImage(ed, viewKey, spendKey, txPubKey, outputIndex, outputKey, sub).Ok?
    requires DeriveOutputKeyImage(ed, viewKey', spendKey', txPubKey', outputIndex', outputKey, sub').Ok?
    ensures DeriveOutputKeyImage(ed, viewKey, spendKey, txPubKey, outputIndex, outputKey, sub)
         == DeriveOutputKeyImage(ed, viewKey', spendKey', txPubKey', outputIndex', outputKey, sub')
  {
    hide Rem, DeriveKeyOffset, Ed.Valid;
    KeyImagesAgree(ed, viewKey, spendKey, txPubKey, outputIndex, outputKey, sub,
                   DeriveOutputKeyImage(ed, viewKey, spendKey, txPubKey, outputIndex, outputKey, sub).value);
    KeyImagesAgree(ed, viewKey', spendKey', txPubKey', outputIndex', outputKey, sub',
                   DeriveOutputKeyImage(ed, viewKey', spendKey', txPubKey', outputIndex', outputKey, sub').value);
    var x := OneTimeKey(ed, viewKey, spendKey, txPubKey, outputIndex, sub).value;
    var y := OneTimeKey(ed, viewKey', spendKey', txPubKey', outputIndex', sub').value;
    assert Rem(x, ed.order) == Rem(y, ed.order);
    SmallIsRemainder(x, ed.order);
    SmallIsRemainder(y, ed.order);
  }

  // ----- the assumptions can be met ----------------------------------------------------------

  function ToyCompress(p: EdPoint): Bytes32 {
    [if 0 <= p.log < 13 then p.log else 0, if 0 <= p.torsion < 8 then p.torsion else 0] + seq(30, _ => 0)
  }

  function ToyDecompress(b: Bytes32): Option<EdPoint> {
    if b[0] < 13 && b[1] < 8 then Some(EdPoint(b[0], b[1])) else None
  }

  function ToyScalar(b: Bytes32): Option<nat> {
    if b[0] < 13 then Some(b[0]) else None
  }

  function ToyScalarBytes(s: nat): Bytes32 {
    [s % 13] + seq(31, _ => 0)
  }

  function ToyEd(): Ed {
    Ed(13, ToyCompress, ToyDecompress, ToyScalar,
       ToyScalarBytes, (_: Bytes) => 1, (_: Bytes32) => EdPoint(1, 0), EdPoint(2, 0))
  }

  lemma ToyReadsBack(p: EdPoint, s: nat)
    requires 0 <= p.log < 13 && 0 <= p.torsion < 8 && s < 13
    ensures ToyDecompress(ToyCompress(p)) == Some(p)
    ensures ToyScalar(ToyScalarBytes(s)) == Some(s)
  {
    assert ToyCompress(p)[0] == p.log && ToyCompress(p)[1] == p.torsion;
  }

  lemma EdExists()
    ensures ToyEd().Valid()
  {
    hide ToyCompress, ToyScalar, ToyScalarBytes;
    var ed := ToyEd();
    forall p | ed.OnCurve(p)
      ensures ed.decompress(ed.compress(p)) == Some(p)
    {
      ToyReadsBack(p, 0);
    }
    forall s: nat | s < ed.order
      ensures ed.scalar(ed.scalarBytes(s)) == Some(s)
    {
      ToyReadsBack(EdPoint(0, 0), s);
    }
  }
}
