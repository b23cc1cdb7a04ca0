/** What a signing request is checked for, and the ring and bytes it becomes (`build_output_with_decoys`,
    crates/smirk-wasm/src/signing.rs, and the readers of the signing library behind it). */
module SigningRequests {
  import opened Outcomes
  import opened ByteStrings
  import opened Codec
  import opened Modular
  import opened Varint
  import opened StableSort
  import opened OneTimeKeys
  import opened RingEncoding
  import DecoyRings

  /** An output as the server reports it; `rct` is its commitment, if reported. */
  datatype LwsOutput = LwsOutput(
    publicKey: Bytes32, txPubKey: Bytes32, index: u32, globalIndex: u64, amount: u64, rct: Option<Bytes32>,
    sub: SubaddressIndex)

  datatype Decoy = Decoy(globalIndex: u64, publicKey: Bytes32, rct: Bytes32)

  datatype Checked = Checked(key: EdPoint, keyOffset: nat, mask: nat, commitment: EdPoint)

  function ParsePoint(ed: Ed, b: Bytes32): Outcome<EdPoint> {
    match ed.decompress(b)
    case Some(p) => Ok(p)
    case None => Err("Invalid point")
  }

  /** The derived mask if it reproduces the commitment on chain, else the coinbase mask, else a refusal; the
      derived mask when no commitment is reported. */
  function ChooseMask(ed: Ed, mask: nat, amount: u64, onchain: Option<EdPoint>): Outcome<nat>
    requires ed.order > 0
  {
    match onchain
    case None => Ok(mask)
    case Some(c) =>
      if Commit(ed, mask, amount) == c then Ok(mask)
      else if Commit(ed, 1, amount) == c then Ok(1)
      else Err("Commitment mismatch")
  }

  function ParseReported(ed: Ed, rct: Option<Bytes32>): Outcome<Option<EdPoint>> {
    match rct
    case None => Ok(None)
    case Some(b) =>
      var p :- ParsePoint(ed, b);
      Ok(Some(p))
  }

  /** The checks `build_output_with_decoys` makes before the ring. */
  function CheckOutput(ed: Ed, output: LwsOutput, viewKey: Bytes32, spend: nat): Outcome<Checked>
    requires ed.order > 0
  {
    var key :- ParsePoint(ed, output.publicKey);
    var keyOffset :- DeriveKeyOffset(ed, viewKey, output.txPubKey, output.index, output.sub);
    var derived :- DeriveCommitmentMask(ed, viewKey, output.txPubKey, output.index);
    var _ :- Need(ed.compress(ed.Base(spend + keyOffset)) == ed.compress(key), "Output one-time key mismatch");
    var onchain :- ParseReported(ed, output.rct);
    var mask :- ChooseMask(ed, derived, output.amount, onchain);
    Ok(Checked(key, keyOffset, mask, Commit(ed, mask, output.amount)))
  }

  /** What passes: the key is the wallet's, and a reported commitment is the one that will be signed for. */
  lemma CheckedIsOwned(ed: Ed, output: LwsOutput, viewKey: Bytes32, spend: nat)
    requires ed.Valid() && CheckOutput(ed, output, viewKey, spend).Ok?
    ensures var checked := CheckOutput(ed, output, viewKey, spend).value;
      && ed.decompress(output.publicKey) == Some(checked.key) == Some(ed.Base(spend + checked.keyOffset))
      && checked.commitment == Commit(ed, checked.mask, output.amount)
      && (output.rct.Some? ==> ed.decompress(output.rct.value) == Some(checked.commitment))
  {
    hide Rem, DeriveKeyOffset, DeriveCommitmentMask, Commit, Ed.Base;
    SameCompression(ed, output.publicKey, spend + CheckOutput(ed, output, viewKey, spend).value.keyOffset);
  }

  /** Every output honestly paid to the wallet passes, with the mask it was paid under, whether or not its
      commitment is reported. */
  lemma PaidOutputPasses(
    ed: Ed, viewKey: Bytes32, a: nat, b: nat, r: nat, amount: u64, output: LwsOutput)
    requires ed.Valid() && ed.scalar(viewKey) == Some(a) && output.amount == amount
    requires var paid := Pay(ed, AddressOf(ed, viewKey, a, b, output.sub), r, output.index, amount);
      && output.publicKey == ed.compress(paid.key) && output.txPubKey == ed.compress(paid.txKey)
      && (output.rct.Some? ==> output.rct.value == ed.compress(paid.commitment))
    ensures CheckOutput(ed, output, viewKey, b).Ok?
    ensures CheckOutput(ed, output, viewKey, b).value.commitment
         == Pay(ed, AddressOf(ed, viewKey, a, b, output.sub), r, output.index, amount).commitment
  {
    hide Rem, Ed.Times, SharedScalar, MaskFrom, Extra, DeriveSharedSecret, Ed.HashToScalar;
    var paid := Pay(ed, AddressOf(ed, viewKey, a, b, output.sub), r, output.index, amount);
    PaidOutputIsControlled(ed, viewKey, a, b, output.sub, r, output.index, amount);
    SecretAgrees(ed, viewKey, a, b, output.sub, r, output.index, amount);
    assert ed.OnCurve(paid.key) && ed.OnCurve(paid.commitment);
  }

  /** When an output passes, and as what: its key is a point, and the one the spend key and the derived offset
      control; a reported commitment is a point that opens to the amount under the derived mask or, as of a coinbase
      output, under 1. */
  lemma CheckExact(ed: Ed, output: LwsOutput, viewKey: Bytes32, spend: nat)
    requires ed.Valid()
    ensures var r := CheckOutput(ed, output, viewKey, spend);
      var keyOffset := DeriveKeyOffset(ed, viewKey, output.txPubKey, output.index, output.sub);
      var mask := DeriveCommitmentMask(ed, viewKey, output.txPubKey, output.index);
      && (r.Ok? <==>
            && keyOffset.Ok? && mask.Ok? && ed.decompress(output.publicKey) == Some(ed.Base(spend + keyOffset.value))
            && (output.rct.Some? ==>
                  || ed.decompress(output.rct.value) == Some(Commit(ed, mask.value, output.amount))
                  || ed.decompress(output.rct.value) == Some(Commit(ed, 1, output.amount))))
      && (r.Ok? ==>
            && Some(r.value.key) == ed.decompress(output.publicKey) && r.value.keyOffset == keyOffset.value
            && r.value.mask == (
                 if output.rct.None? || ed.decompress(output.rct.value) == Some(Commit(ed, mask.value, output.amount))
                 then mask.value else 1)
            && r.value.commitment == Commit(ed, r.value.mask, output.amount))
  {
    hide Rem, DeriveKeyOffset, DeriveCommitmentMask, Commit, Ed.Base;
    var keyOffset := DeriveKeyOffset(ed, viewKey, output.txPubKey, output.index, output.sub);
    if keyOffset.Ok? && ed.decompress(output.publicKey).Some? {
      SameCompression(ed, output.publicKey, spend + keyOffset.value);
    }
  }

  // ----- decoys ------------------------------------------------------------------------------

  type Pair = (EdPoint, EdPoint)

  function ParseDecoy(ed: Ed, decoy: Decoy): Outcome<Member<Pair>> {
    var key :- ParsePoint(ed, decoy.publicKey);
    var commitment :- ParsePoint(ed, decoy.rct);
    Ok(Member(decoy.globalIndex, (key, commitment)))
  }

  predicate AllParse(ed: Ed, decoys: seq<Decoy>) {
    forall i | 0 <= i < |decoys| :: ParseDecoy(ed, decoys[i]).Ok?
  }

  function Parsed(ed: Ed, decoys: seq<Decoy>): (members: seq<Member<Pair>>)
    requires AllParse(ed, decoys)
    ensures |members| == |decoys| && forall i | 0 <= i < |decoys| :: ParseDecoy(ed, decoys[i]) == Ok(members[i])
  {
    if decoys == [] then [] else [ParseDecoy(ed, decoys[0]).value] + Parsed(ed, decoys[1..])
  }

  method ParseDecoys(ed: Ed, decoys: seq<Decoy>) returns (r: Outcome<seq<Member<Pair>>>)
    ensures r.Ok? <==> AllParse(ed, decoys)
    ensures r.Ok? ==> r.value == Parsed(ed, decoys)
  {
    hide ParseDecoy;
    var members: seq<Member<Pair>> := [];
    for i := 0 to |decoys|
      invariant |members| == i && forall j | 0 <= j < i :: ParseDecoy(ed, decoys[j]) == Ok(members[j])
    {
      var member :- ParseDecoy(ed, decoys[i]);
      members := members + [member];
    }
    assert AllParse(ed, decoys);
    SameMembers(ed, decoys, members);
    return Ok(members);
  }

  lemma SameMembers(ed: Ed, decoys: seq<Decoy>, members: seq<Member<Pair>>)
    requires AllParse(ed, decoys) && |members| == |decoys|
    requires forall i | 0 <= i < |decoys| :: ParseDecoy(ed, decoys[i]) == Ok(members[i])
    ensures members == Parsed(ed, decoys)
  {
    hide ParseDecoy;
    var parsed := Parsed(ed, decoys);
    forall i | 0 <= i < |decoys| ensures members[i] == parsed[i] {
      assert ParseDecoy(ed, decoys[i]) == Ok(members[i]);
    }
  }

  /** No global index occurs twice among the output and its decoys. */
  predicate IndicesDistinct(own: u64, decoys: seq<Decoy>) {
    && (forall i | 0 <= i < |decoys| :: decoys[i].globalIndex != own)
    && (forall i, j | 0 <= i < j < |decoys| :: decoys[i].globalIndex != decoys[j].globalIndex)
  }

  lemma DistinctAsKeys(ed: Ed, own: Member<Pair>, decoys: seq<Decoy>)
    requires AllParse(ed, decoys)
    ensures IndicesDistinct(own.index, decoys) <==> DistinctKeys(Index(), [own] + Parsed(ed, decoys))
  {
    var members := Parsed(ed, decoys);
    var all := [own] + members;
    forall i | 0 <= i < |decoys| ensures members[i].index == decoys[i].globalIndex {
      assert ParseDecoy(ed, decoys[i]) == Ok(members[i]);
    }
    DistinctKeysExact(all);
    if IndicesDistinct(own.index, decoys) {
      assert DecoyRings.Distinct(Index(), all);
    }
    if DecoyRings.Distinct(Index(), all) {
      forall i | 0 <= i < |decoys| ensures decoys[i].globalIndex != own.index {
        assert Index()(all[0]) != Index()(all[i + 1]);
      }
      forall i, j | 0 <= i < j < |decoys| ensures decoys[i].globalIndex != decoys[j].globalIndex {
        assert Index()(all[i + 1]) != Index()(all[j + 1]);
      }
    }
  }

  // ----- bytes -------------------------------------------------------------------------------

  /** What the library needs of the spent output. */
  datatype OutputData = OutputData(key: EdPoint, keyOffset: nat, mask: nat, amount: u64)

  datatype Spendable = Spendable(data: OutputData, decoys: Decoys<Pair>)

  function DataBytes(ed: Ed, d: OutputData): Bytes {
    ed.compress(d.key) + ed.scalarBytes(d.keyOffset) + ed.scalarBytes(d.mask) + LeBytes64(d.amount)
  }

  function PairBytes(ed: Ed): Pair -> Bytes {
    (p: Pair) => ed.compress(p.0) + ed.compress(p.1)
  }

  function OffsetBytes(n: u64): Bytes {
    Encode(n)
  }

  /** `Decoys::write`: the offsets behind their count, the signer, the ring. */
  function DecoysBytes(ed: Ed, d: Decoys<Pair>): Bytes {
    Encode(|d.offsets|) + WriteMany(OffsetBytes, d.offsets) + [d.signer] + WriteMany(PairBytes(ed), d.ring)
  }

  /** The output's own part: key, offset and mask in 32 bytes each, the amount in eight, least significant first. */
  lemma DataLayout(ed: Ed, d: OutputData)
    ensures var b := DataBytes(ed, d);
      && |b| == 104 && b[..32] == ed.compress(d.key) && b[32..64] == ed.scalarBytes(d.keyOffset)
      && b[64..96] == ed.scalarBytes(d.mask) && LeNumber(b[96..]) == d.amount
  {
    hide LeBytes64, LeNumber;
    LittleEndian64(d.amount);
    assert DataBytes(ed, d)[96..] == LeBytes64(d.amount);
  }

  lemma {:induction false} PairsLength(ed: Ed, ring: seq<Pair>)
    ensures |WriteMany(PairBytes(ed), ring)| == 64 * |ring|
  {
    if ring != [] {
      PairsLength(ed, ring[1..]);
      var key: Bytes32, commitment: Bytes32 := ed.compress(ring[0].0), ed.compress(ring[0].1);
      assert PairBytes(ed)(ring[0]) == key + commitment;
    }
  }

  /** Where the ring's part has its signer. */
  ghost function SignerAt(d: Decoys<Pair>): nat {
    |Encode(|d.offsets|)| + |WriteMany(OffsetBytes, d.offsets)|
  }

  /** The ring's part ends with one byte for the signer, and 64 bytes for each member, its key and then its
      commitment. */
  lemma MemberPlace(ed: Ed, d: Decoys<Pair>, i: nat)
    requires i < |d.ring|
    ensures var b, at := DecoysBytes(ed, d), SignerAt(d) + 1 + 64 * i;
      && |b| == SignerAt(d) + 1 + 64 * |d.ring| && b[SignerAt(d)] == d.signer
      && b[at..at + 32] == ed.compress(d.ring[i].0) && b[at + 32..at + 64] == ed.compress(d.ring[i].1)
  {
    hide Encode, WriteMany;
    var head := Encode(|d.offsets|) + WriteMany(OffsetBytes, d.offsets);
    var w := PairBytes(ed);
    WriteManyAround(w, d.ring, i);
    PairsLength(ed, d.ring);
    PairsLength(ed, d.ring[..i]);
    var before, after := WriteMany(w, d.ring[..i]), WriteMany(w, d.ring[i + 1..]);
    var key, commitment := ed.compress(d.ring[i].0), ed.compress(d.ring[i].1);
    var b := DecoysBytes(ed, d);
    assert b == (head + [d.signer] + before) + key + (commitment + after);
    Middle(head + [d.signer] + before, key, commitment + after);
    assert b == (head + [d.signer] + before + key) + commitment + after;
    Middle(head + [d.signer] + before + key, commitment, after);
  }

  /** It begins with the number of offsets and the offsets, as varints. */
  lemma OffsetPlace(ed: Ed, d: Decoys<Pair>, i: nat)
    requires i < |d.offsets|
    ensures var b, count := DecoysBytes(ed, d), Encode(|d.offsets|);
      var at, offset := |count| + |WriteMany(OffsetBytes, d.offsets[..i])|, Encode(d.offsets[i]);
      at + |offset| <= |b| && b[..|count|] == count && b[at..at + |offset|] == offset
  {
    hide Encode, WriteMany;
    var count, tail := Encode(|d.offsets|), [d.signer] + WriteMany(PairBytes(ed), d.ring);
    WriteManyAround(OffsetBytes, d.offsets, i);
    var before, after := WriteMany(OffsetBytes, d.offsets[..i]), WriteMany(OffsetBytes, d.offsets[i + 1..]);
    assert DecoysBytes(ed, d) == (count + before) + OffsetBytes(d.offsets[i]) + (after + tail);
    Middle(count + before, OffsetBytes(d.offsets[i]), after + tail);
  }

  function TakePoint(ed: Ed, b: Bytes): Parse<EdPoint> {
    var (bytes, b) :- Take(32, b);
    var p :- ParsePoint(ed, bytes);
    Ok((p, b))
  }

  function TakeScalar(ed: Ed, b: Bytes): Parse<nat> {
    var (bytes, b) :- Take(32, b);
    match ed.scalar(bytes)
    case Some(s) => Ok((s, b))
    case None => Err("unreduced scalar")
  }

  function TakePair(ed: Ed): Bytes -> Parse<Pair> {
    (b: Bytes) =>
      var (key, b) :- TakePoint(ed, b);
      var (commitment, b) :- TakePoint(ed, b);
      Ok(((key, commitment), b))
  }

  function TakeOffset(b: Bytes): Parse<u64> {
    var (n, b) :- TakeGroups(b, 0);
    if n > U64_MAX then Err("VarInt does not fit into integer type") else Ok((n, b))
  }

  function TakeData(ed: Ed, b: Bytes): Parse<OutputData> {
    var (key, b) :- TakePoint(ed, b);
    var (keyOffset, b) :- TakeScalar(ed, b);
    var (mask, b) :- TakeScalar(ed, b);
    var (amount, b) :- Take(8, b);
    Ok((OutputData(key, keyOffset, mask, LeValue64(amount)), b))
  }

  /** `Decoys::read`. */
  function TakeDecoys(ed: Ed, b: Bytes): Parse<Decoys<Pair>> {
    var (count, b) :- TakeOffset(b);
    var _ :- Need(count <= 0xFF, "vector exceeds bound on length");
    var (offsets, b) :- ReadMany(TakeOffset, count, b);
    var (signer, b) :- TakeU8(b);
    var (ring, b) :- ReadMany(TakePair(ed), count, b);
    var _ :- Need(Acceptable(offsets, signer, |ring|), "invalid Decoys");
    Ok((Decoys(offsets, signer, ring), b))
  }

  function ReadSpendable(ed: Ed, b: Bytes): Outcome<Spendable> {
    var (data, b) :- TakeData(ed, b);
    var (decoys, _) :- TakeDecoys(ed, b);
    Ok(Spendable(data, decoys))
  }

  lemma PointRoundTrips(ed: Ed, p: EdPoint, t: Bytes)
    requires ed.Valid() && ed.OnCurve(p)
    ensures TakePoint(ed, ed.compress(p) + t) == Ok((p, t))
  {
    TakeWritten(ed.compress(p), t);
  }

  lemma ScalarRoundTrips(ed: Ed, s: nat, t: Bytes)
    requires ed.Valid() && s < ed.order
    ensures TakeScalar(ed, ed.scalarBytes(s) + t) == Ok((s, t))
  {
    TakeWritten(ed.scalarBytes(s), t);
  }

  lemma PairRoundTrips(ed: Ed, p: Pair, t: Bytes)
    requires ed.Valid() && ed.OnCurve(p.0) && ed.OnCurve(p.1)
    ensures RoundTrips(PairBytes(ed), TakePair(ed), p, t)
  {
    hide TakePoint;
    assert PairBytes(ed)(p) + t == ed.compress(p.0) + (ed.compress(p.1) + t);
    PointRoundTrips(ed, p.0, ed.compress(p.1) + t);
    PointRoundTrips(ed, p.1, t);
  }

  lemma OffsetRoundTrips(n: u64, t: Bytes)
    ensures RoundTrips(OffsetBytes, TakeOffset, n, t)
  {
    WholeWord();
    TakeGroupsExact(Encode(n) + t, 0, n, t);
  }

  lemma DataRoundTrips(ed: Ed, d: OutputData, t: Bytes)
    requires ed.Valid() && ed.OnCurve(d.key) && d.keyOffset < ed.order && d.mask < ed.order
    ensures TakeData(ed, DataBytes(ed, d) + t) == Ok((d, t))
  {
    hide TakePoint, TakeScalar, LeBytes64, LeValue64, Ed.Valid;
    var b3 := LeBytes64(d.amount) + t;
    var b2 := ed.scalarBytes(d.mask) + b3;
    var b1 := ed.scalarBytes(d.keyOffset) + b2;
    assert DataBytes(ed, d) + t == ed.compress(d.key) + b1;
    PointRoundTrips(ed, d.key, b1);
    ScalarRoundTrips(ed, d.keyOffset, b2);
    ScalarRoundTrips(ed, d.mask, b3);
    TakeWritten(LeBytes64(d.amount), t);
    LeReadsBack64(d.amount);
  }

  /** A ring the library accepted is read back as it was written. */
  lemma DecoysRoundTrip(ed: Ed, d: Decoys<Pair>, t: Bytes)
    requires ed.Valid() && Acceptable(d.offsets, d.signer, |d.ring|)
    requires forall p | p in d.ring :: ed.OnCurve(p.0) && ed.OnCurve(p.1)
    ensures TakeDecoys(ed, DecoysBytes(ed, d) + t) == Ok((d, t))
  {
    hide Encode, Acceptable, PairBytes, TakePair, TakeOffset, Ed.Valid, Ed.OnCurve, WriteMany, ReadMany;
    AcceptedSize(d);
    var b3 := WriteMany(PairBytes(ed), d.ring) + t;
    var b2 := [d.signer] + b3;
    var b1 := WriteMany(OffsetBytes, d.offsets) + b2;
    var count: u64 := |d.offsets|;
    assert DecoysBytes(ed, d) + t == OffsetBytes(count) + b1;
    OffsetRoundTrips(count, b1);
    forall n: u64, t' | n in d.offsets ensures RoundTrips(OffsetBytes, TakeOffset, n, t') { OffsetRoundTrips(n, t'); }
    ReadManyRoundTrips(OffsetBytes, TakeOffset, d.offsets, b2);
    TakeWritten([d.signer], b3);
    forall p, t' | p in d.ring ensures RoundTrips(PairBytes(ed), TakePair(ed), p, t') { PairRoundTrips(ed, p, t'); }
    ReadManyRoundTrips(PairBytes(ed), TakePair(ed), d.ring, t);
  }

  /** The reader gives out no ring the library would not have made. */
  lemma ReadIsAcceptable(ed: Ed, b: Bytes)
    requires TakeDecoys(ed, b).Ok?
    ensures var d := TakeDecoys(ed, b).value.0; Acceptable(d.offsets, d.signer, |d.ring|)
  {
    hide Acceptable, TakeOffset, ReadMany;
  }

  lemma AcceptedSize(d: Decoys<Pair>)
    requires Acceptable(d.offsets, d.signer, |d.ring|)
    ensures |d.offsets| == |d.ring| <= 0xFF && d.signer < |d.ring|
  {
  }

  // ----- the request -------------------------------------------------------------------------

  function OwnMember(output: LwsOutput, checked: Checked): Member<Pair> {
    Member(output.globalIndex, (checked.key, checked.commitment))
  }

  /** When `build_output_with_decoys` succeeds: the output is the wallet's and opens its commitment, every
      decoy is a pair of points, there are fewer than 255, and no index occurs twice. */
  predicate Buildable(ed: Ed, output: LwsOutput, decoys: seq<Decoy>, viewKey: Bytes32, spend: nat)
    requires ed.order > 0
  {
    && CheckOutput(ed, output, viewKey, spend).Ok? && AllParse(ed, decoys)
    && |decoys| < 0xFF && IndicesDistinct(output.globalIndex, decoys)
  }

  /** What it then hands to the signer, through bytes and back: the output's own data, the sorted ring as
      offsets, and the signer's place, which holds the output's key and commitment. */
  method BuildOutputWithDecoys(ed: Ed, output: LwsOutput, decoys: seq<Decoy>, viewKey: Bytes32, spend: nat)
    returns (r: Outcome<Spendable>)
    requires ed.Valid()
    ensures r.Ok? <==> Buildable(ed, output, decoys, viewKey, spend)
    ensures r.Ok? ==>
      var checked := CheckOutput(ed, output, viewKey, spend).value;
      var ring := Ring(OwnMember(output, checked), Parsed(ed, decoys));
      && r.value.data == OutputData(checked.key, checked.keyOffset, checked.mask, output.amount)
      && r.value.decoys.offsets == Deltas(ring) && r.value.decoys.ring == Points(ring)
      && r.value.decoys.signer < |ring| && ring[r.value.decoys.signer] == OwnMember(output, checked)
  {
    hide CheckOutput, AllParse, Parsed, Ring, FirstAt, Acceptable, DataBytes, DecoysBytes, ReadSpendable,
      IndicesDistinct, DistinctKeys, Ed.Valid, Points, ParseDecoy;
    Orders(ed);
    var checked :- CheckOutput(ed, output, viewKey, spend);
    var members :- ParseDecoys(ed, decoys);
    var own := OwnMember(output, checked);
    DistinctAsKeys(ed, own, decoys);
    var made := MakeRing(own, members);
    if made.None? {
      return Err("Could not build the ring for this input");
    }
    var data := OutputData(checked.key, checked.keyOffset, checked.mask, output.amount);
    CheckedScalars(ed, output, viewKey, spend);
    RingOnCurve(ed, own, decoys);
    SpendableRoundTrips(ed, data, made.value);
    r := ReadSpendable(ed, DataBytes(ed, data) + DecoysBytes(ed, made.value));
  }

  lemma Orders(ed: Ed)
    requires ed.Valid()
    ensures ed.order > 1
  {
  }

  /** What the library is handed it reads back. */
  lemma SpendableRoundTrips(ed: Ed, data: OutputData, d: Decoys<Pair>)
    requires ed.Valid() && ed.OnCurve(data.key) && data.keyOffset < ed.order && data.mask < ed.order
    requires Acceptable(d.offsets, d.signer, |d.ring|)
    requires forall p: Pair | p in d.ring :: ed.OnCurve(p.0) && ed.OnCurve(p.1)
    ensures ReadSpendable(ed, DataBytes(ed, data) + DecoysBytes(ed, d)) == Ok(Spendable(data, d))
  {
    hide TakeData, TakeDecoys, DataBytes, DecoysBytes, Acceptable, Ed.Valid, Ed.OnCurve;
    DataRoundTrips(ed, data, DecoysBytes(ed, d));
    DecoysRoundTrip(ed, d, []);
    assert DecoysBytes(ed, d) + [] == DecoysBytes(ed, d);
  }

  function RowIndex(): Decoy -> int {
    (row: Decoy) => row.globalIndex
  }

  /** A ring taken from a pool never spoils a request: with points for rows, an output that passes its
      checks can be built whenever the ring is one the library takes. */
  lemma BuiltRingIsBuildable(
    ed: Ed, output: LwsOutput, viewKey: Bytes32, spend: nat, pool: DecoyRings.Pool<Decoy>, reals: seq<int>, size: nat,
    rings: seq<seq<Decoy>>, i: nat)
    requires ed.order > 0 && DecoyRings.Build(RowIndex(), pool, reals, size) == Ok(rings)
    requires i < |reals| && reals[i] == output.globalIndex
    ensures |rings| == |reals|
    ensures Buildable(ed, output, rings[i], viewKey, spend)
       <==> CheckOutput(ed, output, viewKey, spend).Ok? && AllParse(ed, rings[i]) && size < 0xFF
  {
    hide CheckOutput, AllParse;
    DecoyRings.RingsAreGood(RowIndex(), pool, reals, size);
    var ring := rings[i];
    assert DecoyRings.GoodRing(RowIndex(), pool, reals[i], size, ring);
    forall j | 0 <= j < |ring|
      ensures ring[j].globalIndex != output.globalIndex
    {
      assert RowIndex()(ring[j]) in DecoyRings.Indices(RowIndex(), ring);
    }
    forall j, k | 0 <= j < k < |ring|
      ensures ring[j].globalIndex != ring[k].globalIndex
    {
      assert RowIndex()(ring[j]) != RowIndex()(ring[k]);
    }
  }

  /** What passed the checks is in range of its encodings. */
  lemma CheckedScalars(ed: Ed, output: LwsOutput, viewKey: Bytes32, spend: nat)
    requires ed.Valid() && CheckOutput(ed, output, viewKey, spend).Ok?
    ensures var checked := CheckOutput(ed, output, viewKey, spend).value;
      && ed.OnCurve(checked.key) && ed.OnCurve(checked.commitment)
      && checked.keyOffset < ed.order && checked.mask < ed.order
  {
    hide Encode, Ed.Times, LeBytes32;
  }

  lemma RingOnCurve(ed: Ed, own: Member<Pair>, decoys: seq<Decoy>)
    requires ed.Valid() && AllParse(ed, decoys) && ed.OnCurve(own.points.0) && ed.OnCurve(own.points.1)
    ensures forall p: Pair | p in Points(Ring(own, Parsed(ed, decoys))) :: ed.OnCurve(p.0) && ed.OnCurve(p.1)
  {
    hide ParseDecoy, Ring, Ed.Valid, Ed.OnCurve;
    var members := Parsed(ed, decoys);
    var ring := Ring(own, members);
    forall p: Pair | p in Points(ring)
      ensures ed.OnCurve(p.0) && ed.OnCurve(p.1)
    {
      var i :| 0 <= i < |ring| && Points(ring)[i] == p;
      RingMember(own, members, ring[i]);
      if ring[i] != own {
        var j :| 0 <= j < |members| && members[j] == ring[i];
        DecoyOnCurve(ed, decoys[j]);
      }
    }
  }

  lemma RingMember(own: Member<Pair>, members: seq<Member<Pair>>, m: Member<Pair>)
    requires m in Ring(own, members)
    ensures m == own || m in members
  {
    var all := [own] + members;
    SortBySorts(Index(), all);
    assert m in multiset(Ring(own, members)) && m in multiset(all) && m in all;
  }

  lemma DecoyOnCurve(ed: Ed, decoy: Decoy)
    requires ed.Valid() && ParseDecoy(ed, decoy).Ok?
    ensures var p := ParseDecoy(ed, decoy).value.points; ed.OnCurve(p.0) && ed.OnCurve(p.1)
  {
  }
}
