/** Inputs at which a promise fails, and a ceremony that meets its premises, in a group of seven. */
module Witnesses {
  import opened Outcomes
  import opened ByteStrings
  import opened Modular
  import opened Curves
  import opened Schnorr
  import opened Aggregation
  import opened Adaptors
  import opened Kernels
  import opened Slates
  import opened Keychains
  import opened Recovery
  import opened Transactions
  import opened Samples
  import SlateBin
  import opened StableSort

  lemma SmallGroup()
    ensures SampleCurve(3, 1).Valid() && SampleCurve(3, 1).order == 7
  {
    ManyScalars();
    CurveExists(3, 1);
  }

  // ----- an adaptor completed with t ---------------------------------------------------------

  /** One participant with key 1 and nonce 2, in the group of seven. */
  function Lone(): seq<Party> {
    [Party(ScalarBytes(1), ScalarBytes(2))]
  }

  lemma LoneSecrets()
    ensures Usable(SampleCurve(3, 1), Lone())
    ensures Keys(SampleCurve(3, 1), Lone()) == [1] && Nonces(SampleCurve(3, 1), Lone()) == [2]
  {
    hide ScalarBytes, ScalarValue, Curve.Valid, SampleEncode, SampleDecode, NonZero;
    SmallGroup();
    var c := SampleCurve(3, 1);
    NonZeroOf(c, 1);
    NonZeroOf(c, 2);
    assert Lone()[1..] == [];
  }

  lemma CeremonyExists()
    ensures var c := SampleCurve(3, 1); Ceremony(c, Lone(), c.encode(Point(2)), c.encode(Point(1)))
  {
    hide ScalarBytes, ScalarValue, Curve.Valid, SampleEncode, SampleDecode, NonZero, Lone;
    SmallGroup();
    LoneSecrets();
    var c := SampleCurve(3, 1);
    assert [1][1..] == [] && [2][1..] == [];
    assert Published(c, [1]) == [c.encode(Point(1))] && Published(c, [2]) == [c.encode(Point(2))];
    assert Published(c, [1])[1..] == [] && Published(c, [2])[1..] == [];
    assert Lone() != [] by { assert |Keys(c, Lone())| == 1; }
  }

  lemma SumOnOtherBranch()
    ensures var c := SampleCurve(3, 1);
      AdaptorCeremony(c, Lone(), 3, c.encode(Point(2)), c.encode(Point(5)), c.encode(Point(1)))
      && !IsQrKey(c, c.encode(Point(5)))
  {
    hide Curve.Valid, SampleEncode, SampleDecode, Lone, Ceremony, PointAdd;
    SmallGroup();
    CeremonyExists();
    var c := SampleCurve(3, 1);
    PointAddAdds(c, Point(2), Point(3));
    c.EncodesAt(Point(5));
  }

  lemma LoneShare(msg: Bytes32)
    ensures Usable(SampleCurve(3, 1), Lone())
    ensures var c := SampleCurve(3, 1); Shares(c, Lone(), c.encode(Point(5)), c.encode(Point(1)), msg) == [6]
  {
    hide Curve.Valid, ScalarBytes, ScalarValue, SampleEncode, SampleDecode, IsQrKey;
    LoneSecrets();
    SumOnOtherBranch();
    var c := SampleCurve(3, 1);
    assert Lone()[1..] == [] && Keys(c, Lone())[0] == 1 && Nonces(c, Lone())[0] == 2;
    assert Challenge(c, QrForm(c, c.encode(Point(5))), c.encode(Point(1)), msg) == 1;
    assert Response(false, 2, 1, 1) == -1;
  }

  /** With key 1, nonce 2 and t = 3 the nonce total is 5·G, on the non-square branch. The share is 6;
      completed with t it is 2, which does not verify; completed with -t it is 3, which does. */
  lemma CompletionWithTFails(msg: Bytes32)
    ensures var c := SampleCurve(3, 1);
      var rt, pt := c.encode(Point(5)), c.encode(Point(1));
      && AdaptorCeremony(c, Lone(), 3, c.encode(Point(2)), rt, pt)
      && CompleteAdaptor(c, ScalarBytes(6), ScalarBytes(3)) == Ok(ScalarBytes(2))
      && !Succeeds(c, [ScalarBytes(2)], rt, pt, msg)
      && CompleteAdaptor(c, ScalarBytes(6), ScalarBytes(4)) == Ok(ScalarBytes(3))
      && Succeeds(c, [ScalarBytes(3)], rt, pt, msg)
  {
    hide Curve.Valid, ScalarBytes, ScalarValue, SampleEncode, SampleDecode, IsQrKey, Shares, Lone, AdaptorCeremony,
      Aggregate, Verify, FinalSignature, CompleteAdaptor;
    SmallGroup();
    SumOnOtherBranch();
    LoneShare(msg);
    var c := SampleCurve(3, 1);
    var r, rt, pt := c.encode(Point(2)), c.encode(Point(5)), c.encode(Point(1));
    OneEncoded(6);
    assert forall b :: [ScalarBytes(6)][0 := b] == [b];
    CompleteMeans(c, 6, 3);
    CompleteMeans(c, 6, 4);
    assert Rem(9, 7) == 2 && Rem(10, 7) == 3 && Sum([6]) == 6;
    assert |Keys(c, Lone())| == |Lone()| == 1 by { LoneSecrets(); }
    CompletionExact(c, Lone(), 3, r, rt, pt, msg, 0, 3);
    CompletionExact(c, Lone(), 3, r, rt, pt, msg, 0, 4);
  }

  lemma OneEncoded(s: nat)
    ensures Encoded([s]) == [ScalarBytes(s)]
  {
    hide ScalarBytes;
    var ss: seq<int> := [s];
    assert ss[1..] == [];
    assert Encoded(ss) == [ScalarBytes(s)] + Encoded([]);
  }

  // ----- an output feature the JSON form cannot name -----------------------------------------

  /** A finished slate whose one output carries feature byte 2, as a counterparty may write it. */
  function OddSlate(): Slate {
    var key := SampleCurve(3, 1).encode(Point(1));
    Slate(4, 2, "", Standard3, ScalarBytes(0), 2, 0, 0, 0, 0, [Participant(key, key, None)],
          Some([Commit(2, key, Some([]))]),
          None, None)
  }

  /** The byte form of the transaction has the byte, the JSON form says it is plain. */
  lemma OddFeatureLost(blake: Bytes -> Bytes32, signature: Bytes64)
    ensures var built := SlateTransaction(SampleCurve(3, 1), BuildParams(OddSlate(), [], [], signature));
      && built.Ok? && |built.value.outputs| == 1 && built.value.outputs[0].features == 2
      && |TxJson(blake, built.value).outputs| == 1 && TxJson(blake, built.value).outputs[0].features == "Plain"
      && !JsonKeepsFeatures(blake, built.value)
  {
    hide Curve.Valid, ScalarBytes, SampleEncode, SampleDecode, JsonKeepsFeatures, KernelBytes;
    SmallGroup();
    var c := SampleCurve(3, 1);
    c.EncodesAt(Point(1));
    var params := BuildParams(OddSlate(), [], [], signature);
    var coms := Coms(OddSlate());
    assert coms == [Commit(2, c.encode(Point(1)), Some([]))] && coms[1..] == [];
    assert OddSlate().sigs[1..] == [];
    assert SlateTransaction(c, params).Ok?;
    var tx := SlateTransaction(c, params).value;
    assert tx.outputs == OutputsFrom(coms) + [];
    assert tx.outputs == [TxOutput(2, c.encode(Point(1)), [])] && tx.outputs[1..] == [];
    assert SortBy(OutputKey(blake), tx.outputs) == tx.outputs by { OneSorted(OutputKey(blake), tx.outputs[0]); }
    JsonFeaturesExact(blake, tx);
    assert tx.outputs[0] in tx.outputs;
  }

  lemma OneSorted<T>(key: T -> int, x: T)
    ensures SortBy(key, [x]) == [x]
  {
    assert [x][1..] == [] && SortBy(key, []) == [];
    assert Insert(key, x, []) == [x] + [];
  }

  // ----- a slate that comes back different ---------------------------------------------------

  /** A slate with a lock height its kernel has no use for. */
  function HeightSlate(): Slate {
    Slate(4, 2, Spell(BeBytes(0, 16)), Standard1, ScalarBytes(0), 2, 0, 0, 0, 0, [], None, None, Some(1))
  }

  /** It can be written, and comes back without the height. */
  lemma HeightLost()
    ensures var uuid := SampleLibs().uuid;
      && uuid.Valid()
      && SlateBin.Serialize(uuid, HeightSlate()).Ok?
      && SlateBin.Deserialize(uuid, SlateBin.Serialize(uuid, HeightSlate()).value)
         == Ok(HeightSlate().(featArgs := None))
  {
    hide Spell, UnspellId, ScalarBytes, SlateBin.SlateBytes, SlateBin.ReadSlate;
    LibsExist();
    var uuid, slate := SampleLibs().uuid, HeightSlate();
    IdReadsBack(BeBytes(0, 16));
    SlateBin.SlateRoundTrips(uuid, slate, []);
    assert SlateBin.SlateBytes(uuid, slate) + [] == SlateBin.SlateBytes(uuid, slate);
  }

  // ----- an old output that cannot be recovered ----------------------------------------------

  /** The root key is 1 and its switched blind 2. */
  function OldLib(): Library {
    SampleLibrary(SampleCurve(3, 1), ScalarBytes(1), ScalarBytes(2))
  }

  /** 3·H + 2·G is 1·G. */
  function OldCommitment(): Bytes33 {
    CommitForm(SampleCurve(3, 1), Point(1))
  }

  function OldProof(): ByteVec {
    OpenProve(3, ScalarBytes(2), ScalarBytes(2), ScalarBytes(1), [0, 0, 0, 0] + PathBytes([0, 0, 0, 0])).value
  }

  lemma OldOutput(ext: Bytes64)
    ensures var lib := OldLib();
      && lib.curve.order > 0
      && LegacyOutput(lib, ext, 3, ScalarBytes(2), [0, 0, 0, 0], ScalarBytes(1), OldCommitment(), OldProof())
  {
    hide Curve.Valid, ScalarBytes, ScalarValue, CommitForm, SampleEncode, SampleDecode, PathBytes, OpenRewind;
    SmallGroup();
    var c := SampleCurve(3, 1);
    NonZeroOf(c, 1);
    NonZeroOf(c, 2);
  }

  lemma OldNotRewound(ext: Bytes64)
    ensures NotRewound(OldLib(), ext, OldCommitment(), OldProof())
  {
    hide Curve.Valid, ScalarBytes, ScalarValue, CommitForm, OpenRewind, PathBytes, BeBytes;
    SmallGroup();
    ScalarRoundTrip(SampleCurve(3, 1), 1);
    ScalarRoundTrip(SampleCurve(3, 1), 2);
    OtherNonce(3, ScalarBytes(2), ScalarBytes(2), ScalarBytes(1), [0, 0, 0, 0] + PathBytes([0, 0, 0, 0]),
               OldCommitment(), OldProof(), ScalarBytes(1));
  }

  /** An old output of amount 3 on an account with root key 1: 3·H + 1·G is the identity, which the first
      reading stops at, so the output is never read as the old one it is. */
  lemma OldOutputLost(ext: Bytes64)
    ensures var lib := OldLib();
      && lib.curve.Valid() && lib.Rewinds()
      && LegacyOutput(lib, ext, 3, ScalarBytes(2), [0, 0, 0, 0], ScalarBytes(1), OldCommitment(), OldProof())
      && NotRewound(lib, ext, OldCommitment(), OldProof())
      && RecoverOutput(lib, ext, OldCommitment(), OldProof()) == Err("commit failed")
  {
    hide Curve.Valid, Library.Rewinds, ScalarBytes, ScalarValue, LegacyOutput, NotRewound, RecoverOutput, OldProof,
      OldCommitment;
    SmallGroup();
    var lib := OldLib();
    LibraryExists(lib.curve, ScalarBytes(1), ScalarBytes(2));
    OldOutput(ext);
    OldNotRewound(ext);
    ScalarRoundTrip(lib.curve, 1);
    LegacyRecoveryExact(lib, ext, 3, ScalarBytes(2), [0, 0, 0, 0], ScalarBytes(1), OldCommitment(), OldProof());
  }
}
