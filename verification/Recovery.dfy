/** Minting outputs that can be found again, and finding them, from the seed alone
    (crates/grin-ext/src/recovery.rs). */
module Recovery {
  import opened Outcomes
  import opened ByteStrings
  import opened Codec
  import opened Curves
  import opened Keychains
  import PathSearch

  /** An output found again. `identifier` is the depth byte and the four path steps; `path` is the steps
      that count. */
  datatype RecoveredOutput = RecoveredOutput(
    value: u64, identifier: Bytes, path: seq<u32>, nChild: u32, switch: Switch, blindingFactor: Bytes32)

  function SwitchByte(switch: Switch): byte {
    match switch
    case NoSwitch => 0
    case Regular => 1
  }

  function PathBytes(path: Path4): (b: Bytes)
    ensures |b| == 16
  {
    U32Bytes(path[0]) + U32Bytes(path[1]) + U32Bytes(path[2]) + U32Bytes(path[3])
  }

  /** `build_v3_proof_message`: two zero bytes, the switch, the depth, the path. */
  function BuildV3ProofMessage(depth: byte, path: Path4, switch: Switch): (msg: Bytes)
    ensures |msg| == 20
  {
    [0, 0, SwitchByte(switch), depth] + PathBytes(path)
  }

  /** The four steps written in sixteen bytes. */
  function PathFrom(b: Bytes): Path4
    requires |b| == 16
  {
    [U32Value(b[0..4]), U32Value(b[4..8]), U32Value(b[8..12]), U32Value(b[12..16])]
  }

  lemma PathReadsBack(path: Path4)
    ensures PathFrom(PathBytes(path)) == path
  {
    hide U32Bytes, U32Value;
    var b := PathBytes(path);
    assert b[0..4] == U32Bytes(path[0]) && b[4..8] == U32Bytes(path[1]);
    assert b[8..12] == U32Bytes(path[2]) && b[12..16] == U32Bytes(path[3]);
    U32ReadsBack(path[0]);
    U32ReadsBack(path[1]);
    U32ReadsBack(path[2]);
    U32ReadsBack(path[3]);
  }

  lemma U32ReadsBack(n: u32)
    ensures U32Value(U32Bytes(n)) == n
  {
    Widths();
    BeValueOfBytes(n, 4);
  }

  /** `chunks_exact(4)` over the path bytes, one step at a time. */
  method ReadPath(serialized: Bytes) returns (path: Path4)
    requires |serialized| == 16
    ensures path == PathFrom(serialized)
  {
    hide U32Value;
    var full: seq<u32> := [0, 0, 0, 0];
    for i := 0 to 4
      invariant |full| == 4
      invariant forall j | 0 <= j < i :: full[j] == U32Value(serialized[4 * j..4 * j + 4])
    {
      full := full[i := U32Value(serialized[4 * i..4 * i + 4])];
    }
    assert full == PathFrom(serialized);
    path := full;
  }

  /** Twenty bytes: two zeros, 1 for the switch, the depth, and four steps of four bytes. */
  ghost predicate IsMessage(msg: Bytes, depth: byte, path: Path4, switch: Switch) {
    && |msg| == 20 && msg[0] == 0 && msg[1] == 0 && msg[2] == (if switch == Regular then 1 else 0) && msg[3] == depth
    && BeValue(msg[4..8]) == path[0] && BeValue(msg[8..12]) == path[1]
    && BeValue(msg[12..16]) == path[2] && BeValue(msg[16..20]) == path[3]
  }

  lemma MessageLayout(depth: byte, path: Path4, switch: Switch)
    ensures IsMessage(BuildV3ProofMessage(depth, path, switch), depth, path, switch)
  {
    hide U32Bytes, BeValue;
    var msg := BuildV3ProofMessage(depth, path, switch);
    assert msg[4..8] == U32Bytes(path[0]) && msg[8..12] == U32Bytes(path[1]);
    assert msg[12..16] == U32Bytes(path[2]) && msg[16..20] == U32Bytes(path[3]);
    WordValues(0, path[0], 0);
    WordValues(0, path[1], 0);
    WordValues(0, path[2], 0);
    WordValues(0, path[3], 0);
  }

  lemma MessageUnique(a: Bytes, b: Bytes, depth: byte, path: Path4, switch: Switch)
    requires IsMessage(a, depth, path, switch) && IsMessage(b, depth, path, switch)
    ensures a == b
  {
    hide BeValue;
    BeValueInjective(a[4..8], b[4..8]);
    BeValueInjective(a[8..12], b[8..12]);
    BeValueInjective(a[12..16], b[12..16]);
    BeValueInjective(a[16..20], b[16..20]);
    assert a == a[..4] + a[4..8] + a[8..12] + a[12..16] + a[16..20];
    assert b == b[..4] + b[4..8] + b[8..12] + b[12..16] + b[16..20];
    assert a[..4] == b[..4];
  }

  /** `create_recoverable_output`: commitment, proof and the nonce the proof can be rewound with. */
  function CreateRecoverableOutput(
    lib: Library, ext: Bytes64, amount: u64, blind: Bytes32, path: Path4, switch: Switch, privateNonce: Bytes32)
    : Outcome<(Bytes33, ByteVec, Bytes32)>
    requires lib.curve.order > 0
  {
    var commitment :- PedersenCommit(lib.curve, amount, blind);
    var rh :- lib.rewindHash(ext);
    var rewindNonce :- lib.keyedHash(commitment, rh);
    var proof :- lib.prove(amount, blind, rewindNonce, privateNonce, BuildV3ProofMessage(4, path, switch));
    Ok((commitment, proof, rewindNonce))
  }

  /** When an output is minted, and as what: its commitment, the nonce hashed from the commitment and the seed's
      rewind hash, and the proof over a message that says depth 4, the switch and the path. */
  lemma MintsExactly(
    lib: Library, ext: Bytes64, amount: u64, blind: Bytes32, path: Path4, switch: Switch, own: Bytes32, message: Bytes,
    commitment: Bytes33, proof: ByteVec, nonce: Bytes32)
    requires lib.curve.order > 0 && IsMessage(message, 4, path, switch)
    ensures CreateRecoverableOutput(lib, ext, amount, blind, path, switch, own) == Ok((commitment, proof, nonce)) <==>
      && PedersenCommit(lib.curve, amount, blind) == Ok(commitment)
      && lib.rewindHash(ext).Ok? && lib.keyedHash(commitment, lib.rewindHash(ext).value) == Ok(nonce)
      && lib.prove(amount, blind, nonce, own, message) == Ok(proof)
  {
    hide IsMessage, BuildV3ProofMessage, PedersenCommit;
    MessageLayout(4, path, switch);
    MessageUnique(message, BuildV3ProofMessage(4, path, switch), 4, path, switch);
  }

  /** `try_recover`: derive along the first `depth` steps and compare commitments. */
  function TryRecover(
    lib: Library, ext: Bytes64, commitment: Bytes33, value: u64, depth: byte, serialized: Bytes, switch: Switch)
    : Outcome<Option<RecoveredOutput>>
    requires lib.curve.order > 0 && |serialized| == 16 && depth <= 4
  {
    var full := PathFrom(serialized);
    var path := full[..depth];
    var blind :- DeriveBlind(lib, ext, path, value, switch);
    var recomputed :- PedersenCommit(lib.curve, value, blind);
    if recomputed != commitment then Ok(None)
    else
      Ok(Some(RecoveredOutput(value, [depth] + serialized, path,
                                  if depth == 0 then 0 else full[depth - 1], switch, blind)))
  }

  function SwitchFrom(b: byte): Option<Switch> {
    match b
    case 0 => Some(NoSwitch)
    case 1 => Some(Regular)
    case _ => None
  }

  /** The first reading of a proof message: switch and depth are in it. */
  function CheckV3(lib: Library, ext: Bytes64, commitment: Bytes33, value: u64, message: Bytes)
    : Outcome<Option<RecoveredOutput>>
    requires lib.curve.order > 0 && |message| == 20
  {
    if message[0] == 0 && message[1] == 0 then
      match SwitchFrom(message[2])
      case Some(switch) =>
        TryRecover(lib, ext, commitment, value, if message[3] < 4 then message[3] else 4, message[4..20], switch)
      case None => Ok(None)
    else Ok(None)
  }

  /** The second reading, from before the first hard fork: four zero bytes, depth 3, regular switch. */
  function CheckLegacy(lib: Library, ext: Bytes64, commitment: Bytes33, value: u64, message: Bytes)
    : Outcome<Option<RecoveredOutput>>
    requires lib.curve.order > 0 && |message| == 20
  {
    if message[..4] == [0, 0, 0, 0] then TryRecover(lib, ext, commitment, value, 3, message[4..20], Regular)
    else Ok(None)
  }

  function CheckOutput(lib: Library, ext: Bytes64, commitment: Bytes33, value: u64, message: Bytes)
    : Outcome<Option<RecoveredOutput>>
    requires lib.curve.order > 0
  {
    if |message| != 20 then Ok(None) else
    var v3 :- CheckV3(lib, ext, commitment, value, message);
    if v3.Some? then Ok(v3) else CheckLegacy(lib, ext, commitment, value, message)
  }

  /** One rewind of the proof and, when it opens, the check of what it gave up. */
  function RewindAndCheck(lib: Library, ext: Bytes64, commitment: Bytes33, proof: ByteVec, hash: Bytes32)
    : Outcome<Option<RecoveredOutput>>
    requires lib.curve.order > 0
  {
    var nonce :- lib.keyedHash(commitment, hash);
    var rewound :- lib.rewind(commitment, nonce, proof);
    match rewound
    case None => Ok(None)
    case Some((value, message)) => CheckOutput(lib, ext, commitment, value, message)
  }

  /** `recover_output`: the current nonce first, then the legacy one. */
  function RecoverOutput(lib: Library, ext: Bytes64, commitment: Bytes33, proof: ByteVec)
    : Outcome<Option<RecoveredOutput>>
    requires lib.curve.order > 0
  {
    var rh :- lib.rewindHash(ext);
    var v3 :- RewindAndCheck(lib, ext, commitment, proof, rh);
    if v3.Some? then Ok(v3) else
    var lrh :- DeriveBlind(lib, ext, [], 0, Regular);
    RewindAndCheck(lib, ext, commitment, proof, lrh)
  }

  // ----- what can be trusted -----------------------------------------------------------------

  /** An output is this seed's: its own path, amount and switch derive its blind, its blind opens the
      commitment, and its identifier says the same path. */
  ghost predicate Derives(lib: Library, ext: Bytes64, commitment: Bytes33, out: RecoveredOutput)
    requires lib.curve.order > 0
  {
    && DeriveBlind(lib, ext, out.path, out.value, out.switch) == Ok(out.blindingFactor)
    && PedersenCommit(lib.curve, out.value, out.blindingFactor) == Ok(commitment)
    && |out.identifier| == 17 && out.identifier[0] <= 4
    && out.path == PathFrom(out.identifier[1..])[..out.identifier[0]]
    && out.nChild == if out.path == [] then 0 else out.path[|out.path| - 1]
  }

  lemma TriedDerives(
    lib: Library, ext: Bytes64, commitment: Bytes33, value: u64, depth: byte, serialized: Bytes, switch: Switch)
    requires lib.curve.order > 0 && |serialized| == 16 && depth <= 4
    requires var r := TryRecover(lib, ext, commitment, value, depth, serialized, switch); r.Ok? && r.value.Some?
    ensures Derives(lib, ext, commitment,
                    TryRecover(lib, ext, commitment, value, depth, serialized, switch).value.value)
  {
    hide PathFrom;
    assert ([depth] + serialized)[1..] == serialized;
  }

  lemma CheckedDerives(lib: Library, ext: Bytes64, commitment: Bytes33, value: u64, message: Bytes)
    requires lib.curve.order > 0
    requires CheckOutput(lib, ext, commitment, value, message).Ok?
    requires CheckOutput(lib, ext, commitment, value, message).value.Some?
    ensures Derives(lib, ext, commitment, CheckOutput(lib, ext, commitment, value, message).value.value)
  {
    hide TryRecover, Derives;
    if CheckV3(lib, ext, commitment, value, message).value.Some? {
      TriedDerives(lib, ext, commitment, value, if message[3] < 4 then message[3] else 4, message[4..20],
                   SwitchFrom(message[2]).value);
    } else {
      TriedDerives(lib, ext, commitment, value, 3, message[4..20], Regular);
    }
  }

  /** No false positives: whatever the proof and the rewind say, an output is returned only if the seed
      re-derives the on-chain commitment along the output's own path. */
  lemma RecoverySound(lib: Library, ext: Bytes64, commitment: Bytes33, proof: ByteVec)
    requires lib.curve.order > 0
    requires RecoverOutput(lib, ext, commitment, proof).Ok?
    requires RecoverOutput(lib, ext, commitment, proof).value.Some?
    ensures Derives(lib, ext, commitment, RecoverOutput(lib, ext, commitment, proof).value.value)
  {
    hide CheckOutput, Derives;
    forall value: u64, message: Bytes | CheckOutput(lib, ext, commitment, value, message).Ok?
                                     && CheckOutput(lib, ext, commitment, value, message).value.Some?
      ensures Derives(lib, ext, commitment, CheckOutput(lib, ext, commitment, value, message).value.value)
    {
      CheckedDerives(lib, ext, commitment, value, message);
    }
  }

  /** The check of a message this wallet wrote: it passes exactly when the blind the output was minted
      with is the one its path derives. */
  lemma CheckExact(
    lib: Library, ext: Bytes64, amount: u64, blind: Bytes32, derived: Bytes32, path: Path4, switch: Switch,
    commitment: Bytes33)
    requires lib.curve.Valid()
    requires PedersenCommit(lib.curve, amount, blind) == Ok(commitment)
    requires DeriveBlind(lib, ext, path, amount, switch) == Ok(derived)
      && PedersenCommit(lib.curve, amount, derived).Ok?
    ensures CheckOutput(lib, ext, commitment, amount, BuildV3ProofMessage(4, path, switch))
      == Ok(if derived == blind
            then Some(RecoveredOutput(amount, [4] + PathBytes(path), path, path[3], switch, blind)) else None)
  {
    hide Curve.Valid, PedersenCommit, DeriveBlind, PathFrom, PathBytes;
    lib.curve.OrderBounds();
    var message := BuildV3ProofMessage(4, path, switch);
    assert message[4..20] == PathBytes(path);
    PathReadsBack(path);
    assert path[..4] == path;
    if PedersenCommit(lib.curve, amount, derived) == Ok(commitment) {
      OneBlindOpens(lib.curve, amount, derived, blind);
    }
  }

  /** A current message of any depth, more than four counting as four: the output is found, under its depth and the
      steps that count, exactly when those steps derive a blind that reproduces the commitment. */
  lemma AnyDepthFound(
    lib: Library, ext: Bytes64, commitment: Bytes33, value: u64, message: Bytes, depth: byte, path: Path4,
    switch: Switch, blind: Bytes32, recomputed: Bytes33)
    requires lib.curve.order > 0 && IsMessage(message, depth, path, switch)
    requires DeriveBlind(lib, ext, path[..if depth < 4 then depth else 4], value, switch) == Ok(blind)
    requires PedersenCommit(lib.curve, value, blind) == Ok(recomputed)
    ensures var n: byte := if depth < 4 then depth else 4;
      recomputed == commitment ==>
        CheckOutput(lib, ext, commitment, value, message)
          == Ok(Some(RecoveredOutput(value, [n] + message[4..], path[..n], if n == 0 then 0 else path[n - 1], switch,
                                     blind)))
    ensures recomputed != commitment && switch == Regular ==>
      CheckOutput(lib, ext, commitment, value, message) == Ok(None)
  {
    hide PedersenCommit, DeriveBlind, BeValue;
    assert message[4..20][0..4] == message[4..8] && message[4..20][4..8] == message[8..12];
    assert message[4..20][8..12] == message[12..16] && message[4..20][12..16] == message[16..20];
    assert PathFrom(message[4..20]) == path;
    assert message[4..] == message[4..20];
    assert message[..4][2] == message[2];
  }

  /** No other message is read at all: not 20 bytes long, or beginning with neither two zeros and a switch of 0 or 1
      nor four zeros. */
  lemma OtherMessagesIgnored(lib: Library, ext: Bytes64, commitment: Bytes33, value: u64, message: Bytes)
    requires lib.curve.order > 0
    requires |message| != 20 || message[0] != 0 || message[1] != 0 || message[2] > 1
    ensures CheckOutput(lib, ext, commitment, value, message) == Ok(None)
  {
    if |message| == 20 {
      assert message[..4][0] == message[0] && message[..4][1] == message[1] && message[..4][2] == message[2];
    }
  }

  /** The promise of minting: an output made with the blind its path derives is found again from the seed,
      with its value, path, switch and blind. */
  lemma RecoveryComplete(
    lib: Library, ext: Bytes64, amount: u64, blind: Bytes32, path: Path4, switch: Switch, privateNonce: Bytes32)
    requires lib.curve.Valid() && lib.Rewinds()
    requires DeriveBlind(lib, ext, path, amount, switch) == Ok(blind)
    requires CreateRecoverableOutput(lib, ext, amount, blind, path, switch, privateNonce).Ok?
    ensures var (commitment, proof, _) :=
              CreateRecoverableOutput(lib, ext, amount, blind, path, switch, privateNonce).value;
            RecoverOutput(lib, ext, commitment, proof)
              == Ok(Some(RecoveredOutput(amount, [4] + PathBytes(path), path, path[3], switch, blind)))
  {
    hide Curve.Valid, PedersenCommit, DeriveBlind, CheckOutput, BuildV3ProofMessage;
    var (commitment, proof, nonce) :=
      CreateRecoverableOutput(lib, ext, amount, blind, path, switch, privateNonce).value;
    assert lib.rewind(commitment, nonce, proof) == Ok(Some((amount, BuildV3ProofMessage(4, path, switch))));
    CheckExact(lib, ext, amount, blind, blind, path, switch, commitment);
  }

  /** An output from before the first hard fork: its message is four zero bytes and the path, its proof is
      made under the old nonce, its blind derives along three steps. */
  ghost predicate LegacyOutput(
    lib: Library, ext: Bytes64, amount: u64, blind: Bytes32, path: Path4, own: Bytes32,
    commitment: Bytes33, proof: ByteVec)
    requires lib.curve.order > 0
  {
    var root := DeriveBlind(lib, ext, [], 0, Regular);
    && DeriveBlind(lib, ext, path[..3], amount, Regular) == Ok(blind)
    && PedersenCommit(lib.curve, amount, blind) == Ok(commitment)
    && root.Ok? && lib.keyedHash(commitment, root.value).Ok?
    && lib.prove(amount, blind, lib.keyedHash(commitment, root.value).value, own, [0, 0, 0, 0] + PathBytes(path))
       == Ok(proof)
  }

  /** The current nonce opens nothing in the proof. */
  ghost predicate NotRewound(lib: Library, ext: Bytes64, commitment: Bytes33, proof: ByteVec) {
    var hash := lib.rewindHash(ext);
    && hash.Ok? && lib.keyedHash(commitment, hash.value).Ok?
    && lib.rewind(commitment, lib.keyedHash(commitment, hash.value).value, proof) == Ok(None)
  }

  /** The account's root key opens a commitment to the amount: the point is not the identity. */
  ghost predicate RootOpens(lib: Library, root: Bytes32, amount: u64)
    requires lib.curve.order > 0
  {
    lib.curve.OnCurve(Opening(lib.curve, amount, ScalarValue(root)))
  }

  /** What the two readings of an old message end in. */
  function LegacyFound(amount: u64, blind: Bytes32, path: Path4, root: Bytes32): RecoveredOutput {
    if root == blind then RecoveredOutput(amount, [0] + PathBytes(path), [], 0, NoSwitch, blind)
    else RecoveredOutput(amount, [3] + PathBytes(path), path[..3], path[2], Regular, blind)
  }

  /** An old output is found with its value and blind. Its message also reads as a current one of depth 0
      without the switch, which is tried first: that reading is refused unless the root key is itself the
      blind, and it stops the recovery exactly when amount and root key open the identity, which has no
      commitment. */
  lemma LegacyRecoveryExact(
    lib: Library, ext: Bytes64, amount: u64, blind: Bytes32, path: Path4, own: Bytes32, commitment: Bytes33,
    proof: ByteVec)
    requires lib.curve.Valid() && lib.Rewinds()
    requires LegacyOutput(lib, ext, amount, blind, path, own, commitment, proof)
    requires NotRewound(lib, ext, commitment, proof)
    ensures lib.derivePath(ext, []).Ok? && NonZero(lib.curve, lib.derivePath(ext, []).value).Some?
    ensures var root := lib.derivePath(ext, []).value;
      RecoverOutput(lib, ext, commitment, proof)
        == if RootOpens(lib, root, amount) then Ok(Some(LegacyFound(amount, blind, path, root)))
           else Err("commit failed")
  {
    hide Curve.Valid, PedersenCommit, DeriveBlind, CheckOutput, LegacyFound, RootOpens;
    lib.curve.OrderBounds();
    var message := [0, 0, 0, 0] + PathBytes(path);
    var nonce := lib.keyedHash(commitment, DeriveBlind(lib, ext, [], 0, Regular).value).value;
    assert lib.rewind(commitment, nonce, proof) == Ok(Some((amount, message)));
    RootDerives(lib, ext, amount);
    LegacyCheckExact(lib, ext, amount, blind, path, commitment, lib.derivePath(ext, []).value);
  }

  /** The old nonce is made from the root key, so the root key is a valid secret. */
  lemma RootDerives(lib: Library, ext: Bytes64, amount: u64)
    requires lib.curve.order > 0 && DeriveBlind(lib, ext, [], 0, Regular).Ok?
    ensures lib.derivePath(ext, []).Ok?
    ensures var root := lib.derivePath(ext, []).value;
      && NonZero(lib.curve, root).Some?
      && DeriveBlind(lib, ext, [], amount, NoSwitch) == Ok(root)
      && (if RootOpens(lib, root, amount) then PedersenCommit(lib.curve, amount, root).Ok?
          else PedersenCommit(lib.curve, amount, root) == Err("commit failed"))
  {
    hide CommitForm, Opening;
  }

  lemma LegacyCheckExact(
    lib: Library, ext: Bytes64, amount: u64, blind: Bytes32, path: Path4, commitment: Bytes33, root: Bytes32)
    requires lib.curve.Valid() && DeriveBlind(lib, ext, path[..3], amount, Regular) == Ok(blind)
    requires PedersenCommit(lib.curve, amount, blind) == Ok(commitment)
    requires DeriveBlind(lib, ext, [], amount, NoSwitch) == Ok(root)
    ensures CheckOutput(lib, ext, commitment, amount, [0, 0, 0, 0] + PathBytes(path)) == (
      var _ :- PedersenCommit(lib.curve, amount, root);
      Ok(Some(LegacyFound(amount, blind, path, root))))
  {
    hide Curve.Valid, PedersenCommit, DeriveBlind, PathFrom, PathBytes;
    lib.curve.OrderBounds();
    var message := [0, 0, 0, 0] + PathBytes(path);
    assert message[4..20] == PathBytes(path) && message[..4] == [0, 0, 0, 0];
    PathReadsBack(path);
    assert path[..0] == [];
    if PedersenCommit(lib.curve, amount, root) == Ok(commitment) {
      OneBlindOpens(lib.curve, amount, root, blind);
    }
  }

  /** What is recovered can be spent: as an input at its identifier's path it is accepted by the path
      search, whatever other keys are tried with it, and the blind found is the recovered one. This holds
      for every recovered output of depth 4, and of depth 3 with a zero fourth step. */
  lemma RecoveredIsSpendable(
    lib: Library, ext: Bytes64, legacy: Option<Bytes64>, commitment: Bytes33, out: RecoveredOutput, isCoinbase: bool)
    requires lib.curve.Valid() && Derives(lib, ext, commitment, out)
    requires out.identifier[0] == 4 || (out.identifier[0] == 3 && PathFrom(out.identifier[1..])[3] == 0)
    ensures var input := PathSearch.UnspentOutput(PathFrom(out.identifier[1..]), out.value, commitment, isCoinbase);
            var found := PathSearch.Fallback(lib, ext, legacy, input);
            found.Ok? && found.value.0 == out.blindingFactor
  {
    hide Curve.Valid, PedersenCommit, DeriveBlind, PathFrom, PathSearch.Fallback;
    lib.curve.OrderBounds();
    var full := PathFrom(out.identifier[1..]);
    var deep := out.identifier[0] == 4;
    assert full[..4] == full;
    var candidate := PathSearch.Candidate(PathSearch.Tag(false, out.switch, deep), ext, out.switch,
                                          if deep then full else full[..3]);
    assert candidate in PathSearch.CandidatesFor(ext, legacy, full, out.switch);
    assert candidate in PathSearch.Candidates(ext, legacy, full);
    PathSearch.FallbackFindsTheBlind(
      lib, ext, legacy, PathSearch.UnspentOutput(full, out.value, commitment, isCoinbase),
      candidate, out.blindingFactor);
  }
}
