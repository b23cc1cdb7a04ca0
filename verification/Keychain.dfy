/** Key derivation and the proof library, as the wallet code uses them (crates/grin-ext/src/keychain.rs,
    bulletproof.rs). The hashes, BIP32 steps and range proofs are libraries and stay uninterpreted. */
module Keychains {
  import opened Outcomes
  import opened ByteStrings
  import opened Modular
  import opened Curves

  datatype Switch = NoSwitch | Regular

  type Path4 = p: seq<u32> | |p| == 4 witness [0, 0, 0, 0]

  datatype Library = Library(
    curve: Curve,
    derivePath: (Bytes64, seq<u32>) -> Outcome<Bytes32>,
    blindSwitch: (u64, Bytes32) -> Outcome<Bytes32>,
    rewindHash: Bytes64 -> Outcome<Bytes32>,
    keyedHash: (Bytes33, Bytes32) -> Outcome<Bytes32>,        // BLAKE2b keyed by the commitment
    prove: (u64, Bytes32, Bytes32, Bytes32, Bytes) -> Outcome<ByteVec>,
    rewind: (Bytes33, Bytes32, ByteVec) -> Outcome<Option<(u64, Bytes)>>)
  {
    /** A proof made for a commitment under a nonce, rewound with that nonce, gives up its value and its
        message, which has the 20 bytes the library keeps. */
    ghost predicate Rewinds() {
      curve.order > 0 &&
      forall value: u64, blind: Bytes32, nonce: Bytes32, own: Bytes32, message: Bytes, c: Bytes33, proof: ByteVec |
        && |message| == 20
        && PedersenCommit(curve, value, blind) == Ok(c) && prove(value, blind, nonce, own, message) == Ok(proof) ::
        rewind(c, nonce, proof) == Ok(Some((value, message)))
    }
  }

  /** `derive_blind`. */
  function DeriveBlind(lib: Library, ext: Bytes64, path: seq<u32>, amount: u64, switch: Switch): Outcome<Bytes32> {
    var secret :- lib.derivePath(ext, path);
    match switch
    case NoSwitch => Ok(secret)
    case Regular =>
      var _ :- Need(NonZero(lib.curve, secret).Some?, "invalid BIP32 child key as secret");
      lib.blindSwitch(amount, secret)
  }

  /** A blind is the secret at the path; with the switch it is the library's switched blind of the amount and that
      secret, which must be a usable one. */
  lemma DeriveBlindExact(lib: Library, ext: Bytes64, path: seq<u32>, amount: u64, switch: Switch, blind: Bytes32)
    ensures DeriveBlind(lib, ext, path, amount, switch) == Ok(blind) <==>
      && lib.derivePath(ext, path).Ok?
      && var secret := lib.derivePath(ext, path).value;
      if switch == NoSwitch then blind == secret
      else 0 < BeValue(secret) < lib.curve.order && lib.blindSwitch(amount, secret) == Ok(blind)
  {
    hide BeValue;
  }

  /** A commitment to a value has one blind. */
  lemma OneBlindOpens(c: Curve, value: u64, a: Bytes32, b: Bytes32)
    requires c.Valid() && PedersenCommit(c, value, a).Ok?
    requires PedersenCommit(c, value, a) == PedersenCommit(c, value, b)
    ensures a == b
  {
    hide Rem, Curve.Valid, ScalarValue, CommitForm;
    c.OrderBounds();
    var x, y := NonZero(c, a).value, NonZero(c, b).value;
    var p, q := Opening(c, value, x), Opening(c, value, y);
    CommitFormInjective(c, p, q);
    var vh := value * c.h;
    CongruentSub(vh + x, vh + y, vh, vh, c.order);
    SmallIsRemainder(x, c.order);
    SmallIsRemainder(y, c.order);
    ScalarInjective(a, b);
  }
}
