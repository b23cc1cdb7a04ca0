/** Kernel features and the bytes that stand for them (crates/grin-ext/src/kernel.rs). */
module Kernels {
  import opened Outcomes
  import opened ByteStrings
  import opened Codec

  const NRD_MAX_RELATIVE_HEIGHT: u16 := 10080

  datatype KernelFeatures =
    | Plain(fee: u64)
    | Coinbase
    | HeightLocked(fee: u64, lockHeight: u64)
    | Nrd(fee: u64, relativeHeight: u16)

  function FeatureByte(k: KernelFeatures): byte {
    match k
    case Plain(_) => 0
    case Coinbase => 1
    case HeightLocked(_, _) => 2
    case Nrd(_, _) => 3
  }

  predicate InRange(k: KernelFeatures) {
    k.Nrd? ==> 1 <= k.relativeHeight <= NRD_MAX_RELATIVE_HEIGHT
  }

  /** `from_slate_fields`. */
  function FromSlateFields(feat: byte, fee: u64, lockHgt: Option<u64>): Outcome<KernelFeatures> {
    match feat
    case 0 => Ok(Plain(fee))
    case 1 => Ok(Coinbase)
    case 2 =>
      (match lockHgt
       case None => Err("HeightLocked kernel requires feat_args.lock_hgt")
       case Some(lh) => Ok(HeightLocked(fee, lh)))
    case 3 =>
      (match lockHgt
       case None => Err("NRD kernel requires feat_args.lock_hgt")
       case Some(lh) =>
         if lh == 0 || lh > NRD_MAX_RELATIVE_HEIGHT then Err("NRD relative_height out of range")
         else Ok(Nrd(fee, lh)))
    case _ => Err("unknown kernel feature byte")
  }

  /** The lock height a slate carries for a kernel. */
  function LockArgs(k: KernelFeatures): Option<u64> {
    match k
    case HeightLocked(_, lockHeight) => Some(lockHeight)
    case Nrd(_, relativeHeight) => Some(relativeHeight)
    case _ => None
  }

  function KernelBytes(k: KernelFeatures): Bytes {
    match k
    case Plain(fee) => [0] + U64Bytes(fee)
    case Coinbase => [1]
    case HeightLocked(fee, lockHeight) => [2] + U64Bytes(fee) + U64Bytes(lockHeight)
    case Nrd(fee, relativeHeight) => [3] + U64Bytes(fee) + U16Bytes(relativeHeight)
  }

  /** `to_v2_bytes`. */
  function ToV2Bytes(k: KernelFeatures): Outcome<Bytes> {
    if InRange(k) then Ok(KernelBytes(k)) else Err("NRD relative_height out of range")
  }

  /** `sig_msg`: the same bytes, hashed. */
  function SigMsg(blake: Bytes -> Bytes32, k: KernelFeatures): Outcome<Bytes32> {
    var bytes :- ToV2Bytes(k);
    Ok(blake(bytes))
  }

  /** What the four kernels look like on the wire: a feature byte, a fee of eight bytes unless it is a coinbase,
      then a height of eight bytes or of two. */
  ghost predicate OnWire(k: KernelFeatures, b: Bytes) {
    match k
    case Plain(fee) => |b| == 9 && b[0] == 0 && BeValue(b[1..]) == fee
    case Coinbase => b == [1]
    case HeightLocked(fee, height) => |b| == 17 && b[0] == 2 && BeValue(b[1..9]) == fee && BeValue(b[9..]) == height
    case Nrd(fee, height) => |b| == 11 && b[0] == 3 && BeValue(b[1..9]) == fee && BeValue(b[9..]) == height
  }

  lemma KernelLayout(k: KernelFeatures)
    ensures OnWire(k, KernelBytes(k))
    ensures FeatureByte(k) == KernelBytes(k)[0]
  {
    hide U64Bytes, U16Bytes, BeValue;
    match k
    case Plain(fee) =>
      WordValues(0, 0, fee);
      assert KernelBytes(k)[1..] == U64Bytes(fee);
    case Coinbase =>
    case HeightLocked(fee, height) =>
      WordValues(0, 0, fee);
      WordValues(0, 0, height);
      assert KernelBytes(k)[1..9] == U64Bytes(fee) && KernelBytes(k)[9..] == U64Bytes(height);
    case Nrd(fee, height) =>
      WordValues(height, 0, fee);
      assert KernelBytes(k)[1..9] == U64Bytes(fee) && KernelBytes(k)[9..] == U16Bytes(height);
  }

  /** One kernel for some bytes, so a layout is a definition. */
  lemma WireUnique(k: KernelFeatures, a: Bytes, b: Bytes)
    requires OnWire(k, a) && OnWire(k, b)
    ensures a == b
  {
    hide BeValue;
    match k
    case Plain(_) =>
      BeValueInjective(a[1..], b[1..]);
      assert a == [a[0]] + a[1..] && b == [b[0]] + b[1..];
    case Coinbase =>
    case _ =>
      BeValueInjective(a[1..9], b[1..9]);
      BeValueInjective(a[9..], b[9..]);
      assert a == [a[0]] + a[1..9] + a[9..] && b == [b[0]] + b[1..9] + b[9..];
  }

  /** The message of a kernel is the hash of its wire bytes, whatever they are hashed with; a relative height
      outside one week in blocks has none. */
  lemma MessageExact(blake: Bytes -> Bytes32, k: KernelFeatures, b: Bytes)
    requires OnWire(k, b)
    ensures SigMsg(blake, k) == if k.Nrd? && !(1 <= k.relativeHeight <= 10080)
      then Err("NRD relative_height out of range") else Ok(blake(b))
  {
    hide KernelBytes, OnWire;
    KernelLayout(k);
    WireUnique(k, b, KernelBytes(k));
  }

  /** What the fields of a slate describe: feature 0 a plain kernel, 1 a coinbase, 2 one locked to a height, 3
      one with a relative height of one week in blocks at most; nothing else is a kernel. */
  lemma FromSlateFieldsExact(feat: byte, fee: u64, lockHgt: Option<u64>, k: KernelFeatures)
    ensures FromSlateFields(feat, fee, lockHgt) == Ok(k) <==>
      match k
      case Plain(f) => feat == 0 && f == fee
      case Coinbase => feat == 1
      case HeightLocked(f, height) => feat == 2 && f == fee && lockHgt == Some(height)
      case Nrd(f, height) => feat == 3 && f == fee && lockHgt == Some(height as u64) && 1 <= height <= 10080
  {
  }

  /** A kernel's fields survive the slate, provided an NRD height is one the network accepts. The fee of a
      coinbase kernel is not part of it. */
  lemma SlateFieldsRoundTrip(k: KernelFeatures, fee: u64)
    requires !k.Coinbase? ==> fee == k.fee
    ensures FromSlateFields(FeatureByte(k), fee, LockArgs(k)) == Ok(k) <==> InRange(k)
  {
  }

  /** A kernel rebuilt from the slate fields of another charges no fee exactly when that one is a coinbase
      kernel. */
  lemma CoinbaseKept(f: KernelFeatures, fee: u64, k: KernelFeatures)
    requires FromSlateFields(FeatureByte(f), fee, LockArgs(f)) == Ok(k)
    ensures k == Coinbase <==> f.Coinbase?
  {
  }

  function ReadKernel(b: Bytes): Parse<KernelFeatures> {
    var (feature, b) :- TakeU8(b);
    match feature
    case 0 =>
      var (fee, b) :- TakeU64(b);
      Ok((Plain(fee), b))
    case 1 => Ok((Coinbase, b))
    case 2 =>
      var (fee, b) :- TakeU64(b);
      var (lockHeight, b) :- TakeU64(b);
      Ok((HeightLocked(fee, lockHeight), b))
    case 3 =>
      var (fee, b) :- TakeU64(b);
      var (relativeHeight, b) :- TakeU16(b);
      Ok((Nrd(fee, relativeHeight), b))
    case _ => Err("unknown kernel feature byte")
  }

  lemma KernelRoundTrips(k: KernelFeatures, t: Bytes)
    ensures RoundTrips(KernelBytes, ReadKernel, k, t)
  {
    hide U64Bytes, U16Bytes, TakeU64, TakeU16;
    TakeWritten([FeatureByte(k)], KernelBytes(k)[1..] + t);
    assert KernelBytes(k) + t == [FeatureByte(k)] + (KernelBytes(k)[1..] + t);
    match k
    case Plain(fee) =>
      WordsWritten(0, 0, fee, t);
      assert KernelBytes(k)[1..] == U64Bytes(fee);
    case Coinbase =>
      assert KernelBytes(k)[1..] + t == t;
    case HeightLocked(fee, lockHeight) =>
      assert KernelBytes(k)[1..] + t == U64Bytes(fee) + (U64Bytes(lockHeight) + t);
      WordsWritten(0, 0, fee, U64Bytes(lockHeight) + t);
      WordsWritten(0, 0, lockHeight, t);
    case Nrd(fee, relativeHeight) =>
      assert KernelBytes(k)[1..] + t == U64Bytes(fee) + (U16Bytes(relativeHeight) + t);
      WordsWritten(0, 0, fee, U16Bytes(relativeHeight) + t);
      WordsWritten(relativeHeight, 0, 0, t);
  }

  /** Two kernels with the same bytes to sign are the same kernel. */
  lemma KernelBytesInjective(a: KernelFeatures, b: KernelFeatures)
    requires KernelBytes(a) == KernelBytes(b)
    ensures a == b
  {
    KernelRoundTrips(a, []);
    KernelRoundTrips(b, []);
  }
}
