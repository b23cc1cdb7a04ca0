/** The binary envelope inside the armor (crates/grin-ext/src/slatepack.rs). */
module Slatepacks {
  import opened Outcomes
  import opened ByteStrings
  import opened Codec

  datatype Mode = Plain | Encrypted

  /** `sender` is the text of a Rust string, as its UTF-8 bytes. */
  datatype Slatepack = Slatepack(major: byte, minor: byte, mode: Mode, sender: Option<ByteVec>, payload: ByteVec) {
    /** The sender, when there is one, is text. */
    predicate TextSender(utf8: Bytes -> bool) {
      sender.Some? ==> utf8(sender.value)
    }
  }

  function PlainPack(payload: ByteVec, sender: Option<ByteVec>): Slatepack {
    Slatepack(1, 0, Plain, sender, payload)
  }

  function ModeByte(mode: Mode): byte {
    if mode.Plain? then 0 else 1
  }

  /** The address behind its one-byte length, cut at 255 bytes. */
  function SenderBytes(sender: Option<ByteVec>): Bytes {
    match sender
    case None => []
    case Some(addr) =>
      var len := if |addr| <= 0xFF then |addr| else 0xFF;
      [len] + addr[..len]
  }

  function SenderFlag(sender: Option<ByteVec>): u16 {
    if sender.Some? then 0x0001 else 0x0000
  }

  /** The wire form with `flags` and with `pad` bytes of unknown optional fields. */
  function Layout(p: Slatepack, flags: u16, pad: Bytes): Bytes
    requires |SenderBytes(p.sender)| + |pad| < 0x1_0000_0000
  {
    Announcing(p, flags, pad, |p.payload|)
  }

  /** The same, with whatever payload length it announces. */
  function Announcing(p: Slatepack, flags: u16, pad: Bytes, announced: u64): Bytes
    requires |SenderBytes(p.sender)| + |pad| < 0x1_0000_0000
  {
    var opt := SenderBytes(p.sender) + pad;
    [p.major, p.minor, ModeByte(p.mode)] + U16Bytes(flags) + U32Bytes(|opt|) + opt + U64Bytes(announced) + p.payload
  }

  function ToBytes(p: Slatepack): Bytes {
    Layout(p, SenderFlag(p.sender), [])
  }

  /** The largest `usize`: 32 bits in the browser, 64 elsewhere. */
  type UsizeMax = n: nat | n == 0xFFFF_FFFF || n == U64_MAX witness U64_MAX

  /** How long the input is, and how far a `usize` counts. */
  datatype Input = Input(length: nat, usizeMax: UsizeMax)

  /** `as usize` keeps the low bits. */
  function AsUsize(n: nat, usizeMax: UsizeMax): nat {
    n % (usizeMax + 1)
  }

  /** `ByteCursor::ensure` then a slice. The offset plus `n` is computed in a `usize`, and overflow checks
      are on; the offset is the input's length less what is left. */
  function CursorTake(input: Input, n: nat, b: Bytes): (r: Parse<Bytes>)
    ensures r.Ok? ==> |r.value.0| == n
  {
    if input.length - |b| + n > input.usizeMax then Panic("attempt to add with overflow") else Take(n, b)
  }

  function CursorU8(input: Input, b: Bytes): Parse<byte> {
    var (v, b) :- CursorTake(input, 1, b);
    Ok((v[0], b))
  }

  function CursorU16(input: Input, b: Bytes): Parse<u16> {
    var (v, b) :- CursorTake(input, 2, b);
    Ok((U16Value(v), b))
  }

  function CursorU32(input: Input, b: Bytes): Parse<u32> {
    var (v, b) :- CursorTake(input, 4, b);
    Ok((U32Value(v), b))
  }

  function CursorU64(input: Input, b: Bytes): Parse<u64> {
    var (v, b) :- CursorTake(input, 8, b);
    Ok((U64Value(v), b))
  }

  function ModeFromByte(b: byte): Outcome<Mode> {
    match b
    case 0 => Ok(Plain)
    case 1 => Ok(Encrypted)
    case _ => Err("unknown slatepack mode")
  }

  /** The optional region: the sender when bit 0 is set, then whatever else `optLen` announces. */
  function ReadOptRegion(utf8: Bytes -> bool, input: Input, flags: u16, optLen: u32, b: Bytes): Parse<Option<ByteVec>> {
    if flags % 2 == 1 then
      var (len, b) :- CursorU8(input, b);
      var (addr, b) :- CursorTake(input, len, b);
      var _ :- Need(utf8(addr), "sender address is not UTF-8");
      var (_, b) :- SkipUnknown(input, optLen - (1 + len), b);
      Ok((Some(addr), b))
    else
      var (_, b) :- SkipUnknown(input, optLen, b);
      Ok((None, b))
  }

  function SkipUnknown(input: Input, n: int, b: Bytes): Parse<Bytes> {
    if n > 0 then CursorTake(input, n, b) else Ok(([], b))
  }

  function ReadVersionMode(input: Input, b: Bytes): Parse<(byte, byte, Mode)> {
    var (major, b) :- CursorU8(input, b);
    var (minor, b) :- CursorU8(input, b);
    var (modeByte, b) :- CursorU8(input, b);
    var mode :- ModeFromByte(modeByte);
    Ok(((major, minor, mode), b))
  }

  function ReadSender(utf8: Bytes -> bool, input: Input, b: Bytes): Parse<Option<ByteVec>> {
    var (flags, b) :- CursorU16(input, b);
    var (optLen, b) :- CursorU32(input, b);
    ReadOptRegion(utf8, input, flags, optLen, b)
  }

  function ReadPack(utf8: Bytes -> bool, input: Input, b: Bytes): Parse<Slatepack> {
    var ((major, minor, mode), b) :- ReadVersionMode(input, b);
    var (sender, b) :- ReadSender(utf8, input, b);
    var (payloadLen, b) :- CursorU64(input, b);
    var (payload, b) :- CursorTake(input, AsUsize(payloadLen, input.usizeMax), b);
    Ok((Slatepack(major, minor, mode, sender, payload), b))
  }

  function FromBytes(utf8: Bytes -> bool, usizeMax: UsizeMax, bytes: Bytes): Outcome<Slatepack> {
    var (p, _) :- ReadPack(utf8, Input(|bytes|, usizeMax), bytes);
    Ok(p)
  }

  // ----- round trip --------------------------------------------------------------------------

  lemma CursorWritten(input: Input, v: Bytes, t: Bytes)
    requires |v| + |t| <= input.length <= input.usizeMax
    ensures CursorTake(input, |v|, v + t) == Ok((v, t))
  {
    TakeWritten(v, t);
  }

  lemma CursorWordsWritten(input: Input, x: byte, a: u16, n: u32, c: u64, t: Bytes)
    requires input.length <= input.usizeMax
    ensures 1 + |t| <= input.length ==> CursorU8(input, [x] + t) == Ok((x, t))
    ensures 2 + |t| <= input.length ==> CursorU16(input, U16Bytes(a) + t) == Ok((a, t))
    ensures 4 + |t| <= input.length ==> CursorU32(input, U32Bytes(n) + t) == Ok((n, t))
    ensures 8 + |t| <= input.length ==> CursorU64(input, U64Bytes(c) + t) == Ok((c, t))
  {
    TakeWritten([x], t);
    WordsWritten(a, n, c, t);
  }

  lemma OptRegionRoundTrips(utf8: Bytes -> bool, input: Input, sender: Option<ByteVec>, flags: u16,
                            pad: Bytes, t: Bytes)
    requires sender.Some? ==> |sender.value| <= 0xFF && utf8(sender.value)
    requires flags % 2 == SenderFlag(sender)
    requires |SenderBytes(sender)| + |pad| < 0x1_0000_0000
    requires |SenderBytes(sender)| + |pad| + |t| <= input.length <= input.usizeMax
    ensures ReadOptRegion(utf8, input, flags, |SenderBytes(sender)| + |pad|, SenderBytes(sender) + pad + t)
         == Ok((sender, t))
  {
    hide CursorU8, CursorTake, SkipUnknown;
    SkipsPad(input, pad, t);
    match sender
    case None =>
      assert [] + pad + t == pad + t;
    case Some(addr) =>
      var rest := addr + (pad + t);
      SenderSplits(addr, pad, t);
      CursorWordsWritten(input, |addr|, 0, 0, 0, rest);
      CursorWritten(input, addr, pad + t);
  }

  lemma SenderSplits(addr: ByteVec, pad: Bytes, t: Bytes)
    requires |addr| <= 0xFF
    ensures SenderBytes(Some(addr)) + pad + t == [|addr|] + (addr + (pad + t))
    ensures |SenderBytes(Some(addr))| == 1 + |addr|
  {
  }

  lemma SkipsPad(input: Input, pad: Bytes, t: Bytes)
    requires |pad| + |t| <= input.length <= input.usizeMax
    ensures SkipUnknown(input, |pad|, pad + t).Ok? && SkipUnknown(input, |pad|, pad + t).value.1 == t
  {
    hide CursorTake;
    if pad == [] {
      assert pad + t == t;
    } else {
      CursorWritten(input, pad, t);
    }
  }

  /** Taking `n` bytes from what is left of an input, in full: a panic, an error or the bytes. */
  lemma CursorTakeExact(input: Input, n: nat, b: Bytes)
    requires |b| <= input.length <= input.usizeMax
    ensures CursorTake(input, n, b)
         == if input.length - |b| + n > input.usizeMax then Panic("attempt to add with overflow")
            else if n > |b| then Err(EOF_ERROR) else Ok((b[..n], b[n..]))
  {
  }

  /** What stands before the payload: the three fixed fields, the optional region and its two lengths. */
  function PrefixLength(p: Slatepack, pad: Bytes): nat {
    17 + |SenderBytes(p.sender)| + |pad|
  }

  /** What an envelope reads as, whatever unknown flag bits are set, whatever unknown optional fields follow the
      sender, whatever length it announces and whatever bytes are there. Only the low bits of the length count,
      as many as a `usize` has. The reader panics exactly when the payload would end beyond what a `usize`
      counts, reports an error when it would end beyond the input, and otherwise takes that many bytes. */
  lemma AnnouncedOutcome(
    utf8: Bytes -> bool, usizeMax: UsizeMax, p: Slatepack, flags: u16, pad: Bytes, announced: u64, t: Bytes)
    requires p.sender.Some? ==> |p.sender.value| <= 0xFF
    requires p.TextSender(utf8)
    requires flags % 2 == SenderFlag(p.sender)
    requires |SenderBytes(p.sender)| + |pad| < 0x1_0000_0000
    requires |Announcing(p, flags, pad, announced) + t| <= usizeMax
    ensures var n, there := AsUsize(announced, usizeMax), p.payload + t;
      FromBytes(utf8, usizeMax, Announcing(p, flags, pad, announced) + t)
        == if PrefixLength(p, pad) + n > usizeMax then Panic("attempt to add with overflow")
           else if n > |there| then Err(EOF_ERROR) else Ok(p.(payload := there[..n]))
  {
    hide CursorU8, CursorU16, CursorU32, CursorU64, CursorTake, ReadOptRegion, U16Bytes, U32Bytes, U64Bytes,
      SenderBytes, AsUsize;
    var bytes := Announcing(p, flags, pad, announced) + t;
    var input := Input(|bytes|, usizeMax);
    var opt := SenderBytes(p.sender) + pad;
    var b7 := p.payload + t;
    var b6 := U64Bytes(announced) + b7;
    var b5 := opt + b6;
    var b4 := U32Bytes(|opt|) + b5;
    var b3 := U16Bytes(flags) + b4;
    var b2 := [ModeByte(p.mode)] + b3;
    var b1 := [p.minor] + b2;
    assert bytes == [p.major] + b1;
    CursorWordsWritten(input, p.major, 0, 0, 0, b1);
    CursorWordsWritten(input, p.minor, 0, 0, 0, b2);
    CursorWordsWritten(input, ModeByte(p.mode), 0, 0, 0, b3);
    CursorWordsWritten(input, 0, flags, 0, 0, b4);
    CursorWordsWritten(input, 0, 0, |opt|, 0, b5);
    OptRegionRoundTrips(utf8, input, p.sender, flags, pad, b6);
    CursorWordsWritten(input, 0, 0, 0, announced, b7);
    CursorTakeExact(input, AsUsize(announced, usizeMax), b7);
  }

  /** The reader gives back the pack exactly when the low bits of the announced length are the payload's
      length. */
  lemma AnnouncedExact(
    utf8: Bytes -> bool, usizeMax: UsizeMax, p: Slatepack, flags: u16, pad: Bytes, announced: u64, t: Bytes)
    requires p.sender.Some? ==> |p.sender.value| <= 0xFF
    requires p.TextSender(utf8)
    requires flags % 2 == SenderFlag(p.sender)
    requires |SenderBytes(p.sender)| + |pad| < 0x1_0000_0000
    requires |Announcing(p, flags, pad, announced) + t| <= usizeMax
    ensures FromBytes(utf8, usizeMax, Announcing(p, flags, pad, announced) + t) == Ok(p)
       <==> AsUsize(announced, usizeMax) == |p.payload|
  {
    hide FromBytes, SenderBytes, AsUsize, U16Bytes, U32Bytes, U64Bytes;
    AnnouncedOutcome(utf8, usizeMax, p, flags, pad, announced, t);
    assert (p.payload + t)[..|p.payload|] == p.payload;
  }

  /** An envelope cut inside its optional region, after the sender: the reader panics when the announced region
      would end beyond what a `usize` counts, which only the browser can meet, and reports an error otherwise. */
  lemma CutRegionOutcome(
    utf8: Bytes -> bool, usizeMax: UsizeMax, p: Slatepack, flags: u16, optLen: u32, there: Bytes)
    requires p.sender.Some? ==> |p.sender.value| <= 0xFF
    requires p.TextSender(utf8)
    requires flags % 2 == SenderFlag(p.sender)
    requires |SenderBytes(p.sender)| + |there| < optLen
    requires |CutRegion(p, flags, optLen, there)| <= usizeMax
    ensures FromBytes(utf8, usizeMax, CutRegion(p, flags, optLen, there))
         == if 9 + optLen > usizeMax then Panic("attempt to add with overflow") else Err(EOF_ERROR)
  {
    hide CursorU8, CursorU16, CursorU32, CursorU64, CursorTake, ReadOptRegion, U16Bytes, U32Bytes, SenderBytes;
    var bytes := CutRegion(p, flags, optLen, there);
    var input := Input(|bytes|, usizeMax);
    var b5 := SenderBytes(p.sender) + there;
    var b4 := U32Bytes(optLen) + b5;
    var b3 := U16Bytes(flags) + b4;
    var b2 := [ModeByte(p.mode)] + b3;
    var b1 := [p.minor] + b2;
    assert bytes == [p.major] + b1;
    CursorWordsWritten(input, p.major, 0, 0, 0, b1);
    CursorWordsWritten(input, p.minor, 0, 0, 0, b2);
    CursorWordsWritten(input, ModeByte(p.mode), 0, 0, 0, b3);
    CursorWordsWritten(input, 0, flags, 0, 0, b4);
    CursorWordsWritten(input, 0, 0, optLen, 0, b5);
    SkipStops(utf8, input, p.sender, flags, optLen, there);
  }

  /** The three fixed fields, an announced optional region and the part of it that is there. */
  function CutRegion(p: Slatepack, flags: u16, optLen: u32, there: Bytes): Bytes {
    [p.major, p.minor, ModeByte(p.mode)] + U16Bytes(flags) + U32Bytes(optLen) + SenderBytes(p.sender) + there
  }

  lemma SkipStops(utf8: Bytes -> bool, input: Input, sender: Option<ByteVec>, flags: u16, optLen: u32, there: Bytes)
    requires sender.Some? ==> |sender.value| <= 0xFF && utf8(sender.value)
    requires flags % 2 == SenderFlag(sender)
    requires |SenderBytes(sender)| + |there| < optLen
    requires 9 + |SenderBytes(sender)| + |there| == input.length <= input.usizeMax
    ensures ReadOptRegion(utf8, input, flags, optLen, SenderBytes(sender) + there)
         == if 9 + optLen > input.usizeMax then Panic("attempt to add with overflow") else Err(EOF_ERROR)
  {
    hide ReadOptRegion;
    match sender
    case None =>
      assert [] + there == there;
      NoSenderCut(utf8, input, flags, optLen, there);
    case Some(addr) =>
      assert SenderBytes(sender) + there == [|addr|] + (addr + there);
      SenderCut(utf8, input, addr, flags, optLen, there);
  }

  lemma NoSenderCut(utf8: Bytes -> bool, input: Input, flags: u16, optLen: u32, there: Bytes)
    requires flags % 2 == 0 && |there| < optLen && 9 + |there| == input.length <= input.usizeMax
    ensures ReadOptRegion(utf8, input, flags, optLen, there)
         == if 9 + optLen > input.usizeMax then Panic("attempt to add with overflow") else Err(EOF_ERROR)
  {
    hide SkipUnknown;
    SkipCut(input, optLen, there);
  }

  lemma SenderCut(utf8: Bytes -> bool, input: Input, addr: ByteVec, flags: u16, optLen: u32, there: Bytes)
    requires |addr| <= 0xFF && utf8(addr) && flags % 2 == 1
    requires 1 + |addr| + |there| < optLen && 10 + |addr| + |there| == input.length <= input.usizeMax
    ensures ReadOptRegion(utf8, input, flags, optLen, [|addr|] + (addr + there))
         == if 9 + optLen > input.usizeMax then Panic("attempt to add with overflow") else Err(EOF_ERROR)
  {
    hide CursorU8, CursorTake, SkipUnknown;
    CursorWordsWritten(input, |addr|, 0, 0, 0, addr + there);
    CursorWritten(input, addr, there);
    SkipCut(input, optLen - (1 + |addr|), there);
  }

  lemma SkipCut(input: Input, n: nat, there: Bytes)
    requires |there| < n && |there| <= input.length <= input.usizeMax
    ensures SkipUnknown(input, n, there)
         == if input.length - |there| + n > input.usizeMax then Panic("attempt to add with overflow")
            else Err(EOF_ERROR)
  {
    CursorTakeExact(input, n, there);
  }

  /** Seventeen bytes that announce the longest payload stop the reader with a panic, in the browser and
      elsewhere. */
  lemma HugeLengthPanics(utf8: Bytes -> bool, usizeMax: UsizeMax)
    ensures var bytes := Announcing(PlainPack([], None), 0, [], U64_MAX);
      |bytes| == 17 && FromBytes(utf8, usizeMax, bytes).Panic?
  {
    hide FromBytes, U16Bytes, U32Bytes, U64Bytes;
    var bytes := Announcing(PlainPack([], None), 0, [], U64_MAX);
    assert bytes + [] == bytes;
    AnnouncedOutcome(utf8, usizeMax, PlainPack([], None), 0, [], U64_MAX, []);
  }

  /** What the writer announces is the payload's length, so its own layout is always read back. */
  lemma UnknownFieldsSkipped(utf8: Bytes -> bool, usizeMax: UsizeMax, p: Slatepack, flags: u16, pad: Bytes, t: Bytes)
    requires p.sender.Some? ==> |p.sender.value| <= 0xFF
    requires p.TextSender(utf8)
    requires flags % 2 == SenderFlag(p.sender)
    requires |SenderBytes(p.sender)| + |pad| < 0x1_0000_0000
    requires |Layout(p, flags, pad) + t| <= usizeMax
    ensures FromBytes(utf8, usizeMax, Layout(p, flags, pad) + t) == Ok(p)
  {
    hide FromBytes, SenderBytes, U16Bytes, U32Bytes, U64Bytes;
    assert |p.payload| <= usizeMax;
    AnnouncedExact(utf8, usizeMax, p, flags, pad, |p.payload|, t);
  }

  /** In the browser a length of 2^32 more than the payload's is read as the payload's; elsewhere it is not. */
  lemma BrowserDropsHighBits(utf8: Bytes -> bool, p: Slatepack)
    requires p.sender == None && |p.payload| <= 0xFFFF
    ensures var bytes := Announcing(p, 0, [], 0x1_0000_0000 + |p.payload|);
      FromBytes(utf8, 0xFFFF_FFFF, bytes) == Ok(p) && FromBytes(utf8, U64_MAX, bytes) != Ok(p)
  {
    hide FromBytes, U16Bytes, U32Bytes, U64Bytes;
    var announced: u64 := 0x1_0000_0000 + |p.payload|;
    var bytes := Announcing(p, 0, [], announced);
    assert bytes + [] == bytes;
    AnnouncedExact(utf8, 0xFFFF_FFFF, p, 0, [], announced, []);
    AnnouncedExact(utf8, U64_MAX, p, 0, [], announced, []);
  }

  /** Nine bytes that announce the longest optional region are a panic in the browser and an error elsewhere. */
  lemma HugeRegionPanics(utf8: Bytes -> bool)
    ensures var bytes := CutRegion(PlainPack([], None), 0, 0xFFFF_FFFF, []);
      |bytes| == 9 && FromBytes(utf8, 0xFFFF_FFFF, bytes).Panic? && FromBytes(utf8, U64_MAX, bytes) == Err(EOF_ERROR)
  {
    hide FromBytes, U16Bytes, U32Bytes;
    CutRegionOutcome(utf8, 0xFFFF_FFFF, PlainPack([], None), 0, 0xFFFF_FFFF, []);
    CutRegionOutcome(utf8, U64_MAX, PlainPack([], None), 0, 0xFFFF_FFFF, []);
  }

  /** The envelope as written: two version bytes, 0 or 1 for the mode, two bytes of flags, 1 for a sender, and the
      length of the optional region in four; the sender behind its length in one byte; the payload behind its
      length in eight. */
  lemma PackLayout(p: Slatepack)
    ensures var b := ToBytes(p);
      var n := if p.sender.None? then 0 else if |p.sender.value| <= 255 then 1 + |p.sender.value| else 256;
      && |b| == 17 + n + |p.payload|
      && b[0] == p.major && b[1] == p.minor && b[2] == (if p.mode == Plain then 0 else 1)
      && BeValue(b[3..5]) == (if p.sender.Some? then 1 else 0) && BeValue(b[5..9]) == n
      && (p.sender.Some? ==> b[9] == n - 1 && b[10..9 + n] == p.sender.value[..n - 1])
      && BeValue(b[9 + n..17 + n]) == |p.payload| && b[17 + n..] == p.payload
  {
    hide U16Bytes, U32Bytes, U64Bytes, BeValue;
    var opt := SenderBytes(p.sender);
    var flags, size, count := U16Bytes(SenderFlag(p.sender)), U32Bytes(|opt|), U64Bytes(|p.payload|);
    var head := [p.major, p.minor, ModeByte(p.mode)];
    var b := ToBytes(p);
    assert b == head + flags + size + opt + count + p.payload;
    WordValues(SenderFlag(p.sender), |opt|, |p.payload|);
    assert b[3..5] == flags && b[5..9] == size && b[9..9 + |opt|] == opt;
    assert b[9 + |opt|..17 + |opt|] == count && b[17 + |opt|..] == p.payload;
    if p.sender.Some? {
      assert b[10..9 + |opt|] == b[9..9 + |opt|][1..];
    }
  }

  /** A third mode is refused. */
  lemma OtherModesRefused(utf8: Bytes -> bool, usizeMax: UsizeMax, bytes: Bytes)
    requires 3 <= |bytes| <= usizeMax && bytes[2] > 1
    ensures FromBytes(utf8, usizeMax, bytes) == Err("unknown slatepack mode")
  {
    hide ReadSender, CursorU64, CursorTake;
    var input := Input(|bytes|, usizeMax);
    assert bytes == [bytes[0]] + bytes[1..] && bytes[1..] == [bytes[1]] + bytes[2..];
    assert bytes[2..] == [bytes[2]] + bytes[3..];
    CursorWordsWritten(input, bytes[0], 0, 0, 0, bytes[1..]);
    CursorWordsWritten(input, bytes[1], 0, 0, 0, bytes[2..]);
    CursorWordsWritten(input, bytes[2], 0, 0, 0, bytes[3..]);
  }

  /** A sender that is not text is refused, whatever follows it. */
  lemma SenderMustBeText(utf8: Bytes -> bool, usizeMax: UsizeMax, p: Slatepack, flags: u16, optLen: u32, t: Bytes)
    requires p.sender.Some? && |p.sender.value| <= 0xFF && !utf8(p.sender.value) && flags % 2 == 1
    requires |CutRegion(p, flags, optLen, t)| <= usizeMax
    ensures FromBytes(utf8, usizeMax, CutRegion(p, flags, optLen, t)) == Err("sender address is not UTF-8")
  {
    hide CursorU8, CursorU16, CursorU32, CursorU64, CursorTake, U16Bytes, U32Bytes;
    var addr := p.sender.value;
    var bytes := CutRegion(p, flags, optLen, t);
    var input := Input(|bytes|, usizeMax);
    var b6 := addr + t;
    var b5 := [|addr|] + b6;
    var b4 := U32Bytes(optLen) + b5;
    var b3 := U16Bytes(flags) + b4;
    var b2 := [ModeByte(p.mode)] + b3;
    var b1 := [p.minor] + b2;
    assert bytes == [p.major] + b1;
    CursorWordsWritten(input, p.major, 0, 0, 0, b1);
    CursorWordsWritten(input, p.minor, 0, 0, 0, b2);
    CursorWordsWritten(input, ModeByte(p.mode), 0, 0, 0, b3);
    CursorWordsWritten(input, 0, flags, 0, 0, b4);
    CursorWordsWritten(input, 0, 0, optLen, 0, b5);
    CursorWordsWritten(input, |addr|, 0, 0, 0, b6);
    CursorWritten(input, addr, t);
  }

  /** A longer address is cut, so what comes back is another sender or nothing. */
  lemma LongSenderLost(utf8: Bytes -> bool, usizeMax: UsizeMax, p: Slatepack, t: Bytes)
    requires p.sender.Some? && |p.sender.value| > 0xFF
    ensures FromBytes(utf8, usizeMax, ToBytes(p) + t) != Ok(p)
  {
    hide ReadPack, CursorU16, CursorU32, CursorU64, U16Bytes, U32Bytes, U64Bytes;
    if FromBytes(utf8, usizeMax, ToBytes(p) + t) == Ok(p) {
      SenderReadIsText(utf8, Input(|ToBytes(p) + t|, usizeMax), ToBytes(p) + t);
    }
  }

  /** What the reader returns as a sender is text of at most 255 bytes. */
  lemma SenderReadIsText(utf8: Bytes -> bool, input: Input, b: Bytes)
    requires ReadPack(utf8, input, b).Ok?
    ensures var p := ReadPack(utf8, input, b).value.0;
            p.TextSender(utf8) && (p.sender.Some? ==> |p.sender.value| <= 0xFF)
  {
    hide ReadVersionMode, CursorU16, CursorU32, CursorU64, CursorTake, SkipUnknown;
  }

  /** `from_bytes` undoes `to_bytes` for exactly the packs whose sender fits its length byte. */
  lemma PackRoundTripExact(utf8: Bytes -> bool, usizeMax: UsizeMax, p: Slatepack, t: Bytes)
    requires p.TextSender(utf8)
    requires |ToBytes(p) + t| <= usizeMax
    ensures FromBytes(utf8, usizeMax, ToBytes(p) + t) == Ok(p) <==> (p.sender.Some? ==> |p.sender.value| <= 0xFF)
  {
    if p.sender.Some? && |p.sender.value| > 0xFF {
      LongSenderLost(utf8, usizeMax, p, t);
    } else {
      UnknownFieldsSkipped(utf8, usizeMax, p, SenderFlag(p.sender), [], t);
    }
  }
}
