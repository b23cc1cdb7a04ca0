/** `ByteCursor` and the two conversions of `SlatepackBin`, proved against the layout in Slatepacks. */
module SlatepackIo {
  import opened Outcomes
  import opened ByteStrings
  import opened Codec
  import opened Slatepacks

  class ByteCursor {
    const data: Bytes
    const usizeMax: UsizeMax
    var pos: nat

    ghost predicate Valid()
      reads this
    {
      pos <= |data|
    }

    ghost function Left(): Bytes
      reads this
      requires Valid()
    {
      data[pos..]
    }

    /** What the call must do: follow the layout's reader on the bytes that were left. */
    ghost predicate After<T>(spec: Parse<T>, r: Outcome<T>)
      reads this
      requires Valid()
    {
      Follows(spec, r, Left())
    }

    ghost function Extent(): Input {
      Input(|data|, usizeMax)
    }

    constructor (data: Bytes, usizeMax: UsizeMax)
      ensures Valid() && Left() == data && this.data == data && this.usizeMax == usizeMax
    {
      this.data := data;
      this.usizeMax := usizeMax;
      pos := 0;
    }

    method Ensure(n: nat) returns (r: Outcome<()>)
      requires Valid()
      ensures r == if pos + n > usizeMax then Panic("attempt to add with overflow")
                   else if n <= |Left()| then Ok(()) else Err(EOF_ERROR)
    {
      if pos + n > usizeMax {
        return Panic("attempt to add with overflow");
      }
      if pos + n > |data| {
        return Err(EOF_ERROR);
      }
      return Ok(());
    }

    method ReadBytes(n: nat) returns (r: Outcome<Bytes>)
      requires Valid()
      modifies this
      ensures Valid() && After(CursorTake(Extent(), n, old(Left())), r)
    {
      var _ :- Ensure(n);
      var s := data[pos..pos + n];
      assert Left()[..n] == s && Left()[n..] == data[pos + n..];
      pos := pos + n;
      return Ok(s);
    }

    method ReadU8() returns (r: Outcome<byte>)
      requires Valid()
      modifies this
      ensures Valid() && After(CursorU8(Extent(), old(Left())), r)
    {
      var b :- ReadBytes(1);
      return Ok(b[0]);
    }

    method ReadU16() returns (r: Outcome<u16>)
      requires Valid()
      modifies this
      ensures Valid() && After(CursorU16(Extent(), old(Left())), r)
    {
      var b :- ReadBytes(2);
      return Ok(U16Value(b));
    }

    method ReadU32() returns (r: Outcome<u32>)
      requires Valid()
      modifies this
      ensures Valid() && After(CursorU32(Extent(), old(Left())), r)
    {
      var b :- ReadBytes(4);
      return Ok(U32Value(b));
    }

    method ReadU64() returns (r: Outcome<u64>)
      requires Valid()
      modifies this
      ensures Valid() && After(CursorU64(Extent(), old(Left())), r)
    {
      var b :- ReadBytes(8);
      return Ok(U64Value(b));
    }
  }

  /** `SlatepackBin::to_bytes`. */
  method PackToBytes(p: Slatepack) returns (out: Bytes)
    ensures out == ToBytes(p)
  {
    hide U16Bytes, U32Bytes, U64Bytes;
    out := [p.major, p.minor];
    out := out + [ModeByte(p.mode)];
    var optFlags: u16 := 0x0000;
    var opt: Bytes := [];
    if p.sender.Some? {
      var addr := p.sender.value;
      var len: byte := if |addr| <= 0xFF then |addr| else 0xFF;
      opt := opt + [len];
      opt := opt + addr[..len];
      optFlags := 0x0001;
    }
    assert opt == SenderBytes(p.sender) + [];
    out := out + U16Bytes(optFlags);
    out := out + U32Bytes(|opt|);
    out := out + opt;
    out := out + U64Bytes(|p.payload|);
    out := out + p.payload;
  }

  /** The optional region of `from_bytes`: read the sender, skip what is not known. */
  method ReadOptional(cursor: ByteCursor, utf8: Bytes -> bool, optFlags: u16, optLen: u32)
    returns (r: Outcome<Option<ByteVec>>)
    requires cursor.Valid()
    modifies cursor
    ensures cursor.Valid()
    ensures cursor.After(ReadOptRegion(utf8, cursor.Extent(), optFlags, optLen, old(cursor.Left())), r)
  {
    hide CursorU8, CursorTake;
    var consumed: nat := 0;
    var sender: Option<ByteVec> := None;
    if optFlags % 2 == 1 {
      var addrLen :- cursor.ReadU8();
      consumed := consumed + 1 + (addrLen as int);
      var addr :- cursor.ReadBytes(addrLen);
      if !utf8(addr) {
        return Err("sender address is not UTF-8");
      }
      sender := Some(addr);
    }
    if optLen > consumed {
      var _ :- cursor.ReadBytes(optLen - consumed);
    }
    return Ok(sender);
  }

  method ReadSenderField(cursor: ByteCursor, utf8: Bytes -> bool) returns (r: Outcome<Option<ByteVec>>)
    requires cursor.Valid()
    modifies cursor
    ensures cursor.Valid() && cursor.After(ReadSender(utf8, cursor.Extent(), old(cursor.Left())), r)
  {
    hide CursorU16, CursorU32, ReadOptRegion;
    var optFlags :- cursor.ReadU16();
    var optLen :- cursor.ReadU32();
    r := ReadOptional(cursor, utf8, optFlags, optLen);
  }

  method ReadPrelude(cursor: ByteCursor) returns (r: Outcome<(byte, byte, Mode)>)
    requires cursor.Valid()
    modifies cursor
    ensures cursor.Valid() && cursor.After(ReadVersionMode(cursor.Extent(), old(cursor.Left())), r)
  {
    hide CursorU8;
    var major :- cursor.ReadU8();
    var minor :- cursor.ReadU8();
    var modeByte :- cursor.ReadU8();
    var mode :- ModeFromByte(modeByte);
    return Ok((major, minor, mode));
  }

  method ParsePack(cursor: ByteCursor, utf8: Bytes -> bool) returns (r: Outcome<Slatepack>)
    requires cursor.Valid()
    modifies cursor
    ensures cursor.Valid() && cursor.After(ReadPack(utf8, cursor.Extent(), old(cursor.Left())), r)
  {
    hide ReadVersionMode, ReadSender, CursorU64, CursorTake;
    var prelude :- ReadPrelude(cursor);
    var sender :- ReadSenderField(cursor, utf8);
    var payloadLen :- cursor.ReadU64();
    var payload :- cursor.ReadBytes(AsUsize(payloadLen, cursor.usizeMax));
    return Ok(Slatepack(prelude.0, prelude.1, prelude.2, sender, payload));
  }

  /** `SlatepackBin::from_bytes`. */
  method PackFromBytes(utf8: Bytes -> bool, usizeMax: UsizeMax, bytes: Bytes) returns (r: Outcome<Slatepack>)
    ensures r == FromBytes(utf8, usizeMax, bytes)
  {
    hide ReadPack;
    var cursor := new ByteCursor(bytes, usizeMax);
    ghost var spec := ReadPack(utf8, cursor.Extent(), cursor.Left());
    r := ParsePack(cursor, utf8);
    assert spec.Ok? ==> r == Ok(spec.value.0);
  }
}
