/** The byte buffer and cursor that `slate_bin.rs` writes and reads slates with, proved against the
    format in SlateBin. */
module SlateBinIo {
  import opened Outcomes
  import opened ByteStrings
  import opened Codec
  import opened Slates
  import opened SlateBin

  class Writer {
    var buf: Bytes

    constructor ()
      ensures buf == []
    {
      buf := [];
    }

    method U8(v: byte)
      modifies this
      ensures buf == old(buf) + [v]
    {
      buf := buf + [v];
    }

    method U16(v: u16)
      modifies this
      ensures buf == old(buf) + U16Bytes(v)
    {
      buf := buf + U16Bytes(v);
    }

    method U64(v: u64)
      modifies this
      ensures buf == old(buf) + U64Bytes(v)
    {
      buf := buf + U64Bytes(v);
    }

    method Raw(bs: Bytes)
      modifies this
      ensures buf == old(buf) + bs
    {
      buf := buf + bs;
    }
  }

  class Reader {
    const data: Bytes
    var pos: nat

    ghost predicate Valid()
      reads this
    {
      pos <= |data|
    }

    ghost function Left(): Bytes
      reads this
      requires Valid()
    {
      data[pos..]
    }

    constructor (data: Bytes)
      ensures Valid() && Left() == data
    {
      this.data := data;
      pos := 0;
    }

    /** Compares with what remains, so a huge `n` cannot overflow. */
    method Ensure(n: nat) returns (r: Outcome<()>)
      requires Valid()
      ensures r == if n <= |Left()| then Ok(()) else Err(EOF_ERROR)
    {
      var remaining := |data| - pos;
      if n > remaining {
        return Err(EOF_ERROR);
      }
      return Ok(());
    }

    method Raw(n: nat) returns (r: Outcome<Bytes>)
      requires Valid()
      modifies this
      ensures Valid() && Follows(Take(n, old(Left())), r, Left())
    {
      var _ :- Ensure(n);
      var s := data[pos..pos + n];
      assert Left()[..n] == s && Left()[n..] == data[pos + n..];
      pos := pos + n;
      return Ok(s);
    }

    method U8() returns (r: Outcome<byte>)
      requires Valid()
      modifies this
      ensures Valid() && Follows(TakeU8(old(Left())), r, Left())
    {
      var _ :- Ensure(1);
      var v := data[pos];
      pos := pos + 1;
      return Ok(v);
    }

    method U16() returns (r: Outcome<u16>)
      requires Valid()
      modifies this
      ensures Valid() && Follows(TakeU16(old(Left())), r, Left())
    {
      var b :- Raw(2);
      return Ok(U16Value(b));
    }

    method U64() returns (r: Outcome<u64>)
      requires Valid()
      modifies this
      ensures Valid() && Follows(TakeU64(old(Left())), r, Left())
    {
      var b :- Raw(8);
      return Ok(U64Value(b));
    }
  }

  // ----- writing -----------------------------------------------------------------------------

  method EmitOptFields(w: Writer, s: Slate)
    modifies w
    ensures w.buf == old(w.buf) + WriteOptFields(OptFieldsOf(s))
  {
    var status: byte := 0;
    if s.numParts != 2 {
      status := status + 0x01;
    }
    if s.amt > 0 {
      status := status + 0x02;
    }
    if s.fee > 0 {
      status := status + 0x04;
    }
    if s.feat > 0 {
      status := status + 0x08;
    }
    if s.ttl > 0 {
      status := status + 0x10;
    }
    assert status == OptStatus(OptFieldsOf(s));
    EmitOptBody(w, status, OptFieldsOf(s));
  }

  method EmitIfU8(w: Writer, present: bool, v: byte)
    modifies w
    ensures w.buf == old(w.buf) + IfU8(present, v)
  {
    if present {
      w.U8(v);
    }
  }

  method EmitIfU64(w: Writer, present: bool, v: u64)
    modifies w
    ensures w.buf == old(w.buf) + IfU64(present, v)
  {
    if present {
      w.U64(v);
    }
  }

  method EmitOptBody(w: Writer, status: byte, f: OptFields)
    modifies w
    ensures w.buf == old(w.buf) + ([status] + WriteOptBody(PresentIn(status), f))
  {
    hide IfU8, IfU64, Bit;
    w.U8(status);
    EmitIfU8(w, Bit(status, 0x01), f.numParts);
    EmitIfU64(w, Bit(status, 0x02), f.amt);
    EmitIfU64(w, Bit(status, 0x04), f.fee);
    EmitIfU8(w, Bit(status, 0x08), f.feat);
    EmitIfU64(w, Bit(status, 0x10), f.ttl);
  }

  method EmitSig(w: Writer, s: Participant)
    modifies w
    ensures w.buf == old(w.buf) + WriteSig(s)
  {
    if s.part.Some? {
      w.U8(1);
    } else {
      w.U8(0);
    }
    w.Raw(s.xs);
    w.Raw(s.nonce);
    if s.part.Some? {
      w.Raw(s.part.value);
    }
  }

  method EmitSigs(w: Writer, sigs: seq<Participant>) returns (r: Outcome<()>)
    modifies w
    ensures r.Ok? <==> |sigs| <= 0xFF
    ensures r.Ok? ==> w.buf == old(w.buf) + SigsBytes(sigs)
    ensures !r.Ok? ==> r == Err("participants exceed the u8 count field") && w.buf == old(w.buf)
  {
    if |sigs| > 0xFF {
      return Err("participants exceed the u8 count field");
    }
    hide WriteSig;
    w.U8(|sigs|);
    ghost var head := w.buf;
    for i := 0 to |sigs|
      invariant w.buf == head + WriteMany(WriteSig, sigs[..i])
    {
      EmitSig(w, sigs[i]);
      WriteManySnoc(WriteSig, sigs, i);
    }
    assert sigs[..|sigs|] == sigs;
    return Ok(());
  }

  method EmitCom(w: Writer, o: Commit)
    modifies w
    ensures w.buf == old(w.buf) + WriteCom(o)
  {
    hide U64Bytes;
    if o.p.Some? {
      w.U8(1);
    } else {
      w.U8(0);
    }
    w.U8(o.f);
    w.Raw(o.c);
    if o.p.Some? {
      w.U64(|o.p.value|);
      w.Raw(o.p.value);
    }
  }

  method EmitComs(w: Writer, coms: seq<Commit>) returns (r: Outcome<()>)
    modifies w
    ensures r.Ok? <==> |coms| <= 0xFFFF
    ensures r.Ok? ==> w.buf == old(w.buf) + ComsBytes(coms)
    ensures !r.Ok? ==> r == Err("commitments exceed the u16 count field") && w.buf == old(w.buf)
  {
    if |coms| > 0xFFFF {
      return Err("commitments exceed the u16 count field");
    }
    hide U16Bytes, WriteCom;
    w.U16(|coms|);
    ghost var head := w.buf;
    for i := 0 to |coms|
      invariant w.buf == head + WriteMany(WriteCom, coms[..i])
    {
      EmitCom(w, coms[i]);
      WriteManySnoc(WriteCom, coms, i);
    }
    assert coms[..|coms|] == coms;
    return Ok(());
  }

  method EmitProof(w: Writer, p: PaymentInfo)
    modifies w
    ensures w.buf == old(w.buf) + WriteProof(p)
  {
    w.Raw(p.saddr);
    w.Raw(p.raddr);
    if p.rsig.Some? {
      w.U8(1);
      w.Raw(p.rsig.value);
    } else {
      w.U8(0);
    }
  }

  method EmitOptStructs(w: Writer, s: OptStructs) returns (r: Outcome<()>)
    modifies w
    ensures r.Ok? <==> ComsFit(s.coms)
    ensures r.Ok? ==> w.buf == old(w.buf) + StructsBytes(s)
    ensures !r.Ok? ==> r == Err("commitments exceed the u16 count field")
  {
    var status: byte := 0;
    if s.coms.Some? {
      status := status + 0x01;
    }
    if s.proof.Some? {
      status := status + 0x02;
    }
    w.U8(status);
    if s.coms.Some? {
      var _ :- EmitComs(w, s.coms.value);
    }
    if s.proof.Some? {
      EmitProof(w, s.proof.value);
    }
    return Ok(());
  }

  /** `serialize_slate_v4_bin`. */
  method SerializeSlate(uuid: UuidLib, s: Slate) returns (r: Outcome<Bytes>)
    ensures r == Serialize(uuid, s)
  {
    hide WriteOptFields, SigsBytes, StructsBytes, U64Bytes, U16Bytes;
    var w := new Writer();
    w.U16(s.version);
    w.U16(s.blockHeaderVersion);
    var id := uuid.parse(s.id);
    if id.None? {
      return Err("invalid slate UUID");
    }
    w.Raw(id.value);
    w.U8(StateByte(s.sta));
    w.Raw(s.off);
    assert w.buf == WriteHeader(HeaderOf(uuid, s));
    EmitOptFields(w, s);
    var _ :- EmitSigs(w, s.sigs);
    var _ :- EmitOptStructs(w, OptStructs(s.coms, s.proof));
    if s.feat == 2 || s.feat == 3 {
      w.U64(LockHeight(s));
    }
    assert w.buf == SlateBytes(uuid, s);
    return Ok(w.buf);
  }

  // ----- reading -----------------------------------------------------------------------------

  method ParseOptFields(rd: Reader) returns (r: Outcome<OptFields>)
    requires rd.Valid()
    modifies rd
    ensures rd.Valid() && Follows(ReadOptFields(old(rd.Left())), r, rd.Left())
  {
    var status :- rd.U8();
    r := ParseOptBody(rd, status);
  }

  method ParseOptBody(rd: Reader, status: byte) returns (r: Outcome<OptFields>)
    requires rd.Valid()
    modifies rd
    ensures rd.Valid() && Follows(ReadOptBody(PresentIn(status), old(rd.Left())), r, rd.Left())
  {
    hide TakeU8, TakeU64;
    var numParts: byte := 2;
    if Bit(status, 0x01) {
      numParts :- rd.U8();
    }
    var amt: u64 := 0;
    if Bit(status, 0x02) {
      amt :- rd.U64();
    }
    var fee: u64 := 0;
    if Bit(status, 0x04) {
      fee :- rd.U64();
    }
    var feat: byte := 0;
    if Bit(status, 0x08) {
      feat :- rd.U8();
    }
    var ttl: u64 := 0;
    if Bit(status, 0x10) {
      ttl :- rd.U64();
    }
    return Ok(OptFields(numParts, amt, fee, feat, ttl));
  }

  method ParseSig(rd: Reader) returns (r: Outcome<Participant>)
    requires rd.Valid()
    modifies rd
    ensures rd.Valid() && Follows(ReadSig(old(rd.Left())), r, rd.Left())
  {
    var hasPartial :- rd.U8();
    var xs :- rd.Raw(33);
    var nonce :- rd.Raw(33);
    if hasPartial == 1 {
      var part :- rd.Raw(64);
      return Ok(Participant(xs, nonce, Some(part)));
    }
    return Ok(Participant(xs, nonce, None));
  }

  method ParseSigs(rd: Reader) returns (r: Outcome<seq<Participant>>)
    requires rd.Valid()
    modifies rd
    ensures rd.Valid() && Follows(ReadSigs(old(rd.Left())), r, rd.Left())
  {
    hide ReadSig;
    var n :- rd.U8();
    ghost var start := rd.Left();
    var out: seq<Participant> := [];
    for i := 0 to n
      invariant rd.Valid()
      invariant ReadMany(ReadSig, i, start) == Ok((out, rd.Left()))
    {
      ghost var here := rd.Left();
      ReadManyAppend(ReadSig, i, 1, start);
      ReadManyAppend(ReadSig, i, n - i, start);
      var s :- ParseSig(rd);
      assert [s] + [] == [s];
      assert ReadMany(ReadSig, 0, rd.Left()) == Ok(([], rd.Left()));
      assert ReadMany(ReadSig, 1, here) == Ok(([s], rd.Left()));
      out := out + [s];
    }
    return Ok(out);
  }

  method ParseCom(rd: Reader) returns (r: Outcome<Commit>)
    requires rd.Valid()
    modifies rd
    ensures rd.Valid() && Follows(ReadCom(old(rd.Left())), r, rd.Left())
  {
    var isOutput :- rd.U8();
    var f :- rd.U8();
    var c :- rd.Raw(33);
    if isOutput == 1 {
      var plen :- rd.U64();
      var p :- rd.Raw(plen);
      return Ok(Commit(f, c, Some(p)));
    }
    return Ok(Commit(f, c, None));
  }

  method ParseComs(rd: Reader) returns (r: Outcome<seq<Commit>>)
    requires rd.Valid()
    modifies rd
    ensures rd.Valid() && Follows(ReadComs(old(rd.Left())), r, rd.Left())
  {
    hide ReadCom;
    var n :- rd.U16();
    ghost var start := rd.Left();
    var out: seq<Commit> := [];
    for i := 0 to n
      invariant rd.Valid()
      invariant ReadMany(ReadCom, i, start) == Ok((out, rd.Left()))
    {
      ghost var here := rd.Left();
      ReadManyAppend(ReadCom, i, 1, start);
      ReadManyAppend(ReadCom, i, n - i, start);
      var c :- ParseCom(rd);
      assert [c] + [] == [c];
      assert ReadMany(ReadCom, 0, rd.Left()) == Ok(([], rd.Left()));
      assert ReadMany(ReadCom, 1, here) == Ok(([c], rd.Left()));
      out := out + [c];
    }
    return Ok(out);
  }

  method ParseProof(rd: Reader) returns (r: Outcome<PaymentInfo>)
    requires rd.Valid()
    modifies rd
    ensures rd.Valid() && Follows(ReadProof(old(rd.Left())), r, rd.Left())
  {
    var saddr :- rd.Raw(32);
    var raddr :- rd.Raw(32);
    var hasSig :- rd.U8();
    if hasSig == 1 {
      var rsig :- rd.Raw(64);
      return Ok(PaymentInfo(saddr, raddr, Some(rsig)));
    }
    return Ok(PaymentInfo(saddr, raddr, None));
  }

  method ParseOptStructs(rd: Reader) returns (r: Outcome<OptStructs>)
    requires rd.Valid()
    modifies rd
    ensures rd.Valid() && Follows(ReadOptStructs(old(rd.Left())), r, rd.Left())
  {
    hide ReadComs, ReadProof, Bit;
    var status :- rd.U8();
    var coms: Option<seq<Commit>> := None;
    if Bit(status, 0x01) {
      var c :- ParseComs(rd);
      coms := Some(c);
    }
    var proof: Option<PaymentInfo> := None;
    if Bit(status, 0x02) {
      var p :- ParseProof(rd);
      proof := Some(p);
    }
    return Ok(OptStructs(coms, proof));
  }

  /** `deserialize_slate_v4_bin`. */
  method DeserializeSlate(uuid: UuidLib, bytes: Bytes) returns (r: Outcome<Slate>)
    ensures r == Deserialize(uuid, bytes)
  {
    hide ReadOptFields, ReadSigs, ReadOptStructs, TakeU8, TakeU16, TakeU64, Take;
    var rd := new Reader(bytes);
    var version :- rd.U16();
    var blockHeaderVersion :- rd.U16();
    var id :- rd.Raw(16);
    var sta :- rd.U8();
    var off :- rd.Raw(32);
    assert ReadHeader(bytes) == Ok((Header(version, blockHeaderVersion, id, StateFromByte(sta), off), rd.Left()));
    var f :- ParseOptFields(rd);
    var sigs :- ParseSigs(rd);
    var structs :- ParseOptStructs(rd);
    var lock: Option<u64> := None;
    if f.feat == 2 || f.feat == 3 {
      var height :- rd.U64();
      lock := Some(height);
    }
    return Ok(Slate(version, blockHeaderVersion, uuid.format(id), StateFromByte(sta), off,
                    f.numParts, f.amt, f.fee, f.feat, f.ttl, sigs, structs.coms, structs.proof, lock));
  }
}
