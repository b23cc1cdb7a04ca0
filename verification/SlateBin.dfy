/** The compact binary slate format (crates/grin-ext/src/slate_bin.rs): what the writer emits, what
    the reader accepts, and how the two relate. */
module SlateBin {
  import opened Outcomes
  import opened ByteStrings
  import opened Codec
  import opened Slates

  /** The `uuid` library: text form to 16 bytes and back. Parsing accepts several spellings,
      formatting produces one. */
  datatype UuidLib = UuidLib(parse: string -> Option<Bytes16>, format: Bytes16 -> string) {
    ghost predicate Valid() {
      forall b: Bytes16 :: parse(format(b)) == Some(b)
    }
  }

  function StateByte(s: SlateState): byte {
    match s
    case Unknown => 0
    case Standard1 => 1
    case Standard2 => 2
    case Standard3 => 3
    case Invoice1 => 4
    case Invoice2 => 5
    case Invoice3 => 6
  }

  function StateFromByte(b: byte): SlateState {
    match b
    case 1 => Standard1
    case 2 => Standard2
    case 3 => Standard3
    case 4 => Invoice1
    case 5 => Invoice2
    case 6 => Invoice3
    case _ => Unknown
  }

  // ----- optional fields ---------------------------------------------------------------------

  datatype OptFields = OptFields(numParts: byte, amt: u64, fee: u64, feat: byte, ttl: u64)

  function OptFieldsOf(s: Slate): OptFields {
    OptFields(s.numParts, s.amt, s.fee, s.feat, s.ttl)
  }

  predicate Bit(status: byte, mask: nat)
    requires mask > 0
  {
    (status / mask) % 2 == 1
  }

  function Flag(present: bool, mask: byte): byte {
    if present then mask else 0
  }

  function Mask(n: bool, a: bool, fee: bool, feat: bool, t: bool): byte {
    Flag(n, 0x01) + Flag(a, 0x02) + Flag(fee, 0x04) + Flag(feat, 0x08) + Flag(t, 0x10)
  }

  lemma MaskBits(n: bool, a: bool, fee: bool, feat: bool, t: bool)
    ensures var m := Mask(n, a, fee, feat, t);
            Bit(m, 0x01) == n && Bit(m, 0x02) == a && Bit(m, 0x04) == fee && Bit(m, 0x08) == feat && Bit(m, 0x10) == t
  {
    var m := Mask(n, a, fee, feat, t);
    var high := Flag(t, 1);
    assert m / 0x10 == high;
    assert m / 0x08 == Flag(feat, 1) + 2 * high;
    assert m / 0x04 == Flag(fee, 1) + 2 * (Flag(feat, 1) + 2 * high);
    assert m / 0x02 == Flag(a, 1) + 2 * (Flag(fee, 1) + 2 * (Flag(feat, 1) + 2 * high));
  }

  function OptStatus(f: OptFields): byte {
    Mask(f.numParts != 2, f.amt > 0, f.fee > 0, f.feat > 0, f.ttl > 0)
  }

  /** Which optional fields are on the wire: `num_parts`, `amt`, `fee`, `feat`, `ttl`. */
  datatype Present = Present(n: bool, a: bool, e: bool, k: bool, t: bool)

  function PresentIn(status: byte): Present {
    Present(Bit(status, 0x01), Bit(status, 0x02), Bit(status, 0x04), Bit(status, 0x08), Bit(status, 0x10))
  }

  /** The fields that differ from their default. */
  function Needed(f: OptFields): Present {
    Present(f.numParts != 2, f.amt > 0, f.fee > 0, f.feat > 0, f.ttl > 0)
  }

  lemma StatusSaysNeeded(f: OptFields)
    ensures PresentIn(OptStatus(f)) == Needed(f)
  {
    MaskBits(f.numParts != 2, f.amt > 0, f.fee > 0, f.feat > 0, f.ttl > 0);
  }

  function IfU8(present: bool, v: byte): Bytes {
    if present then [v] else []
  }

  function IfU64(present: bool, v: u64): Bytes {
    if present then U64Bytes(v) else []
  }

  function WriteOptBody(on: Present, f: OptFields): Bytes {
    IfU8(on.n, f.numParts) + IfU64(on.a, f.amt) + IfU64(on.e, f.fee) + IfU8(on.k, f.feat) + IfU64(on.t, f.ttl)
  }

  function WriteOptFields(f: OptFields): Bytes {
    [OptStatus(f)] + WriteOptBody(PresentIn(OptStatus(f)), f)
  }

  function TakeIfU8(present: bool, default: byte, b: Bytes): Parse<byte> {
    if present then TakeU8(b) else Ok((default, b))
  }

  function TakeIfU64(present: bool, b: Bytes): Parse<u64> {
    if present then TakeU64(b) else Ok((0, b))
  }

  function ReadOptBody(on: Present, b: Bytes): Parse<OptFields> {
    var (numParts, b) :- TakeIfU8(on.n, 2, b);
    var (amt, b) :- TakeIfU64(on.a, b);
    var (fee, b) :- TakeIfU64(on.e, b);
    var (feat, b) :- TakeIfU8(on.k, 0, b);
    var (ttl, b) :- TakeIfU64(on.t, b);
    Ok((OptFields(numParts, amt, fee, feat, ttl), b))
  }

  function ReadOptFields(b: Bytes): Parse<OptFields> {
    var (status, b) :- TakeU8(b);
    ReadOptBody(PresentIn(status), b)
  }

  lemma TakeU8Written(v: byte, t: Bytes)
    ensures TakeU8([v] + t) == Ok((v, t))
  {
    TakeWritten([v], t);
  }

  lemma IfWritten(present: bool, default: byte, v: byte, w: u64, t: Bytes)
    ensures TakeIfU8(present, default, IfU8(present, v) + t) == Ok((if present then v else default, t))
    ensures TakeIfU64(present, IfU64(present, w) + t) == Ok((if present then w else 0, t))
  {
    assert [] + t == t;
    TakeU8Written(v, t);
    WordsWritten(0, 0, w, t);
  }

  /** What a field reads back as: itself when on the wire, its default otherwise. */
  function Visible(on: Present, f: OptFields): OptFields {
    OptFields(if on.n then f.numParts else 2, if on.a then f.amt else 0, if on.e then f.fee else 0,
              if on.k then f.feat else 0, if on.t then f.ttl else 0)
  }

  lemma OptBodyRoundTrips(on: Present, f: OptFields, t: Bytes)
    ensures ReadOptBody(on, WriteOptBody(on, f) + t) == Ok((Visible(on, f), t))
  {
    hide IfU8, IfU64, TakeIfU8, TakeIfU64;
    var b5 := IfU64(on.t, f.ttl) + t;
    var b4 := IfU8(on.k, f.feat) + b5;
    var b3 := IfU64(on.e, f.fee) + b4;
    var b2 := IfU64(on.a, f.amt) + b3;
    var b1 := IfU8(on.n, f.numParts) + b2;
    assert WriteOptBody(on, f) + t == b1;
    IfWritten(on.n, 2, f.numParts, 0, b2);
    IfWritten(on.a, 0, 0, f.amt, b3);
    IfWritten(on.e, 0, 0, f.fee, b4);
    IfWritten(on.k, 0, f.feat, 0, b5);
    IfWritten(on.t, 0, 0, f.ttl, t);
  }

  lemma OptFieldsRoundTrips(f: OptFields, t: Bytes)
    ensures RoundTrips(WriteOptFields, ReadOptFields, f, t)
  {
    hide WriteOptBody, ReadOptBody, OptStatus, PresentIn;
    StatusSaysNeeded(f);
    var on := PresentIn(OptStatus(f));
    assert WriteOptFields(f) + t == [OptStatus(f)] + (WriteOptBody(on, f) + t);
    TakeU8Written(OptStatus(f), WriteOptBody(on, f) + t);
    OptBodyRoundTrips(on, f, t);
  }

  lemma TakeU8Extends(b: Bytes, t: Bytes)
    ensures Extends(TakeU8, b, t)
  {
    if |b| >= 1 {
      TakeExtends(1, b, t);
    }
  }

  lemma TakeU64Extends(b: Bytes, t: Bytes)
    ensures Extends(TakeU64, b, t)
  {
    if |b| >= 8 {
      TakeExtends(8, b, t);
    }
  }

  lemma TakeU16Extends(b: Bytes, t: Bytes)
    ensures Extends(TakeU16, b, t)
  {
    if |b| >= 2 {
      TakeExtends(2, b, t);
    }
  }

  lemma IfExtends(on: bool, default: byte, b: Bytes, t: Bytes)
    ensures Extends(b' => TakeIfU8(on, default, b'), b, t)
    ensures Extends(b' => TakeIfU64(on, b'), b, t)
  {
    TakeU8Extends(b, t);
    TakeU64Extends(b, t);
  }

  lemma OptBodyExtends(on: Present, b: Bytes, t: Bytes)
    requires ReadOptBody(on, b).Ok?
    ensures ReadOptBody(on, b + t)
         == Ok((ReadOptBody(on, b).value.0, ReadOptBody(on, b).value.1 + t))
  {
    hide TakeIfU8, TakeIfU64;
    IfExtends(on.n, 2, b, t);
    var (_, b2) := TakeIfU8(on.n, 2, b).value;
    IfExtends(on.a, 0, b2, t);
    var (_, b3) := TakeIfU64(on.a, b2).value;
    IfExtends(on.e, 0, b3, t);
    var (_, b4) := TakeIfU64(on.e, b3).value;
    IfExtends(on.k, 0, b4, t);
    var (_, b5) := TakeIfU8(on.k, 0, b4).value;
    IfExtends(on.t, 0, b5, t);
  }

  lemma OptFieldsExtends(b: Bytes, t: Bytes)
    ensures Extends(ReadOptFields, b, t)
  {
    if ReadOptFields(b).Ok? {
      TakeU8Extends(b, t);
      var (status, b1) := TakeU8(b).value;
      OptBodyExtends(PresentIn(status), b1, t);
    }
  }

  /** A field that is not the default was on the wire; a default one may have been, redundantly. */
  lemma OptFieldsNormalises(b: Bytes)
    ensures Normalises(WriteOptFields, ReadOptFields, b)
  {
    hide WriteOptBody, ReadOptBody, OptStatus, PresentIn;
    if ReadOptFields(b).Ok? {
      var (status, b1) := TakeU8(b).value;
      var (f, rest) := ReadOptBody(PresentIn(status), b1).value;
      StatusSaysNeeded(f);
      OptBodyNormalises(PresentIn(status), b1);
    }
  }

  lemma IfNormalises(on: bool, b: Bytes)
    ensures TakeIfU8(on, 2, b).Ok? ==>
      var (v, rest) := TakeIfU8(on, 2, b).value; |IfU8(v != 2, v)| + |rest| <= |b|
    ensures TakeIfU8(on, 0, b).Ok? ==>
      var (v, rest) := TakeIfU8(on, 0, b).value; |IfU8(v > 0, v)| + |rest| <= |b|
    ensures TakeIfU64(on, b).Ok? ==>
      var (v, rest) := TakeIfU64(on, b).value; |IfU64(v > 0, v)| + |rest| <= |b|
  {
  }

  lemma OptBodyNormalises(on: Present, b: Bytes)
    requires ReadOptBody(on, b).Ok?
    ensures var (f, rest) := ReadOptBody(on, b).value; |WriteOptBody(Needed(f), f)| + |rest| <= |b|
  {
    hide TakeIfU8, TakeIfU64, IfU8, IfU64;
    var (_, b2) := TakeIfU8(on.n, 2, b).value;
    var (_, b3) := TakeIfU64(on.a, b2).value;
    var (_, b4) := TakeIfU64(on.e, b3).value;
    var (_, b5) := TakeIfU8(on.k, 0, b4).value;
    IfNormalises(on.n, b);
    IfNormalises(on.a, b2);
    IfNormalises(on.e, b3);
    IfNormalises(on.k, b4);
    IfNormalises(on.t, b5);
  }

  // ----- participants ------------------------------------------------------------------------

  function WriteSig(s: Participant): Bytes {
    match s.part
    case Some(p) => [1] + s.xs + s.nonce + p
    case None => [0] + s.xs + s.nonce
  }

  function ReadSig(b: Bytes): Parse<Participant> {
    var (hasPartial, b) :- TakeU8(b);
    var (xs, b) :- Take(33, b);
    var (nonce, b) :- Take(33, b);
    if hasPartial == 1 then
      var (part, b) :- Take(64, b);
      Ok((Participant(xs, nonce, Some(part)), b))
    else
      Ok((Participant(xs, nonce, None), b))
  }

  lemma SigRoundTrips(s: Participant, t: Bytes)
    ensures RoundTrips(WriteSig, ReadSig, s, t)
  {
    var b3 := match s.part case Some(p) => p + t case None => t;
    var flag := if s.part.Some? then 1 else 0;
    assert WriteSig(s) + t == [flag] + (s.xs + (s.nonce + b3));
    TakeU8Written(flag, s.xs + (s.nonce + b3));
    TakeWritten(s.xs, s.nonce + b3);
    TakeWritten(s.nonce, b3);
    if s.part.Some? {
      TakeWritten(s.part.value, t);
    }
  }

  lemma SigExtends(b: Bytes, t: Bytes)
    ensures Extends(ReadSig, b, t)
  {
    if ReadSig(b).Ok? {
      TakeU8Extends(b, t);
      TakeExtends(33, b[1..], t);
      TakeExtends(33, b[1..][33..], t);
      if b[0] == 1 {
        TakeExtends(64, b[1..][33..][33..], t);
      }
    }
  }

  lemma SigNormalises(b: Bytes)
    ensures Normalises(WriteSig, ReadSig, b)
  {
  }

  // ----- commitments -------------------------------------------------------------------------

  function WriteCom(o: Commit): Bytes {
    match o.p
    case Some(p) => [1, o.f] + o.c + U64Bytes(|p|) + p
    case None => [0, o.f] + o.c
  }

  function ReadCom(b: Bytes): Parse<Commit> {
    var (isOutput, b) :- TakeU8(b);
    var (f, b) :- TakeU8(b);
    var (c, b) :- Take(33, b);
    if isOutput == 1 then
      var (plen, b) :- TakeU64(b);
      var (p, b) :- Take(plen, b);
      Ok((Commit(f, c, Some(p)), b))
    else
      Ok((Commit(f, c, None), b))
  }

  lemma ComRoundTrips(o: Commit, t: Bytes)
    ensures RoundTrips(WriteCom, ReadCom, o, t)
  {
    var b2 := match o.p case Some(p) => U64Bytes(|p|) + (p + t) case None => t;
    var flag := if o.p.Some? then 1 else 0;
    assert WriteCom(o) + t == [flag] + ([o.f] + (o.c + b2));
    TakeU8Written(flag, [o.f] + (o.c + b2));
    TakeU8Written(o.f, o.c + b2);
    TakeWritten(o.c, b2);
    if o.p.Some? {
      WordsWritten(0, 0, |o.p.value|, o.p.value + t);
      TakeWritten(o.p.value, t);
    }
  }

  lemma ComExtends(b: Bytes, t: Bytes)
    ensures Extends(ReadCom, b, t)
  {
    if ReadCom(b).Ok? {
      TakeU8Extends(b, t);
      TakeU8Extends(b[1..], t);
      TakeExtends(33, b[1..][1..], t);
      if b[0] == 1 {
        var b3 := b[1..][1..][33..];
        TakeU64Extends(b3, t);
        var (plen, b4) := TakeU64(b3).value;
        TakeExtends(plen, b4, t);
      }
    }
  }

  lemma ComNormalises(b: Bytes)
    ensures Normalises(WriteCom, ReadCom, b)
  {
  }

  // ----- payment proof -----------------------------------------------------------------------

  function WriteProof(p: PaymentInfo): Bytes {
    p.saddr + p.raddr + (match p.rsig case Some(s) => [1] + s case None => [0])
  }

  function ReadProof(b: Bytes): Parse<PaymentInfo> {
    var (saddr, b) :- Take(32, b);
    var (raddr, b) :- Take(32, b);
    var (hasSig, b) :- TakeU8(b);
    if hasSig == 1 then
      var (rsig, b) :- Take(64, b);
      Ok((PaymentInfo(saddr, raddr, Some(rsig)), b))
    else
      Ok((PaymentInfo(saddr, raddr, None), b))
  }

  lemma ProofRoundTrips(p: PaymentInfo, t: Bytes)
    ensures RoundTrips(WriteProof, ReadProof, p, t)
  {
    var flag := if p.rsig.Some? then 1 else 0;
    var b3 := match p.rsig case Some(s) => s + t case None => t;
    assert WriteProof(p) + t == p.saddr + (p.raddr + ([flag] + b3));
    TakeWritten(p.saddr, p.raddr + ([flag] + b3));
    TakeWritten(p.raddr, [flag] + b3);
    TakeU8Written(flag, b3);
    if p.rsig.Some? {
      TakeWritten(p.rsig.value, t);
    }
  }

  lemma ProofExtends(b: Bytes, t: Bytes)
    ensures Extends(ReadProof, b, t)
  {
    if ReadProof(b).Ok? {
      TakeExtends(32, b, t);
      TakeExtends(32, b[32..], t);
      TakeU8Extends(b[32..][32..], t);
      if b[32..][32..][0] == 1 {
        TakeExtends(64, b[32..][32..][1..], t);
      }
    }
  }

  lemma ProofNormalises(b: Bytes)
    ensures Normalises(WriteProof, ReadProof, b)
  {
  }

  // ----- counted lists and optional structures -----------------------------------------------

  function SigsBytes(sigs: seq<Participant>): Bytes
    requires |sigs| <= 0xFF
  {
    [|sigs|] + WriteMany(WriteSig, sigs)
  }

  function ReadSigs(b: Bytes): Parse<seq<Participant>> {
    var (n, b) :- TakeU8(b);
    ReadMany(ReadSig, n, b)
  }

  lemma SigsRoundTrip(sigs: seq<Participant>, t: Bytes)
    requires |sigs| <= 0xFF
    ensures ReadSigs(SigsBytes(sigs) + t) == Ok((sigs, t))
  {
    var body := WriteMany(WriteSig, sigs) + t;
    assert SigsBytes(sigs) + t == [|sigs|] + body;
    TakeU8Written(|sigs|, body);
    forall v, t' | v in sigs ensures RoundTrips(WriteSig, ReadSig, v, t') { SigRoundTrips(v, t'); }
    ReadManyRoundTrips(WriteSig, ReadSig, sigs, t);
  }

  lemma SigsExtend(b: Bytes, t: Bytes)
    ensures Extends(ReadSigs, b, t)
  {
    if ReadSigs(b).Ok? {
      TakeU8Extends(b, t);
      var (n, rest) := TakeU8(b).value;
      forall b', t' ensures Extends(ReadSig, b', t') { SigExtends(b', t'); }
      ReadManyExtends(ReadSig, n, rest, t);
    }
  }

  lemma SigsNormalise(b: Bytes)
    requires ReadSigs(b).Ok?
    ensures var (sigs, rest) := ReadSigs(b).value; |sigs| <= 0xFF && |SigsBytes(sigs)| + |rest| <= |b|
  {
    var (n, rest) := TakeU8(b).value;
    forall b' ensures Normalises(WriteSig, ReadSig, b') { SigNormalises(b'); }
    ReadManyNormalises(WriteSig, ReadSig, n, rest);
  }

  function ComsBytes(coms: seq<Commit>): Bytes
    requires |coms| <= 0xFFFF
  {
    U16Bytes(|coms|) + WriteMany(WriteCom, coms)
  }

  function ReadComs(b: Bytes): Parse<seq<Commit>> {
    var (n, b) :- TakeU16(b);
    ReadMany(ReadCom, n, b)
  }

  lemma ComsRoundTrip(coms: seq<Commit>, t: Bytes)
    requires |coms| <= 0xFFFF
    ensures ReadComs(ComsBytes(coms) + t) == Ok((coms, t))
  {
    var body := WriteMany(WriteCom, coms) + t;
    assert ComsBytes(coms) + t == U16Bytes(|coms|) + body;
    WordsWritten(|coms|, 0, 0, body);
    forall v, t' | v in coms ensures RoundTrips(WriteCom, ReadCom, v, t') { ComRoundTrips(v, t'); }
    ReadManyRoundTrips(WriteCom, ReadCom, coms, t);
  }

  lemma ComsExtend(b: Bytes, t: Bytes)
    ensures Extends(ReadComs, b, t)
  {
    if ReadComs(b).Ok? {
      TakeU16Extends(b, t);
      var (n, rest) := TakeU16(b).value;
      forall b', t' ensures Extends(ReadCom, b', t') { ComExtends(b', t'); }
      ReadManyExtends(ReadCom, n, rest, t);
    }
  }

  lemma ComsNormalise(b: Bytes)
    requires ReadComs(b).Ok?
    ensures var (coms, rest) := ReadComs(b).value; |coms| <= 0xFFFF && |ComsBytes(coms)| + |rest| <= |b|
  {
    var (n, rest) := TakeU16(b).value;
    forall b' ensures Normalises(WriteCom, ReadCom, b') { ComNormalises(b'); }
    ReadManyNormalises(WriteCom, ReadCom, n, rest);
  }

  datatype OptStructs = OptStructs(coms: Option<seq<Commit>>, proof: Option<PaymentInfo>)

  predicate ComsFit(coms: Option<seq<Commit>>) {
    coms.Some? ==> |coms.value| <= 0xFFFF
  }

  function IfComs(coms: Option<seq<Commit>>): Bytes
    requires ComsFit(coms)
  {
    if coms.Some? then ComsBytes(coms.value) else []
  }

  function IfProof(proof: Option<PaymentInfo>): Bytes {
    if proof.Some? then WriteProof(proof.value) else []
  }

  function StructStatus(s: OptStructs): byte {
    Flag(s.coms.Some?, 0x01) + Flag(s.proof.Some?, 0x02)
  }

  function StructsBytes(s: OptStructs): Bytes
    requires ComsFit(s.coms)
  {
    [StructStatus(s)] + IfComs(s.coms) + IfProof(s.proof)
  }

  function TakeIfComs(present: bool, b: Bytes): Parse<Option<seq<Commit>>> {
    if present then
      var (coms, b) :- ReadComs(b);
      Ok((Some(coms), b))
    else Ok((None, b))
  }

  function TakeIfProof(present: bool, b: Bytes): Parse<Option<PaymentInfo>> {
    if present then
      var (proof, b) :- ReadProof(b);
      Ok((Some(proof), b))
    else Ok((None, b))
  }

  function ReadOptStructs(b: Bytes): Parse<OptStructs> {
    var (status, b) :- TakeU8(b);
    var (coms, b) :- TakeIfComs(Bit(status, 0x01), b);
    var (proof, b) :- TakeIfProof(Bit(status, 0x02), b);
    Ok((OptStructs(coms, proof), b))
  }

  /** Whatever byte stands before the lists, its last two bits say whether commitments and a payment proof follow; the
      others say nothing. */
  lemma AnyStructsRead(status: byte, s: OptStructs, t: Bytes)
    requires ComsFit(s.coms) && (s.coms.Some? <==> status % 2 == 1) && (s.proof.Some? <==> status / 2 % 2 == 1)
    ensures ReadOptStructs([status] + (IfComs(s.coms) + (IfProof(s.proof) + t))) == Ok((s, t))
  {
    hide ReadComs, ComsBytes, ReadProof, WriteProof, TakeU8;
    var b2 := IfProof(s.proof) + t;
    TakeU8Written(status, IfComs(s.coms) + b2);
    assert [] + b2 == b2 && [] + t == t;
    if s.coms.Some? {
      ComsRoundTrip(s.coms.value, b2);
    }
    if s.proof.Some? {
      ProofRoundTrips(s.proof.value, t);
    }
  }

  lemma StructsRoundTrip(s: OptStructs, t: Bytes)
    requires ComsFit(s.coms)
    ensures ReadOptStructs(StructsBytes(s) + t) == Ok((s, t))
  {
    hide ReadOptStructs, IfComs, IfProof;
    assert StructsBytes(s) + t == [StructStatus(s)] + (IfComs(s.coms) + (IfProof(s.proof) + t));
    AnyStructsRead(StructStatus(s), s, t);
  }

  lemma StructsExtend(b: Bytes, t: Bytes)
    ensures Extends(ReadOptStructs, b, t)
  {
    hide ReadComs, ReadProof, Bit;
    if ReadOptStructs(b).Ok? {
      TakeU8Extends(b, t);
      var (status, b1) := TakeU8(b).value;
      ComsExtend(b1, t);
      var (_, b2) := TakeIfComs(Bit(status, 0x01), b1).value;
      ProofExtends(b2, t);
    }
  }

  lemma StructsNormalise(b: Bytes)
    requires ReadOptStructs(b).Ok?
    ensures var (s, rest) := ReadOptStructs(b).value; ComsFit(s.coms) && |StructsBytes(s)| + |rest| <= |b|
  {
    hide ReadComs, ComsBytes, ReadProof, WriteProof, Bit;
    var (status, b1) := TakeU8(b).value;
    var (_, b2) := TakeIfComs(Bit(status, 0x01), b1).value;
    if Bit(status, 0x01) {
      ComsNormalise(b1);
    }
    ProofNormalises(b2);
  }

  // ----- header and lock height --------------------------------------------------------------

  datatype Header = Header(version: u16, blockHeaderVersion: u16, id: Bytes16, sta: SlateState, off: Bytes32)

  function WriteHeader(h: Header): Bytes {
    U16Bytes(h.version) + U16Bytes(h.blockHeaderVersion) + h.id + [StateByte(h.sta)] + h.off
  }

  function ReadHeader(b: Bytes): Parse<Header> {
    var (version, b) :- TakeU16(b);
    var (blockHeaderVersion, b) :- TakeU16(b);
    var (id, b) :- Take(16, b);
    var (sta, b) :- TakeU8(b);
    var (off, b) :- Take(32, b);
    Ok((Header(version, blockHeaderVersion, id, StateFromByte(sta), off), b))
  }

  lemma HeaderRoundTrips(h: Header, t: Bytes)
    ensures RoundTrips(WriteHeader, ReadHeader, h, t)
  {
    hide TakeU16, TakeU8, Take, U16Bytes;
    var b4 := h.off + t;
    var b3 := [StateByte(h.sta)] + b4;
    var b2 := h.id + b3;
    var b1 := U16Bytes(h.blockHeaderVersion) + b2;
    assert WriteHeader(h) + t == U16Bytes(h.version) + b1;
    WordsWritten(h.version, 0, 0, b1);
    WordsWritten(h.blockHeaderVersion, 0, 0, b2);
    TakeWritten(h.id, b3);
    TakeU8Written(StateByte(h.sta), b4);
    TakeWritten(h.off, t);
  }

  lemma HeaderExtends(b: Bytes, t: Bytes)
    ensures Extends(ReadHeader, b, t)
  {
    hide TakeU16, TakeU8;
    if ReadHeader(b).Ok? {
      TakeU16Extends(b, t);
      var (_, b1) := TakeU16(b).value;
      TakeU16Extends(b1, t);
      var (_, b2) := TakeU16(b1).value;
      TakeExtends(16, b2, t);
      TakeU8Extends(b2[16..], t);
      var (_, b4) := TakeU8(b2[16..]).value;
      TakeExtends(32, b4, t);
    }
  }

  lemma HeaderNormalises(b: Bytes)
    ensures Normalises(WriteHeader, ReadHeader, b)
  {
  }

  /** Height-locked (2) and no-recent-duplicate (3) kernels carry a height. */
  predicate HasLock(feat: byte) {
    feat == 2 || feat == 3
  }

  function LockHeight(s: Slate): u64 {
    match s.featArgs
    case Some(height) => height
    case None => 0
  }

  function TakeIfLock(present: bool, b: Bytes): Parse<Option<u64>> {
    if present then
      var (height, b) :- TakeU64(b);
      Ok((Some(height), b))
    else Ok((None, b))
  }

  // ----- where everything stands -------------------------------------------------------------

  lemma StateCode(s: SlateState, b: byte)
    ensures StateByte(s) == match s
      case Unknown => 0 case Standard1 => 1 case Standard2 => 2 case Standard3 => 3
      case Invoice1 => 4 case Invoice2 => 5 case Invoice3 => 6
    ensures StateFromByte(b) == s <==> if s.Unknown? then b == 0 || b > 6 else b == StateByte(s)
  {
  }

  /** 53 bytes: two versions of two bytes, the id, one byte for the state, the offset. */
  lemma HeaderLayout(h: Header)
    ensures var b := WriteHeader(h);
      && |b| == 53 && BeValue(b[..2]) == h.version && BeValue(b[2..4]) == h.blockHeaderVersion
      && b[4..20] == h.id && b[20] == StateByte(h.sta) && b[21..] == h.off
  {
    hide U16Bytes, BeValue, StateByte;
    var versions, rest := U16Bytes(h.version) + U16Bytes(h.blockHeaderVersion), h.id + [StateByte(h.sta)] + h.off;
    TwoWords(h.version, h.blockHeaderVersion);
    IdStateOffset(h.id, StateByte(h.sta), h.off);
    assert WriteHeader(h) == versions + rest;
    Joined(versions, rest);
  }

  lemma TwoWords(a: u16, b: u16)
    ensures var w := U16Bytes(a) + U16Bytes(b); |w| == 4 && BeValue(w[..2]) == a && BeValue(w[2..]) == b
  {
    hide U16Bytes, BeValue;
    WordValues(a, 0, 0);
    WordValues(b, 0, 0);
    var w := U16Bytes(a) + U16Bytes(b);
    assert w[..2] == U16Bytes(a) && w[2..] == U16Bytes(b);
  }

  lemma IdStateOffset(id: Bytes16, state: byte, off: Bytes32)
    ensures var w := id + [state] + off; |w| == 49 && w[..16] == id && w[16] == state && w[17..] == off
  {
  }

  lemma Joined(v: Bytes, w: Bytes)
    requires |v| == 4 && |w| == 49
    ensures var b := v + w;
      && b[..2] == v[..2] && b[2..4] == v[2..] && b[4..20] == w[..16] && b[20] == w[16] && b[21..] == w[17..]
  {
  }

  /** The optional fields that are on the wire, in order, in one byte or eight. */
  ghost function FieldsOnWire(n: bool, a: bool, fee: bool, k: bool, t: bool, f: OptFields): Bytes {
    (if n then [f.numParts] else []) + (if a then BeBytes(f.amt, 8) else []) + (if fee then BeBytes(f.fee, 8) else [])
      + (if k then [f.feat] else []) + (if t then BeBytes(f.ttl, 8) else [])
  }

  /** One byte says which optional fields follow: 1 for a number of participants other than two, 2 for an amount, 4
      for a fee, 8 for a kernel feature and 16 for a cut-off height other than zero. */
  lemma OptLayout(f: OptFields)
    ensures WriteOptFields(f)
         == [(if f.numParts != 2 then 1 else 0) + (if f.amt > 0 then 2 else 0) + (if f.fee > 0 then 4 else 0)
             + (if f.feat > 0 then 8 else 0) + (if f.ttl > 0 then 16 else 0)]
            + FieldsOnWire(f.numParts != 2, f.amt > 0, f.fee > 0, f.feat > 0, f.ttl > 0, f)
  {
    hide BeBytes, PresentIn;
    StatusSaysNeeded(f);
  }

  /** Whatever byte stands there, its bits say what is read, and what is not there is its default; the top three
      bits say nothing. */
  lemma AnyStatusRead(status: byte, f: OptFields, t: Bytes)
    ensures var n, a, fee, k, ttl :=
              status % 2 == 1, status / 2 % 2 == 1, status / 4 % 2 == 1, status / 8 % 2 == 1, status / 16 % 2 == 1;
      ReadOptFields([status] + FieldsOnWire(n, a, fee, k, ttl, f) + t)
        == Ok((OptFields(if n then f.numParts else 2, if a then f.amt else 0, if fee then f.fee else 0,
                         if k then f.feat else 0, if ttl then f.ttl else 0), t))
  {
    hide BeBytes, ReadOptBody;
    var on := PresentIn(status);
    var body := WriteOptBody(on, f);
    assert body == FieldsOnWire(on.n, on.a, on.e, on.k, on.t, f);
    assert [status] + body + t == [status] + (body + t);
    TakeU8Written(status, body + t);
    OptBodyRoundTrips(on, f, t);
  }

  /** One byte for a signature, the public excess, the public nonce, and the signature if there is one. */
  lemma SigLayout(s: Participant)
    ensures var b := WriteSig(s);
      && |b| >= 67 && b[0] == (if s.part.Some? then 1 else 0) && b[1..34] == s.xs && b[34..67] == s.nonce
      && b[67..] == if s.part.Some? then s.part.value else []
  {
  }

  /** One byte for a proof, the feature, the commitment, and the proof behind its length if there is one. */
  lemma ComLayout(o: Commit)
    ensures var b := WriteCom(o);
      && |b| >= 35 && b[0] == (if o.p.Some? then 1 else 0) && b[1] == o.f && b[2..35] == o.c
      && match o.p
         case None => |b| == 35
         case Some(p) => |b| == 43 + |p| && BeValue(b[35..43]) == |p| && b[43..] == p
  {
    hide BeValue, U64Bytes;
    if o.p.Some? {
      WordValues(0, 0, |o.p.value|);
      assert WriteCom(o)[35..43] == U64Bytes(|o.p.value|);
    }
  }

  /** Both addresses, one byte for a signature, and the signature if there is one. */
  lemma ProofLayout(p: PaymentInfo)
    ensures var b := WriteProof(p);
      && |b| >= 65 && b[..32] == p.saddr && b[32..64] == p.raddr && b[64] == (if p.rsig.Some? then 1 else 0)
      && b[65..] == if p.rsig.Some? then p.rsig.value else []
  {
  }

  /** A flag other than 1 is read as a 0: nothing follows. */
  lemma OtherFlagsAreZero(flag: byte, f: byte, a: Bytes33, b: Bytes33, x: Bytes32, y: Bytes32, t: Bytes)
    requires flag != 1
    ensures ReadSig([flag] + (a + (b + t))) == Ok((Participant(a, b, None), t))
    ensures ReadCom([flag] + ([f] + (a + t))) == Ok((Commit(f, a, None), t))
    ensures ReadProof(x + (y + ([flag] + t))) == Ok((PaymentInfo(x, y, None), t))
  {
    TakeU8Written(flag, a + (b + t));
    TakeU8Written(flag, [f] + (a + t));
    TakeU8Written(flag, t);
    TakeU8Written(f, a + t);
    TakeWritten(a, b + t);
    TakeWritten(b, t);
    TakeWritten(a, t);
    TakeWritten(x, y + ([flag] + t));
    TakeWritten(y, [flag] + t);
  }

  // ----- the whole slate ---------------------------------------------------------------------

  /** The slates the writer accepts: a parsable id, and lists no longer than their count fields hold. */
  predicate Encodable(uuid: UuidLib, s: Slate) {
    uuid.parse(s.id).Some? && |s.sigs| <= 0xFF && ComsFit(s.coms)
  }

  function HeaderOf(uuid: UuidLib, s: Slate): Header
    requires uuid.parse(s.id).Some?
  {
    Header(s.version, s.blockHeaderVersion, uuid.parse(s.id).value, s.sta, s.off)
  }

  function SlateBytes(uuid: UuidLib, s: Slate): Bytes
    requires Encodable(uuid, s)
  {
    WriteHeader(HeaderOf(uuid, s)) + WriteOptFields(OptFieldsOf(s)) + SigsBytes(s.sigs)
      + StructsBytes(OptStructs(s.coms, s.proof)) + IfU64(HasLock(s.feat), LockHeight(s))
  }

  function Serialize(uuid: UuidLib, s: Slate): Outcome<Bytes> {
    if uuid.parse(s.id).None? then Err("invalid slate UUID")
    else if |s.sigs| > 0xFF then Err("participants exceed the u8 count field")
    else if !ComsFit(s.coms) then Err("commitments exceed the u16 count field")
    else Ok(SlateBytes(uuid, s))
  }

  /** The whole: header, optional fields, participants behind their number in one byte, then one byte saying whether
      commitments (1) and a payment proof (2) follow, the commitments behind their number in two bytes, the proof,
      and for kernels of feature 2 and 3 a height in eight bytes, 0 if the slate has none. */
  lemma SlateLayout(uuid: UuidLib, s: Slate)
    requires Encodable(uuid, s)
    ensures SlateBytes(uuid, s)
      == WriteHeader(Header(s.version, s.blockHeaderVersion, uuid.parse(s.id).value, s.sta, s.off))
       + WriteOptFields(OptFields(s.numParts, s.amt, s.fee, s.feat, s.ttl))
       + ([|s.sigs|] + WriteMany(WriteSig, s.sigs))
       + ([(if s.coms.Some? then 1 else 0) + (if s.proof.Some? then 2 else 0)]
          + (if s.coms.Some? then BeBytes(|s.coms.value|, 2) + WriteMany(WriteCom, s.coms.value) else [])
          + (if s.proof.Some? then WriteProof(s.proof.value) else []))
       + (if s.feat == 2 || s.feat == 3 then BeBytes(if s.featArgs.Some? then s.featArgs.value else 0, 8) else [])
  {
    hide WriteHeader, WriteOptFields, WriteMany, BeBytes, WriteProof;
  }

  /** The parsed slate and the bytes after it, which `deserialize_slate_v4_bin` ignores. */
  function ReadSlate(uuid: UuidLib, b: Bytes): Parse<Slate> {
    var (h, b) :- ReadHeader(b);
    var (f, b) :- ReadOptFields(b);
    var (sigs, b) :- ReadSigs(b);
    var (structs, b) :- ReadOptStructs(b);
    var (lock, b) :- TakeIfLock(HasLock(f.feat), b);
    Ok((Slate(h.version, h.blockHeaderVersion, uuid.format(h.id), h.sta, h.off,
              f.numParts, f.amt, f.fee, f.feat, f.ttl, sigs, structs.coms, structs.proof, lock), b))
  }

  function Deserialize(uuid: UuidLib, b: Bytes): Outcome<Slate> {
    var (s, _) :- ReadSlate(uuid, b);
    Ok(s)
  }

  /** A slate as it comes back from the wire: the id in the library's own spelling, and a lock height
      exactly when the kernel feature has one. */
  function Canonical(uuid: UuidLib, s: Slate): Slate
    requires uuid.parse(s.id).Some?
  {
    s.(id := uuid.format(uuid.parse(s.id).value),
       featArgs := if HasLock(s.feat) then Some(LockHeight(s)) else None)
  }

  lemma LockWritten(present: bool, height: u64, t: Bytes)
    ensures TakeIfLock(present, IfU64(present, height) + t) == Ok((if present then Some(height) else None, t))
  {
    assert [] + t == t;
    WordsWritten(0, 0, height, t);
  }

  /** Every slate the writer accepts comes back canonical, from exactly the bytes written. */
  lemma SlateRoundTrips(uuid: UuidLib, s: Slate, t: Bytes)
    requires Encodable(uuid, s)
    ensures ReadSlate(uuid, SlateBytes(uuid, s) + t) == Ok((Canonical(uuid, s), t))
  {
    hide WriteHeader, ReadHeader, WriteOptFields, ReadOptFields, SigsBytes, ReadSigs, StructsBytes,
      ReadOptStructs, TakeIfLock, IfU64;
    var b4 := IfU64(HasLock(s.feat), LockHeight(s)) + t;
    var b3 := StructsBytes(OptStructs(s.coms, s.proof)) + b4;
    var b2 := SigsBytes(s.sigs) + b3;
    var b1 := WriteOptFields(OptFieldsOf(s)) + b2;
    assert SlateBytes(uuid, s) + t == WriteHeader(HeaderOf(uuid, s)) + b1;
    HeaderRoundTrips(HeaderOf(uuid, s), b1);
    OptFieldsRoundTrips(OptFieldsOf(s), b2);
    SigsRoundTrip(s.sigs, b3);
    StructsRoundTrip(OptStructs(s.coms, s.proof), b4);
    LockWritten(HasLock(s.feat), LockHeight(s), t);
  }

  /** The promise of the format, with the exact slates it holds for: those whose id is spelled the
      library's way and whose lock height is there just when the feature needs it. */
  lemma RoundTripExact(uuid: UuidLib, s: Slate, t: Bytes)
    ensures Serialize(uuid, s).Ok? <==> Encodable(uuid, s)
    ensures Serialize(uuid, s).Ok? ==>
      (Deserialize(uuid, Serialize(uuid, s).value + t) == Ok(s) <==>
        uuid.format(uuid.parse(s.id).value) == s.id && (s.featArgs.Some? <==> HasLock(s.feat)))
  {
    hide ReadSlate, SlateBytes;
    if Encodable(uuid, s) {
      SlateRoundTrips(uuid, s, t);
    }
  }

  lemma SlateExtends(uuid: UuidLib, b: Bytes, t: Bytes)
    requires ReadSlate(uuid, b).Ok?
    ensures ReadSlate(uuid, b + t)
         == Ok((ReadSlate(uuid, b).value.0, ReadSlate(uuid, b).value.1 + t))
  {
    hide ReadHeader, ReadOptFields, ReadSigs, ReadOptStructs, TakeU64;
    HeaderExtends(b, t);
    var (_, b1) := ReadHeader(b).value;
    OptFieldsExtends(b1, t);
    var (f, b2) := ReadOptFields(b1).value;
    SigsExtend(b2, t);
    var (_, b3) := ReadSigs(b2).value;
    StructsExtend(b3, t);
    var (_, b4) := ReadOptStructs(b3).value;
    TakeU64Extends(b4, t);
  }

  /** A truncated slate is refused, wherever it is cut. */
  lemma StrictPrefixRejected(uuid: UuidLib, s: Slate, cut: nat)
    requires Encodable(uuid, s) && cut < |SlateBytes(uuid, s)|
    ensures !Deserialize(uuid, SlateBytes(uuid, s)[..cut]).Ok?
  {
    hide ReadSlate, SlateBytes;
    var w := SlateBytes(uuid, s);
    assert w[..cut] + w[cut..] == w == w + [];
    SlateRoundTrips(uuid, s, []);
    if ReadSlate(uuid, w[..cut]).Ok? {
      SlateExtends(uuid, w[..cut], w[cut..]);
    }
  }

  /** Whatever bytes the reader accepts, redundant status bits and flags other than 0 and 1 included,
      the slate it returns can be written, in no more bytes, and is then read back unchanged. */
  lemma AcceptedNormalises(uuid: UuidLib, b: Bytes, t: Bytes)
    requires uuid.Valid() && ReadSlate(uuid, b).Ok?
    ensures var (s, rest) := ReadSlate(uuid, b).value;
            && Encodable(uuid, s)
            && Canonical(uuid, s) == s
            && |SlateBytes(uuid, s)| + |rest| <= |b|
            && ReadSlate(uuid, SlateBytes(uuid, s) + t) == Ok((s, t))
  {
    hide WriteHeader, ReadHeader, WriteOptFields, ReadOptFields, SigsBytes, ReadSigs, StructsBytes,
      ReadOptStructs;
    var (h, b1) := ReadHeader(b).value;
    HeaderNormalises(b);
    var (f, b2) := ReadOptFields(b1).value;
    OptFieldsNormalises(b1);
    var (sigs, b3) := ReadSigs(b2).value;
    SigsNormalise(b2);
    var (structs, b4) := ReadOptStructs(b3).value;
    StructsNormalise(b3);
    var (s, rest) := ReadSlate(uuid, b).value;
    assert HeaderOf(uuid, s) == h && OptFieldsOf(s) == f && OptStructs(s.coms, s.proof) == structs;
    assert |IfU64(HasLock(s.feat), LockHeight(s))| + |rest| == |b4|;
    SlateRoundTrips(uuid, s, t);
  }
}
