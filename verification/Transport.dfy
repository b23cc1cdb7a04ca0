/** A slate's whole way from one wallet to the other: binary slate, binary envelope, armored text, and
    back. */
module Transport {
  import opened Outcomes
  import opened ByteStrings
  import opened Slates
  import SlateBin
  import Slatepacks
  import Armors

  /** The libraries, and the machine's word. */
  datatype Libs = Libs(
    uuid: SlateBin.UuidLib, utf8: Bytes -> bool, armor: Armors.ArmorLib, usizeMax: Slatepacks.UsizeMax) {
    ghost predicate Valid() {
      uuid.Valid() && armor.Valid()
    }
  }

  /** What one wallet sends: the slate in plain mode, naming its own address or none. */
  function Send(libs: Libs, slate: Slate, sender: Option<ByteVec>): Outcome<string> {
    var payload :- SlateBin.Serialize(libs.uuid, slate);
    if |payload| > U64_MAX then Panic("capacity overflow") else
    Ok(Armors.ArmorText(libs.armor, Slatepacks.ToBytes(Slatepacks.PlainPack(payload, sender))))
  }

  /** What the other makes of the text it was given. */
  function Receive(libs: Libs, text: string): Outcome<(Slate, Option<ByteVec>)> {
    var bytes :- Armors.Dearmor(libs.armor, text);
    var pack :- Slatepacks.FromBytes(libs.utf8, libs.usizeMax, bytes);
    var slate :- SlateBin.Deserialize(libs.uuid, pack.payload);
    Ok((slate, pack.sender))
  }

  /** What is sent, and when: a slate that can be written goes out in an envelope of version 1.0 in plain mode. */
  lemma SendExact(libs: Libs, slate: Slate, sender: Option<ByteVec>, payload: ByteVec)
    requires SlateBin.Encodable(libs.uuid, slate) && payload == SlateBin.SlateBytes(libs.uuid, slate)
    ensures Send(libs, slate, sender)
         == Ok(Armors.ArmorText(libs.armor,
                                Slatepacks.ToBytes(Slatepacks.Slatepack(1, 0, Slatepacks.Plain, sender, payload))))
  {
    hide SlateBin.SlateBytes, Armors.ArmorText, Slatepacks.ToBytes;
  }

  /** The slate and its sender survive the trip, however the text was re-wrapped, indented or quoted on
      the way, for every slate that can be written at all. The slate arrives in canonical form. */
  lemma SlateSurvivesTransport(libs: Libs, slate: Slate, sender: Option<ByteVec>, text: string)
    requires libs.Valid()
    requires sender.Some? ==> |sender.value| <= 0xFF && libs.utf8(sender.value)
    requires SlateBin.Serialize(libs.uuid, slate).Ok?
    requires var payload := SlateBin.Serialize(libs.uuid, slate).value;
             |payload| + 300 <= libs.usizeMax
    requires Armors.StripWhitespace(text) == Armors.StripWhitespace(Send(libs, slate, sender).value)
    ensures Receive(libs, text) == Ok((SlateBin.Canonical(libs.uuid, slate), sender))
  {
    hide SlateBin.SlateBytes, SlateBin.ReadSlate, Armors.Dearmor, Armors.ArmorText, Armors.StripWhitespace,
      Slatepacks.FromBytes, Slatepacks.Layout;
    var payload := SlateBin.Serialize(libs.uuid, slate).value;
    var pack := Slatepacks.PlainPack(payload, sender);
    var bytes := Slatepacks.ToBytes(pack);
    Armors.ArmorRoundTrips(libs.armor, bytes, text);
    assert bytes + [] == bytes;
    assert |bytes| <= libs.usizeMax by { PackLength(pack); }
    Slatepacks.UnknownFieldsSkipped(libs.utf8, libs.usizeMax, pack, Slatepacks.SenderFlag(sender), [], []);
    SlateBin.SlateRoundTrips(libs.uuid, slate, []);
    assert payload + [] == payload;
  }

  lemma PackLength(p: Slatepacks.Slatepack)
    ensures |Slatepacks.ToBytes(p)| == 17 + |Slatepacks.SenderBytes(p.sender)| + |p.payload|
    ensures |Slatepacks.SenderBytes(p.sender)| <= 256
  {
  }

  /** A slate received over the wire can be sent on and is received as it was. */
  lemma ReceivedSlateIsStable(libs: Libs, text: string, sender: Option<ByteVec>, again: string)
    requires libs.Valid()
    requires sender.Some? ==> |sender.value| <= 0xFF && libs.utf8(sender.value)
    requires Receive(libs, text).Ok?
    requires Armors.Dearmor(libs.armor, text).Ok? ==> |Armors.Dearmor(libs.armor, text).value| + 300 <= libs.usizeMax
    requires Send(libs, Receive(libs, text).value.0, sender).Ok? ==>
      Armors.StripWhitespace(again) == Armors.StripWhitespace(Send(libs, Receive(libs, text).value.0, sender).value)
    ensures Send(libs, Receive(libs, text).value.0, sender).Ok?
    ensures Receive(libs, again) == Ok((Receive(libs, text).value.0, sender))
  {
    hide SlateBin.SlateBytes, SlateBin.ReadSlate, Armors.Dearmor, Armors.ArmorText, Armors.StripWhitespace;
    var bytes := Armors.Dearmor(libs.armor, text).value;
    var pack := Slatepacks.FromBytes(libs.utf8, libs.usizeMax, bytes).value;
    PayloadWithin(libs.utf8, libs.usizeMax, bytes);
    SlateBin.AcceptedNormalises(libs.uuid, pack.payload, []);
    var slate := Receive(libs, text).value.0;
    SlateSurvivesTransport(libs, slate, sender, again);
  }

  lemma PayloadWithin(utf8: Bytes -> bool, usizeMax: Slatepacks.UsizeMax, bytes: Bytes)
    requires Slatepacks.FromBytes(utf8, usizeMax, bytes).Ok?
    ensures |Slatepacks.FromBytes(utf8, usizeMax, bytes).value.payload| <= |bytes|
  {
    hide Slatepacks.ReadVersionMode, Slatepacks.ReadSender, Slatepacks.AsUsize;
    var input := Slatepacks.Input(|bytes|, usizeMax);
    VersionModeShortens(input, bytes);
    var (_, b1) := Slatepacks.ReadVersionMode(input, bytes).value;
    SenderShortens(utf8, input, b1);
  }

  lemma VersionModeShortens(input: Slatepacks.Input, b: Bytes)
    requires Slatepacks.ReadVersionMode(input, b).Ok?
    ensures |Slatepacks.ReadVersionMode(input, b).value.1| <= |b|
  {
    hide Slatepacks.ModeFromByte;
  }

  lemma SenderShortens(utf8: Bytes -> bool, input: Slatepacks.Input, b: Bytes)
    requires Slatepacks.ReadSender(utf8, input, b).Ok?
    ensures |Slatepacks.ReadSender(utf8, input, b).value.1| <= |b|
  {
    hide Slatepacks.ReadOptRegion;
    var (flags, b1) := Slatepacks.CursorU16(input, b).value;
    var (optLen, b2) := Slatepacks.CursorU32(input, b1).value;
    OptRegionShortens(utf8, input, flags, optLen, b2);
  }

  lemma OptRegionShortens(utf8: Bytes -> bool, input: Slatepacks.Input, flags: u16, optLen: u32, b: Bytes)
    requires Slatepacks.ReadOptRegion(utf8, input, flags, optLen, b).Ok?
    ensures |Slatepacks.ReadOptRegion(utf8, input, flags, optLen, b).value.1| <= |b|
  {
  }
}
