/** The send flow as two wallets run it: each slate travels as armored text. */
module SendOverWire {
  import opened Outcomes
  import opened ByteStrings
  import opened Slates
  import opened Keychains
  import opened Wallet
  import opened SlateBuilder
  import opened SendFlow
  import opened Transport
  import Recovery
  import Balance
  import SlateBin
  import Armors

  /** The id is in the spelling the UUID library prints. */
  ghost predicate PrintedId(libs: Libs, id: string) {
    libs.uuid.parse(id).Some? && libs.uuid.format(libs.uuid.parse(id).value) == id
  }

  /** The slate arrives exactly as it was sent, however the text was re-wrapped on the way. */
  ghost predicate Arrives(libs: Libs, slate: Slate) {
    forall sender: Option<ByteVec>, text: string ::
      && (sender.Some? ==> |sender.value| <= 0xFF && libs.utf8(sender.value))
      && Send(libs, slate, sender).Ok?
      && Armors.StripWhitespace(text) == Armors.StripWhitespace(Send(libs, slate, sender).value)
      ==> Receive(libs, text) == Ok((slate, sender))
  }

  /** The slate can be written, and its envelope is no longer than a `usize` counts. */
  ghost predicate Fits(libs: Libs, slate: Slate) {
    SlateBin.Encodable(libs.uuid, slate) && |SlateBin.SlateBytes(libs.uuid, slate)| + 300 <= libs.usizeMax
  }

  /** A slate whose lock height is there exactly when its kernel feature has one needs no normalising. */
  lemma CanonicalArrives(libs: Libs, slate: Slate)
    requires libs.Valid() && PrintedId(libs, slate.id)
    requires slate.featArgs.Some? <==> SlateBin.HasLock(slate.feat)
    requires Fits(libs, slate)
    ensures Arrives(libs, slate)
  {
    hide SlateBin.SlateBytes, Armors.ArmorText, Armors.StripWhitespace, Receive;
    forall sender: Option<ByteVec>, text: string |
      && (sender.Some? ==> |sender.value| <= 0xFF && libs.utf8(sender.value))
      && Send(libs, slate, sender).Ok?
      && Armors.StripWhitespace(text) == Armors.StripWhitespace(Send(libs, slate, sender).value)
      ensures Receive(libs, text) == Ok((slate, sender))
    {
      SlateSurvivesTransport(libs, slate, sender, text);
    }
  }

  /** Both slates of a send can be written, whatever the kernel, exactly when their inputs and outputs fit the
      format's two-byte count, and what can be written arrives as it was sent, so the flow over text is the
      flow on slates. */
  lemma SendTravels(
    libs: Libs, lib: Library, receiver: Library, blake: Bytes -> Bytes32, p: SendParams, id: string, q: SignParams,
    made: Made, signed: Signed)
    requires libs.Valid() && PrintedId(libs, id)
    requires lib.curve.order > 0 && receiver.curve.order > 0
    requires CreateSend(lib, p, id) == Ok(made) && SignIncoming(receiver, blake, made.slate, q) == Ok(signed)
    ensures var outputs := if made.change.Some? then 2 else 1;
      && (SlateBin.Encodable(libs.uuid, made.slate) <==> |p.inputs| + outputs - 1 <= 0xFFFF)
      && (SlateBin.Encodable(libs.uuid, signed.slate) <==> |p.inputs| + outputs <= 0xFFFF)
    ensures Fits(libs, made.slate) ==> Arrives(libs, made.slate)
    ensures Fits(libs, signed.slate) ==> Arrives(libs, signed.slate)
  {
    hide SlateBin.SlateBytes, Arrives, PrintedId;
    MadeShape(lib, p, id, made);
    SignedShape(receiver, blake, made.slate, q, signed);
    IdParses(libs, id);
    if Fits(libs, made.slate) {
      CanonicalArrives(libs, made.slate);
    }
    if Fits(libs, signed.slate) {
      CanonicalArrives(libs, signed.slate);
    }
  }

  lemma IdParses(libs: Libs, id: string)
    requires PrintedId(libs, id)
    ensures libs.uuid.parse(id).Some?
  {
  }

  lemma MadeShape(lib: Library, p: SendParams, id: string, made: Made)
    requires lib.curve.order > 0 && CreateSend(lib, p, id) == Ok(made)
    ensures made.slate.id == id && |made.slate.sigs| == 1
    ensures made.slate.featArgs.Some? <==> SlateBin.HasLock(made.slate.feat)
    ensures made.slate.coms.Some? && |made.slate.coms.value| == |p.inputs| + if made.change.Some? then 1 else 0
  {
    hide InputBlinds, MintOutput, Balance.SenderBlindExcess;
  }

  lemma SignedShape(lib: Library, blake: Bytes -> Bytes32, s1: Slate, q: SignParams, signed: Signed)
    requires lib.curve.order > 0 && SignIncoming(lib, blake, s1, q) == Ok(signed)
    ensures signed.slate.id == s1.id && |signed.slate.sigs| == 2
    ensures signed.slate.featArgs == s1.featArgs && signed.slate.feat == s1.feat
    ensures signed.slate.coms.Some? && |signed.slate.coms.value| == |Coms(s1)| + 1
  {
    hide DeriveBlind, ReceiverRound, ReceiverSigs, KernelExcess, Recovery.CreateRecoverableOutput;
    var blind := SignedFacts(lib, blake, s1, q, signed);
  }
}
