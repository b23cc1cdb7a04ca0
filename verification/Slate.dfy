/** The slate two wallets pass back and forth (crates/grin-ext/src/slate.rs). */
module Slates {
  import opened Outcomes
  import opened ByteStrings

  datatype SlateState =
    | Unknown
    | Standard1 | Standard2 | Standard3
    | Invoice1 | Invoice2 | Invoice3

  /** One participant's public excess, public nonce and, once signed, 64-byte partial signature. */
  datatype Participant = Participant(xs: Bytes33, nonce: Bytes33, part: Option<Bytes64>)

  /** An input reference (no proof) or an output (with its range proof). */
  datatype Commit = Commit(f: byte, c: Bytes33, p: Option<ByteVec>)

  datatype PaymentInfo = PaymentInfo(saddr: Bytes32, raddr: Bytes32, rsig: Option<Bytes64>)

  datatype Slate = Slate(
    version: u16,
    blockHeaderVersion: u16,
    id: string,
    sta: SlateState,
    off: Bytes32,
    numParts: byte,
    amt: u64,
    fee: u64,
    feat: byte,
    ttl: u64,
    sigs: seq<Participant>,
    coms: Option<seq<Commit>>,
    proof: Option<PaymentInfo>,
    featArgs: Option<u64>)  // lock height, or relative height for an NRD kernel

  /** The commitments a slate carries; an absent list counts as empty. */
  function Coms(slate: Slate): seq<Commit> {
    match slate.coms
    case Some(coms) => coms
    case None => []
  }

  function AddCommit(slate: Slate, entry: Commit): (s: Slate)
    ensures Coms(s) == Coms(slate) + [entry]
  {
    slate.(coms := Some(Coms(slate) + [entry]))
  }

  /** What is put on a slate: 1 for a coinbase and 0 for a plain one, the commitment, and a proof for outputs only. */
  lemma EntriesAre(commitment: Bytes33, proof: ByteVec)
    ensures InputEntry(commitment, true) == Commit(1, commitment, None)
    ensures InputEntry(commitment, false) == Commit(0, commitment, None)
    ensures OutputEntry(commitment, proof, true) == Commit(1, commitment, Some(proof))
    ensures OutputEntry(commitment, proof, false) == Commit(0, commitment, Some(proof))
  {
  }

  function InputEntry(commitment: Bytes33, isCoinbase: bool): Commit {
    Commit(if isCoinbase then 1 else 0, commitment, None)
  }

  function OutputEntry(commitment: Bytes33, proof: ByteVec, isCoinbase: bool): Commit {
    Commit(if isCoinbase then 1 else 0, commitment, Some(proof))
  }
}
