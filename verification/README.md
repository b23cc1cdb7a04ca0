# Smirk wallet: a verification model

A Dafny model of the wallet's hard core: Grin's multi-party signatures and adaptor signatures, single-party
vouchers, the interactive send flow, the binary codecs a slate and a transaction travel in, seed recovery and
path search, Monero/Wownero rings, varints and one-time keys, and the `malloc` shim the WebAssembly build links
against. `dafny verify dfyconfig.toml` checks the whole project.

## How it is laid out

- `Samples`: a group of any odd order, libraries and proofs that meet the assumptions below. `Witnesses`,
  `FlowWitnesses`: the inputs at which a promise fails, on sample groups.
- `Outcomes`, `Bytes`, `Codec`, `Modular`, `StableSort`: results (value, error, panic), bytes and fixed-width
  words, readers and writers, congruences, what a stable sort determines.
- `Curve`, `Schnorr`, `Aggregation`, `Adaptor`, `Balance`: secp256k1 as a cyclic group, signing, n-party
  aggregation, adaptor signatures, blinding sums and the balance equation on commitments.
- `Slate`, `SlateBin`, `SlateBinIo`, `Slatepack`, `SlatepackIo`, `Armor`, `Transport`: a slate, its binary form,
  the envelope, the armored text, and the whole way from wallet to wallet. The `Io` files hold the cursor reader
  and the buffer writer as classes, each method proved against the functional form.
- `Kernel`, `Transaction`, `Keychain`, `PathSearch`, `Recovery`, `Wallet`, `Voucher`, `SlateBuilder`, `SendFlow`,
  `SendOverWire`: kernels, the two transaction encoders, derivation, recovery, and the flows built on them.
- `DecoyRings`, `RingEncoding`, `Varint`, `OneTimeKeys`, `SigningRequest`: the Monero/Wownero side, down to the
  bytes the signing library reads back.
- `Allocator`, `LibcShim`: the allocator shim as a state machine over bytes, and the same over one array.

## What is assumed

- secp256k1 (section 2.4.1 of SEC 2 version 2.0) is a cyclic group: G generates it, no non-zero multiple below the
  order kills H (the order is prime), compression keeps a sign and an x coordinate shared by a point and its
  negation alone, its reader takes every compressed point and nothing but points, and exactly one of a point and
  its negation has a square y. `Curves.Curve.Valid` lists all of it and `Samples.CurveExists` exhibits groups of
  every size that meet it. edwards25519 is treated the same way (`OneTimeKeys.Ed.Valid`, `OneTimeKeys.EdExists`);
  its points carry their torsion part.
- A commitment's form is prefix 8 when y is a square and 9 otherwise, then x, as
  `crates/secp256k1zkp/depend/secp256k1-zkp/src/modules/commitment/main_impl.h` writes it.
- Scalars held by the wallet (offsets, blinds) are below the group order where a theorem says so. Non-zero
  scalars are demanded exactly where `scalar_from_bytes` in `schnorr.rs` demands them.
- Hashes, BIP32 steps, the switch-commitment hash, UUID and base58 text, UTF-8 checks and range proofs are
  uninterpreted functions. Where a law of theirs is needed it is a named predicate: a proof of a 20-byte message
  rewinds under the nonce it was made with (`Library.Rewinds`), UUID printing parses back, base58 decodes what it
  encodes. `Samples.LibsExist`, `Samples.LibraryExists` and `Witnesses.CeremonyExists` show that these, and the
  premises of a signing ceremony, can be met.
- A `usize` is either 32 or 64 bits wide in the envelope's reader, whose result depends on it, 64 in the other
  codecs, whose results do not, and 32 in the allocator shim, which is built for wasm32 only.
  Release builds check integer overflow (`Cargo.toml`), so an overflowing sum is a panic (`Outcome.Panic`).
- Randomness (slate ids, nonces) enters as parameters. The answers of Rust's allocator are
  parameters too.
- In `read_varint` the `|=` of a shifted group is written as a sum: the groups occupy disjoint bits.

## Where the code and its documentation part

- Adaptor completion (`crates/grin-ext/src/schnorr.rs:508`, `:557-559`) is documented as adding t. With the
  total nonce on the non-square branch the participants' nonces are negated and only −t completes:
  `Adaptors.CompletionExact`, and at one input `Witnesses.CompletionWithTFails`.
- `crates/grin-ext/src/transaction.rs:375-391` says the commitment form negates the key; the C code keeps the
  point and encodes whether y is a square.
- The JSON form of a transaction has names for two feature bytes; the byte form keeps any,
  and an output's byte comes with the slate from whoever wrote it: `Transactions.SlateFeaturesExact`, and at one
  slate `Witnesses.OddFeatureLost`.
- The sender address of an envelope is cut at 255 bytes without a word: `Slatepacks.LongSenderLost`.
- A slate comes back from the wire equal to what was sent exactly when its id is in printed form and its lock
  height is present just when the kernel needs it: `SlateBin.RoundTripExact`, and at one slate
  `Witnesses.HeightLost`.
- `create_grin_voucher` checks no amounts; its transaction balances exactly when the caller's amounts do:
  `Vouchers.CreateBalancesExactly`, and at one voucher `FlowWitnesses.BigVoucherFails`.
- A send asked for with a coinbase kernel goes through; its transaction balances only for a zero fee:
  `SendFlow.SendConserves`, and at one send `FlowWitnesses.CoinbaseSendFails`.
- `blind.rs:19-26` speaks of reducing bytes modulo the order; `from_uint_unchecked` does not reduce. The model keeps
  to canonical scalars, where there is nothing to reduce.
- The sender's last step compares neither kernel, fee, offset nor change with what was asked for:
  `SendFlow.AnswerNotCompared`, `SendFlow.AnsweredConserves`, and at one send `FlowWitnesses.OtherAnswerFinishes`.
- The envelope's announced payload length is cast to a `usize`, which in the browser keeps its low 32 bits:
  `Slatepacks.AnnouncedExact`, `Slatepacks.BrowserDropsHighBits`.
- The envelope's reader adds an announced length to its offset before it compares, which the slate's reader was
  written to avoid (`slate_bin.rs:70-75`): it panics exactly when the sum does not fit a `usize`,
  `Slatepacks.AnnouncedOutcome`, `Slatepacks.CutRegionOutcome`, and at two envelopes
  `Slatepacks.HugeLengthPanics`, `Slatepacks.HugeRegionPanics`.
- An output from before the first hard fork also reads as a current one of depth 0, which is tried first. When its
  amount and the root key open the identity the recovery stops there, and in no other case:
  `Recovery.LegacyRecoveryExact`, and at one output `Witnesses.OldOutputLost`.

## Model

| member | source | states |
|---|---|---|
| Schnorr.PointSum | crates/grin-ext/src/schnorr.rs:328-337 | the loop adds all points in order and fails on none, on an undecodable one or on an identity sum |
| Schnorr.AggregatePartials | crates/grin-ext/src/schnorr.rs:449-460 | the loop sums all shares modulo the order and refuses a zero or oversized one |
| Schnorr.SignVerifies | crates/grin-ext/src/schnorr.rs:108-211 | signing succeeds exactly on a valid key and nonce, and the signature verifies on both residue branches unless its response is zero, which the verifier refuses to read |
| Schnorr.SignExact | crates/grin-ext/src/schnorr.rs:108-154 | a signature is the nonce's x and a number s with s = ±k + h·x modulo the order, h being the hash of the nonce's x, the public key and the message |
| Schnorr.QrFormIsBranch | crates/grin-ext/src/schnorr.rs:108-154 | the nonce with its new prefix encodes the branch with a square y |
| Schnorr.VerifyExact | crates/grin-ext/src/schnorr.rs:181-275 | any 64 bytes over a known x, under any key: refused with an undecodable key or a zero or oversized s, and otherwise accepted exactly when s answers the hash of x, key and message on the square-y branch |
| Schnorr.UnknownNonceRefused | crates/grin-ext/src/schnorr.rs:181-238 | bytes whose first half is no point's x are never a signature |
| Schnorr.PartialSignExact | crates/grin-ext/src/schnorr.rs:361-400 | a share is ±k + h·x over the totals, h the hash of the nonce total's x, the key total and the message, and needs a usable key and nonce |
| Schnorr.PartialVerifyExact | crates/grin-ext/src/schnorr.rs:407-445 | a share of any value is accepted exactly when it answers that hash with the participant's nonce and key |
| Schnorr.OneResponseVerifies | crates/grin-ext/src/schnorr.rs:181-238 | for one nonce and key at most one response verifies |
| Schnorr.OnePartialVerifies | crates/grin-ext/src/schnorr.rs:407-445 | `partial_verify` accepts one scalar per participant and no other |
| Aggregation.TotalAdds | crates/grin-ext/src/schnorr.rs:310-337 | the point sum of n public keys is the key of the summed secrets, and fails exactly when some leading part of the list cancels |
| Aggregation.SharePasses | crates/grin-ext/src/schnorr.rs:361-445 | every share `partial_sign` makes passes `partial_verify` over the same totals, unless it is zero |
| Aggregation.AggregateVerifiesExactly | crates/grin-ext/src/schnorr.rs:181-479 | whatever n scalars are aggregated, the signature verifies exactly when they sum to the honest response |
| Aggregation.HonestAggregateVerifies | crates/grin-ext/src/schnorr.rs:361-479 | for any number of participants, on both branches, the aggregate of their shares is a signature under the summed key exactly when no share and not their sum is zero |
| Aggregation.AggregateRefuses | crates/grin-ext/src/schnorr.rs:449-460 | one share that is zero or not below the order stops the aggregation, wherever it stands |
| Aggregation.ReplacedShareFails | crates/grin-ext/src/schnorr.rs:449-479 | replacing exactly one share by any other 32 bytes makes aggregation or verification fail |
| Adaptors.ExtractUndoesComplete | crates/grin-ext/src/schnorr.rs:583-607 | extraction after completion gives back the adaptor secret, unless the completed share is zero |
| Adaptors.AdaptorSharePasses | crates/grin-ext/src/schnorr.rs:541-578 | every adaptor share is the share over the nonce total with T and passes the adaptor check |
| Adaptors.AdaptorAggregateExactly | crates/grin-ext/src/schnorr.rs:361-607 | under nonce R+T an aggregate verifies exactly when its shares sum to the honest shares plus t, or minus t, by branch; a zero sum is an error |
| Adaptors.CompletionExact | crates/grin-ext/src/schnorr.rs:541-607 | completing one share and aggregating succeeds with t exactly on the square branch and with −t exactly on the other, provided no share, completed share or sum is zero |
| Witnesses.CompletionWithTFails | crates/grin-ext/src/schnorr.rs:541-607 | a ceremony on the non-square branch where t completes to a share that fails and −t to one that verifies |
| Balance.SumBlinds | crates/grin-ext/src/blind.rs:29-33 | the accumulator loop is the sum of all blinds modulo the order |
| Balance.ExcessScalar | crates/grin-ext/src/blind.rs:69-78 | the sender's excess is outputs minus inputs minus offset |
| Curves.PedersenExact | crates/grin-ext/src/bulletproof.rs:37-47 | a commitment is 8 or 9, by the residue of y, and the x of value·H + blind·G; no blind outside the scalars and no identity has one |
| Balance.BalanceExact | crates/grin-ext/src/blind.rs:55-78 | with that excess, outputs + fee·H = inputs + excess + offset·G holds on the commitments exactly when the values balance |
| Kernels.SlateFieldsRoundTrip | crates/grin-ext/src/kernel.rs:55-98 | a kernel's slate fields give it back exactly when a relative height is one the network accepts |
| Kernels.FromSlateFieldsExact | crates/grin-ext/src/kernel.rs:71-98 | which feature byte, fee and height make which kernel, and that nothing else makes one |
| Kernels.KernelLayout | crates/grin-ext/src/kernel.rs:144-170 | the wire bytes of the four kernels: feature byte, fee and height by position and value |
| Kernels.MessageExact | crates/grin-ext/src/kernel.rs:103-142 | the message to sign is the hash of those wire bytes; a relative height outside 1 to 10080 has none |
| Kernels.CoinbaseKept | crates/grin-ext/src/kernel.rs:55-98 | a kernel rebuilt from slate fields is a coinbase kernel exactly when it was one |
| Kernels.KernelRoundTrips | crates/grin-ext/src/kernel.rs:144-170 | the v2 bytes of a kernel read back, whatever follows |
| Kernels.KernelBytesInjective | crates/grin-ext/src/kernel.rs:103-170 | kernels with the same bytes to sign are the same |
| SlateBinIo.SerializeSlate | crates/grin-ext/src/slate_bin.rs:367-387 | the buffer writer produces the functional form, with its three error cases |
| SlateBinIo.DeserializeSlate | crates/grin-ext/src/slate_bin.rs:391-425 | the cursor reader parses what the functional reader parses, with its errors |
| SlateBinIo.Reader.Raw | crates/grin-ext/src/slate_bin.rs:70-118 | a read succeeds exactly when the bytes are there, advances by what it returned and never past the end |
| SlateBinIo.EmitComs | crates/grin-ext/src/slate_bin.rs:250-274 | the counted loop writes every commitment, or refuses more than 65535 |
| SlateBinIo.ParseComs | crates/grin-ext/src/slate_bin.rs:276-300 | the counted loop reads back a commitment list with its optional proofs |
| SlateBin.RoundTripExact | crates/grin-ext/src/slate_bin.rs:367-425 | a slate can be written exactly when its id parses and its counts fit, and reads back equal, whatever follows, exactly when it is in printed and normal form |
| Witnesses.HeightLost | crates/grin-ext/src/slate_bin.rs:376-404 | a slate with a plain kernel and a lock height is written and comes back without the height |
| SlateBin.SlateRoundTrips | crates/grin-ext/src/slate_bin.rs:367-425 | every writable slate reads back canonical, from exactly the bytes written |
| SlateBin.SlateLayout | crates/grin-ext/src/slate_bin.rs:324-387 | the parts of a slate in order, each under its own count or flag |
| SlateBin.HeaderLayout | crates/grin-ext/src/slate_bin.rs:367-374 | versions, id, state and offset by position |
| SlateBin.StateCode | crates/grin-ext/src/slate_bin.rs:125-147 | the byte of each state; every byte above 6 is read as unknown |
| SlateBin.OptLayout | crates/grin-ext/src/slate_bin.rs:158-195 | which bit announces which optional field, and when it is set |
| SlateBin.AnyStatusRead | crates/grin-ext/src/slate_bin.rs:197-205 | whatever status byte stands there is read bit by bit, with defaults for what is not announced |
| SlateBin.SigLayout | crates/grin-ext/src/slate_bin.rs:207-231 | a participant by position |
| SlateBin.ComLayout | crates/grin-ext/src/slate_bin.rs:250-274 | a commitment by position, its proof behind an eight-byte length |
| SlateBin.ProofLayout | crates/grin-ext/src/slate_bin.rs:302-312 | a payment proof by position |
| SlateBin.AnyStructsRead | crates/grin-ext/src/slate_bin.rs:346-363 | whatever status byte stands before the lists, two of its bits say what follows and the others nothing |
| SlateBin.OtherFlagsAreZero | crates/grin-ext/src/slate_bin.rs:233-322 | a flag other than 1 announces nothing |
| SlateBin.StrictPrefixRejected | crates/grin-ext/src/slate_bin.rs:61-119 | every strict prefix of a written slate is refused |
| SlateBin.SlateExtends | crates/grin-ext/src/slate_bin.rs:391-425 | a parse that succeeds is the same with anything appended, which is left over |
| SlateBin.AcceptedNormalises | crates/grin-ext/src/slate_bin.rs:197-425 | every accepted byte string yields a slate that writes to no more bytes and reads back unchanged |
| SlatepackIo.PackToBytes | crates/grin-ext/src/slatepack.rs:99-138 | the writer fills the envelope's layout field by field |
| Slatepacks.PackLayout | crates/grin-ext/src/slatepack.rs:99-138 | every field of the envelope by position and value, the sender cut at 255 bytes |
| Slatepacks.OtherModesRefused | crates/grin-ext/src/slatepack.rs:141-152 | a mode byte above 1 is an error |
| Slatepacks.SenderMustBeText | crates/grin-ext/src/slatepack.rs:158-171 | a sender that is not UTF-8 is an error |
| SlatepackIo.PackFromBytes | crates/grin-ext/src/slatepack.rs:141-186 | the cursor reader makes of any bytes what the functional reader makes, for both word sizes, panics included |
| Slatepacks.AnnouncedOutcome | crates/grin-ext/src/slatepack.rs:141-186 | whatever length is announced and whatever bytes are there: a panic exactly when offset and length exceed a `usize`, an error exactly when they only exceed the input, else that many bytes |
| Slatepacks.AnnouncedExact | crates/grin-ext/src/slatepack.rs:141-186 | for both word sizes the pack is read back exactly when the low bits of the announced length are the payload's length |
| Slatepacks.BrowserDropsHighBits | crates/grin-ext/src/slatepack.rs:177-178 | a length that the 32-bit reader takes and the 64-bit reader refuses |
| Slatepacks.HugeLengthPanics | crates/grin-ext/src/slatepack.rs:177-209 | seventeen bytes announcing the longest payload stop the reader, for both word sizes |
| Slatepacks.CutRegionOutcome | crates/grin-ext/src/slatepack.rs:156-175 | an envelope cut inside its optional region: a panic exactly when the region would end beyond a `usize`, an error otherwise |
| Slatepacks.HugeRegionPanics | crates/grin-ext/src/slatepack.rs:156-175 | nine bytes announcing the longest region are a panic in the browser and an error elsewhere |
| Slatepacks.UnknownFieldsSkipped | crates/grin-ext/src/slatepack.rs:141-186 | unknown flags, unknown optional fields and trailing bytes do not change what is read, for both word sizes |
| Slatepacks.PackRoundTripExact | crates/grin-ext/src/slatepack.rs:99-186 | reading undoes writing for exactly the senders of at most 255 bytes |
| Slatepacks.LongSenderLost | crates/grin-ext/src/slatepack.rs:106-118 | a longer sender never comes back |
| Armors.WordWrap | crates/grin-ext/src/slatepack.rs:362-375 | the loop puts a separator before every fifteenth character, a line break every two hundred words |
| Armors.Armor | crates/grin-ext/src/slatepack.rs:272-282 | header, base58 of checksum and payload, footer, wrapped |
| Armors.ArmorLayout | crates/grin-ext/src/slatepack.rs:254-282 | the armored text, character by character |
| Armors.FormattingIgnored | crates/grin-ext/src/slatepack.rs:290-384 | texts that differ only in whitespace and quote marks, anywhere, dearmor to the same bytes or the same error |
| Armors.InsertedIgnored | crates/grin-ext/src/slatepack.rs:266-384 | a quote mark, blank, tab or line break put anywhere changes nothing |
| Armors.OthersKept | crates/grin-ext/src/slatepack.rs:378-384 | no other character is stripped |
| Armors.DearmorExact | crates/grin-ext/src/slatepack.rs:290-349 | a text is accepted as a payload exactly when, stripped, it is header, body and footer and the body decodes to the payload behind its checksum |
| Armors.ArmorRoundTrips | crates/grin-ext/src/slatepack.rs:272-384 | armored, re-wrapped at will and dearmored, a payload comes back |
| Armors.WrapLayout | crates/grin-ext/src/slatepack.rs:362-375 | where each character and each separator of the wrapped text stands |
| Transport.SlateSurvivesTransport | crates/grin-ext/src/slatepack.rs:99-384 | slate to bytes to envelope to text, reformatted, and back: the same slate in canonical form and the same sender |
| Transport.SendExact | crates/grin-ext/src/slatepack.rs:88-96 | a writable slate is sent in an envelope of version 1.0 in plain mode |
| Transport.ReceivedSlateIsStable | crates/grin-ext/src/slate_bin.rs:391-425 | a slate received over text can be sent on and arrives unchanged |
| Transactions.TxRoundTrips | crates/grin-ext/src/transaction.rs:136-163 | the wire form parses back to the transaction, whatever follows |
| Transactions.TxHead | crates/grin-ext/src/transaction.rs:136-143 | the offset and the three counts by position |
| Transactions.InputPlace | crates/grin-ext/src/transaction.rs:144-148 | each input by position |
| Transactions.OutputPlace | crates/grin-ext/src/transaction.rs:149-155 | each output by position, its proof behind an eight-byte length |
| Transactions.TxTail | crates/grin-ext/src/transaction.rs:156-163 | the kernel, the excess and the signature by position |
| Transactions.TxBytesUnique | crates/grin-ext/src/transaction.rs:136-163 | byte strings that begin with two transactions begin with the same one |
| Transactions.CapacityExact | crates/grin-ext/src/transaction.rs:125-134 | the precomputed capacity is exactly what is written |
| Transactions.SlateToTransactionBytes | crates/grin-ext/src/transaction.rs:76-163 | the slate encoder writes the wire form of the transaction the slate describes, or its error |
| Transactions.SlateTransactionExact | crates/grin-ext/src/transaction.rs:76-163 | when a finished slate describes a transaction, and which: its proved entries, its offset and kernel, and for excess the point of the participants' summed keys |
| Transactions.JsonCarriesTransaction | crates/grin-ext/src/transaction.rs:192-370 | the JSON body has the inputs and outputs each exactly once, named, in the order of the hashes of feature byte and commitment, the same offset, kernel and excess, and each half of the signature last byte first |
| Transactions.ReverseSignature | crates/grin-ext/src/transaction.rs:350-355 | byte j of the result is byte 31 − j of the signature, and byte 32 + j is byte 63 − j |
| Transactions.SortedAndUniqueExact | crates/grin-ext/src/transaction.rs:241-305 | the body is strictly sorted, as the node demands, exactly when no two entries hash alike |
| Transactions.JsonFeaturesExact | crates/grin-ext/src/transaction.rs:234-239 | the JSON feature names of inputs and outputs say what the byte form says exactly when every byte is 0 or 1 |
| Transactions.SlateFeaturesExact | crates/grin-ext/src/transaction.rs:204-239 | the same as a condition on the slate, the inputs and the change given to the encoder |
| Witnesses.OddFeatureLost | crates/grin-ext/src/transaction.rs:204-239 | a finished slate whose output byte 2 is in the byte form and not in the JSON form |
| StableSort.SortBySorts | crates/grin-ext/src/transaction.rs:282-303 | `sort_by_key` orders by key, keeps the elements and the order of equal keys |
| StableSort.StableSortUnique | crates/grin-ext/src/transaction.rs:282-303 | those three promises determine the result |
| Keychains.OneBlindOpens | crates/grin-ext/src/bulletproof.rs:37-47 | a commitment to a value has one blind |
| Keychains.DeriveBlindExact | crates/grin-ext/src/keychain.rs:43-66 | the blind is the secret at the path, or with the switch the library's switched blind of amount and secret |
| PathSearch.DeriveInputBlind | crates/grin-ext/src/wallet_flows.rs:915-1001 | succeeds exactly when some candidate reproduces the commitment, with the first that does, whose blind opens it |
| PathSearch.CandidateCount | crates/grin-ext/src/wallet_flows.rs:929-962 | 4 or 8 candidates for a padded path, 2 or 4 otherwise |
| PathSearch.CandidateList | crates/grin-ext/src/wallet_flows.rs:929-962 | the candidates in order, with key, switch, path and name, for padded and full paths with and without an old key |
| PathSearch.FallbackFindsTheBlind | crates/grin-ext/src/wallet_flows.rs:915-1001 | the blind found is the one the output was made with, whichever candidate made it |
| PathSearch.IdentifyOutput | crates/grin-ext/src/wallet_flows.rs:1023-1042 | the least index up to the bound that matches, or none exactly when none does |
| Recovery.ReadPath | crates/grin-ext/src/recovery.rs:361-365 | the chunk loop reads four big-endian steps |
| Recovery.MessageLayout | crates/grin-ext/src/recovery.rs:223-250 | the proof message by position |
| Recovery.MintsExactly | crates/grin-ext/src/recovery.rs:260-282 | an output is minted exactly with the commitment, the nonce hashed from it and the seed, and a proof over the message of depth 4 |
| Recovery.AnyDepthFound | crates/grin-ext/src/recovery.rs:291-393 | a current message of any depth is followed along the steps that count, and the output returned exactly when they reproduce the commitment |
| Recovery.OtherMessagesIgnored | crates/grin-ext/src/recovery.rs:291-343 | no message of another form is read |
| Recovery.RecoverySound | crates/grin-ext/src/recovery.rs:291-432 | anything recovery returns re-derives the on-chain commitment along its own path, through either reading of the message |
| Recovery.RecoveryComplete | crates/grin-ext/src/recovery.rs:223-432 | an output minted with the blind its path derives is found again with its value, path, switch and blind |
| Recovery.LegacyRecoveryExact | crates/grin-ext/src/recovery.rs:291-432 | an output with the old message and nonce is found with its value and blind, unless its amount and the root key open the identity, which is the one case that stops the recovery |
| Witnesses.OldOutputLost | crates/grin-ext/src/recovery.rs:344-432 | an old output of amount 3 under root key 1 in a group of seven, where the recovery stops |
| Recovery.CheckExact | crates/grin-ext/src/recovery.rs:291-393 | a message this wallet wrote passes the check exactly when the minted blind is the derived one |
| Recovery.RecoveredIsSpendable | crates/grin-ext/src/wallet_flows.rs:915-1001 | a recovered output of depth 4, or 3 with a zero fourth step, is accepted by the path search with the same blind |
| Wallet.DeriveInputBlinds | crates/grin-ext/src/wallet_flows.rs:162-172 | the loop derives every input's blind and its label in order, or stops at the first that fails |
| Wallet.InputTagsAt | crates/grin-ext/src/wallet_flows.rs:162-172 | each label is the one of the derivation found for its input |
| Wallet.InputBlindsOpen | crates/grin-ext/src/wallet_flows.rs:162-172 | derived blinds open the inputs' commitments |
| Wallet.SpentAs | crates/grin-ext/src/wallet_flows.rs:472-479 | a spent coinbase goes in under feature 1, any other output under 0 |
| Wallet.WalletMints | crates/grin-ext/src/wallet_flows.rs:185-218 | an output is minted under the switched blind of its path, with the amount and path asked for |
| Wallet.MintedIsRecoverable | crates/grin-ext/src/wallet_flows.rs:185-218 | every change, voucher and claimed output is found again from the seed |
| Wallet.MintedIsIdentified | crates/grin-ext/src/wallet_flows.rs:1003-1042 | an output minted at an index the scan reaches is identified, no later than there, and the path found derives its blind when it is spent |
| Wallet.KernelSigned | crates/grin-ext/src/voucher.rs:271-276 | a kernel signed alone verifies against its excess, which is the signing key's point in commitment form, unless the response is zero |
| Wallet.SignsExactly | crates/grin-ext/src/voucher.rs:271-276 | a kernel can be signed alone exactly with a usable key and nonce; the excess is the key's point and the message the hash of the kernel's wire bytes |
| Vouchers.CreateGrinVoucher | crates/grin-ext/src/voucher.rs:183-312 | the steps build the modelled transaction, its bytes and its JSON form |
| Vouchers.CreateExact | crates/grin-ext/src/voucher.rs:183-312 | when a voucher can be made, and what its transaction says: inputs, voucher and change, kernel, offset and nonce |
| Vouchers.SweepGrinVoucher | crates/grin-ext/src/voucher.rs:320-400 | the steps build the modelled sweep, its bytes and its JSON form |
| Vouchers.SweepExact | crates/grin-ext/src/voucher.rs:320-400 | when a sweep can be made, and what its transaction says: the voucher under its own feature byte for input, one plain output of the rest, kernel, offset and nonce |
| Vouchers.SerializeVoucherTx | crates/grin-ext/src/voucher.rs:537-581 | the voucher's own encoder emits the same bytes as the slate encoder for the same transaction |
| Vouchers.VoucherJsonIsSlateJson | crates/grin-ext/src/voucher.rs:416-522 | the voucher's own JSON form, sorted before conversion, is the slate's |
| Vouchers.CreateBalancesExactly | crates/grin-ext/src/voucher.rs:183-312 | the transaction satisfies the network's equation exactly when inputs = voucher + change + fee, its signature verifies, and the blind handed out opens the voucher |
| FlowWitnesses.BigVoucherFails | crates/grin-ext/src/voucher.rs:183-312 | a voucher of three made from two coins: it is built and does not balance |
| Vouchers.SweepBalancesExactly | crates/grin-ext/src/voucher.rs:320-400 | a sweep balances exactly when the claimed amount and blind open the voucher's commitment |
| Vouchers.CreateThenSweepConserves | crates/grin-ext/src/voucher.rs:183-400 | creating and sweeping conserves value up to the change and the two fees, and the sweep spends the voucher output under its commitment and feature byte |
| SlateBuilder.ReceiverJoins | crates/grin-ext/src/slate_builder/standard.rs:185-297 | a receiver's answer sets up a two-party ceremony with the sender and carries its share of it |
| SlateBuilder.OpensExactly | crates/grin-ext/src/slate_builder/standard.rs:75-140 | when a sender can open a slate, and every field of the slate and of the kept context |
| SlateBuilder.ReceiverSignsExactly | crates/grin-ext/src/slate_builder/standard.rs:185-241 | when a receiver can sign: the state and participant checked, usable secrets, no cancelling totals, a share that is not zero |
| SlateBuilder.FinalizeExact | crates/grin-ext/src/slate_builder/standard.rs:325-427 | the sender's last step succeeds on an honest answer exactly when neither its share nor the whole response is zero |
| SlateBuilder.FinalizedIsSigned | crates/grin-ext/src/slate_builder/standard.rs:325-427 | whatever slate comes back, a step that succeeds has checked its state, id and receiver's half, and returns a signature that verifies under the sum of its excesses |
| SlateBuilder.ReceiverAnswers | crates/grin-ext/src/slate_builder/standard.rs:242-297 | the answer changes the state, adds one participant and one output minted for the slate's amount, and leaves every other field |
| SendFlow.CreateSendTransaction | crates/grin-ext/src/wallet_flows.rs:148-252 | the loops build the modelled first slate, the context, the change and the labels, with each error and the panic in order |
| SendFlow.CreateExact | crates/grin-ext/src/wallet_flows.rs:148-252 | when a send can start: inputs found and sufficient, no sum too large, a change that can be minted, secrets that do not cancel |
| SendFlow.WhyNoChange | crates/grin-ext/src/wallet_flows.rs:174-184 | which of the three stops over amounts comes, for any inputs |
| SendFlow.FirstSlate | crates/grin-ext/src/wallet_flows.rs:222-252 | the first slate entry by entry: references under 1 for a coinbase and 0 otherwise, then the change with its proof |
| SendFlow.AnswersExactly | crates/grin-ext/src/wallet_flows.rs:320-395 | when a receiver can answer a slate |
| SendFlow.SumAmounts | crates/grin-ext/src/wallet_flows.rs:174-174 | the plain u64 sum of the amounts, or a panic exactly when it overflows |
| SendFlow.AddInputs | crates/grin-ext/src/slate.rs:375-386 | the slate ends with exactly the input references, in order |
| Slates.EntriesAre | crates/grin-ext/src/slate.rs:375-412 | feature byte, commitment and proof of what is put on a slate |
| SendFlow.KeepOutputs | crates/grin-ext/src/wallet_flows.rs:493-503 | the filter keeps exactly the entries with a proof, in order |
| SendFlow.FinalizeSendSlate | crates/grin-ext/src/wallet_flows.rs:447-545 | the steps build the modelled transaction, its bytes and its JSON form |
| SendFlow.FinalizedFacts | crates/grin-ext/src/wallet_flows.rs:447-545 | whatever slate comes back, a transaction that is built spends the sender's inputs, makes exactly the proven outputs, each once, is signed, and has the excess that is reported |
| SendFlow.SendConserves | crates/grin-ext/src/wallet_flows.rs:148-545 | inputs = amount + fee + change; outputs are exactly the change and the receiver's; both wallets report the transaction's excess; the equation holds exactly when no coinbase kernel or no fee was asked for |
| FlowWitnesses.CoinbaseSendFails | crates/grin-ext/src/wallet_flows.rs:148-545 | a send with a coinbase kernel and a fee whose three steps succeed and whose transaction does not balance |
| SendFlow.AnswerNotCompared | crates/grin-ext/src/slate_builder/standard.rs:325-427 | the transaction has the context's offset, kernel, fee and change exactly when the slate that came back does |
| SendFlow.AnsweredConserves | crates/grin-ext/src/wallet_flows.rs:148-545 | when the receiver answers for another amount or kernel, the finished transaction balances exactly when the amount taken and the fee are together what the sender set aside; inputs, outputs, excess and signature as ever |
| FlowWitnesses.OtherAnswerFinishes | crates/grin-ext/src/wallet_flows.rs:320-545 | a send with fee 1 answered with fee 2 and any offset: all steps succeed and the kernel pays 2 at that offset |
| SendFlow.AnsweredCompletes | crates/grin-ext/src/wallet_flows.rs:320-545 | whatever slate with the sender's participant and id is answered, the last step fails only when a share or the response is zero |
| SendFlow.SendCompletes | crates/grin-ext/src/wallet_flows.rs:320-545 | an honest run fails at the last step only when a share or the response is zero |
| SendOverWire.SendTravels | crates/grin-ext/src/wallet_flows.rs:148-395 | the slates of a send can be written exactly when inputs and outputs number at most 65535, and what is written arrives over text exactly as it was sent |
| Allocator.MallocKeeps | crates/smirk-wasm/src/wasm_libc_shim.rs:45-75 | stops exactly on sizes without a layout; otherwise null, the sentinel, or a new block apart from all others, which keep their bytes |
| Allocator.FreeKeeps | crates/smirk-wasm/src/wasm_libc_shim.rs:79-92 | a held pointer is always given back with the layout it was allocated with; no other block changes |
| Allocator.CallocKeeps | crates/smirk-wasm/src/wasm_libc_shim.rs:96-105 | the block starts all zero; stops exactly where the product or the layout overflows |
| Allocator.ReallocKeeps | crates/smirk-wasm/src/wasm_libc_shim.rs:112-134 | the new block starts with the first min(old, new) bytes, the old one is gone, null leaves it in place |
| Allocator.TouchesOnly | crates/smirk-wasm/src/wasm_libc_shim.rs:79-134 | only `free` and `realloc` of its pointer, and a write that meets it, are about a block |
| Allocator.StepKeeps | crates/smirk-wasm/src/wasm_libc_shim.rs:45-134 | each call keeps the invariant and every block it is not about |
| Allocator.RunKeeps | crates/smirk-wasm/src/wasm_libc_shim.rs:45-134 | over any run: live blocks disjoint, headers right, no block's pointer equal to null or the sentinel, nothing undefined, untouched blocks with their bytes |
| Allocator.MallocExact | crates/smirk-wasm/src/wasm_libc_shim.rs:45-75 | the answer is null exactly when the allocator's is and otherwise 16 bytes behind its; the size in the header's four bytes and nothing else written |
| Allocator.CallocExact | crates/smirk-wasm/src/wasm_libc_shim.rs:96-105 | the answer follows the allocator's as for the product, and every byte of the block is 0 |
| Allocator.ReallocExact | crates/smirk-wasm/src/wasm_libc_shim.rs:112-134 | the answer in every case: freed, allocated anew or moved; a moved block has the old one's bytes one by one as far as both go |
| Allocator.FreeExact | crates/smirk-wasm/src/wasm_libc_shim.rs:79-92 | exactly the block behind the pointer is given back, and none for null and the sentinel |
| LibcShim.LinearMemory.Malloc | crates/smirk-wasm/src/wasm_libc_shim.rs:58-75 | the header write and the pointer arithmetic, on the array, are the modelled step |
| LibcShim.LinearMemory.Free | crates/smirk-wasm/src/wasm_libc_shim.rs:79-92 | the header read on the array is the modelled step |
| LibcShim.LinearMemory.Calloc | crates/smirk-wasm/src/wasm_libc_shim.rs:96-105 | the zero fill on the array is the modelled step |
| LibcShim.LinearMemory.Realloc | crates/smirk-wasm/src/wasm_libc_shim.rs:112-134 | allocate, copy, free on the array are the modelled step |
| DecoyRings.BuildDecoyRings | packages/core/src/decoy-ring.ts:43-79 | the nested loops with both sets compute the greedy partition |
| DecoyRings.RingsAreGood | packages/core/src/decoy-ring.ts:43-79 | on success every ring is full, distinct, from the pool, without its own spent output, and disjoint from the others |
| DecoyRings.FillTakesFirst | packages/core/src/decoy-ring.ts:52-75 | a ring takes the first rows it may, in pool order, and looks no further than it needs |
| DecoyRings.SuccessBounds | packages/core/src/decoy-ring.ts:43-79 | enough distinct indices outside the spent outputs suffice; fewer distinct indices than members never do |
| DecoyRings.SuccessExact | packages/core/src/decoy-ring.ts:43-79 | with no spent output in the pool the condition is exact |
| DecoyRings.BoundsAreNotExact | packages/core/src/decoy-ring.ts:43-79 | three pools showing that between the bounds the order decides |
| RingEncoding.EncodeRing | crates/smirk-wasm/src/signing.rs:438-463 | sort, search and differences; the one-byte place names the spent output exactly when the place is below 256 |
| RingEncoding.SortedRing | crates/smirk-wasm/src/signing.rs:441-447 | the ring is the output and its decoys, each as often as given, in the order of their indices |
| RingEncoding.NewDecoys | crates/monero-oxide/monero-oxide/ringct/clsag/src/decoys.rs:60-101 | the loop with wrapping sums accepts exactly at most 255 members, a signer among them and offsets that each move the sum on |
| RingEncoding.AcceptedExact | crates/monero-oxide/monero-oxide/ringct/clsag/src/decoys.rs:60-101 | the ring made for an output is accepted exactly with fewer than 255 decoys and no index twice |
| RingEncoding.MakeRing | crates/smirk-wasm/src/signing.rs:438-475 | encoding and acceptance together; an accepted ring's byte names the spent output |
| RingEncoding.FirstIsOwn | crates/smirk-wasm/src/signing.rs:441-457 | the first member with the spent index is the spent output even when decoys repeat the index |
| RingEncoding.OffsetsRestoreIndices | crates/smirk-wasm/src/signing.rs:459-463 | running sums of the offsets are the sorted indices, and none is negative |
| RingEncoding.RepresentableExact | crates/smirk-wasm/src/signing.rs:459-475 | all later offsets are positive exactly when no index repeats |
| RingEncoding.BuiltRingsAreRepresentable | packages/core/src/decoy-ring.ts:52-75 | rings built from a pool always give positive offsets |
| RingEncoding.BuiltRingsAreAccepted | packages/core/src/decoy-ring.ts:43-79 | a ring built from a pool is accepted exactly when it has fewer than 255 decoys |
| Varint.WriteVarint | crates/smirk-wasm/src/output.rs:55-66 | the shifting loop writes unsigned LEB128, section 7.6 of DWARF version 4 |
| Varint.EncodeDigits | crates/smirk-wasm/src/output.rs:55-66 | group i is the i-th digit in base 128, marked unless it is the last |
| Varint.ReadVarint | crates/smirk-wasm/src/signing.rs:653-672 | the loop never shifts by 64 and returns the first complete varint's number modulo 2^64, within ten bytes |
| Varint.ReadExact | crates/smirk-wasm/src/signing.rs:653-672 | accepted are exactly the varints complete within ten bytes, as their number modulo 2^64 |
| Varint.VarintRoundTrips | crates/smirk-wasm/src/signing.rs:653-672 | every u64 takes at most ten bytes and reads back with their count, whatever follows |
| Varint.PrefixFree | crates/smirk-wasm/src/output.rs:55-66 | no encoding begins another |
| Varint.AcceptedIsWrittenExactly | crates/smirk-wasm/src/signing.rs:653-672 | accepted bytes are the encoding of their number exactly when the last group is not padding and the number fits; encodings are the shortest |
| Varint.TakeGroupsExact | crates/monero-oxide/monero-oxide/io/src/varint.rs:59-84 | the signing library's reader accepts exactly what the writer writes, for numbers that fit its word |
| OneTimeKeys.PaidOutputIsControlled | crates/smirk-wasm/src/output.rs:31-128 | an output paid to the primary address or a subaddress is controlled by the spend key plus the derived offset |
| OneTimeKeys.SecretExact | crates/smirk-wasm/src/output.rs:31-70 | the shared point is the view key times eight times the transaction key, when both decode |
| OneTimeKeys.SharedExact | crates/smirk-wasm/src/output.rs:47-70 | the output's secret is the hash of that point's bytes and the index as a varint |
| OneTimeKeys.SubaddressExact | crates/smirk-wasm/src/output.rs:86-95 | the subaddress secret is the hash of 48 bytes: label, view key, major and minor index, little-endian |
| OneTimeKeys.OffsetExact | crates/smirk-wasm/src/output.rs:109-128 | the offset is the secret, plus the subaddress's unless the index is absent or (0, 0) |
| OneTimeKeys.AddressExact | crates/smirk-wasm/src/output.rs:97-108 | the address a sender pays: B and a·G, or D = B + m·G and a·D for a subaddress |
| OneTimeKeys.MaskExact | crates/smirk-wasm/src/output.rs:133-150 | the mask is the hash of its label and the secret |
| OneTimeKeys.CommitExact | crates/smirk-wasm/src/signing.rs:412-413 | a commitment is the mask on G plus the amount on H |
| OneTimeKeys.KeyImageExact | crates/smirk-wasm/src/signing.rs:969-1027 | a key image is the hash to a point of the one-time key, times spend key plus offset |
| OneTimeKeys.KeyImagesAgree | crates/smirk-wasm/src/signing.rs:969-1102 | the checked key image succeeds exactly when the other does and the output key is the wallet's, and they are equal |
| OneTimeKeys.OneImagePerOutput | crates/smirk-wasm/src/signing.rs:969-1027 | however derived, one output key yields one image |
| SigningRequests.CheckedIsOwned | crates/smirk-wasm/src/signing.rs:341-436 | what passes the checks is controlled by the wallet, and a reported commitment is the one its opening reproduces |
| SigningRequests.CheckExact | crates/smirk-wasm/src/signing.rs:341-436 | when an output passes, with which offset, mask and commitment; a coinbase commitment passes under mask 1 |
| SigningRequests.PaidOutputPasses | crates/smirk-wasm/src/signing.rs:341-436 | every honestly paid output passes, and is signed for under its own commitment |
| SigningRequests.SpendableRoundTrips | crates/monero-oxide/monero-oxide/ringct/clsag/src/decoys.rs:147-198 | what is serialized for the signing library is read back as it was |
| SigningRequests.DataLayout | crates/smirk-wasm/src/signing.rs:476-495 | the output's part by position |
| SigningRequests.MemberPlace | crates/monero-oxide/monero-oxide/ringct/clsag/src/decoys.rs:147-170 | the signer's byte and each member by position |
| SigningRequests.OffsetPlace | crates/monero-oxide/monero-oxide/ringct/clsag/src/decoys.rs:147-170 | the count and each offset by position |
| SigningRequests.ReadIsAcceptable | crates/monero-oxide/monero-oxide/ringct/clsag/src/decoys.rs:171-198 | what the reader gives out is a ring `Decoys::new` accepts |
| SigningRequests.BuildOutputWithDecoys | crates/smirk-wasm/src/signing.rs:341-495 | succeeds exactly when the output passes its checks, every decoy parses, there are fewer than 255 and no index repeats; the ring is then sorted and the signer's place holds the output's key and commitment |
| SigningRequests.BuiltRingIsBuildable | packages/core/src/decoy-ring.ts:43-79 | with a ring taken from a pool the request succeeds exactly when the output passes, the decoys parse and there are fewer than 255 |

## Left out

- The invoice ceremony (`create_invoice`, `sign_invoice`, `finalize_invoice`, `slate_builder/invoice.rs`): it
  mirrors the standard one.
- The branch of `receiver_round_s2` without an extended key: no wallet flow takes it.
- JSON serde of slates, hex text, human-readable error text and the diagnostics of a failed derivation: an error
  is kept as an outcome with a short name, so the two words a slate reader has for a length that does not fit
  (too long for a 32-bit `usize`, past the end) are one error here. In `derive_input_blind_with_fallback` the tried
  candidates are not listed in the error.
- Key names inside the JSON transaction: the form is a record of its fields.
- The allocation strategy of Rust vectors beyond the exact capacity of a transaction buffer.
- `check_output` on nodes, LWS requests, address parsing, fees and transaction signing proper: I/O or library
  calls.
- `crates/secp256k1zkp`, BIP32, Argon2, age encryption and the encrypted slatepack mode: libraries behind the
  uninterpreted functions.
- Blinding sums of scalars at or above the group order, which `k256` leaves unreduced.
- Payment proofs inside a slate are carried by the codec but not checked by any modelled flow.
- The quality of randomness, nonce reuse, zeroization and timing.
- `abort`, `fprintf`, `fputs` and `fflush` of the shim: constants.
- `derive_view_tag`, which nothing calls.
- DecoyRings.BuildDecoyRings: ring sizes are natural numbers; a fractional or negative size is not modelled.
