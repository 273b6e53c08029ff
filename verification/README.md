# Transaction codecs, digests and the swap protocol of the wallet firmware

The project models the parts of the firmware that decide what the device hashes, shows and signs, and
proves what a user of the device relies on:

- **Previous transactions** (`bytes`, `byte_stream`, `hash_context`, `prev_txn_*`). A Bitcoin input is
  only as trustworthy as the transaction it spends. `btc_validate_inputs` walks over that transaction
  while it arrives in chunks, feeds SHA-256 step by step and picks out one output value. The loops are
  proved equal to a walk over the byte string, the walk to BIP-144 parsing, and acceptance to "some
  prefix is a transaction with this id and this output value", for every host; one
  id then has one value.
- **Bitcoin signing** (`btc_script`, `btc_digest`, `btc_preimage`, `btc_signing`, `btc_authorized`). Scripts are classified, the segwit
  cache is filled once, P2SH input scripts are overwritten while signing. Every signature is over the
  BIP-143 or legacy digest of the fetched transaction, and every output is shown or is own change.
- **Typed data** (`typed_data`, `typed_data_display`, `twos_complement`). The mutual recursion of
  `encode_data` and `hash_struct` equals EIP-712; a digest commits to everything in the tree; the
  breadth-first display list holds every node once under its dotted path; a signed integer is shown with
  its own sign and magnitude.
- **Internet Computer** (`leb128`, `candid*`, `request_hash`, `crc32`, `base32`, `principal`). DIDL
  round trip and its converse, exactly which bytes are accepted and which lead outside,
  representation-independent hash, checksum and text of principals.
- **Swaps** (`exchange`, `exchange_runs`). The composable-app queue and the shared context as a state
  machine, with safety over every run of host commands.
- **EVM envelopes** (`rlp*`). Round trip of legacy (EIP-155), EIP-2930 and EIP-1559 payloads, and exactly
  which buffers are accepted and which lead outside.
- **Kryo framing** (`kryo`). The Constellation length code is self-delimiting.

Each file of C code that changes state is modelled by classes and methods that do the same steps; each
of those is proved against a specification function, and the theorems are about these functions.
`dafny verify dfyconfig.toml` checks everything.

The specification functions of the readers, parsers and steps follow the C code branch by branch, so a
method's agreement with one of them only says that moving offsets and filling records in place does what
the function does. What it means is in the theorems: round trips, what acceptance implies, and what every
run keeps. Since a definition that both sides of such a theorem share would escape it, each of them is also
stated on its own, in bytes, numbers and names: what a count, a script, a preimage, a task of the swap
queue, a field id, a header or a checksum is (`prev_txn_layout`, `btc_preimage`, `btc_authorized`,
`candid_fields`, `rlp_fields` and the lemmas called InFull, InBytes, OnBytes and Forms).

## Where the code and its promises differ

The model follows the code. The properties below fail as one would first state them; for each there is
a lemma with an input for which it fails or a statement of all of them, and the exact condition.

- **Marker at a chunk boundary.** The segwit marker is peeked at (apps/btc_family/btc_inputs_validator.c:197)
  without a refill. When a chunk ends right after the version field, the byte behind the chunk in memory
  decides. `VerdictIgnoresCutsExactly` says when the cuts matter, `VerdictIgnoresCuts` that no other cut
  does, and `CutAfterVersionRejects` shows a genuine transaction that is rejected.
- **Refused chunks are not sticky.** `decode_varint` returns 0 when its read fails and its callers do not
  look at the stream again, and the stream asks the host anew on the next read. A host that refuses a
  chunk inside a count and then continues can still be accepted: `NineBytesAreAccepted`, and
  `RefusalForgesValue` for a false value under a genuine transaction's id.
  `RefusalsAreFinalUnlessACountDries` and `DriesUpExactlyInACount` say that this is possible exactly when
  the bytes sent before the refusal end inside a count or length field of a transaction.
- **Outputs that do not exist.** An input may name an output its transaction does not have, if it declares
  the value 0 and only then (`MissingOutputCountsAsZero`, `ZeroValueNeedsNoOutput`).
- **Fee.** Sums wrap at 64 bits (`WrappedFee`); `FeeBalances` says when the fee makes up for the
  difference all the same.
- **P2WSH.** The predicate tests a length of 43, so a real 34-byte witness script hash is classified as
  a future segwit script (`WitnessScriptHashes`).
- **Swap steps without a swap.** Storing a signature ignores the result of `exchange_app_validate_caq`:
  it takes effect as a step of a swap and, just as well, when there is none (`StoreTakesEffect`,
  `StoreWithoutSwap`).
- **Old signatures.** Initiating a swap does not clear the shared context. When the receive step ends
  before it has an address, the signature of an earlier swap is fetched (`OldSignatureIsFetched`);
  `FetchedSignatureIsOfReceiveStep` says what is fetched in either case. The address is signed before it
  is shown, whatever the user answers.
- **Items that are cut off.** When fewer bytes are left than a header needs, `get_decode_length` decodes
  nothing: the item counts as a stub without payload, as long as the header before it and of that header's
  type. A bare 0xb7 or 0xf7 with fewer than 55 bytes behind it is read as one byte. An accepted buffer is
  a list header and complete items exactly when no item is cut off (`ItemsExactly`); `DecodesExactly`
  says what else is accepted, for every buffer. `LastItemCutOff`, `SecondItemCutOff`, `TypedItemCutOff`
  and `BareItem` are accepted buffers with cut-off items.
- **List headers.** The length that a list header announces is not compared with what follows it:
  `NineInAnEmptyList` is accepted. It is right exactly in the accepted buffers that are one list item, which
  are then the lists of fitting items (`ListsExactly`).
- **Refused copies.** `s_memcpy` refuses a copy past the end by setting the offset to -1. The parsers do
  not look at it, and in a typed envelope -1 is the type byte: such an envelope is accepted exactly when it
  is one whole list item (`TypedExactly`); `RefusedCopy` is one.
- **Lengths that come round.** The length of the payload is added to a 64-bit offset without a check, so a
  length near 2^64 leads back into the buffer (`LengthComesRound`). No length leaves the buffer exactly when
  none is greater than it (`NoLengthLeaves`).
- **DIDL argument index.** The range check compares an unsigned index with 0 and never fires; the code
  then reads outside the type table, exactly when the index is out of range
  (`UndefinedExactlyOutsideTheTable`, `SevenBytesAreUndefined`).
- **DIDL record types.** Fields may be missing or listed twice (`AmountsAloneAreAccepted`,
  `MixedRecipient`: an account that is in neither of two listings). What is accepted are
  exactly the messages, padded codes included (`AcceptedExactly`), and bytes are at most one message
  (`OneMessage`). `AcceptedRecord` says what the record is when no field is listed twice,
  `RecipientAndAmountExactly` when recipient and amount are the listed ones.
- **Bounds.** Neither decoder checks all of its reads and copies against its buffer and its arrays.
  `RlpBounds.UndefinedExactly` and `CandidBounds.UndefinedExactly` say for every input whether it leads
  outside.
- **Long messages.** The Kryo length is cut to 32 bits; a frame is readable if and only if its length fits
  (`FrameRoundTrip`).
- **EIP712Domain as primary type.** The branch that leaves the message out is only reached when the domain
  has no members (`TypedDataDigest`).

## Model

| member | source | states |
|---|---|---|
| ByteStreams.ByteStream.Process | common/libraries/util/byte_stream.c:46-111 | a read or skip of n bytes delivers the next n bytes of the concatenated chunks up to the next refusal, or fails; a later byte peeked at stays the same |
| ByteStreams.ByteStream.FetchMore | apps/btc_family/btc_txn.c:398-422 | asking for a chunk neither loses nor invents a byte, and a refusal opens the next segment |
| PrevTxnValidator.DecodeVarint | apps/btc_family/btc_inputs_validator.c:114-176 | value, bytes hashed and bytes left of a CompactSize count; a failed read counts as 0 and hashes nothing |
| PrevTxnValidator.SplitRead | apps/btc_family/btc_inputs_validator.c:225-241 | reading a script in slices equals reading it at once, hashed bytes and failures included |
| PrevTxnValidator.HashScript | apps/btc_family/btc_inputs_validator.c:225-241 | the 1024-byte slicing loop hashes exactly the script |
| PrevTxnValidator.HashInputs | apps/btc_family/btc_inputs_validator.c:205-251 | the input loop agrees with the walk on failure, hashed bytes and bytes left |
| PrevTxnValidator.HashOutputs | apps/btc_family/btc_inputs_validator.c:253-290 | the output loop does so too and remembers the value of the selected output |
| PrevTxnValidator.SkipWitnesses | apps/btc_family/btc_inputs_validator.c:292-313 | witness data is consumed and nothing of it is hashed |
| PrevTxnValidator.ValidateInputs | apps/btc_family/btc_inputs_validator.c:178-334 | the verdict is a function of what the stream can deliver and of the peeked byte |
| Bytes.LittleEndianDigits | common/libraries/util/utils.h:36-48 | the number of two, four and eight little-endian bytes |
| PrevTxnFormat.CountForms | apps/btc_family/btc_inputs_validator.c:114-176 | which bytes count which number: the four forms, byte by byte |
| PrevTxnFormat.ReadCountForms | apps/btc_family/btc_inputs_validator.c:114-176 | value, hashed bytes and rest of a count for whatever bytes are left, form by form |
| PrevTxnFormat.Compact | apps/btc_family/btc_inputs_validator.c:114-176 | every number below 2^32 has a CompactSize form that decodes to it |
| PrevTxnFormat.CompactForms | apps/btc_family/btc_inputs_validator.c:114-176 | its one, three or five bytes |
| PrevTxnFormat.SerializedTransactionIsRead | apps/btc_family/btc_inputs_validator.c:178-334 | every legacy or segwit transaction is consumed exactly, its non-witness serialization is hashed and the selected output value found, 0 if there is none |
| PrevTxnLayout.SerializationParts | apps/btc_family/btc_inputs_validator.c:189-320 | the parts of the sent and of the hashed serialization, in order |
| PrevTxnLayout.WellFormedParts | apps/btc_family/btc_inputs_validator.c:189-320 | the sizes and counts that make a transaction well-formed |
| PrevTxnLayout.InputsLaidOut | apps/btc_family/btc_inputs_validator.c:205-251 | one more input adds its outpoint, script length, script and sequence number |
| PrevTxnLayout.OutputsLaidOut | apps/btc_family/btc_inputs_validator.c:253-290 | one more output adds its value, script length and script |
| PrevTxnLayout.LegacyVerdict | apps/btc_family/btc_inputs_validator.c:178-334 | the verdict on every legacy transaction of one input and one output, byte by byte |
| PrevTxnLayout.SegwitVerdict | apps/btc_family/btc_inputs_validator.c:178-334 | the same in the segwit form: marker, flag and witness are not hashed |
| PrevTxnTheorems.ReadBytesAreATransaction | apps/btc_family/btc_inputs_validator.c:178-334 | conversely, a walk that reaches the end has read exactly one valid transaction |
| PrevTxnTheorems.ReadBytesAreABody | apps/btc_family/btc_inputs_validator.c:178-334 | whatever byte was peeked at, a walk that reaches the end of one segment has read exactly one well-formed transaction body |
| PrevTxnTheorems.PrefixIsRead | apps/btc_family/btc_inputs_validator.c:178-334 | a transaction at the start of the data fixes hash and value whatever follows |
| PrevTxnTheorems.AcceptsExactlyBackedInputs | apps/btc_family/btc_inputs_validator.c:314-334 | success if and only if the data starts with a transaction that has the declared id and carries the declared value |
| PrevTxnTheorems.MissingOutputCountsAsZero | apps/btc_family/btc_inputs_validator.c:183-334 | an output index out of range is accepted with the declared value 0 and with no other |
| PrevTxnHosts.ChunksJoin | apps/btc_family/btc_txn.c:398-422 | chunks deliver their concatenation |
| PrevTxnHosts.OneMoreReply | apps/btc_family/btc_txn.c:398-422 | one more chunk is appended, a refusal begins a new segment |
| PrevTxnHosts.PeekJoined | apps/btc_family/btc_inputs_validator.c:197 | the peek sees the right byte unless a chunk ends there |
| PrevTxnHosts.VerdictIgnoresCuts | apps/btc_family/btc_inputs_validator.c:189-320 | the verdict depends on the concatenation of the chunks only, when none ends right after the version; an empty chunk ends the stream |
| PrevTxnHosts.VerdictIgnoresCutsExactly | apps/btc_family/btc_inputs_validator.c:189-320 | it does so for all hash functions and inputs if and only if the peeked byte is right about the marker or both ways of reading end alike |
| PrevTxnHosts.CutAfterVersionRejects | apps/btc_family/btc_inputs_validator.c:197-203 | a chunking under which an acceptable transaction is rejected |
| PrevTxnRefusals.RunLocks | apps/btc_family/btc_inputs_validator.c:189-320 | up to the first count that cannot be read, what the host sends after a refusal is without influence |
| PrevTxnRefusals.RefusalEndsASegment | apps/btc_family/btc_txn.c:398-422 | the bytes before the first refusal and those after it are never joined by one read |
| PrevTxnRefusals.RefusalsAreFinalUnlessACountDries | apps/btc_family/btc_inputs_validator.c:114-176 | no host can turn a failure on the bytes before its first refusal into an acceptance, exactly when they do not dry up |
| PrevTxnRefusals.NineBytesAreAccepted | apps/btc_family/btc_inputs_validator.c:114-176 | nine bytes with a refusal in a count that are accepted |
| PrevTxnDry.DriesUpExactlyInACount | apps/btc_family/btc_inputs_validator.c:114-313 | bytes dry up if and only if they are the complete fields of a transaction up to a count or length field, and a part of that field or nothing of it |
| PrevTxnAnyHost.AcceptsExactlyBackedReadings | apps/btc_family/btc_inputs_validator.c:178-334 | for any chunks, refusals and peeked byte: unless a count dries, success if and only if the bytes before the first refusal start with a body of the declared id and value |
| PrevTxnAnyHost.OneIdOneValue | apps/btc_family/btc_inputs_validator.c:178-334 | two accepted inputs that name the same output of the same id carry the same value, or the hosts' bytes contain a collision of the double hash |
| PrevTxnAnyHost.RefusalForgesValue | apps/btc_family/btc_inputs_validator.c:114-176 | for genuine one-input transactions of a simple form, one refusal at the input count makes a false value accepted for their own id |
| BtcScript.SpendableTypes | apps/btc_family/btc_script.c:121-167 | P2PKH, P2SH and P2WPKH are recognised exactly as the scripts built from a 20-byte hash, whatever the other tests say |
| BtcScript.TypesOnBytes | apps/btc_family/btc_script.c:121-167 | every type as a condition on length and bytes |
| BtcScript.ScriptsOnBytes | apps/btc_family/btc_script.h:211-213 | the bytes of the three scripts that are built from a hash |
| BtcScript.WitnessScriptHashes | apps/btc_family/btc_script.h:211-213 | exactly the programs of 41 bytes are classified as P2WSH, the ones of 32 bytes never are |
| BtcScript.CheckScriptAddress | apps/btc_family/btc_script.c:233-262 | true exactly for the three scripts that pay to the given key |
| BtcDigest.CacheIgnoresScripts | apps/btc_family/btc_txn_helpers.c:364-399 | input scripts do not enter the cache |
| BtcDigest.TxnContext.DigestOutputs | apps/btc_family/btc_txn_helpers.c:202-219 | the hash absorbs exactly the serialized outputs |
| BtcDigest.TxnContext.InitCache | apps/btc_family/btc_txn_helpers.c:364-399 | three loops fill the cache with the three BIP-143 hashes |
| BtcDigest.TxnContext.P2pkhDigest | apps/btc_family/btc_txn_helpers.c:221-273 | the legacy SIGHASH_ALL digest: all other scripts blank |
| BtcDigest.TxnContext.P2wpkhDigest | apps/btc_family/btc_txn_helpers.c:275-328 | fails exactly on an empty cache; with a correct one it is the BIP-143 digest |
| BtcDigest.TxnContext.DigestInput | apps/btc_family/btc_txn_helpers.c:401-419 | the script type of the input selects legacy or BIP-143 |
| BtcPreimages.OutpointAt | apps/btc_family/btc_txn_helpers.c:364-399 | the 36 bytes that stand for an input in the hashed list of outpoints |
| BtcPreimages.SequenceAt | apps/btc_family/btc_txn_helpers.c:364-399 | the four that stand for it in the list of sequence numbers |
| BtcPreimages.CacheHolds | apps/btc_family/btc_txn_helpers.c:364-399 | the cache holds these lists and the outputs in wire format, hashed twice |
| BtcPreimages.SegwitPreimage | apps/btc_family/btc_txn_helpers.c:275-328 | the 182 bytes of BIP-143 that a P2WPKH digest hashes twice, place by place |
| BtcPreimages.LegacyPreimage | apps/btc_family/btc_txn_helpers.c:221-273 | what a P2PKH digest hashes twice: a transaction in wire format, all scripts empty but its own, and the hash type |
| BtcPreimages.OtherTypesHaveNone | apps/btc_family/btc_txn_helpers.c:401-419 | exactly the other script types have no digest |
| BtcSigning.FetchInputs | apps/btc_family/btc_txn.c:424-515 | succeeds exactly when every input is spendable and backed by its previous transaction |
| BtcSigning.FetchOutputs | apps/btc_family/btc_txn.c:517-566 | succeeds exactly when all outputs are of showable kinds, at most one is change and not all are worth 0 |
| BtcSigning.GetTxnFee | apps/btc_family/btc_txn_helpers.c:338-362 | the fee in uint64 arithmetic, refused when outputs exceed inputs |
| BtcSigning.FeeBalances | apps/btc_family/btc_txn_helpers.c:338-362 | a fee that makes up for the difference is found exactly when outputs do not exceed inputs and both totals have wrapped equally often; below 64 bits overspending is the only failure |
| BtcSigning.WrappedFee | apps/btc_family/btc_txn_helpers.c:338-362 | a transaction whose sums wrap: a fee of 2 is shown while 2^64 more are spent |
| BtcSigning.PagesShow | apps/btc_family/btc_txn.c:568-594 | the pages contain address and value of every output that is not declared as change |
| BtcSigning.CheckReceiver | apps/exchange_app/exchange_main.c:236-263 | one failed check fails the whole list of receivers, a passed one extends the list that passes |
| BtcSigning.ShowOutputs | apps/btc_family/btc_txn.c:568-606 | the loop ends with all output pages accepted in order and all receivers checked, or agreement or a check is missing |
| BtcSigning.GetUserVerification | apps/btc_family/btc_txn.c:568-628 | true if and only if every address exists, the fee is valid, the user accepts every page in turn and, in a swap, every receiver passes its check |
| BtcSigning.ValidateChangeAddress | apps/btc_family/btc_txn.c:630-653 | true exactly when the declared change pays to the wallet's own change key |
| BtcSigning.UnwrappedIsSignable | apps/btc_family/btc_txn.c:684-701 | an accepted input never reaches the branch where no digest can be made |
| BtcSigning.OtherScriptsDoNotMatter | apps/btc_family/btc_txn_helpers.c:221-419 | digest and cache do not depend on the scripts of other inputs |
| BtcSigning.KeepsCacheAndDigest | apps/btc_family/btc_txn.c:682-703 | at every turn of the loop the cache still equals a fresh one and the digest is that of the original transaction with one script replaced |
| BtcSigning.SignInputs | apps/btc_family/btc_txn.c:655-720 | signatures over those digests come out exactly when seed and change are in order |
| BtcAuthorized.SignatureInFull | apps/btc_family/btc_txn.c:655-720 | a signature is made with the key of the path (change index, address index) of its own input, over the digest with a P2SH script replaced by that key's P2WPKH script |
| BtcAuthorized.SignedSegwitBytes | apps/btc_family/btc_txn.c:682-703 | the 182 bytes that are signed for an input paying to a witness key hash, plain or nested |
| BtcAuthorized.SignedLegacyBytes | apps/btc_family/btc_txn.c:682-703 | the transaction and hash type that are signed for an input paying to a key hash |
| BtcSigning.AgreementAccountsForAll | apps/btc_family/btc_txn.c:568-653 | after agreement every output is confirmed or is the single own change, and the fee is confirmed |
| BtcSigning.SignTransaction | apps/btc_family/btc_txn.c:742-764 | signatures are made if and only if initiation, swap queue, host data, user, receivers, seed and change are all in order, and then everything signed is accounted for; on the device it is one send command of the swap protocol; they are handed out one for each proper request |
| BtcAuthorized.OutputIsAccountedFor | apps/btc_family/btc_txn.c:568-653 | once signatures exist: for every output the address and the value were accepted, or its script pays the wallet's change key in one of three ways |
| BtcAuthorized.SwapPaysTheCheckedAddress | apps/btc_family/btc_txn.c:568-606 | signatures in a swap: the signature stored in this swap is the server's over the address of the first output that is not change |
| BtcAuthorized.ReceiversInFull | apps/btc_family/btc_txn.c:568-606 | all receivers pass exactly if the first address passes against the stored signature and every later one against 64 zeros |
| BtcAuthorized.SigningNeeds | apps/btc_family/btc_txn.c:742-764 | no signature without proper initiation, seed, the send's turn in a swap, validated inputs of the three spendable kinds, and a yes to every page |
| BtcAuthorized.SentInFull | apps/btc_family/btc_txn.c:722-740 | how many signatures are handed out: one for each proper request up to the first improper one |
| BtcAuthorized.MetaLimits | apps/btc_family/btc_txn.c:361-381 | how many inputs and outputs are accepted, and that only SIGHASH_ALL is |
| BtcAuthorized.OutputKinds | apps/btc_family/btc_txn.c:517-566 | which outputs are accepted, and which have an address |
| BtcSigning.SpentValuesAreReal | apps/btc_family/btc_txn.c:424-515 | for any host, unless a count dries: a signed input names a transaction body the host has sent, and a value other than 0 is that of the output it names |
| BtcSigning.ZeroValueNeedsNoOutput | apps/btc_family/btc_inputs_validator.c:183-334 | an accepted input of value 0 that names an output its transaction does not have |
| TypedData.EncodeMembers | apps/evm_family/eip712_utils.c:131-260 | the loop over children writes 32 bytes each and equals encodeData |
| TypedData.EncodeData | apps/evm_family/eip712_utils.c:131-260 | writes the member's encoding in place, nothing else, and fails exactly when a part cannot be encoded or does not fit |
| TypedData.LeafInFull | apps/evm_family/eip712_utils.c:131-260 | strings and `bytes` are hashed, all other leaves are what the ABI encoder gives or a failure |
| TypedData.CompositeInFull | apps/evm_family/eip712_utils.c:131-276 | arrays and structs hash their members' 32 bytes one behind the other, structs behind their type hash; exactly empty structs and refused leaves fail |
| TypedData.HashStruct | apps/evm_family/eip712_utils.c:262-276 | equals hashStruct and fails exactly on a non-struct or on a struct that cannot be encoded |
| TypedData.TypedDataDigest | apps/evm_family/evm_typed_data_helper.c:169-221 | the digest of EIP-712 for a domain and a message with members, and what comes out in the other cases |
| TypedData.EncodingCommits | apps/evm_family/eip712_utils.c:131-276 | equal encodings of two trees of one type mean equal contents, or Keccak collides |
| TypedData.MembersCommit | apps/evm_family/eip712_utils.c:131-260 | the same member by member |
| TypedData.DigestCommits | apps/evm_family/evm_typed_data_helper.c:169-221 | one digest stands for one domain and one message |
| TypedDataDisplay.Queue.Enqueue | apps/evm_family/eip712_utils.c:26-37 | the linked queue gains its new last element |
| TypedDataDisplay.Queue.Dequeue | apps/evm_family/eip712_utils.c:39-48 | the linked queue gives up its first element, or null when empty |
| TypedDataDisplay.CreateDisplayNodes | apps/evm_family/evm_typed_data_helper.c:110-148 | the loop ends and appends the breadth-first list of the tree |
| TypedDataDisplay.InitDisplay | apps/evm_family/evm_typed_data_helper.c:150-167 | header, domain tree in level order, header, message tree in level order |
| TypedDataDisplay.BreadthIsLevelOrder | apps/evm_family/evm_typed_data_helper.c:110-148 | processing the queue is going through the levels, each from left to right |
| TypedDataDisplay.EveryNodeOnce | apps/evm_family/evm_typed_data_helper.c:110-148 | the list is a permutation of the depth-first list: every node once |
| TypedDataDisplay.EveryPathIsShown | apps/evm_family/evm_typed_data_helper.c:110-148 | every node is shown under its dotted ancestor path |
| TypedDataDisplay.ChildPath | apps/evm_family/evm_typed_data_helper.c:110-148 | a child's title is its parent's, a dot and its name |
| TypedDataDisplay.RootAndChildren | apps/evm_family/evm_typed_data_helper.c:110-148 | the first lines: the root, its children from left to right, the first grandchild |
| TwosComplement.IncrementValue | apps/evm_family/eip712_utils.c:57-65 | the carry loop adds one to the number |
| TwosComplement.AddOne | apps/evm_family/eip712_utils.c:57-65 | the descending loop breaks before its unsigned index passes 0 |
| TwosComplement.TwosComplementOfByteArray | apps/evm_family/eip712_utils.c:50-66 | in place, the number becomes 256^size minus itself |
| TwosComplement.ShownInt | apps/evm_family/eip712_utils.c:88-108 | the shown sign and magnitude are those of the signed integer |
| TwosComplement.SignedRangeOfBytes | apps/evm_family/eip712_utils.c:88-108 | the signed integer of n bytes is the one from -2^(8n-1) to 2^(8n-1)-1 that differs from the unsigned one by 256^n or nothing |
| Leb128.LebDecode | apps/icp_app/icp_txn_helpers.c:298-311 | value and end of the code at the offset |
| Leb128.SlebDecode | apps/icp_app/icp_txn_helpers.c:313-334 | the same with sign extension |
| Leb128.HashLeb128 | apps/icp_app/icp_txn_helpers.c:114-125 | hashes the LEB128 code, which fits the ten-byte buffer |
| Leb128.LebRoundTrip | apps/icp_app/icp_txn_helpers.c:298-311 | every uint64 is read back from its code of at most ten bytes, whatever surrounds it |
| Leb128.SlebRoundTrip | apps/icp_app/icp_txn_helpers.c:313-334 | every int64 is read back from its code |
| Leb128.LebSplits | apps/icp_app/icp_txn_helpers.c:114-125 | seven bits a byte, lowest first, continued while there are more |
| Leb128.TenContinuations | apps/icp_app/icp_txn_helpers.c:298-334 | ten continuation bytes are no number: the shift reaches 64 |
| CandidParser.ReadTable | apps/icp_app/icp_txn_helpers.c:351-393 | the loop over the type table, records and wrapper types |
| CandidParser.ParseTransferTxn | apps/icp_app/icp_txn_helpers.c:339-465 | outcome and filled record are those of the parser specification |
| CandidFields.FieldIds | apps/icp_app/icp_context.h:95-102 | the numbers that select the readers are the DIDL hashes of the six field names |
| CandidFields.CoinNumbers | apps/icp_app/icp_txn_helpers.c:180-235 | a value under the hash of "amount", "fee" or "memo" ends up in that field of a coin transfer |
| CandidFields.CoinAccount | apps/icp_app/icp_txn_helpers.c:153-178 | one under the hash of "to" in its account |
| CandidFields.TokenNumbers | apps/icp_app/icp_txn_helpers.c:180-213 | the same for amount and fee of a token transfer |
| CandidFields.TokenAccount | apps/icp_app/icp_txn_helpers.c:153-178 | and for owner and subaccount |
| CandidFields.OptionalFields | apps/icp_app/icp_txn_helpers.c:215-294 | and for from_subaccount, created_at_time and the token memo, present or not |
| CandidFields.CoinTransferMessage | apps/icp_app/icp_txn_helpers.c:339-465 | every coin transfer of six fields, byte by byte from the magic number on, is parsed into its record |
| CandidFields.OtherShapesAreRejected | apps/icp_app/icp_txn_helpers.c:395-410 | an argument that is no record, or one of other than four to six fields, is rejected |
| CandidMessages.TableReads | apps/icp_app/icp_txn_helpers.c:351-393 | every code of a type table, shortest or padded, is read as that table |
| CandidMessages.ValuesRead | apps/icp_app/icp_txn_helpers.c:411-450 | the codes of values, in any order and listed once or more often, are taken into the record one after the other |
| CandidMessages.MessageReads | apps/icp_app/icp_txn_helpers.c:339-465 | the bytes of a message, whatever follows them, are parsed into what its values give and used up exactly |
| CandidMessages.MessageGives | apps/icp_app/icp_txn_helpers.c:339-465 | conversely, whatever is accepted are the bytes of a message: table, type index and one value's code for each field |
| CandidTheorems.TransferRoundTrip | apps/icp_app/icp_txn_helpers.c:339-465 | parsing the DIDL encoding of a transfer returns it and consumes exactly its bytes |
| CandidTheorems.ListedRoundTrip | apps/icp_app/icp_txn_helpers.c:339-465 | any encoded message is parsed into what its listed values give, and used up exactly |
| CandidTheorems.UndefinedExactlyOutsideTheTable | apps/icp_app/icp_txn_helpers.c:395-402 | a message with readable values, in any codes, leads to a read outside the type table if and only if its type index is out of range |
| CandidTheorems.SevenBytesAreUndefined | apps/icp_app/icp_txn_helpers.c:395-402 | the shortest such message |
| CandidCodes.ValueReads | apps/icp_app/icp_txn_helpers.c:153-294 | every code of a value under a field's hash is read where it stands, and the value is written over the record |
| CandidCodes.ValueGives | apps/icp_app/icp_txn_helpers.c:153-294 | conversely, an accepting reader has read a code of a value, and the record is what that value makes of it |
| CandidCodes.OneMeaning | apps/icp_app/icp_txn_helpers.c:153-294 | bytes are the code of at most one value under a hash |
| CandidCodes.WrittenIsCode | apps/icp_app/icp_txn_helpers.c:153-294 | what the encoder writes for a value is a code of it |
| CandidAcceptance.AcceptedExactly | apps/icp_app/icp_txn_helpers.c:339-465 | accepted if and only if the bytes up to the given size are a message with values that fit the record |
| CandidAcceptance.OneMessage | apps/icp_app/icp_txn_helpers.c:339-465 | bytes are at most one message: type table, type index and every listed value are determined by them |
| CandidAcceptance.AcceptedMessage | apps/icp_app/icp_txn_helpers.c:339-465 | the record of an accepted message is what the values whose codes stand in its bytes give, one after the other |
| CandidAcceptance.AcceptedRecord | apps/icp_app/icp_txn_helpers.c:339-465 | with no field listed twice the bytes are a message of one value, and the record is that value, filled with the listed fields and zero elsewhere: the converse of the round trip |
| CandidAcceptance.RecipientAndAmountExactly | apps/icp_app/icp_txn_helpers.c:153-195 | for the values in an accepted message: the amount is the last one listed exactly if one is listed; the recipient is the last one listed exactly if one is and nothing of earlier listings or of the starting record shows behind it |
| CandidAcceptance.MixedRecipient | apps/icp_app/icp_txn_helpers.c:404-450 | a recipient listed twice: the accepted account is a mixture of both listings; the condition above fails for it unless the first goes on with zeros |
| CandidAcceptance.AmountsAloneAreAccepted | apps/icp_app/icp_txn_helpers.c:404-450 | a record type that lists the amount four times and no recipient is accepted |
| CandidBounds.UndefinedExactly | apps/icp_app/icp_txn_helpers.c:339-465 | the parser leaves the message, an array or the type table if and only if a code, count, byte or value is not all there where it is wanted, a value is longer than its array, or the index is out of range, all before it as it should be |
| RequestHash.SortIsCanonical | apps/icp_app/icp_txn_helpers.c:130-134 | with distinct keys there is one sorted order, so it does not matter how qsort works |
| RequestHash.JoinedIsInjective | apps/icp_app/icp_txn_helpers.c:513-526 | the concatenated bytes determine the pairs |
| RequestHash.BytesDependOnThePairsOnly | apps/icp_app/icp_txn_helpers.c:469-587 | the hashed bytes are equal if and only if the sets of pairs are |
| RequestHash.OrderDoesNotMatter | apps/icp_app/icp_txn_helpers.c:469-587 | the request id does not depend on the order the fields are filled in |
| RequestHash.HashPairs | apps/icp_app/icp_txn_helpers.c:513-526 | whatever qsort does as long as it sorts: the hash of its result, joined; with distinct keys the request id |
| RequestHash.NamesTellPairsApart | apps/icp_app/icp_txn_helpers.c:469-575 | keys are distinct exactly when the hashes of the field names are |
| RequestHash.HashTransferRequest | apps/icp_app/icp_txn_helpers.c:469-528 | the request id of the fields of a call request, when their seven name hashes differ |
| RequestHash.TransferIdInFull | apps/icp_app/icp_txn_helpers.c:469-528 | the id hashes 448 bytes: the seven hashed names, each followed by its own hashed value, in ascending order |
| RequestHash.FirstDifferenceDecides | apps/icp_app/icp_txn_helpers.c:130-134 | the order is that of the first byte that differs |
| RequestHash.HashAllPaths | apps/icp_app/icp_txn_helpers.c:530-575 | nested lists hash like their joined element hashes |
| RequestHash.HashReadStateRequest | apps/icp_app/icp_txn_helpers.c:530-589 | the request id of the fields of a read-state request, when their four name hashes differ |
| RequestHash.ReadStateIdInFull | apps/icp_app/icp_txn_helpers.c:530-589 | the same for the four fields of a read-state request |
| RequestHash.PathsInFull | apps/icp_app/icp_txn_helpers.c:530-575 | the hash of every path stands in its place |
| RequestHash.SegmentsInFull | apps/icp_app/icp_txn_helpers.c:530-575 | and that of every segment in its path's |
| Exchange.Device.ValidateCaq | apps/exchange_app/exchange_main.c:193-234 | pops a matching task, leaves an empty queue alone, resets the device otherwise |
| Exchange.Device.InitiateFlow | apps/exchange_app/exchange_initiate_flow.c:132-196 | the queue becomes receive, fetch, store, send and nothing else |
| Exchange.Device.DoGetSignature | apps/exchange_app/exchange_get_signature.c:136-153 | the answer is the front of the shared context unless the device resets |
| Exchange.Device.DoStoreSignature | apps/exchange_app/exchange_store_signature.c:138-156 | the shared context holds the given signature and zeros |
| Exchange.Device.DoCloseFlow | apps/exchange_app/exchange_close_flow.c:130-147 | queue and shared context are empty |
| Exchange.Device.SignAddress | apps/exchange_app/exchange_main.c:265-281 | the shared context holds the device's signature of the address |
| Exchange.Device.ValidateStoredSignature | apps/exchange_app/exchange_main.c:236-263 | true exactly if the first 64 stored bytes are the server's signature over the hashed receiver; nothing of them is left |
| Exchange.Device.DoSend | apps/btc_family/btc_txn.c:302-323 | a send in a swap checks its receivers, only the first of them against the stored signature |
| Exchange.SendVerifies | apps/exchange_app/exchange_main.c:236-263 | a send whose turn it is passes exactly if the stored signature is over its first receiver and 64 zeros are one over every other |
| Exchange.PlanInBytes | apps/exchange_app/exchange_initiate_flow.c:144-192 | applet and 128 bytes of each of the four tasks |
| Exchange.TasksInBytes | apps/exchange_app/exchange_get_signature.c:117-134 | applet and 128 bytes that each command is validated with |
| Exchange.ValidationSteps | apps/exchange_app/exchange_main.c:193-234 | what a matching, a missing and another task do to queue and shared context |
| Exchange.StepsInBytes | apps/exchange_app/exchange_main.c:265-281 | what every command leaves in the queue and in the 256 shared bytes |
| ExchangeRuns.EveryRunIsSound | apps/exchange_app/exchange_main.c:193-234 | in every run the queue is the rest of the last plan, with its earlier steps taken in order and nothing else having had an effect |
| ExchangeRuns.CheckedSendEndsASwap | apps/btc_family/btc_txn.c:302-323 | a checked send comes after receive, fetch and store of its own swap, and answers true exactly if the signature stored there is the server's over its first receiver and a cleared one is over every other |
| ExchangeRuns.FetchedSignatureIsOfReceiveStep | apps/exchange_app/exchange_get_signature.c:136-153 | what is fetched in a swap is the device's signature of the address its own receive step had, or, if it had none, what was there before the swap |
| ExchangeRuns.OldSignatureIsFetched | apps/exchange_app/exchange_initiate_flow.c:132-196 | a run in which the signature of an earlier swap is fetched |
| ExchangeRuns.StoreTakesEffect | apps/exchange_app/exchange_store_signature.c:138-156 | storing takes effect if and only if it is the next step of a swap or there is none; otherwise the device resets |
| ExchangeRuns.StoreWithoutSwap | apps/exchange_app/exchange_store_signature.c:138-156 | a store as the very first command puts its signature into the shared context |
| ExchangeRuns.OutOfOrderResets | apps/exchange_app/exchange_main.c:193-234 | in every run, during a swap the one command with a task that does not reset the device is the next step of the initiated plan |
| ExchangeRuns.EachSignatureIsUsedOnce | apps/exchange_app/exchange_main.c:236-263 | every check against a signature has its own write of that signature, after all earlier checks and with no other write in between |
| ExchangeRuns.LatestWrite | apps/exchange_app/exchange_main.c:236-281 | a signature in the shared context was put there by one command and neither used nor overwritten since |
| RlpDecoder.Parser.ParseLegacy | apps/evm_family/evm_txn_helpers.c:129-227 | the nine items of an EIP-155 payload |
| RlpDecoder.Parser.ParseEip2930 | apps/evm_family/eip1159.c:100-193 | the eight items of an EIP-2930 payload |
| RlpDecoder.Parser.ParseEip1559 | apps/evm_family/eip1159.c:195-298 | the nine items of an EIP-1559 payload |
| RlpDecoder.DecodeUnsignedTxn | apps/evm_family/evm_txn_helpers.c:229-303 | outcome and fields are those of the decoder specification |
| RlpTheorems.HeaderReads | apps/evm_family/evm_helpers.c:205-251 | every RLP header is read back |
| RlpTheorems.DenotesValue | apps/evm_family/evm_txn_helpers.c:129-227 | stored size and bytes are the same big-endian number, zero included |
| RlpTheorems.EnvelopeReads | apps/evm_family/eip1159.c:100-298 | an encoded envelope is accepted whole and every field is recovered |
| RlpTheorems.TransactionRoundTrip | apps/evm_family/evm_txn_helpers.c:229-303 | decoding the encoding of any of the three kinds selects its envelope and recovers every field |
| RlpFields.FieldsComeBack | apps/evm_family/evm_txn_helpers.c:129-303 | nonce, gas prices, gas limit, receiver, value, data and chain id each come back under their own name |
| RlpFields.NoPriorityFee | apps/evm_family/evm_txn_helpers.c:229-303 | outside EIP-1559 the priority fee stays empty |
| RlpFields.LegacyItems | apps/evm_family/evm_txn_helpers.c:129-227 | the order of the nine items |
| RlpFields.AccessListItems | apps/evm_family/eip1159.c:100-193 | type byte and order of the eight items |
| RlpFields.DynamicFeeItems | apps/evm_family/eip1159.c:195-298 | type byte and order of the nine items |
| RlpFields.ItemForms | apps/evm_family/evm_helpers.c:205-251 | strings and lists below 2^16 bytes, header byte by byte |
| RlpItems.EncodedItem | apps/evm_family/evm_helpers.c:205-251 | what the encoder writes are items by the ranges of RLP |
| RlpItems.HeaderOnBytes | apps/evm_family/evm_helpers.c:205-251 | what is read at a place is the announcement there, or a stub where too few bytes are left |
| RlpLayout.LayoutIsRead | apps/evm_family/evm_txn_helpers.c:129-227 | a division of the bytes into pieces is read to its end and its payloads are stored |
| RlpLayout.ReadIsLayout | apps/evm_family/evm_txn_helpers.c:129-227 | what is read to its end is a division into pieces, or a field has run over in a typed envelope |
| RlpAcceptance.LegacyExactly | apps/evm_family/evm_txn_helpers.c:129-227 | a legacy buffer is accepted if and only if its bytes divide into one piece for each slot, cut-off items anywhere included |
| RlpAcceptance.TypedExactly | apps/evm_family/eip1159.c:100-298 | a typed buffer is accepted if and only if it divides so, or a field runs over and the buffer is one whole list item |
| RlpAcceptance.DecodesExactly | apps/evm_family/evm_txn_helpers.c:275-303 | all of what is accepted, by the first byte, as conditions on the bytes |
| RlpAcceptance.DivisionIsStored | apps/evm_family/evm_txn_helpers.c:129-227 | the fields hold the payloads of the pieces |
| RlpComplete.ItemsExactly | apps/evm_family/evm_txn_helpers.c:129-227 | an accepted buffer is a list header and fitting items if and only if no item is cut off, and every such buffer is accepted; what length the list header announces does not matter |
| RlpComplete.ListsExactly | apps/evm_family/evm_txn_helpers.c:129-227 | accepted, nothing cut off and one list item by its own header, if and only if the buffer is one list item of fitting items |
| RlpComplete.ItemsAreStored | apps/evm_family/evm_txn_helpers.c:129-227 | then every field holds its item's payload |
| RlpComplete.NoLengthLeaves | apps/evm_family/evm_txn_helpers.c:129-227 | in an accepted division no announced length leaves the buffer exactly if none is greater than it |
| RlpComplete.CutOffHeaderIsAnItem | apps/evm_family/evm_helpers.c:205-251 | at any slot a cut-off header is an item without payload, as long as the header before it and of its type |
| RlpBounds.UndefinedExactly | apps/evm_family/evm_txn_helpers.c:229-303 | the decoder leaves its buffer or an array if and only if, behind pieces that are as they should be, no byte is left for a header or a field's payload does not fit its array |
| RlpExamples.LastItemCutOff | apps/evm_family/evm_helpers.c:205-251 | an accepted legacy buffer with its last item cut off |
| RlpExamples.SecondItemCutOff | apps/evm_family/evm_helpers.c:205-251 | one with its second item cut off |
| RlpExamples.NineInAnEmptyList | apps/evm_family/evm_txn_helpers.c:129-227 | an accepted buffer whose list header announces no bytes and has nine items behind it |
| RlpExamples.BareItem | apps/evm_family/evm_helpers.c:217-232 | one whose first item announces 55 bytes and has none |
| RlpExamples.TypedItemCutOff | apps/evm_family/eip1159.c:100-298 | an accepted typed buffer with its second item cut off |
| RlpExamples.LengthComesRound | apps/evm_family/evm_txn_helpers.c:193-201 | an accepted buffer of 35 bytes whose payload is said to have 2^64 - 13 |
| RlpExamples.RefusedCopy | common/coin_support/coin_utils.c:73-84 | an accepted typed buffer of five bytes with a refused copy |
| Crc32.Init | apps/icp_app/icp_helpers.c:148-159 | the table holds eight shift steps of every byte |
| Crc32.StepsAreLinear | apps/icp_app/icp_helpers.c:148-159 | shift steps are linear over exclusive or |
| Crc32.EightStepsByTable | apps/icp_app/icp_helpers.c:166-169 | a table look-up and a byte shift replace eight shift steps |
| Crc32.Compute | apps/icp_app/icp_helpers.c:161-171 | equals the bit-at-a-time CRC-32 of section 8 of RFC 1952 |
| Crc32.OneByteChangeIsSeen | apps/icp_app/icp_helpers.c:161-171 | data that differ in one byte have different checksums |
| Crc32.CheckValue | apps/icp_app/icp_helpers.c:161-171 | the check value of CRC-32, 0xCBF43926 |
| Base32.EncodeGroup | common/libraries/crypto/base32.c:120-147 | one to five bytes become two to eight symbols |
| Base32.GroupValue | common/libraries/crypto/base32.c:120-147 | the symbols denote the number of the bytes, filled with zero bits |
| Base32.EncodeUnsafe | common/libraries/crypto/base32.c:77-87 | groups and remainder give the symbols of section 6 of RFC 4648 |
| Base32.Encode | common/libraries/crypto/base32.c:40-61 | the letters and a terminating zero, exactly when they fit |
| Base32.SymbolsRoundTrip | common/libraries/crypto/base32.c:77-112 | every byte string is recovered from its symbols |
| Base32.SymbolsAppend | common/libraries/crypto/base32.c:77-87 | every further group of up to five bytes adds its own symbols |
| Base32.GroupInFull | common/libraries/crypto/base32.c:120-147 | which bits of its bytes each symbol of a group takes |
| Base32.LengthInFull | common/libraries/crypto/base32.c:108-112 | as few symbols as hold eight bits a byte |
| Base32.Alphabet | common/libraries/crypto/base32.c:40-61 | the 32 letters |
| Principal.GroupedRoundTrip | apps/icp_app/icp_helpers.c:213-231 | removing the hyphens gives the base32 text back |
| Principal.GroupedLength | apps/icp_app/icp_helpers.c:213-231 | a text of L characters becomes L + ceil(L/5) - 1 long |
| Principal.HyphenPlaces | apps/icp_app/icp_helpers.c:213-231 | hyphens stand at every sixth place and never at the end |
| Principal.Hyphenate | apps/icp_app/icp_helpers.c:213-234 | the loop writes the grouped text and a zero, and nothing behind it |
| Principal.PrincipalIdToDisplay | apps/icp_app/icp_helpers.c:188-235 | the buffer holds the text of the principal; without both buffers nothing happens |
| Principal.TextRoundTrip | apps/icp_app/icp_helpers.c:188-235 | checksum and bytes can be read back from the text |
| Principal.TextsAreDistinct | apps/icp_app/icp_helpers.c:188-235 | no two principals share a text |
| Principal.AnonymousPrincipal | apps/icp_app/icp_helpers.c:188-235 | the text 2vxsx-fae of the anonymous principal |
| Principal.ManagementCanister | apps/icp_app/icp_helpers.c:188-235 | the text aaaaa-aa of the principal without bytes |
| Principal.TextLength | apps/icp_app/icp_helpers.c:188-235 | 63 characters for the 29 bytes of a self-authenticating principal |
| Kryo.EncodeVarLength | apps/constellation_app/constellation_helpers.c:203-228 | the five size classes write the length code, at most five bytes |
| Kryo.KryoSerialize | apps/constellation_app/constellation_helpers.c:232-254 | prefix, length code and message, and nothing behind them |
| Kryo.CodeReads | apps/constellation_app/constellation_helpers.c:203-228 | every number is read back from its code, whatever follows |
| Kryo.CodeLengths | apps/constellation_app/constellation_helpers.c:203-228 | one to five bytes, a longer code exactly from 2^6, 2^13, 2^20 and 2^27 on |
| Kryo.CodeInFull | apps/constellation_app/constellation_helpers.c:203-228 | the bytes of the code in the five size classes |
| Kryo.CodesAreSelfDelimiting | apps/constellation_app/constellation_helpers.c:203-228 | no code is the beginning of another |
| Kryo.FrameRoundTrip | apps/constellation_app/constellation_helpers.c:232-254 | a message is read back if and only if its length fits in 32 bits |
| Kryo.FrameInFull | apps/constellation_app/constellation_helpers.c:232-254 | prefix 3, code of the length plus one, message |
| Kryo.FramesAreInjective | apps/constellation_app/constellation_helpers.c:232-254 | different messages have different frames, even when more bytes follow |

## Left out

- I/O: USB events, protobuf encoding, NFC and card taps, screens and delays; host messages and the user's answers are arbitrary inputs.
- SHA-256, Keccak-256, RIPEMD-160, ECDSA, key derivation, the secure element, address encodings and ABI leaf encoding are uninterpreted functions; hash contexts collect the bytes given to them. A signature is taken to have a nonzero length.
- Memory: allocation failures, `free` and clearing of secrets; copies past an array's end, reads past a buffer and shifts by 64 or more are `Undefined` (or excluded by a precondition); which inputs lead there is proved for the RLP and DIDL decoders, and nothing is claimed after that.
- The number type of C's `size_t` is as wide as `uint64_t`; shifted bits that are or-ed into clear bits are added.
- Text: fixed sizes of title and text buffers, number formatting and decimal display strings; display titles are unbounded strings and the display list is a sequence rather than a linked list.
- The fee threshold (`get_transaction_fee_threshold`) is an arbitrary number of the transaction.
- BtcSigning.SignTransaction: the reasons for which an initiation is proper (derivation path, wallet name, consent to the flow) are one parameter, and the messages that transport signatures are left out.
- Exchange.Device.DoSend: for coins other than Bitcoin the receivers of a send are an arbitrary sequence; Bitcoin's are in BtcSigning.SignTransaction.
- TypedData.EncodeData: a node carries its children in one sequence; nodes whose counts and pointers disagree are excluded by `Sized`.
- TypedData.EncodingCommits: trees of different declared types are not compared, because what the type hash says about the type is up to the host.
- Base32.Encode: the branch for symbols of 32 or more is left out, since no such symbol is written; only the lower-case alphabet is modelled, and the decoder of that library is replaced by the specification BytesOf.
- RlpTheorems.TransactionRoundTrip: payloads of 2^32 bytes or more, whose size does not fit the uint32_t that `s_memcpy` takes.
- RlpAcceptance.DecodesExactly: buffers of 2^32 bytes or more, likewise.
- CandidTheorems.TransferRoundTrip: values of other types than the transfer argument, empty byte vectors and DIDL messages with several arguments are rejected or undefined in the code and have no round trip.
- `encode_txn` of the Constellation application, whose concatenation of lengths and strings is not uniquely decodable; `kryo_serialize` is modelled for any message.
- `ETH_ExtractArguments`, which rests on unseen helpers and keeps only the last display node of an array.
- Public-key batching, derivation-path guards, flow levels and dispatchers: true but easy, or plumbing.
