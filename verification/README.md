# Verified model of whatsmeow and its anti-ban layer

This project models the protocol core of the `whatsmeow` library and the stateful parts of the package around it, and proves
what each of them keeps over all inputs, runs or interleavings. `dafny verify dfyconfig.toml` checks everything.

## What is modelled

**Binary XML** (`Tokens`, `BinaryNode`, `BinaryFormat`, `BinaryParser`, `BinaryRoundTrip`, `BinaryExactness`, `BinaryOrder`,
`BinaryDecoded`, `BinaryEncoder`, `BinaryDecoder`, with `Jid`, `Decimal`, `BigEndian`). The bytes of a node are a function
of the node, the node that bytes stand for is a function of the bytes, and the encoder and decoder objects are proved to
compute them. The
normal form of a tree drops empty attributes, turns numbers and booleans into text, reduces an address to what its form
carries, and turns a string written in full in content position into bytes. The token dictionaries are parameters; only
their sizes are fixed. The attribute list of a node stands for a Go map in one iteration order.

**App-state sync** (`LtHash`, `AppStateMap`, `AppStateRows`, `AppStateSync`, `AppStateTheorems`, `AppStateProcessor`). The
homomorphic hash works in place on 128 bytes; the incremental hash is proved equal to the hash of the whole stored map. The
store is the SQL store's two tables: a version row, and MAC rows keyed by version and index MAC, of which the newest
version counts. HMAC, HKDF expansion, AES, protobuf and JSON are abstract functions with inverse laws where they are needed.

**Frames and Noise** (`FrameReassembly`, `FrameSocket`, `Noise`, `NoiseHandshake`, `NoiseSocket`, `Transport`). The
streaming deframer, the symmetric state of section 5.2 of the Noise Protocol Framework (revision 34), the client's XX
handshake against a server that follows the pattern, and the transport counters; on top of them one theorem from the
handshake to the nodes that arrive. The AEAD is abstract, with the laws it needs (`Transport.NonceBindingExists` shows that they can
be met together).

**Response waiters** (`ResponseWaiters`, `ResponseWaiterTable`). One step for each critical section or channel operation,
interleaved in any order.

**Reporting tokens** (`Varint`, `ReportingToken`, `ReportingTokenTheorems`, `ReportingTokenExtractor`). The recursive filter
over protobuf wire data, with a sort of which only sortedness and permutation are known.

**Caches and limits** (`SessionCache`, `RecentMessages`, `LidResolver`, `RateLimiter`, `RateLimiterObject`,
`RateLimitTightness`, `CircuitBreaker`). Each is proved against a simple specification over whole histories; the clock is
an argument.

## Where the code does less than it promises

Each of these comes with its exact condition and with a concrete input or run.

- `processData` counts the three prefix bytes in `receivedLength` (line 173), so a payload that is not all in the chunk
  that completes its prefix is not delivered as it was sent, or makes a slice expression panic:
  `FrameReassembly.DeliversExactly`, `FrameReassembly.SplitPayloadExamples`.
- A patch that has more than one SET of an index after that index's last REMOVE passes every MAC check, but the store's
  plain INSERT refuses it after the version and hash were saved: `AppStateTheorems.PatchOutcome`,
  `AppStateTheorems.DoubleSetConflicts`.
  EncodePatch looks for previous values only in the store, so it too needs distinct index MACs:
  `AppStateTheorems.EncodedPatchAccepted`, `AppStateTheorems.EncodedRepeatIsNotAccepted`.
- Patch versions are never compared. A patch that is not newer than the stored rows passes every MAC check too; it
  can conflict with a row of its own version, or be saved with its hash while lookups go on finding a row of a higher
  version: `AppStateTheorems.PatchOutcome`, `AppStateTheorems.RunIsSequentialExactly`,
  `AppStateTheorems.OlderPatchIsHidden`.
- A tree with a tag that is empty or "0", or with a list of 65536 entries or more, is encoded without an error but does
  not come back as its normal form: `BinaryExactness.RoundTripExactly`, `BinaryExactness.UnsoundExamples`.
- A message refused as too large uses up a transport counter value: `Transport.RefusalSilences`,
  `Transport.RefusedMessageExample`.
- A waiter cancelled by a timeout between the take and the send of its answer makes the delivery panic:
  `ResponseWaiters.OnlyCancelledDeliveriesPanic`, `ResponseWaiters.CancelBetweenTakeAndSend`.
- A registration or cancellation under an id that maps to another live channel leaves that channel's requester waiting for
  nothing: `ResponseWaiters.NoWaiterIsLost`, `ResponseWaiters.SharedIDLosesTheFirst`.
- A message key that is sent again within 256 messages is dropped from the ring when its earlier slot is reused:
  `RecentMessages.HitsExactly`, `RecentMessages.CloseRepeatExample`.
- Evicting a stale breaker changes no answer but forgets its failures, so a series may not open it:
  `CircuitBreakers.FailuresAreForgottenExactly`, `CircuitBreakers.SeriesOpensExactly`,
  `CircuitBreakers.EvictionForgetsFailures`.
- `ContainsSession` does not look into the session cache: `SessionCaches.ContainsMissesUnflushed`,
  `SessionCaches.UnflushedExample`.
- `NewADJID`, and with it the decoder, leaves the server empty for an agent outside the four known domains:
  `Jid.ServerOfADJID`, `BinaryExactness.ReadADJIDServer`, `BinaryExactness.UnknownAgentLosesServer`.
- A reporting field configured as a message without subfields is never part of a token when it comes as a message:
  `ReportingTokenTheorems.SelectableExactly`, `ReportingTokenTheorems.BareMessageExample`.

## Model

| member | source | states |
|---|---|---|
| Jid.StringRoundTrip | whatsmeow/types/jid.go:158-226 | for every JID, ParseJID(String(j)) gives j back if and only if j is printable: integrator zero, user free of '@' and '.', server free of '@', and, when there is no agent, user free of ':' |
| Jid.PrintableRoundTrips | whatsmeow/types/jid.go:158-226 | the four printed shapes, with decimal agent and device, all parse back to the same JID |
| Jid.StringInjective | whatsmeow/types/jid.go:216-226 | two printable JIDs never share a text form |
| Jid.ColonInUserIsLost | whatsmeow/types/jid.go:183-193 | a ':' in the user of a JID without an agent is always taken for the device separator, so the JID does not come back |
| Jid.ServerOfADJID | whatsmeow/types/jid.go:132-155 | the address built for an agent has no server if and only if the agent is none of the four known domains |
| Decimal.AtoiOfFormatInt | whatsmeow/types/jid.go:158-226 | decimal printing followed by parsing is the identity on every 64-bit integer, negative ones included |
| Decimal.FormatNat64 | whatsmeow/binary/encoder.go:115-122 | every 64-bit number prints in at most 20 digits, which is why the encoder can always pack it |
| Tokens.Dictionary.SingleIndex | whatsmeow/binary/token/token.go:58-61 | an index is found exactly for the non-empty strings among the single-byte tokens, and is a real position of the string |
| Tokens.Dictionary.DoubleIndex | whatsmeow/binary/token/token.go:65-68 | a position is found exactly for the strings in some dictionary, and really holds the string |
| BinaryRoundTrip.ReadNodeBytes | whatsmeow/binary/decoder.go:352-384 | the main round trip: the encoding of any sound tree, followed by any bytes, decodes to the tree's normal form and leaves exactly those bytes |
| BinaryRoundTrip.ReadNodesBytes | whatsmeow/binary/decoder.go:332-350 | a child list of any length decodes, child by child, to the normal forms of the children |
| BinaryRoundTrip.ReadAttrsBytes | whatsmeow/binary/decoder.go:306-330 | an attribute list with distinct keys decodes to its normal form: empty attributes gone, values in string position |
| BinaryRoundTrip.ReadValueBytes | whatsmeow/binary/decoder.go:168-223 | every kind of value decodes to its normal form in string and in content position, whatever follows it |
| BinaryRoundTrip.ReadStringBytes | whatsmeow/binary/decoder.go:168-223 | a string decodes to itself whichever of single token, double token, packed nibbles, packed hex or three raw length classes the encoder chose; a raw string in content position comes back as bytes |
| BinaryRoundTrip.ReadPackedBytes | whatsmeow/binary/decoder.go:83-116 | packed nibbles and packed hex unpack to the packed string, for even and odd lengths |
| BinaryRoundTrip.UnpackBytesOfPackBytes | whatsmeow/binary/decoder.go:83-153 | unpacking undoes packing pair by pair, with the padding half-byte of an odd length |
| BinaryRoundTrip.ReadRawBytes | whatsmeow/binary/decoder.go:168-223 | a raw string decodes to itself in each of its three length classes |
| BinaryRoundTrip.ReadListStart | whatsmeow/binary/decoder.go:155-166 | a list header of any size below 65536 reads back as that size |
| BinaryRoundTrip.ReadJIDBytes | whatsmeow/binary/decoder.go:225-304 | an address decodes to its normal form through whichever of the four JID forms its server selects |
| BinaryRoundTrip.ReadADJIDOf | whatsmeow/binary/decoder.go:290-304 | the AD form keeps user, server and the device modulo 256 |
| BinaryRoundTrip.ReadFBJIDOf | whatsmeow/binary/decoder.go:268-288 | the Messenger form keeps user and 16-bit device |
| BinaryRoundTrip.ReadInteropJIDOf | whatsmeow/binary/decoder.go:241-266 | the interop form keeps user, 16-bit device and integrator |
| BinaryRoundTrip.ReadJIDPairOf | whatsmeow/binary/decoder.go:225-239 | the pair form keeps user and server, also with an empty user |
| BinaryRoundTrip.IntegersArePacked | whatsmeow/binary/encoder.go:110-123 | an integer written as text always takes a token or packed form, so it comes back as a string even in content position |
| BinaryRoundTrip.ReadInt20Of | whatsmeow/binary/decoder.go:69-77 | a 20-bit length reads back as written |
| BigEndian.IntRoundTrip | whatsmeow/binary/decoder.go:40-59 | a fixed-width big-endian number that fits reads back as written, for every width |
| BinaryExactness.RoundTripExactly | whatsmeow/binary/node.go:122-139 | Unmarshal of what Marshal wrote is the normal form if and only if every tag in the tree is neither empty nor "0" and every list size is below 65536 |
| BinaryExactness.BlockedNode | whatsmeow/binary/encoder.go:81-99 | a tree whose normal form has sizes the decoder can produce, and that is unsound anywhere inside, makes the decoder fail |
| BinaryExactness.WrappedSizeFails | whatsmeow/binary/encoder.go:211-221 | a list of exactly 65536 entries wraps to size zero and is refused by the decoder |
| BinaryExactness.TagZeroFails | whatsmeow/binary/encoder.go:81-87 | a node with tag "0" is written as an empty list and never decodes |
| BinaryExactness.EncodingsAreSelfDelimiting | whatsmeow/binary/node.go:122-139 | if the encodings of two sound trees with anything after them are equal, their normal forms and the rests are equal: no encoding is a prefix of another, and Marshal is injective up to normal form |
| BinaryExactness.UnsoundExamples | whatsmeow/binary/encoder.go:81-99 | concrete trees: tag "0", an empty tag and a list of 65536 children do not come back |
| BinaryExactness.ReadADJIDServer | whatsmeow/binary/decoder.go:290-304 | an AD address decodes to one with a server if and only if its agent byte is one of the four known domains |
| BinaryExactness.UnknownAgentLosesServer | whatsmeow/binary/decoder.go:290-304 | concrete bytes: an AD address with agent 2 decodes to a user without a server |
| BinaryExactness.AttributeOrderDoesNotMatter | whatsmeow/binary/encoder.go:190-209 | two iteration orders of one attribute list give the same list size and the same normal attributes |
| BinaryOrder.IterationOrderDoesNotMatter | whatsmeow/binary/encoder.go:190-209 | whatever the iteration orders of the attribute maps at every level of a tree, what ReadNode returns is the same tree of maps |
| BinaryOrder.SameNodeEncodable | whatsmeow/binary/encoder.go:81-99 | of two iteration orders of one tree, one can be encoded and is sound if and only if the other can be and is |
| BinaryExactness.ReadNodeShape | whatsmeow/binary/decoder.go:352-384 | whatever bytes a node is decoded from, at every level its tag is not empty and its list sizes are below 65536 |
| BinaryDecoded.DecodedTreesAreEncodable | whatsmeow/binary/decoder.go:306-384 | whatever bytes, fewer than 2^31 - 1, a tree is decoded from, its attribute keys are distinct at every level, it encodes without a panic, and it is sound if and only if no tag in it is "0" |
| BinaryDecoded.DecodedTreesRoundTrip | whatsmeow/binary/node.go:122-139 | a tree decoded from fewer than 2^31 - 1 bytes, encoded and decoded again, gives its normal form if and only if no tag in it is "0" |
| BinaryDecoded.PutAttrKeys | whatsmeow/binary/decoder.go:306-330 | assigning to the attribute map keeps its keys distinct |
| BinaryEncoding.Validate | whatsmeow/binary/encoder.go:256-295 | the scan accepts exactly the strings of at most 127 bytes over the packing's alphabet |
| BinaryEncoding.BinaryEncoder.PushIntN | whatsmeow/binary/encoder.go:32-42 | the byte loop appends the big-endian bytes of the number |
| BinaryEncoding.BinaryEncoder.WriteByteLength | whatsmeow/binary/encoder.go:64-77 | appends the shortest of the three length classes; false exactly where the source panics |
| BinaryEncoding.BinaryEncoder.WritePackedBytes | whatsmeow/binary/encoder.go:223-250 | the pairing loop appends exactly the packed form of the string, with its rounded length byte |
| BinaryEncoding.BinaryEncoder.WriteString | whatsmeow/binary/encoder.go:135-149 | appends the form the dictionaries and alphabets select, trying them in the source's order |
| BinaryEncoding.BinaryEncoder.WriteJID | whatsmeow/binary/encoder.go:161-188 | appends the address in the form its server selects |
| BinaryEncoding.BinaryEncoder.CountAttributes | whatsmeow/binary/encoder.go:201-209 | counts exactly the attributes that are written |
| BinaryEncoding.BinaryEncoder.WriteAttributes | whatsmeow/binary/encoder.go:190-199 | the loop appends key and value of every attribute that is not nil or empty, in iteration order |
| BinaryEncoding.BinaryEncoder.WriteListStart | whatsmeow/binary/encoder.go:211-221 | appends the empty, 8-bit or 16-bit list header |
| BinaryEncoding.BinaryEncoder.Write | whatsmeow/binary/encoder.go:101-133 | appends the encoding of a value of any dynamic type the encoder knows; false exactly where a length makes the source panic |
| BinaryEncoding.BinaryEncoder.WriteNode | whatsmeow/binary/encoder.go:81-99 | appends the encoding of the whole tree; false exactly where the source panics |
| BinaryEncoding.Marshal | whatsmeow/binary/node.go:122-127 | the encoder object driven over a tree yields a zero byte and the tree's encoding |
| BinaryDecoding.BinaryDecoder.ReadIntN | whatsmeow/binary/decoder.go:40-59 | the shift-and-or loop yields the big-endian number or an end-of-data error, and moves the index past it |
| BinaryDecoding.BinaryDecoder.ReadPacked8 | whatsmeow/binary/decoder.go:83-116 | the unpacking loop yields the string the packed bytes stand for, with the odd last half-byte dropped |
| BinaryDecoding.BinaryDecoder.ReadListSize | whatsmeow/binary/decoder.go:155-166 | yields the list size for the tag, or an error |
| BinaryDecoding.BinaryDecoder.Read | whatsmeow/binary/decoder.go:168-223 | on every byte string the reader ends, with its index no smaller and inside the data, and yields the value the parser function gives |
| BinaryDecoding.BinaryDecoder.ReadJIDPair | whatsmeow/binary/decoder.go:225-239 | reads the two parts of a pair, with failed type assertions as failures |
| BinaryDecoding.BinaryDecoder.ReadFBJID | whatsmeow/binary/decoder.go:268-288 | reads the Messenger form, refusing any other server |
| BinaryDecoding.BinaryDecoder.ReadInteropJID | whatsmeow/binary/decoder.go:241-266 | reads the interop form, refusing any other server |
| BinaryDecoding.BinaryDecoder.ReadADJID | whatsmeow/binary/decoder.go:290-304 | reads the AD form |
| BinaryDecoding.BinaryDecoder.ReadAttributes | whatsmeow/binary/decoder.go:306-330 | the loop fills the map key by key, a repeated key overwriting the earlier value |
| BinaryDecoding.BinaryDecoder.ReadList | whatsmeow/binary/decoder.go:332-350 | the loop reads as many nodes as the header says |
| BinaryDecoding.BinaryDecoder.ReadNode | whatsmeow/binary/decoder.go:352-384 | the mutually recursive decoder ends on every byte string, its index monotone and at most the length of the data, and agrees with the parser function |
| BinaryDecoding.Unmarshal | whatsmeow/binary/node.go:129-139 | the decoder object driven over the data yields one node, or an error also when bytes are left over |
| LtHash.PerformPointwiseWithOverflow | whatsmeow/appstate/lthash/lthash.go:45-58 | the in-place loop leaves in the byte array the lane-wise sum or difference modulo 2^16 of its old value and the input, little-endian |
| LtHash.MultipleOp | whatsmeow/appstate/lthash/lthash.go:39-43 | the loop over inputs leaves the old value plus or minus the sum of all expanded inputs |
| LtHash.SubtractThenAddInPlace | whatsmeow/appstate/lthash/lthash.go:34-37 | the array becomes the base minus the first list plus the second |
| LtHash.ResultDependsOnMultisets | whatsmeow/appstate/lthash/lthash.go:27-37 | the result depends only on which items are subtracted and added and how often, not on their order |
| LtHash.SubtractUndoesAdd | whatsmeow/appstate/lthash/lthash.go:27-37 | subtracting what was added, in any order, restores the base byte for byte |
| LtHash.BatchesCombine | whatsmeow/appstate/lthash/lthash.go:27-37 | two batches in turn give the same bytes as one combined batch |
| LtHash.LanesOfToBytes | whatsmeow/appstate/lthash/lthash.go:45-58 | the little-endian byte form of lanes reads back as those lanes |
| LtHash.LanesInjective | whatsmeow/appstate/lthash/lthash.go:45-58 | two 128-byte blocks with equal lanes are equal |
| AppStateMap.PreviousValueIsCurrent | whatsmeow/appstate/decode.go:321-336 | at every position of a patch the backward search with its database fallback returns the current value of that index in the map to which the earlier operations were applied one at a time |
| AppStateMap.IncrementalHashIsWholeHash | whatsmeow/appstate/hash.go:39-65 | the incrementally updated hash equals the hash recomputed from the whole index-to-value map after the patch, also when one index is set, removed and set again inside it |
| AppStateMap.MapSumSet | whatsmeow/appstate/hash.go:39-65 | setting one entry changes the whole-map hash by minus the old value and plus the new one |
| AppStateRows.BatchIsSequential | whatsmeow/appstate/decode.go:122-135 | deleting all RemovedMACs and then putting all AddedMACs gives the map that applying the SETs and REMOVEs one at a time gives |
| AppStateRows.PutAccepted | whatsmeow/store/sqlstore/store.go:518-553 | at every version a batch of plain inserts is accepted if and only if no entry finds a row with its version and index, no index occurs twice and all index MACs are 32 bytes long |
| AppStateRows.CurrentAfterPut | whatsmeow/store/sqlstore/store.go:518-581 | an accepted batch is last-wins on the map that lookups see, as long as its version is above every stored one |
| AppStateRows.CurrentAfterDelete | whatsmeow/store/sqlstore/store.go:555-581 | deleting index MACs removes exactly those indexes from the map that lookups see |
| AppStateRows.PutIsLastWins | whatsmeow/store/sqlstore/store.go:518-581 | an accepted batch at any version is last-wins on the map that lookups see if and only if no added index keeps a row of a higher version whose newest value differs |
| AppStateTheorems.BatchAtAnyVersion | whatsmeow/appstate/decode.go:229-243 | an accepted patch at any version leaves the sequential map if and only if no remaining row of an added index has a higher version whose newest value differs |
| AppStateRows.HigherVersionHides | whatsmeow/store/sqlstore/store.go:575-581 | a row with a higher version hides whatever is written under a lower one |
| AppStateSync.ContentMACInputIsInjective | whatsmeow/appstate/hash.go:97-101 | the bytes authenticated by a content MAC determine operation, data and key id |
| AppStateTheorems.PatchOutcome | whatsmeow/appstate/decode.go:358-407 | one patch of any version, from any store whose map has the state's hash: it is rejected and changes nothing; otherwise it conflicts if and only if an index has more than one SET after its last REMOVE or an added index keeps a row at that version; and what does not conflict is saved with the hash of the sequential map, which is the stored map if and only if no kept row of a higher version hides an added value |
| AppStateTheorems.RunIsSequentialExactly | whatsmeow/appstate/decode.go:384-406 | on every run of patches of any versions the stored map is the sequential one after each patch, without a conflict, if and only if no patch that is not rejected conflicts in that way or is hidden by a higher version |
| AppStateTheorems.SmoothRunsAgree | whatsmeow/appstate/decode.go:384-406 | such a run ends, completed or rejected, with the state's hash that of the stored map, the map that of the patches before the stop, and the state saved |
| AppStateTheorems.OlderPatchIsHidden | whatsmeow/appstate/decode.go:384-406 | the concrete failing run: a SET in a patch of version 2 and then another SET of its index in one of version 1, both correctly sealed, are both accepted; lookups find the first value and the saved hash is that of the second |
| AppStateTheorems.NewerPatchOutcome | whatsmeow/appstate/decode.go:384-406 | for a patch newer than every stored row the outcome depends on its SETs alone: stored in agreement, or conflicting exactly when an index has more than one SET after its last REMOVE, or rejected with nothing changed |
| AppStateTheorems.RunKeepsAgreement | whatsmeow/appstate/decode.go:384-406 | patches that are each newer than the one before and have at most one SET of each index after its last REMOVE keep stored hash and map in agreement, wherever the run stops; the map is that of the patches before the stop |
| AppStateTheorems.SnapshotOutcome | whatsmeow/appstate/decode.go:258-311 | a snapshot on an empty store is stored in agreement, or rejected with nothing stored, or conflicts exactly when index MACs repeat |
| AppStateTheorems.FullSyncExactly | whatsmeow/appstate/decode.go:358-407 | a full sync from an empty store with patches of any versions: a snapshot with a repeated index MAC conflicts, and from any other that is accepted the run is sequential at every patch if and only if no patch conflicts or is hidden; then store and state agree in the end |
| AppStateTheorems.FullSyncKeepsAgreement | whatsmeow/appstate/decode.go:358-407 | one snapshot with distinct index MACs, then patches that are each newer than the one before and have at most one SET of each index after its last REMOVE: store and state agree, whether the sync completes or is rejected part-way |
| AppStateTheorems.ConflictLeavesHashAhead | whatsmeow/appstate/decode.go:229-243 | when the insertion conflicts, at whatever version, the saved version and hash are already those of the whole patch while none of its additions is stored |
| AppStateTheorems.DoubleSetConflicts | whatsmeow/appstate/decode.go:229-243 | the concrete failing input: two well-formed SETs of one index in one sealed patch on an empty store |
| AppStateTheorems.BatchAccepted | whatsmeow/store/sqlstore/store.go:518-553 | at every version the insertion of the AddedMACs of a patch with 32-byte index MACs succeeds if and only if no index has more than one SET after its last REMOVE and no added index has a row at that version |
| AppStateTheorems.EncodedPatchAccepted | whatsmeow/appstate/encode.go:263-337 | a patch built by EncodePatch on an agreeing state, received back as the next version, passes all MAC checks, is stored and decodes to the original indexes and values if and only if its index MACs are pairwise distinct |
| AppStateTheorems.EncodedRepeatIsNotAccepted | whatsmeow/appstate/encode.go:263-337 | the failing input: two mutations of one index in one encoded patch |
| AppStateTheorems.EncodedMutationDecodes | whatsmeow/appstate/encode.go:279-306 | an encoded mutation passes the content and index MAC checks and decodes to the index, value and version that went in |
| AppStateTheorems.EncodedPatchValidates | whatsmeow/appstate/decode.go:313-355 | with distinct index MACs sender and receiver compute the same hash, so snapshot MAC and patch MAC both match |
| AppStateTheorems.SetsEachOnceIsDistinct | whatsmeow/appstate/encode.go:263-337 | for a list of SETs alone, setting each index once is the same as distinct index MACs |
| AppStateProcessor.Store.DeleteVersion | whatsmeow/store/sqlstore/store.go:513-516 | deleting the version row takes the MAC rows with it |
| AppStateProcessor.Store.PutMutationMACs | whatsmeow/store/sqlstore/store.go:540-553 | all entries are inserted or, on a duplicate key or a wrong length, none |
| AppStateProcessor.HashState.UpdateHash | whatsmeow/appstate/hash.go:39-65 | the loop over mutations followed by the in-place hash leaves exactly the specified hash in the state's array |
| AppStateProcessor.PatchOutput.RemoveMAC | whatsmeow/appstate/decode.go:122-128 | records the removal and takes earlier additions of that index out, keeping the order of the others |
| AppStateProcessor.PatchOutput.AddMAC | whatsmeow/appstate/decode.go:130-135 | appends the entry |
| AppStateProcessor.Processor.DecodeMutations | whatsmeow/appstate/decode.go:192-227 | the loop collects all decoded mutations with the removed and added MACs, or stops with the first error |
| AppStateProcessor.Processor.StoreMACs | whatsmeow/appstate/decode.go:229-243 | writes version, deletions and insertions in that order and reports a conflict of the insertions |
| AppStateProcessor.Processor.ValidatePatch | whatsmeow/appstate/decode.go:313-355 | the new state carries the updated hash; MAC mismatches are reported in the source's order |
| AppStateProcessor.Processor.DecodeSnapshot | whatsmeow/appstate/decode.go:258-311 | the store, the state and the mutations after a snapshot are those of the specification |
| AppStateProcessor.Processor.DecodePatches | whatsmeow/appstate/decode.go:358-407 | the loop over patches leaves store, state, mutations and error as the specification says, also when it stops early |
| AppStateProcessor.Processor.EncodePatch | whatsmeow/appstate/encode.go:263-337 | the loop builds exactly the specified patch with its two MACs |
| FrameReassembly.DeliversExactly | whatsmeow/socket/framesocket.go:162-201 | for every list of frames and every chunking of its byte stream, processData delivers exactly those frames in order and ends in its start state if and only if no chunk ends after the prefix of a non-empty frame and before its end |
| FrameReassembly.CorrectedCountDelivers | whatsmeow/socket/framesocket.go:162-201 | with a receivedLength that left out the three prefix bytes, every chunking would deliver exactly the frames |
| FrameReassembly.SplitPayloadOverclaims | whatsmeow/socket/framesocket.go:171-198 | as written, after a chunk that ends with a payload pending the run panics, stays unfinished, or claims more bytes than it received |
| FrameReassembly.SplitPayloadExamples | whatsmeow/socket/framesocket.go:171-198 | concrete inputs: a four-byte payload cut after its first byte arrives as other bytes, and a two-byte one makes the slice expression panic |
| FrameReassembly.ProcessDataWeight | whatsmeow/socket/framesocket.go:162-201 | each payload finished in a later chunk makes the claimed byte count exceed the received one by at least the prefix |
| FrameReassembly.ProcessAllFrom | whatsmeow/socket/framesocket.go:162-201 | from the state of any stream read so far, further chunks lead to the state of the longer stream |
| FrameReassembly.StreamParses | whatsmeow/socket/framesocket.go:121-151 | a stream written by SendFrame parses into exactly the frames sent, with nothing over |
| FrameReassembly.RestContinues | whatsmeow/socket/framesocket.go:162-201 | reading more bytes continues from the unfinished rest: complete frames and rest of a concatenation |
| FrameSockets.FrameSocket.ProcessData | whatsmeow/socket/framesocket.go:162-201 | the loop over the object's fields leaves the state the specification gives, or stops where the source panics |
| FrameSockets.FrameSocket.FrameComplete | whatsmeow/socket/framesocket.go:153-160 | hands over the frame and resets every reassembly field |
| FrameSockets.FrameSocket.SendFrame | whatsmeow/socket/framesocket.go:121-151 | writes one message: connection header only once, three length bytes, data; a closed socket, or a frame of 2^24 bytes or more, is refused with nothing written |
| Noise.MirrorAgreement | whatsmeow/socket/noisehandshake.go:55-117 | two endpoints that run dual steps keep equal hash, salt, key and counter, and each recovers every plaintext |
| Noise.TranscriptsAgree | whatsmeow/socket/noisehandshake.go:55-76 | two runs that authenticated equally many values and end with equal hashes authenticated equal values from equal first hashes, or exhibit a SHA-256 collision |
| Noise.NonceReuse | whatsmeow/socket/noisehandshake.go:59-76 | two uses of one key epoch share a nonce if and only if their distance is a multiple of 2^32 |
| Noise.UseAt | whatsmeow/socket/noisehandshake.go:59-76 | the i-th use of an epoch has the epoch's first counter plus i, wrapped at 2^32 |
| Noise.IVsDiffer | whatsmeow/socket/noisesocket.go:73-77 | different counters give different nonces |
| NoiseHandshakes.NoiseHandshake.Start | whatsmeow/socket/noisehandshake.go:39-53 | hash, salt and key become the 32-byte pattern or its digest, the header is authenticated, and the counter is left as it was |
| NoiseHandshakes.NoiseHandshake.Authenticate | whatsmeow/socket/noisehandshake.go:55-57 | the hash becomes the digest of the old hash and the data |
| NoiseHandshakes.NoiseHandshake.PostIncrementCounter | whatsmeow/socket/noisehandshake.go:59-62 | returns the old counter and wraps the new one at 2^32 |
| NoiseHandshakes.NoiseHandshake.Encrypt | whatsmeow/socket/noisehandshake.go:64-68 | seals under key, counter and hash, counts the use and authenticates the ciphertext |
| NoiseHandshakes.NoiseHandshake.Decrypt | whatsmeow/socket/noisehandshake.go:70-76 | a ciphertext that does not open counts as a use but is not authenticated |
| NoiseHandshakes.NoiseHandshake.MixIntoKey | whatsmeow/socket/noisehandshake.go:105-117 | resets the counter and replaces salt and key by the two expanded halves |
| NoiseHandshakes.NoiseHandshake.MixSharedSecretIntoKey | whatsmeow/socket/noisehandshake.go:97-103 | a refused key pair leaves the state unchanged |
| NoiseHandshakes.DoHandshake | whatsmeow/handshake.go:30-129 | the client's handshake, step by step on the object, ends in the outcome of the specification, with the exits for no answer, missing parts, a refused key pair, an unreadable ciphertext, a key of the wrong length and an invalid certificate |
| NoiseHandshakes.HandshakeAgrees | whatsmeow/handshake.go:30-129 | against a server that follows the XX pattern the client completes if and only if the last key agreement is accepted and the certificate verifies; the server then knows the client's static key and payload and each side reads with the key the other writes with |
| Transport.ConversationArrives | whatsmeow/client.go:817-829 | well-formed nodes, marshalled, sealed and framed, arrive as their normal forms, all and in order, for every chunking in which no chunk ends after the prefix of a frame and before its end |
| Transport.SessionCarriesNodes | whatsmeow/handshake.go:118-128 | after a completed handshake the server, reading with its own copy of the key, receives the normal forms of the nodes the client sent, for the same chunkings |
| Transport.DeliveredExactly | whatsmeow/socket/noisesocket.go:91-120 | a peer in step receives exactly the messages sent, in order, if and only if none of them was refused as too large |
| Transport.RefusalSilences | whatsmeow/socket/noisesocket.go:91-110 | a refused message has used a counter value: with an AEAD that binds the nonce, and below 2^32 messages, the peer receives those before it and never another |
| Transport.RefusedMessageExample | whatsmeow/socket/noisesocket.go:91-110 | the smallest refused message is 2^24 - 16 bytes; after it nothing arrives |
| Transport.NothingOpens | whatsmeow/socket/noisesocket.go:112-120 | while the sender's counter is ahead, no message opens |
| Transport.HandleMarshalled | whatsmeow/binary/unpack.go:21-31 | Unpack and Unmarshal of a marshalled well-formed node give its normal form |
| NoiseSockets.NoiseSocket.SendFrame | whatsmeow/socket/noisesocket.go:91-110 | seals under the write counter, which moves on even when the frame socket refuses the frame; a context that has ended changes nothing, and one that ends during the call only hides the answer |
| NoiseSockets.NoiseSocket.ReceiveEncryptedFrame | whatsmeow/socket/noisesocket.go:112-120 | hands on an opened frame, drops another, and counts both |
| NoiseSockets.NoiseSocket.ConsumeFrames | whatsmeow/socket/noisesocket.go:55-71 | the loop hands on exactly the frames that open, in order |
| ReportingTokenTheorems.ExtractIs | whatsmeow/reportingtoken.go:94-176 | on well-formed data the extraction yields exactly the bytes of the selected field tree, sorted at every level |
| ReportingTokenTheorems.OutputIsTheSelection | whatsmeow/reportingtoken.go:94-176 | the output is no longer than the input, well formed, sorted by field number at every level, reads back as exactly the selected fields with sub-messages filtered and empty ones dropped, and holds nothing else |
| ReportingTokenTheorems.ExtractingAgain | whatsmeow/reportingtoken.go:165-176 | extracting from the output finds the same fields; with a sort that keeps sorted lists it returns the output byte for byte |
| ReportingTokenTheorems.SelectOfBytes | whatsmeow/reportingtoken.go:135-156 | the bytes of a field tree that fits the configuration are well formed and read back as that tree |
| ReportingTokenTheorems.SelectShrinks | whatsmeow/reportingtoken.go:139-153 | re-encoding a filtered message never takes more room than the message it came from |
| ReportingTokenTheorems.ArrangeSorts | whatsmeow/reportingtoken.go:168-169 | every level of the arranged tree is sorted by field number |
| ReportingTokenTheorems.SortPermutes | whatsmeow/reportingtoken.go:168-169 | sorting by any order sort.Slice may produce loses and adds no field |
| ReportingTokenTheorems.SelectableExactly | whatsmeow/reportingtoken.go:135-153 | a configured, length-delimited field is in the selection of some well-formed message if and only if its entry is not treated as a message or has a proper subfield; with proper subfield numbers, if and only if it is not a message without subfields |
| ReportingTokenTheorems.BareMessagesAreDropped | whatsmeow/reportingtoken.go:135-153 | a length-delimited field in a selection is never configured as a message without subfields |
| ReportingTokenTheorems.BareMessageExample | whatsmeow/reportingtoken.go:135-153 | a concrete message, with the embedded entry of field 53: nothing of it becomes part of the token |
| ReportingTokenExtractor.ExtractReportingTokenContent | whatsmeow/reportingtoken.go:94-176 | the loop over the index, its recursion, the sort and the concatenation compute the specified extraction: data that ends in a broken tag and unknown wire types as in the source, cut-off values and overlong numbers only by naming them |
| Varints.PutThenGet | whatsmeow/reportingtoken.go:141-152 | Uvarint undoes PutUvarint on every 64-bit number, whatever follows |
| Varints.PutIsShortest | whatsmeow/reportingtoken.go:141-152 | PutUvarint writes no more bytes than any varint of the same number has |
| ResponseWaiters.RunsAreSafe | whatsmeow/request.go:43-89 | over every interleaving each channel is sent at most one node, its own answer or a disconnect node; a registered channel is open, empty and never sent to; and the only panic is a delivery to a channel cancelled after it was taken |
| ResponseWaiters.StepKeepsInv | whatsmeow/request.go:43-89 | every atomic step keeps the invariant of map, channels and deliveries |
| ResponseWaiters.OnlyCancelledDeliveriesPanic | whatsmeow/request.go:64-89 | a step panics if and only if it sends to a channel cancelled between its take and its send; no send blocks and the close branch of the clear is unreachable |
| ResponseWaiters.TakenChannelsAreOpen | whatsmeow/request.go:76-83 | a channel is open and leaves the map when a delivery takes it, so a cancellation that breaks the delivery comes later |
| ResponseWaiters.ClearReachesEveryWaiter | whatsmeow/request.go:43-54 | a clear sends its node to every registered channel, closes none, empties the map and changes nothing else |
| ResponseWaiters.StepLosesExactly | whatsmeow/request.go:56-69 | a step newly loses a live channel if and only if it registers, or cancels, an id that maps to another live channel |
| ResponseWaiters.RunLosesExactly | whatsmeow/request.go:43-89 | on a whole run no live requester ever loses its registration if and only if no step is of that kind |
| ResponseWaiters.NoWaiterIsLost | whatsmeow/request.go:43-69 | a disconnect at whatever moment of a run leaves every live requester answered, or with its answer in the hands of a delivery, or dropped by a delivery whose context ended, if and only if no step of the run registers or cancels an id that maps to another live channel |
| ResponseWaiters.OwnIDsDisplaceNone | whatsmeow/request.go:185-216 | reusing an id only after its earlier channels are done with, as retryFrame does, is enough for that |
| ResponseWaiters.OwnIDsAreServed | whatsmeow/request.go:43-69 | so with own ids a disconnect serves every live requester |
| ResponseWaiters.CancelRemovesOwn | whatsmeow/request.go:64-69 | with own ids a cancellation by id removes no other requester's registration |
| ResponseWaiters.ReadersGetTheirOwn | whatsmeow/request.go:159-163 | what a requester reads is a disconnect node or its own answer, and isDisconnectNode tells which |
| ResponseWaiters.CancelBetweenTakeAndSend | whatsmeow/send.go:424-431 | concrete run: a timeout that cancels between take and send makes the delivery panic |
| ResponseWaiters.SharedIDLosesTheFirst | whatsmeow/request.go:56-62 | concrete run: a second registration under a live id removes the first from the map |
| ResponseWaiterTable.WaiterTable.WaitResponse | whatsmeow/request.go:56-62 | registers a new open channel under the id, overwriting an earlier one |
| ResponseWaiterTable.WaiterTable.CancelResponse | whatsmeow/request.go:64-69 | closes the channel and deletes the map entry of its id; false where closing panics |
| ResponseWaiterTable.WaiterTable.TakeWaiter | whatsmeow/request.go:71-83 | an answer whose id is registered takes the channel out of the map; anything else is not handled |
| ResponseWaiterTable.WaiterTable.FinishDelivery | whatsmeow/request.go:84-88 | the send or the end of the context; false where the send panics |
| ResponseWaiterTable.WaiterTable.ClearResponseWaiters | whatsmeow/request.go:43-54 | the loop over the map, in any order, leaves the specified state |
| RateLimits.WindowsAreBounded | rate_limiter.go:96-165 | over every timed run with at most k sends between check and record, every hour and day holds at most the first limit plus k - 1 records and every minute at most the first limit plus the burst allowance plus k - 1, through any AdaptLimits calls |
| RateLimitTightness.HourBoundIsMet | rate_limiter.go:107-112 | for every k, and every positive hour limit of at most 60 times the minute limit and at most the day limit, a run with at most k sends in flight has an hour with limit + k - 1 records |
| RateLimitTightness.DayBoundIsMet | rate_limiter.go:107-112 | for every k, and every positive day limit of at most 24 times the hour limit and 1440 times the minute limit, a run with at most k sends in flight has a day with limit + k - 1 records |
| RateLimitTightness.MinuteBoundIsMet | rate_limiter.go:113-118 | when the hour and day limits are at least the minute limit plus the allowance, for every k a run with at most k sends in flight has a minute with limit + allowance + k - 1 records |
| RateLimits.HourWindow | rate_limiter.go:107-112 | the bound for every half-open hour |
| RateLimits.DayWindow | rate_limiter.go:107-112 | the bound for every half-open day |
| RateLimits.MinuteWindow | rate_limiter.go:113-118 | the bound for every half-open minute |
| RateLimits.RunKeepsInv | rate_limiter.go:96-165 | every event of a run keeps the lists, limits, credits and permits consistent |
| RateLimits.BurstsAreBounded | rate_limiter.go:113-118 | no more sends are ever allowed as bursts than the allowance: a credit never comes back |
| RateLimits.RoomAtCheck | rate_limiter.go:96-120 | a successful check found fewer recorded sends than the limit in the last hour and day, and in the last minute unless it used a burst credit |
| RateLimits.ScaleLowers | rate_limiter.go:149-165 | scaling never raises a limit that is not negative, and never above zero one that is |
| RateLimits.PruneAgain | rate_limiter.go:122-131 | pruning with a later cutoff after an earlier one is pruning with the later one |
| RateLimiters.RateLimiter.PruneSlice | rate_limiter.go:122-131 | the in-place compaction keeps exactly the times after the cutoff, in order |
| RateLimiters.RateLimiter.CanSend | rate_limiter.go:96-120 | prunes the three lists, answers as the limits say and uses a burst credit only when the minute is full |
| RateLimiters.RateLimiter.Record | rate_limiter.go:135-145 | adds the time to all three lists |
| RateLimiters.RateLimiter.AdaptLimits | rate_limiter.go:149-165 | scales the three limits, and inversely the two delays, by the factor clamped to [0.1, 1] |
| SessionCaches.CacheRefinesDatabase | whatsmeow/store/sessioncache.go:72-125 | any sequence of loads, stores and flushes after a prefetch of any addresses returns what it returns without a cache, failures included, and a final flush leaves the same database |
| SessionCaches.StepRefines | whatsmeow/store/sessioncache.go:47-125 | after every operation the cache and database together stand for the database of the uncached run |
| SessionCaches.ContainsMissesUnflushed | whatsmeow/store/signal.go:122-129 | ContainsSession answers as without a cache if and only if the address is not newly stored and still unflushed |
| SessionCaches.UnflushedExample | whatsmeow/store/signal.go:122-129 | concrete run: a first session stored through the cache is denied by ContainsSession |
| SessionCaches.Device.WithCachedSessions | whatsmeow/store/sessioncache.go:72-104 | the loop caches exactly the sessions that deserialize, blank ones for missing rows; no addresses mean no cache |
| SessionCaches.Device.LoadSession | whatsmeow/store/signal.go:85-103 | the cached record, or else the database row, a blank session or a failure to deserialize |
| SessionCaches.Device.StoreSession | whatsmeow/store/signal.go:109-120 | marks the cached entry dirty, or writes the row when there is no cache |
| SessionCaches.Device.ContainsSession | whatsmeow/store/signal.go:122-129 | asks the database alone |
| SessionCaches.Device.PutCachedSessions | whatsmeow/store/sessioncache.go:106-125 | the loop writes exactly the dirty entries and empties the cache |
| LidResolvers.LidResolver.Learn | lid_resolver.go:28-56 | the two maps and the order list stay those of one list of pairs: the new pair in front, older pairs that share a side gone, cut at the maximum size |
| LidResolvers.LidResolver.RemoveFromOrder | lid_resolver.go:58-65 | the search loop removes the first occurrence and nothing else |
| LidResolvers.LidResolver.ResolveCanonical | lid_resolver.go:67-78 | the partner as a LID first, then as a phone number, or the JID itself |
| LidResolvers.LidResolver.GetLID | lid_resolver.go:80-84 | the LID paired with the phone number, or the empty string |
| LidResolvers.LidResolver.GetPN | lid_resolver.go:86-90 | the phone number paired with the LID, or the empty string |
| LidResolvers.MapsHold | lid_resolver.go:37-39 | the two maps of a distinct list hold exactly its pairs, one by each side, so they are mutually inverse and of the list's size |
| LidResolvers.LearnedKeeps | lid_resolver.go:28-56 | after learning, each side still has one partner, the size bound holds, and a pair is evicted for room only when nothing else had to go |
| LidResolvers.RunKeeps | lid_resolver.go:28-56 | on every run the list is distinct and bounded and holds only pairs that no later pair shares a side with; while no more pairs were learned than fit, it holds all of them |
| LidResolvers.ResolvedTwice | lid_resolver.go:67-78 | while no string is both a LID and a phone number, resolving twice leads back |
| RecentMessages.HitsExactly | whatsmeow/retry.go:79-98 | for a key with an id, the map holds it if and only if the slot of no add under that key was reused after its latest add, and then it holds the latest message |
| RecentMessages.HitsAreRecent | whatsmeow/retry.go:79-98 | a hit is the latest message under its key and one of the last 256 adds |
| RecentMessages.SpacedRepeatsAreFound | whatsmeow/retry.go:79-98 | when repeats of a key are at least 256 adds apart, each of the last 256 keys is found |
| RecentMessages.CloseRepeatIsLost | whatsmeow/retry.go:81-83 | a key repeated within 256 adds is lost once the slot of its earlier add is reused, though its latest message is recent |
| RecentMessages.CloseRepeatExample | whatsmeow/retry.go:79-91 | concrete history: a message sent twice and then 255 others is gone |
| RecentMessages.SizeIsBounded | whatsmeow/retry.go:79-91 | while every message has an id the map never holds more than 256 entries |
| RecentMessages.RecentMessageStore.AddRecentMessage | whatsmeow/retry.go:79-91 | the map, the ring array and the pointer stay those of the history of adds |
| RecentMessages.RecentMessageStore.GetRecentMessage | whatsmeow/retry.go:94-98 | looks the key up in what the history left in the map |
| CircuitBreakers.TrippedStaysOpen | circuit_breaker.go:42-109 | from the failure that trips a breaker on, every check inside the cooldown is refused, whatever happens to it or other JIDs, unless a success is recorded for it |
| CircuitBreakers.RunsTripExactly | circuit_breaker.go:42-109 | over every run with a threshold of at least one, a breaker is open or half open if and only if its failures have reached the threshold |
| CircuitBreakers.FailuresAreForgottenExactly | circuit_breaker.go:42-109 | over every run from the start the breakers hold the failures recorded for a JID since its last success if and only if no check of a JID with a breaker fell more than ten minutes after the latest of them while they were below the threshold; otherwise they hold fewer |
| CircuitBreakers.SeriesOpensExactly | circuit_breaker.go:84-101 | the failure that completes a series as long as the threshold opens the breaker if and only if the series had not gone stale in that sense |
| CircuitBreakers.EvictionIsInvisible | circuit_breaker.go:103-109 | forgetting stale breakers changes no JID's answer, at any later time |
| CircuitBreakers.EvictionForgetsFailures | circuit_breaker.go:42-109 | concrete runs: with a threshold of two, a check between two failures, just after the first went stale, keeps the breaker closed where it would have opened |
| CircuitBreakers.HalfOpenReopens | circuit_breaker.go:84-101 | while half open, one failure opens the breaker at once |
| CircuitBreakers.JidCircuitBreaker.EvictStale | circuit_breaker.go:103-109 | the loop removes exactly the closed breakers that have not failed for ten minutes |
| CircuitBreakers.JidCircuitBreaker.CanSend | circuit_breaker.go:42-67 | answers from the breaker as it was, evicts stale ones and half-opens an open one whose cooldown is over |
| CircuitBreakers.JidCircuitBreaker.RecordSuccess | circuit_breaker.go:70-81 | closes the breaker and clears its failures |
| CircuitBreakers.JidCircuitBreaker.RecordFailure | circuit_breaker.go:84-101 | counts the failure and opens the breaker at the threshold |

## Left out

- Network, websocket, HTTP and SQL I/O and their errors, logging, media, QR codes, the HTTP gateway: nothing to prove beyond the calls. A failing database call in the middle of `storeMACs` is not modelled, except for the conflict of the insertion.
- Dynamic types that the encoder does not know, for which it panics: values of the model hold only known ones.
- Cryptographic primitives, zlib, protobuf, JSON and libsignal records: abstract functions, with only size, inverse and shared-secret laws.
- The contents of the token dictionaries, and the contents of the reporting-field configuration: parameters.
- `UnmarshalJSON`, `Scan`, `UnmarshalText` and the child lookups of a node: no property beyond their bodies.
- `ProcessRecovery`, `ParsePatchList` and the patch builders: they take hashes on trust or only fill in records.
- `fakeIndexesToRemove` is always nil in the source and is not modelled; nor are the warnings about REMOVEs of missing indexes.
- The server's certificate check is one predicate; the chain inside it is not modelled.
- A Noise frame still being written when its caller's context ends may be overtaken by the next one: the model writes frames in the order of the calls.
- Frame, session and rate-limiter locks: each method is one atomic step. `GetDelay`, known chats, statistics and jitter are random or tabular.
- Session records are values: a cached record that the cipher changes without storing it is not modelled.
- The `wa` and `fb` parts of a recent message are one value; the persistent event buffer before it is not modelled.
- `shouldIncludeReportingToken` and the HMAC around the token.
- Warm-up, scheduler, health and the other anti-ban policies: tables and random delays.
- RateLimiters.RateLimiter.AdaptLimits: the factor is a real number, so the rounding of floating-point products and a NaN factor are not modelled.
- BinaryExactness.BlockedNode: a tree with a longer list than the decoder can produce is not covered; `BinaryExactness.RoundTripExactly` covers it, but only says that the normal form does not come back.
- ReportingTokenExtractor.ExtractReportingTokenContent: for a value that is cut off, and for a varint or length that would move the index back or overflow it, only that this happens is modelled, not what Go's slices do next.
- ResponseWaiters.RunsAreSafe: a disconnect node is recognised by pointer or tag as in the source; the handlers that run after a response are not modelled.
- BinaryDecoding.BinaryDecoder.Read: a failed Go type assertion is a failure value, where the source panics.
- NoiseHandshakes.DoHandshake: failing `SendFrame` calls, protobuf errors and the errors of `Finish` (handshake.go:38-44, 53-56, 102-105, 113-125) are not modelled; a response that does not parse counts as none.
- NoiseHandshakes.HandshakeAgrees: the server's side is not part of the repository and is written after the XX pattern; nothing is said about an active attacker.
