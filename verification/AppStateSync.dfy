/**
 Decoding, validating and storing patches, as functions on values
 (whatsmeow/appstate/decode.go, whatsmeow/appstate/encode.go).
 */
module AppStateSync {
  import opened Basics
  import opened BigEndian
  import opened LtHash
  import opened AppStateMap
  import opened AppStateRows

  type Uint64 = x: int | 0 <= x < 0x1_0000_0000_0000_0000

  type IV = b: Bytes | |b| == 16 witness seq(16, _ => 0)

  type Mac512 = b: Bytes | |b| == 64 witness seq(64, _ => 0)

  datatype Keys = Keys(index: Bytes, valueEncryption: Bytes, valueMAC: Bytes, snapshotMAC: Bytes, patchMAC: Bytes)

  /** SyncActionData: the serialised index, the serialised value and the action version. */
  datatype Action = Action(index: Bytes, value: Bytes, version: int)

  /** Everything cryptographic or serialised, as parameters. */
  datatype Crypto = Crypto(
    keys: map<Bytes, Keys>,
    expand: Bytes -> Block,
    hmac256: (Bytes, Bytes) -> Mac,
    hmac512: (Bytes, Bytes) -> Mac512,
    encrypt: (Bytes, IV, Bytes) -> Bytes,
    decrypt: (Bytes, IV, Bytes) -> Option<Bytes>,
    marshalAction: Action -> Bytes,
    unmarshalAction: Bytes -> Option<Action>,
    marshalIndex: seq<Bytes> -> Bytes,
    unmarshalIndex: Bytes -> Option<seq<Bytes>>)
  {
    /** The inverse laws of AES-CBC, protobuf and JSON. */
    ghost predicate Lawful() {
      && (forall k, iv, p :: decrypt(k, iv, encrypt(k, iv, p)) == Some(p))
      && (forall a :: unmarshalAction(marshalAction(a)) == Some(a))
      && (forall i :: unmarshalIndex(marshalIndex(i)) == Some(i))
    }
  }

  datatype Error =
    | KeyNotFound | MismatchingContentMAC | DecryptFailed | BadProtobuf | MismatchingIndexMAC | BadIndexJSON
    | MismatchingLTHash | MismatchingPatchMAC | ContentTooShort

  datatype Result<+T> = Ok(value: T) | Err(error: Error)

  datatype HashValue = HashValue(version: Uint64, hash: Block)

  /** HashState{}: version zero and a zero hash. */
  function EmptyHash(): HashValue {
    HashValue(0, seq(HASH_SIZE, _ => 0))
  }

  /** The version row and the MAC rows of one collection. */
  datatype StoreState = StoreState(saved: Option<HashValue>, rows: Rows)

  datatype Patch = Patch(version: Uint64, mutations: seq<Mutation>, snapshotMAC: Bytes, patchMAC: Bytes, keyID: Bytes)

  datatype Record = Record(indexMAC: Bytes, value: Blob, keyID: Bytes)

  datatype Snapshot = Snapshot(version: Uint64, records: seq<Record>, mac: Bytes, keyID: Bytes)

  datatype Decoded = Decoded(keyID: Bytes, op: Operation, value: Bytes, version: int, index: seq<Bytes>,
                             indexMAC: Bytes, valueMAC: Mac, patchVersion: Uint64)

  // ---- MACs

  function SnapshotMAC(cr: Crypto, st: HashValue, name: Bytes, key: Bytes): Mac {
    cr.hmac256(key, st.hash + IntBytes(st.version, 8) + name)
  }

  function ValueMACs(muts: seq<Mutation>): Bytes {
    if muts == [] then [] else ValueMACs(muts[..|muts| - 1]) + muts[|muts| - 1].ValueMAC()
  }

  function PatchMAC(cr: Crypto, snapshotMAC: Bytes, muts: seq<Mutation>, name: Bytes, key: Bytes, version: Uint64): Mac {
    cr.hmac256(key, snapshotMAC + ValueMACs(muts) + IntBytes(version, 8) + name)
  }

  function ContentMACInput(op: Operation, data: Bytes, keyID: Bytes): Bytes {
    [if op == SET then 1 else 2] + keyID + data + IntBytes(|keyID| + 1, 8)
  }

  function ContentMAC(cr: Crypto, op: Operation, data: Bytes, keyID: Bytes, key: Bytes): Mac {
    cr.hmac512(key, ContentMACInput(op, data, keyID))[..32]
  }

  lemma ContentMACInputParts(op: Operation, data: Bytes, keyID: Bytes)
    requires |keyID| + 1 < 0x1_0000_0000_0000_0000
    ensures var m := ContentMACInput(op, data, keyID);
      && |m| == 9 + |keyID| + |data|
      && m[0] == (if op == SET then 1 else 2)
      && IntOf(m[|m| - 8..]) == |keyID| + 1
      && m[1..1 + |keyID|] == keyID
      && m[1 + |keyID|..|m| - 8] == data
  {
    hide IntBytes, IntOf;
    var m := ContentMACInput(op, data, keyID);
    Shift8();
    IntRoundTrip(|keyID| + 1, 8);
    assert m[|m| - 8..] == IntBytes(|keyID| + 1, 8);
  }

  /** The length at the end makes the authenticated bytes unambiguous: no two triples are authenticated as the same bytes. */
  lemma ContentMACInputIsInjective(op1: Operation, data1: Bytes, keyID1: Bytes, op2: Operation, data2: Bytes, keyID2: Bytes)
    requires |keyID1| + 1 < 0x1_0000_0000_0000_0000 && |keyID2| + 1 < 0x1_0000_0000_0000_0000
    requires ContentMACInput(op1, data1, keyID1) == ContentMACInput(op2, data2, keyID2)
    ensures op1 == op2 && data1 == data2 && keyID1 == keyID2
  {
    hide ContentMACInput;
    ContentMACInputParts(op1, data1, keyID1);
    ContentMACInputParts(op2, data2, keyID2);
  }

  lemma Shift8()
    ensures ShiftLeft(1, 8) == 0x1_0000_0000_0000_0000
  {
    assert ShiftLeft(1, 3) == 0x100_0000;
    assert ShiftLeft(1, 6) == 0x1_0000_0000_0000;
  }

  // ---- Decoding mutations

  /** ContentTooShort stands for a content that passes its MAC and has no room for the IV, on which the source panics. */
  function DecodeMutation(cr: Crypto, m: Mutation, validateMACs: bool, patchVersion: Uint64): Result<Decoded> {
    if m.keyID !in cr.keys then Err(KeyNotFound)
    else
      var keys, content := cr.keys[m.keyID], m.value[..|m.value| - 32];
      if validateMACs && ContentMAC(cr, m.op, content, m.keyID, keys.valueMAC) != m.ValueMAC() then Err(MismatchingContentMAC)
      else if |content| < 16 then Err(ContentTooShort)
      else match cr.decrypt(keys.valueEncryption, content[..16], content[16..])
        case None => Err(DecryptFailed)
        case Some(plaintext) =>
          match cr.unmarshalAction(plaintext)
          case None => Err(BadProtobuf)
          case Some(action) =>
            if validateMACs && cr.hmac256(keys.index, action.index) != m.indexMAC then Err(MismatchingIndexMAC)
            else match cr.unmarshalIndex(action.index)
              case None => Err(BadIndexJSON)
              case Some(index) =>
                Ok(Decoded(m.keyID, m.op, action.value, action.version, index, m.indexMAC, m.ValueMAC(), patchVersion))
  }

  /** All mutations in order, or the first failure. */
  function DecodeMutations(cr: Crypto, muts: seq<Mutation>, validateMACs: bool, patchVersion: Uint64): (r: Result<seq<Decoded>>)
    ensures r.Ok? ==> |r.value| == |muts|
  {
    if muts == [] then Ok([])
    else match DecodeMutations(cr, muts[..|muts| - 1], validateMACs, patchVersion)
      case Err(e) => Err(e)
      case Ok(front) =>
        match DecodeMutation(cr, muts[|muts| - 1], validateMACs, patchVersion)
        case Err(e) => Err(e)
        case Ok(d) => Ok(front + [d])
  }

  // ---- Validating and storing

  function ValidateSnapshotMAC(cr: Crypto, name: Bytes, st: HashValue, keyID: Bytes, expected: Bytes): Result<Keys> {
    if keyID !in cr.keys then Err(KeyNotFound)
    else if SnapshotMAC(cr, st, name, cr.keys[keyID].snapshotMAC) != expected then Err(MismatchingLTHash)
    else Ok(cr.keys[keyID])
  }

  function PatchedHash(cr: Crypto, rows: Rows, state: HashValue, muts: seq<Mutation>): Block {
    UpdateHash(cr.expand, state.hash, muts, PatchLookup(muts, Current(rows)))
  }

  function ValidatePatch(cr: Crypto, name: Bytes, rows: Rows, state: HashValue, patch: Patch, validateMACs: bool): Result<HashValue> {
    var newState := HashValue(patch.version, PatchedHash(cr, rows, state, patch.mutations));
    if !validateMACs then Ok(newState)
    else match ValidateSnapshotMAC(cr, name, newState, patch.keyID, patch.snapshotMAC)
      case Err(e) => Err(e)
      case Ok(keys) =>
        if PatchMAC(cr, patch.snapshotMAC, patch.mutations, name, keys.patchMAC, patch.version) != patch.patchMAC
        then Err(MismatchingPatchMAC)
        else Ok(newState)
  }

  /** storeMACs: the version row first, then the deletions, then the insertions; only the insertions can conflict. */
  function StoreMACs(store: StoreState, newState: HashValue, removed: seq<Bytes>, added: seq<Entry>): (StoreState, bool) {
    var rows := DeleteMACs(store.rows, removed);
    match PutMACs(rows, newState.version, added)
    case None => (StoreState(Some(newState), rows), false)
    case Some(r) => (StoreState(Some(newState), r), true)
  }

  /** Why a run stopped: something was rejected before anything was stored, or the insertion of MAC rows conflicted. */
  datatype Failure = Rejected(why: Error) | StoreConflict

  datatype Run = Run(store: StoreState, state: HashValue, mutations: seq<Decoded>, error: Option<Failure>)

  /** One turn of the loop in DecodePatches. */
  function RunPatch(cr: Crypto, name: Bytes, store: StoreState, state: HashValue, done: seq<Decoded>,
                    patch: Patch, validateMACs: bool): Run {
    match ValidatePatch(cr, name, store.rows, state, patch, validateMACs)
    case Err(e) => Run(store, state, done, Some(Rejected(e)))
    case Ok(newState) =>
      match DecodeMutations(cr, patch.mutations, validateMACs, newState.version)
      case Err(e) => Run(store, state, done, Some(Rejected(e)))
      case Ok(ds) =>
        var (newStore, ok) := StoreMACs(store, newState, RemovedMACs(patch.mutations), AddedMACs(patch.mutations));
        if ok then Run(newStore, newState, done + ds, None) else Run(newStore, state, done, Some(StoreConflict))
  }

  function RunPatches(cr: Crypto, name: Bytes, store: StoreState, state: HashValue, done: seq<Decoded>,
                      patches: seq<Patch>, validateMACs: bool): Run
    decreases patches
  {
    if patches == [] then Run(store, state, done, None)
    else
      var r := RunPatch(cr, name, store, state, done, patches[0], validateMACs);
      if r.error.Some? then r
      else RunPatches(cr, name, r.store, r.state, r.mutations, patches[1..], validateMACs)
  }

  function AsMutations(records: seq<Record>): (muts: seq<Mutation>)
    ensures |muts| == |records|
    ensures forall i :: 0 <= i < |muts| ==> muts[i] == Mutation(SET, records[i].indexMAC, records[i].value, records[i].keyID)
  {
    seq(|records|, i requires 0 <= i < |records| => Mutation(SET, records[i].indexMAC, records[i].value, records[i].keyID))
  }

  function NoLookup(): (Bytes, nat) -> Option<Bytes> {
    (index: Bytes, i: nat) => None
  }

  /** decodeSnapshot */
  function RunSnapshot(cr: Crypto, name: Bytes, store: StoreState, initial: HashValue, ss: Snapshot, validateMACs: bool): Run {
    var muts := AsMutations(ss.records);
    var newState := HashValue(ss.version, UpdateHash(cr.expand, initial.hash, muts, NoLookup()));
    var valid := if validateMACs then ValidateSnapshotMAC(cr, name, newState, ss.keyID, ss.mac) else Ok(Keys([], [], [], [], []));
    match valid
    case Err(e) => Run(store, newState, [], Some(Rejected(e)))
    case Ok(_) =>
      match DecodeMutations(cr, muts, validateMACs, ss.version)
      case Err(e) => Run(store, newState, [], Some(Rejected(e)))
      case Ok(ds) =>
        var (newStore, ok) := StoreMACs(store, newState, RemovedMACs(muts), AddedMACs(muts));
        if ok then Run(newStore, newState, ds, None) else Run(newStore, newState, [], Some(StoreConflict))
  }

  datatype PatchList = PatchList(snapshot: Option<Snapshot>, patches: seq<Patch>)

  function DecodePatches(cr: Crypto, name: Bytes, store: StoreState, initial: HashValue, list: PatchList, validateMACs: bool): Run {
    match list.snapshot
    case None => RunPatches(cr, name, store, initial, [], list.patches, validateMACs)
    case Some(ss) =>
      var r := RunSnapshot(cr, name, store, initial, ss, validateMACs);
      if r.error.Some? then r
      else RunPatches(cr, name, r.store, r.state, r.mutations, list.patches, validateMACs)
  }

  // ---- Encoding

  datatype MutationInfo = MutationInfo(index: seq<Bytes>, value: Bytes, version: int)

  function EncodeMutation(cr: Crypto, keys: Keys, keyID: Bytes, info: MutationInfo, iv: IV): Mutation {
    var indexBytes := cr.marshalIndex(info.index);
    var content := iv + cr.encrypt(keys.valueEncryption, iv, cr.marshalAction(Action(indexBytes, info.value, info.version)));
    Mutation(SET, cr.hmac256(keys.index, indexBytes), content + ContentMAC(cr, SET, content, keyID, keys.valueMAC), keyID)
  }

  function EncodeMutations(cr: Crypto, keys: Keys, keyID: Bytes, infos: seq<MutationInfo>, ivs: seq<IV>): (muts: seq<Mutation>)
    requires |ivs| == |infos|
    ensures |muts| == |infos|
    ensures forall i :: 0 <= i < |muts| ==> muts[i] == EncodeMutation(cr, keys, keyID, infos[i], ivs[i]) && muts[i].op == SET
  {
    seq(|infos|, i requires 0 <= i < |infos| => EncodeMutation(cr, keys, keyID, infos[i], ivs[i]))
  }

  /** The encoder's lookup: only the database, never the patch being built. */
  function StoreLookup(db: MacMap): (Bytes, nat) -> Option<Bytes> {
    (index: Bytes, i: nat) => Lookup(db, index)
  }

  /** EncodePatch; the server gives the patch the next version number, which both MACs already cover. */
  function EncodePatch(cr: Crypto, name: Bytes, rows: Rows, state: HashValue, infos: seq<MutationInfo>, ivs: seq<IV>, keyID: Bytes): Result<Patch>
    requires |ivs| == |infos|
  {
    if keyID !in cr.keys then Err(KeyNotFound)
    else
      var keys := cr.keys[keyID];
      var muts := EncodeMutations(cr, keys, keyID, infos, ivs);
      var hash := UpdateHash(cr.expand, state.hash, muts, StoreLookup(Current(rows)));
      var version: Uint64 := (state.version + 1) % 0x1_0000_0000_0000_0000;
      var mac := SnapshotMAC(cr, HashValue(version, hash), name, keys.snapshotMAC);
      Ok(Patch(version, muts, mac, PatchMAC(cr, mac, muts, name, keys.patchMAC, version), keyID))
  }
}
