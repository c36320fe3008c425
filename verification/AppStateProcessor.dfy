/** The processor, the store and the hash state as the source keeps them: objects changed in place. */
module AppStateProcessor {
  import opened Basics
  import opened LtHash
  import opened AppStateMap
  import opened AppStateRows
  import Sync = AppStateSync
  import opened AppStateSync

  lemma {:induction false} PutFailureSpreads(rows: Rows, version: nat, entries: seq<Entry>, i: nat)
    requires i <= |entries| && PutMACs(rows, version, entries[..i]).None?
    ensures PutMACs(rows, version, entries).None?
    decreases |entries| - i
  {
    if i < |entries| {
      assert entries[..i + 1][..i] == entries[..i];
      PutFailureSpreads(rows, version, entries, i + 1);
    } else {
      assert entries[..i] == entries;
    }
  }

  /** The app-state tables of one collection (whatsmeow/store/sqlstore/store.go). */
  class Store {
    var saved: Option<HashValue>
    var rows: Rows

    function State(): StoreState
      reads this
    {
      StoreState(saved, rows)
    }

    constructor ()
      ensures State() == StoreState(None, map[])
    {
      saved := None;
      rows := map[];
    }

    /** Deleting the version row cascades to the MAC rows. */
    method DeleteVersion()
      modifies this
      ensures State() == StoreState(None, map[])
    {
      saved := None;
      rows := map[];
    }

    method PutVersion(value: HashValue)
      modifies this
      ensures State() == StoreState(Some(value), old(rows))
    {
      saved := Some(value);
    }

    method DeleteMutationMACs(indexes: seq<Bytes>)
      modifies this
      ensures State() == StoreState(old(saved), DeleteMACs(old(rows), indexes))
    {
      rows := DeleteMACs(rows, indexes);
    }

    /** A transaction of plain inserts: a duplicate key or an index MAC of the wrong length rolls all of them back. */
    method PutMutationMACs(version: nat, entries: seq<Entry>) returns (ok: bool)
      modifies this
      ensures saved == old(saved)
      ensures ok <==> PutMACs(old(rows), version, entries).Some?
      ensures rows == if ok then PutMACs(old(rows), version, entries).value else old(rows)
    {
      var txn := rows;
      for i := 0 to |entries|
        invariant rows == old(rows) && saved == old(saved)
        invariant PutMACs(rows, version, entries[..i]) == Some(txn)
      {
        var e := entries[i];
        assert entries[..i + 1][..i] == entries[..i];
        if (version, e.indexMAC) in txn || |e.indexMAC| != 32 {
          PutFailureSpreads(rows, version, entries, i + 1);
          return false;
        }
        txn := txn[(version, e.indexMAC) := e.valueMAC];
      }
      assert entries[..|entries|] == entries;
      rows := txn;
      ok := true;
    }
  }

  /** whatsmeow/appstate/hash.go: a version and a 128-byte array that is rewritten in place. */
  class HashState {
    var version: Uint64
    const hash: array<Byte>

    ghost predicate Valid() {
      hash.Length == HASH_SIZE
    }

    function Value(): HashValue
      requires Valid()
      reads this, hash
    {
      HashValue(version, hash[..])
    }

    constructor (value: HashValue)
      ensures Valid() && fresh(hash) && Value() == value
    {
      version := value.version;
      hash := new Byte[HASH_SIZE](i requires 0 <= i < HASH_SIZE => value.hash[i]);
      new;
      assert hash[..] == value.hash;
    }

    method UpdateHash(expand: Bytes -> Block, muts: seq<Mutation>, prev: (Bytes, nat) -> Option<Bytes>)
      requires Valid()
      modifies hash
      ensures hash[..] == AppStateMap.UpdateHash(expand, old(hash[..]), muts, prev)
    {
      var added: seq<Bytes>, removed: seq<Bytes> := [], [];
      for i := 0 to |muts|
        invariant hash[..] == old(hash[..])
        invariant added == AddedValues(muts[..i])
        invariant removed == RemovedValues(muts[..i], prev)
      {
        assert muts[..i + 1][..i] == muts[..i];
        if muts[i].op == SET {
          added := added + [muts[i].ValueMAC()];
        }
        var removal := prev(muts[i].indexMAC, i);
        if removal.Some? {
          removed := removed + [removal.value];
        }
      }
      assert muts[..|muts|] == muts;
      SubtractThenAddInPlace(expand, hash, removed, added);
    }
  }

  /** whatsmeow/appstate/decode.go: what one patch removes, adds and says. */
  class PatchOutput {
    var removedMACs: seq<Bytes>
    var addedMACs: seq<Entry>
    var mutations: seq<Decoded>

    constructor (mutations: seq<Decoded>)
      ensures removedMACs == [] && addedMACs == [] && this.mutations == mutations
    {
      removedMACs, addedMACs := [], [];
      this.mutations := mutations;
    }

    method RemoveMAC(indexMAC: Bytes)
      modifies `removedMACs, `addedMACs
      ensures removedMACs == old(removedMACs) + [indexMAC]
      ensures addedMACs == DropIndex(old(addedMACs), indexMAC)
    {
      removedMACs := removedMACs + [indexMAC];
      var kept: seq<Entry> := [];
      for i := 0 to |addedMACs|
        invariant addedMACs == old(addedMACs)
        invariant kept == DropIndex(addedMACs[..i], indexMAC)
      {
        assert addedMACs[..i + 1][..i] == addedMACs[..i];
        if addedMACs[i].indexMAC != indexMAC {
          kept := kept + [addedMACs[i]];
        }
      }
      assert addedMACs[..|addedMACs|] == addedMACs;
      addedMACs := kept;
    }

    method AddMAC(indexMAC: Bytes, valueMAC: Bytes)
      modifies `addedMACs
      ensures addedMACs == old(addedMACs) + [Entry(indexMAC, valueMAC)]
    {
      addedMACs := addedMACs + [Entry(indexMAC, valueMAC)];
    }
  }

  lemma {:induction false} DecodeFailureSpreads(cr: Crypto, muts: seq<Mutation>, validateMACs: bool, patchVersion: Uint64, i: nat, e: Error)
    requires i <= |muts| && Sync.DecodeMutations(cr, muts[..i], validateMACs, patchVersion) == Err(e)
    ensures Sync.DecodeMutations(cr, muts, validateMACs, patchVersion) == Err(e)
    decreases |muts| - i
  {
    if i < |muts| {
      assert muts[..i + 1][..i] == muts[..i];
      DecodeFailureSpreads(cr, muts, validateMACs, patchVersion, i + 1, e);
    } else {
      assert muts[..i] == muts;
    }
  }

  /** One turn of the decoding loop. */
  lemma NextMutation(cr: Crypto, muts: seq<Mutation>, validateMACs: bool, patchVersion: Uint64, i: nat)
    requires i < |muts|
    ensures Sync.DecodeMutations(cr, muts[..i + 1], validateMACs, patchVersion) ==
      match Sync.DecodeMutations(cr, muts[..i], validateMACs, patchVersion)
      case Err(e) => Err(e)
      case Ok(front) =>
        match DecodeMutation(cr, muts[i], validateMACs, patchVersion)
        case Err(e) => Err(e)
        case Ok(d) => Ok(front + [d])
    ensures RemovedMACs(muts[..i + 1]) == RemovedMACs(muts[..i]) + (if muts[i].op == REMOVE then [muts[i].indexMAC] else [])
    ensures AddedMACs(muts[..i + 1]) ==
      if muts[i].op == SET then AddedMACs(muts[..i]) + [Entry(muts[i].indexMAC, muts[i].ValueMAC())]
      else DropIndex(AddedMACs(muts[..i]), muts[i].indexMAC)
  {
    hide DecodeMutation;
    assert muts[..i + 1][..i] == muts[..i];
  }

  lemma NoMutations(cr: Crypto, muts: seq<Mutation>, validateMACs: bool, patchVersion: Uint64)
    ensures Sync.DecodeMutations(cr, muts[..0], validateMACs, patchVersion) == Ok([])
    ensures RemovedMACs(muts[..0]) == [] && AddedMACs(muts[..0]) == []
  {
  }

  class Processor {
    const cr: Crypto
    const name: Bytes
    const store: Store

    constructor (cr: Crypto, name: Bytes, store: Store)
      ensures this.cr == cr && this.name == name && this.store == store
    {
      this.cr, this.name, this.store := cr, name, store;
    }

    method DecodeMutations(muts: seq<Mutation>, out: PatchOutput, validateMACs: bool, patchVersion: Uint64)
      returns (err: Option<Error>)
      requires out.removedMACs == [] && out.addedMACs == []
      modifies out
      ensures match Sync.DecodeMutations(cr, muts, validateMACs, patchVersion)
        case Err(e) => err == Some(e)
        case Ok(ds) =>
          && err == None
          && out.mutations == old(out.mutations) + ds
          && out.removedMACs == RemovedMACs(muts)
          && out.addedMACs == AddedMACs(muts)
    {
      hide DecodeMutation, Sync.DecodeMutations, RemovedMACs, AddedMACs, DropIndex;
      NoMutations(cr, muts, validateMACs, patchVersion);
      for i := 0 to |muts|
        invariant Sync.DecodeMutations(cr, muts[..i], validateMACs, patchVersion).Ok?
        invariant out.mutations == old(out.mutations) + Sync.DecodeMutations(cr, muts[..i], validateMACs, patchVersion).value
        invariant out.removedMACs == RemovedMACs(muts[..i])
        invariant out.addedMACs == AddedMACs(muts[..i])
      {
        var m := muts[i];
        NextMutation(cr, muts, validateMACs, patchVersion, i);
        var d := DecodeMutation(cr, m, validateMACs, patchVersion);
        if d.Err? {
          DecodeFailureSpreads(cr, muts, validateMACs, patchVersion, i + 1, d.error);
          return Some(d.error);
        }
        if m.op == REMOVE {
          out.RemoveMAC(m.indexMAC);
        } else {
          out.AddMAC(m.indexMAC, m.ValueMAC());
        }
        out.mutations := out.mutations + [d.value];
      }
      assert muts[..|muts|] == muts;
      err := None;
    }

    method StoreMACs(state: HashState, out: PatchOutput) returns (ok: bool)
      requires state.Valid()
      modifies store
      ensures (store.State(), ok) == Sync.StoreMACs(old(store.State()), state.Value(), out.removedMACs, out.addedMACs)
    {
      store.PutVersion(state.Value());
      store.DeleteMutationMACs(out.removedMACs);
      ok := store.PutMutationMACs(state.version, out.addedMACs);
    }

    method ValidatePatch(patch: Patch, current: HashState, validateMACs: bool) returns (newState: HashState, err: Option<Error>)
      requires current.Valid()
      ensures newState.Valid() && fresh(newState) && fresh(newState.hash)
      ensures match Sync.ValidatePatch(cr, name, store.rows, current.Value(), patch, validateMACs)
        case Err(e) => err == Some(e)
        case Ok(v) => err == None && newState.Value() == v
    {
      hide AppStateMap.UpdateHash, Current, SnapshotMAC, PatchMAC;
      newState := new HashState(current.Value());
      newState.version := patch.version;
      newState.UpdateHash(cr.expand, patch.mutations, PatchLookup(patch.mutations, Current(store.rows)));
      if validateMACs {
        var keys := ValidateSnapshotMAC(cr, name, newState.Value(), patch.keyID, patch.snapshotMAC);
        if keys.Err? {
          return newState, Some(keys.error);
        }
        if PatchMAC(cr, patch.snapshotMAC, patch.mutations, name, keys.value.patchMAC, patch.version) != patch.patchMAC {
          return newState, Some(MismatchingPatchMAC);
        }
      }
      err := None;
    }

    method DecodeSnapshot(ss: Snapshot, initial: HashState, validateMACs: bool)
      returns (newMutations: seq<Decoded>, current: HashState, err: Option<Failure>)
      requires initial.Valid()
      modifies store
      ensures current.Valid() && fresh(current) && fresh(current.hash)
      ensures Run(store.State(), current.Value(), newMutations, err)
           == RunSnapshot(cr, name, old(store.State()), old(initial.Value()), ss, validateMACs)
    {
      hide AppStateMap.UpdateHash, SnapshotMAC, Sync.DecodeMutations, Sync.StoreMACs, AddedMACs, RemovedMACs;
      current := new HashState(initial.Value());
      current.version := ss.version;
      var muts := AsMutations(ss.records);
      current.UpdateHash(cr.expand, muts, NoLookup());
      if validateMACs {
        var keys := ValidateSnapshotMAC(cr, name, current.Value(), ss.keyID, ss.mac);
        if keys.Err? {
          return [], current, Some(Rejected(keys.error));
        }
      }
      var out := new PatchOutput([]);
      var e := DecodeMutations(muts, out, validateMACs, current.version);
      if e.Some? {
        return [], current, Some(Rejected(e.value));
      }
      var ok := StoreMACs(current, out);
      if !ok {
        return [], current, Some(StoreConflict);
      }
      newMutations, err := out.mutations, None;
    }

    method DecodePatches(list: PatchList, initial: HashValue, validateMACs: bool)
      returns (newMutations: seq<Decoded>, current: HashState, err: Option<Failure>)
      modifies store
      ensures current.Valid() && fresh(current) && fresh(current.hash)
      ensures Run(store.State(), current.Value(), newMutations, err)
           == Sync.DecodePatches(cr, name, old(store.State()), initial, list, validateMACs)
    {
      hide Sync.ValidatePatch, Sync.DecodeMutations, Sync.StoreMACs, AddedMACs, RemovedMACs, RunSnapshot;
      current := new HashState(initial);
      newMutations := [];
      if list.snapshot.Some? {
        newMutations, current, err := DecodeSnapshot(list.snapshot.value, current, validateMACs);
        if err.Some? {
          return;
        }
      }
      ghost var store0, state0, done0 := store.State(), current.Value(), newMutations;
      for i := 0 to |list.patches|
        invariant current.Valid() && fresh(current) && fresh(current.hash)
        invariant RunPatches(cr, name, store0, state0, done0, list.patches, validateMACs)
               == RunPatches(cr, name, store.State(), current.Value(), newMutations, list.patches[i..], validateMACs)
      {
        var patch := list.patches[i];
        assert list.patches[i..][0] == patch && list.patches[i..][1..] == list.patches[i + 1..];
        var newState, e := ValidatePatch(patch, current, validateMACs);
        if e.Some? {
          err := Some(Rejected(e.value));
          return;
        }
        var out := new PatchOutput(newMutations);
        e := DecodeMutations(patch.mutations, out, validateMACs, newState.version);
        if e.Some? {
          err := Some(Rejected(e.value));
          return;
        }
        var ok := StoreMACs(newState, out);
        if !ok {
          err := Some(StoreConflict);
          return;
        }
        newMutations := out.mutations;
        current := newState;
      }
      assert list.patches[|list.patches|..] == [];
      err := None;
    }

    method EncodePatch(state: HashValue, infos: seq<MutationInfo>, ivs: seq<IV>, keyID: Bytes) returns (r: Result<Patch>)
      requires |ivs| == |infos|
      ensures r == Sync.EncodePatch(cr, name, store.rows, state, infos, ivs, keyID)
    {
      hide AppStateMap.UpdateHash, Current, SnapshotMAC, PatchMAC, EncodeMutation;
      if keyID !in cr.keys {
        return Err(KeyNotFound);
      }
      var keys := cr.keys[keyID];
      var muts: seq<Mutation> := [];
      for i := 0 to |infos|
        invariant muts == EncodeMutations(cr, keys, keyID, infos, ivs)[..i]
      {
        muts := muts + [EncodeMutation(cr, keys, keyID, infos[i], ivs[i])];
      }
      assert muts == EncodeMutations(cr, keys, keyID, infos, ivs);
      var hs := new HashState(state);
      hs.UpdateHash(cr.expand, muts, StoreLookup(Current(store.rows)));
      hs.version := (hs.version + 1) % 0x1_0000_0000_0000_0000;
      var mac := SnapshotMAC(cr, hs.Value(), name, keys.snapshotMAC);
      r := Ok(Patch(hs.version, muts, mac, PatchMAC(cr, mac, muts, name, keys.patchMAC, hs.version), keyID));
    }
  }
}
