/** The ring of recently sent messages kept for retry receipts (whatsmeow/retry.go). */
module RecentMessages {
  import opened Basics
  import opened Jid

  const RING_SIZE := 256

  datatype Key = Key(to: JID, id: Bytes)

  datatype Add<M> = Add(key: Key, message: M)

  // ---- What the map holds after a history of adds

  /** The key whose slot the n-th add reuses, if it has an id: the ring never deletes a key without one. */
  function Evicted<M>(adds: seq<Add<M>>, n: nat): set<Key>
    requires n <= |adds|
  {
    if n >= RING_SIZE && adds[n - RING_SIZE].key.id != [] then {adds[n - RING_SIZE].key} else {}
  }

  function Stored<M>(adds: seq<Add<M>>): map<Key, M> {
    if adds == [] then map[]
    else
      var n := |adds| - 1;
      (Stored(adds[..n]) - Evicted(adds, n))[adds[n].key := adds[n].message]
  }

  /** t is the latest add under the key. */
  predicate Latest<M>(adds: seq<Add<M>>, key: Key, t: nat) {
    t < |adds| && adds[t].key == key && forall j :: t < j < |adds| ==> adds[j].key != key
  }

  /** After add t and before now, some add reused the slot of an add s under the same key. */
  predicate SlotReused<M>(adds: seq<Add<M>>, key: Key, t: nat) {
    exists s :: 0 <= s < |adds| && t < s + RING_SIZE < |adds| && adds[s].key == key
  }

  /** The latest message under a key is found unless the slot of any add under that key was reused after it. */
  lemma {:induction false} HitsExactly<M>(adds: seq<Add<M>>, key: Key)
    requires key.id != []
    ensures key in Stored(adds) <==> exists t: nat :: Latest(adds, key, t) && !SlotReused(adds, key, t)
    ensures forall t: nat :: key in Stored(adds) && Latest(adds, key, t) ==> Stored(adds)[key] == adds[t].message
    decreases |adds|
  {
    if adds != [] {
      var n := |adds| - 1;
      var before := adds[..n];
      HitsExactly(before, key);
      if adds[n].key == key {
        assert Latest(adds, key, n) && !SlotReused(adds, key, n);
      } else {
        forall t: nat ensures Latest(adds, key, t) <==> Latest(before, key, t) {
        }
        forall t: nat | Latest(before, key, t)
          ensures SlotReused(adds, key, t) <==> SlotReused(before, key, t) || key in Evicted(adds, n)
        {
          SlotReusedLast(adds, key, t);
        }
      }
    }
  }

  lemma SlotReusedLast<M>(adds: seq<Add<M>>, key: Key, t: nat)
    requires key.id != [] && adds != [] && t < |adds| - 1
    ensures var n := |adds| - 1;
      SlotReused(adds, key, t) <==> SlotReused(adds[..n], key, t) || key in Evicted(adds, n)
  {
    var n := |adds| - 1;
    if SlotReused(adds, key, t) {
      var s :| 0 <= s < |adds| && t < s + RING_SIZE < |adds| && adds[s].key == key;
      assert s + RING_SIZE < n ==> adds[..n][s].key == key;
    }
    if SlotReused(adds[..n], key, t) {
      var s :| 0 <= s < n && t < s + RING_SIZE < n && adds[..n][s].key == key;
      assert adds[s].key == key;
    }
    if key in Evicted(adds, n) {
      assert adds[n - RING_SIZE].key == key;
    }
  }

  /** A hit is the latest message under its key, and is one of the last 256 adds. */
  lemma HitsAreRecent<M>(adds: seq<Add<M>>, key: Key) returns (t: nat)
    requires key.id != [] && key in Stored(adds)
    ensures Latest(adds, key, t) && Stored(adds)[key] == adds[t].message && |adds| <= t + RING_SIZE
  {
    HitsExactly(adds, key);
    t :| Latest(adds, key, t) && !SlotReused(adds, key, t);
  }

  /** When repeats of a key are at least 256 adds apart, each of the last 256 keys is found. */
  lemma SpacedRepeatsAreFound<M>(adds: seq<Add<M>>, t: nat)
    requires t < |adds| <= t + RING_SIZE && adds[t].key.id != []
    requires forall i, j :: 0 <= i < j < |adds| && adds[i].key == adds[j].key ==> i + RING_SIZE <= j
    ensures adds[t].key in Stored(adds) && Stored(adds)[adds[t].key] == adds[t].message
  {
    HitsExactly(adds, adds[t].key);
    assert Latest(adds, adds[t].key, t);
  }

  /** A key repeated within 256 adds is lost when the slot of its earlier add is reused, though its latest is recent. */
  lemma CloseRepeatIsLost<M>(adds: seq<Add<M>>, s: nat, t: nat)
    requires s < t < s + RING_SIZE < |adds| && adds[s].key == adds[t].key && adds[t].key.id != []
    requires Latest(adds, adds[t].key, t)
    ensures adds[t].key !in Stored(adds)
  {
    HitsExactly(adds, adds[t].key);
  }

  /** A message sent twice in a row, and then 255 others: its second copy is recent, and it is gone. */
  lemma CloseRepeatExample<M>(key: Key, other: Key, message: M)
    requires key.id != [] && other != key
    ensures var adds := TwiceThen(key, other, message);
      |adds| == RING_SIZE + 1 && adds[1].key == key && |adds| <= 1 + RING_SIZE && key !in Stored(adds)
  {
    var adds := TwiceThen(key, other, message);
    hide Stored;
    assert Latest(adds, key, 1);
    CloseRepeatIsLost(adds, 0, 1);
  }

  function TwiceThen<M>(key: Key, other: Key, message: M): (adds: seq<Add<M>>)
    ensures |adds| == RING_SIZE + 1
  {
    seq(RING_SIZE + 1, i => if i < 2 then Add(key, message) else Add(other, message))
  }

  function KeysOf<M>(adds: seq<Add<M>>): set<Key> {
    if adds == [] then {} else {adds[0].key} + KeysOf(adds[1..])
  }

  lemma {:induction false} KeysOfSize<M>(adds: seq<Add<M>>)
    ensures |KeysOf(adds)| <= |adds|
    ensures forall i :: 0 <= i < |adds| ==> adds[i].key in KeysOf(adds)
  {
    if adds != [] {
      KeysOfSize(adds[1..]);
      forall i | 0 <= i < |adds| ensures adds[i].key in KeysOf(adds) {
        if i > 0 {
          assert adds[1..][i - 1] == adds[i];
        }
      }
    }
  }

  function Recent<M>(adds: seq<Add<M>>): (r: seq<Add<M>>)
    ensures |r| <= RING_SIZE
  {
    if |adds| <= RING_SIZE then adds else adds[|adds| - RING_SIZE..]
  }

  lemma HitIsRecent<M>(adds: seq<Add<M>>, key: Key)
    requires key.id != [] && key in Stored(adds)
    ensures key in KeysOf(Recent(adds))
  {
    var t := HitsAreRecent(adds, key);
    KeysOfSize(Recent(adds));
    hide Stored, KeysOf;
    assert Recent(adds)[t - (|adds| - |Recent(adds)|)] == adds[t];
  }

  lemma StoredHasID<M>(adds: seq<Add<M>>, key: Key)
    requires key in Stored(adds) && forall i :: 0 <= i < |adds| ==> adds[i].key.id != []
    ensures key.id != []
  {
    StoredKeys(adds);
  }

  /** As long as every message has an id, the map never holds more than 256 of them. */
  lemma SizeIsBounded<M>(adds: seq<Add<M>>)
    requires forall i :: 0 <= i < |adds| ==> adds[i].key.id != []
    ensures |Stored(adds)| <= RING_SIZE
  {
    hide Stored, KeysOf, Recent;
    forall key | key in Stored(adds).Keys ensures key in KeysOf(Recent(adds)) {
      StoredHasID(adds, key);
      HitIsRecent(adds, key);
    }
    KeysOfSize(Recent(adds));
    SubsetSize(Stored(adds).Keys, KeysOf(Recent(adds)));
  }

  lemma {:induction false} StoredKeys<M>(adds: seq<Add<M>>)
    ensures forall key :: key in Stored(adds) ==> exists i :: 0 <= i < |adds| && adds[i].key == key
    decreases |adds|
  {
    if adds != [] {
      StoredKeys(adds[..|adds| - 1]);
    }
  }

  /** The slots hold the keys of the last 256 adds, and the ones not used yet hold no id. */
  predicate Ring<M>(slots: seq<Key>, adds: seq<Add<M>>) {
    && |slots| == RING_SIZE
    && (forall j :: 0 <= j < |adds| && |adds| <= j + RING_SIZE ==> slots[j % RING_SIZE] == adds[j].key)
    && (forall i :: |adds| <= i < RING_SIZE ==> slots[i].id == [])
  }

  lemma Slots(j: nat, n: nat)
    requires j < n <= j + RING_SIZE
    ensures j % RING_SIZE == n % RING_SIZE <==> n == j + RING_SIZE
  {
  }

  lemma NextSlot(n: nat)
    ensures (n + 1) % RING_SIZE == if n % RING_SIZE + 1 >= RING_SIZE then 0 else n % RING_SIZE + 1
  {
  }

  /** The slot that the next add reuses holds the key it evicts. */
  lemma NextEvicts<M>(slots: seq<Key>, adds: seq<Add<M>>)
    requires Ring(slots, adds)
    ensures var key := slots[|adds| % RING_SIZE];
      Evicted(adds, |adds|) == if key.id != [] then {key} else {}
  {
    if |adds| >= RING_SIZE {
      Slots(|adds| - RING_SIZE, |adds|);
    }
  }

  lemma RingNext<M>(slots: seq<Key>, adds: seq<Add<M>>, a: Add<M>)
    requires Ring(slots, adds)
    ensures Ring(slots[|adds| % RING_SIZE := a.key], adds + [a])
  {
    var n, after := |adds|, slots[|adds| % RING_SIZE := a.key];
    forall j | 0 <= j < n + 1 && n + 1 <= j + RING_SIZE ensures after[j % RING_SIZE] == (adds + [a])[j].key {
      if j < n {
        Slots(j, n);
      }
    }
  }

  lemma StoredNext<M>(adds: seq<Add<M>>, a: Add<M>)
    ensures Stored(adds + [a]) == (Stored(adds) - Evicted(adds, |adds|))[a.key := a.message]
  {
    assert (adds + [a])[..|adds|] == adds;
    assert Evicted(adds + [a], |adds|) == Evicted(adds, |adds|);
    hide Evicted;
  }

  class RecentMessageStore<M(0)> {
    var messages: map<Key, M>
    const list: array<Key>
    var ptr: nat
    ghost var adds: seq<Add<M>>

    ghost predicate Valid()
      reads this, list
    {
      Ring(list[..], adds) && ptr == |adds| % RING_SIZE && messages == Stored(adds)
    }

    constructor (nobody: JID)
      ensures Valid() && fresh(list) && adds == []
    {
      list := new Key[RING_SIZE](_ => Key(nobody, []));
      messages, ptr, adds := map[], 0, [];
    }

    method AddRecentMessage(to: JID, id: Bytes, message: M)
      requires Valid()
      modifies this, list
      ensures Valid() && adds == old(adds) + [Add(Key(to, id), message)]
    {
      hide Ring, Stored, Evicted;
      RingLength(list[..], adds);
      var key := Key(to, id);
      NextEvicts(list[..], adds);
      RingNext(list[..], adds, Add(key, message));
      StoredNext(adds, Add(key, message));
      NextSlot(|adds|);
      if list[ptr].id != [] {
        messages := messages - {list[ptr]};
      }
      messages := messages[key := message];
      list[ptr] := key;
      assert list[..] == old(list[..])[ptr := key];
      adds := adds + [Add(key, message)];
      ptr := ptr + 1;
      if ptr >= list.Length {
        ptr := 0;
      }
    }

    /** The zero value, when there is no entry. */
    method GetRecentMessage(to: JID, id: Bytes) returns (r: Option<M>)
      requires Valid()
      ensures r == if Key(to, id) in Stored(adds) then Some(Stored(adds)[Key(to, id)]) else None
    {
      r := if Key(to, id) in messages then Some(messages[Key(to, id)]) else None;
    }
  }

  lemma RingLength<M>(slots: seq<Key>, adds: seq<Add<M>>)
    requires Ring(slots, adds)
    ensures |slots| == RING_SIZE
  {
  }
}
