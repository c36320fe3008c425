/** The write-back cache of Signal sessions (whatsmeow/store/sessioncache.go, whatsmeow/store/signal.go). */
module SessionCaches {
  import opened Basics

  type Database = map<string, Bytes>

  /** libsignal's session records: a new one, and the two directions of their serialization. */
  datatype Codec<!S(!new)> = Codec(blank: S, serialize: S -> Bytes, parse: Bytes -> Option<S>) {
    ghost predicate Valid() {
      forall s :: parse(serialize(s)) == Some(s)
    }
  }

  datatype Entry<S> = Entry(dirty: bool, found: bool, record: S)

  type Cache<S> = map<string, Entry<S>>

  datatype Op<S> = Load(addr: string) | Store(addr: string, record: S) | Flush

  /** A session as the database holds it: blank when there is no row, None when the row does not deserialize. */
  function Fetch<S(!new)>(c: Codec<S>, db: Database, addr: string): Option<S> {
    if addr in db then c.parse(db[addr]) else Some(c.blank)
  }

  // ---- Without a cache

  function Direct<S(!new)>(c: Codec<S>, db: Database, op: Op<S>): Database {
    match op
    case Store(addr, record) => db[addr := c.serialize(record)]
    case _ => db
  }

  function DirectLoads<S(!new)>(c: Codec<S>, db: Database, ops: seq<Op<S>>): seq<Option<S>>
    decreases ops
  {
    if ops == [] then []
    else
      var rest := DirectLoads(c, Direct(c, db, ops[0]), ops[1..]);
      if ops[0].Load? then [Fetch(c, db, ops[0].addr)] + rest else rest
  }

  function DirectAll<S(!new)>(c: Codec<S>, db: Database, ops: seq<Op<S>>): Database
    decreases ops
  {
    if ops == [] then db else DirectAll(c, Direct(c, db, ops[0]), ops[1..])
  }

  // ---- With a cache in the context

  datatype Cached<S> = Cached(db: Database, cache: Cache<S>)

  /** WithCachedSessions: sessions that do not deserialize are left out of the cache. */
  function Prefetch<S(!new)>(c: Codec<S>, db: Database, addresses: set<string>): Cache<S> {
    map addr | addr in addresses && Fetch(c, db, addr).Some? :: Entry(false, addr in db, Fetch(c, db, addr).value)
  }

  /** Its other result: which addresses have a session. */
  function Existing<S(!new)>(c: Codec<S>, db: Database, addresses: set<string>): map<string, bool> {
    map addr | addr in addresses && Fetch(c, db, addr).Some? :: addr in db
  }

  function Lookup<S(!new)>(c: Codec<S>, s: Cached<S>, addr: string): Option<S> {
    if addr in s.cache then Some(s.cache[addr].record) else Fetch(c, s.db, addr)
  }

  function DirtyRows<S(!new)>(c: Codec<S>, cache: Cache<S>): Database {
    map addr | addr in cache && cache[addr].dirty :: c.serialize(cache[addr].record)
  }

  /** PutCachedSessions empties the cache but leaves it in the context. */
  function After<S(!new)>(c: Codec<S>, s: Cached<S>, op: Op<S>): Cached<S> {
    match op
    case Load(_) => s
    case Store(addr, record) => s.(cache := s.cache[addr := Entry(true, true, record)])
    case Flush => Cached(s.db + DirtyRows(c, s.cache), map[])
  }

  function CachedLoads<S(!new)>(c: Codec<S>, s: Cached<S>, ops: seq<Op<S>>): seq<Option<S>>
    decreases ops
  {
    if ops == [] then []
    else
      var rest := CachedLoads(c, After(c, s, ops[0]), ops[1..]);
      if ops[0].Load? then [Lookup(c, s, ops[0].addr)] + rest else rest
  }

  function AfterAll<S(!new)>(c: Codec<S>, s: Cached<S>, ops: seq<Op<S>>): Cached<S>
    decreases ops
  {
    if ops == [] then s else AfterAll(c, After(c, s, ops[0]), ops[1..])
  }

  // ---- The cache stands for the database it would be flushed to

  predicate Clean<S(!new, ==)>(c: Codec<S>, s: Cached<S>) {
    forall addr :: addr in s.cache && !s.cache[addr].dirty ==> Fetch(c, s.db, addr) == Some(s.cache[addr].record)
  }

  function Flushed<S(!new)>(c: Codec<S>, s: Cached<S>): Database {
    s.db + DirtyRows(c, s.cache)
  }

  lemma LookupIsFetch<S(!new)>(c: Codec<S>, s: Cached<S>, addr: string)
    requires c.Valid() && Clean(c, s)
    ensures Lookup(c, s, addr) == Fetch(c, Flushed(c, s), addr)
  {
  }

  lemma StoreRefines<S(!new)>(c: Codec<S>, s: Cached<S>, addr: string, record: S)
    requires Clean(c, s)
    ensures var t := After(c, s, Store(addr, record));
      Clean(c, t) && Flushed(c, t) == Flushed(c, s)[addr := c.serialize(record)]
  {
    var t := After(c, s, Store(addr, record));
    DirtyRowsStore(c, s.cache, addr, record);
    OverrideLast(s.db, DirtyRows(c, s.cache), addr, c.serialize(record));
    hide DirtyRows, Fetch;
  }

  lemma DirtyRowsStore<S(!new)>(c: Codec<S>, cache: Cache<S>, addr: string, record: S)
    ensures DirtyRows(c, cache[addr := Entry(true, true, record)]) == DirtyRows(c, cache)[addr := c.serialize(record)]
  {
  }

  lemma OverrideLast(db: Database, rows: Database, addr: string, row: Bytes)
    ensures db + rows[addr := row] == (db + rows)[addr := row]
  {
  }

  lemma StepRefines<S(!new)>(c: Codec<S>, s: Cached<S>, op: Op<S>)
    requires c.Valid() && Clean(c, s)
    ensures Clean(c, After(c, s, op)) && Flushed(c, After(c, s, op)) == Direct(c, Flushed(c, s), op)
  {
    match op
    case Load(_) =>
    case Store(addr, record) => StoreRefines(c, s, addr, record);
    case Flush =>
      assert DirtyRows<S>(c, map[]) == map[];
  }

  lemma {:induction false} RunRefines<S(!new)>(c: Codec<S>, s: Cached<S>, ops: seq<Op<S>>)
    requires c.Valid() && Clean(c, s)
    ensures CachedLoads(c, s, ops) == DirectLoads(c, Flushed(c, s), ops)
    ensures Flushed(c, AfterAll(c, s, ops)) == DirectAll(c, Flushed(c, s), ops)
    decreases ops
  {
    hide Flushed, Clean, Lookup, Fetch, After, Direct;
    if ops != [] {
      StepRefines(c, s, ops[0]);
      RunRefines(c, After(c, s, ops[0]), ops[1..]);
      if ops[0].Load? {
        LookupIsFetch(c, s, ops[0].addr);
      }
    }
  }

  lemma PrefetchOneMore<S(!new)>(c: Codec<S>, db: Database, addresses: set<string>, addr: string)
    ensures Prefetch(c, db, addresses + {addr}) ==
      match Fetch(c, db, addr)
      case Some(r) => Prefetch(c, db, addresses)[addr := Entry(false, addr in db, r)]
      case None => Prefetch(c, db, addresses)
    ensures Existing(c, db, addresses + {addr}) ==
      match Fetch(c, db, addr)
      case Some(_) => Existing(c, db, addresses)[addr := addr in db]
      case None => Existing(c, db, addresses)
  {
    hide Fetch;
  }

  lemma PrefetchNone<S(!new)>(c: Codec<S>, db: Database)
    ensures Prefetch(c, db, {}) == map[] && Existing(c, db, {}) == map[]
  {
  }

  lemma PrefetchIsClean<S(!new)>(c: Codec<S>, db: Database, addresses: set<string>)
    ensures var s := Cached(db, Prefetch(c, db, addresses)); Clean(c, s) && Flushed(c, s) == db
  {
    assert DirtyRows(c, Prefetch(c, db, addresses)) == map[];
  }

  /**
   Whichever sessions were prefetched, loads through the cache return what loads without it return, failures included,
   and a final flush leaves the database that running without the cache leaves.
   */
  lemma CacheRefinesDatabase<S(!new)>(c: Codec<S>, db: Database, addresses: set<string>, ops: seq<Op<S>>)
    requires c.Valid()
    ensures var s := Cached(db, Prefetch(c, db, addresses));
      && CachedLoads(c, s, ops) == DirectLoads(c, db, ops)
      && After(c, AfterAll(c, s, ops), Flush) == Cached(DirectAll(c, db, ops), map[])
  {
    PrefetchIsClean(c, db, addresses);
    RunRefines(c, Cached(db, Prefetch(c, db, addresses)), ops);
  }

  /**
   ContainsSession asks the database alone: through a cache it answers as without one, unless the address has a session
   that is cached, not yet flushed, and new.
   */
  lemma ContainsMissesUnflushed<S(!new)>(c: Codec<S>, s: Cached<S>, addr: string)
    ensures (addr in s.db <==> addr in Flushed(c, s))
      <==> !(addr in s.cache && s.cache[addr].dirty && addr !in s.db)
  {
  }

  /** A first session stored through the cache: ContainsSession still denies it, without the cache it would not. */
  lemma UnflushedExample<S(!new)>(c: Codec<S>, addr: string, record: S)
    ensures var s := After(c, Cached(map[], Prefetch(c, map[], {addr})), Store(addr, record));
      addr !in s.db && addr in Flushed(c, s) && addr in Direct(c, map[], Store(addr, record))
  {
  }

  // ---- The methods

  class Device<S(!new, ==)> {
    const codec: Codec<S>
    var sessions: Database
    /** The cache in the context, if there is one. */
    var cache: Option<Cache<S>>

    constructor (codec: Codec<S>, sessions: Database)
      ensures this.codec == codec && this.sessions == sessions && cache == None
    {
      this.codec, this.sessions, this.cache := codec, sessions, None;
    }

    /** No addresses, no cache. */
    method WithCachedSessions(addresses: seq<string>) returns (existing: map<string, bool>)
      modifies this`cache
      ensures addresses == [] ==> cache == old(cache) && existing == map[]
      ensures addresses != [] ==>
        var all := set addr | addr in addresses;
        cache == Some(Prefetch(codec, sessions, all)) && existing == Existing(codec, sessions, all)
    {
      hide Prefetch, Existing;
      existing := map[];
      if addresses == [] {
        return;
      }
      ghost var all := set addr | addr in addresses;
      var todo := set addr | addr in addresses;
      var wrapped: Cache<S> := map[];
      PrefetchNone(codec, sessions);
      assert all - todo == {};
      while todo != {}
        invariant todo <= all
        invariant wrapped == Prefetch(codec, sessions, all - todo) && existing == Existing(codec, sessions, all - todo)
        decreases |todo|
      {
        var addr :| addr in todo;
        var record, found := Some(codec.blank), false;
        if addr in sessions {
          found := true;
          record := codec.parse(sessions[addr]);
        }
        if record.Some? {
          existing := existing[addr := found];
          wrapped := wrapped[addr := Entry(false, found, record.value)];
        }
        PrefetchOneMore(codec, sessions, all - todo, addr);
        assert all - (todo - {addr}) == all - todo + {addr};
        todo := todo - {addr};
      }
      assert all - todo == all;
      cache := Some(wrapped);
    }

    method LoadSession(addr: string) returns (r: Option<S>)
      ensures r == if cache.Some? then Lookup(codec, Cached(sessions, cache.value), addr) else Fetch(codec, sessions, addr)
    {
      if cache.Some? && addr in cache.value {
        return Some(cache.value[addr].record);
      }
      if addr !in sessions {
        return Some(codec.blank);
      }
      r := codec.parse(sessions[addr]);
    }

    method StoreSession(addr: string, record: S)
      modifies this`cache, this`sessions
      ensures old(cache).Some? ==>
        cache.Some? && Cached(sessions, cache.value) == After(codec, Cached(old(sessions), old(cache).value), Store(addr, record))
      ensures old(cache).None? ==> cache.None? && sessions == Direct(codec, old(sessions), Store(addr, record))
    {
      if cache.Some? {
        cache := Some(cache.value[addr := Entry(true, true, record)]);
        return;
      }
      sessions := sessions[addr := codec.serialize(record)];
    }

    method ContainsSession(addr: string) returns (has: bool)
      ensures has <==> addr in sessions
    {
      has := addr in sessions;
    }

    method PutCachedSessions()
      modifies this`cache, this`sessions
      ensures old(cache).Some? ==>
        cache.Some? && Cached(sessions, cache.value) == After(codec, Cached(old(sessions), old(cache).value), Flush)
      ensures old(cache).None? ==> cache.None? && sessions == old(sessions)
    {
      if cache.None? {
        return;
      }
      var entries, todo := cache.value, cache.value.Keys;
      var dirtySessions: Database := map[];
      while todo != {}
        invariant todo <= entries.Keys
        invariant dirtySessions == DirtyRows(codec, map addr | addr in entries && addr !in todo :: entries[addr])
        decreases |todo|
      {
        var addr :| addr in todo;
        if entries[addr].dirty {
          dirtySessions := dirtySessions[addr := codec.serialize(entries[addr].record)];
        }
        todo := todo - {addr};
      }
      assert (map addr | addr in entries && addr !in todo :: entries[addr]) == entries;
      sessions := sessions + dirtySessions;
      cache := Some(map[]);
    }
  }
}
