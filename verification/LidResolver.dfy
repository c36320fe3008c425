/** The bounded two-way map between LIDs and phone numbers (lid_resolver.go). */
module LidResolvers {
  import opened Basics

  datatype Pair = Pair(lid: string, pn: string)

  const DEFAULT_SIZE := 1000

  // ---- The list the resolver stands for, newest pair first

  function DropLid(pairs: seq<Pair>, lid: string): seq<Pair> {
    if pairs == [] then []
    else if pairs[0].lid == lid then DropLid(pairs[1..], lid)
    else [pairs[0]] + DropLid(pairs[1..], lid)
  }

  function DropPN(pairs: seq<Pair>, pn: string): seq<Pair> {
    if pairs == [] then []
    else if pairs[0].pn == pn then DropPN(pairs[1..], pn)
    else [pairs[0]] + DropPN(pairs[1..], pn)
  }

  /** Learning a pair puts it in front, drops older pairs that share a side, and cuts the list at its size. */
  function Learned(pairs: seq<Pair>, size: nat, lid: string, pn: string): seq<Pair> {
    var all := [Pair(lid, pn)] + DropPN(DropLid(pairs, lid), pn);
    if |all| > size then all[..size] else all
  }

  predicate Distinct(pairs: seq<Pair>) {
    forall i, j :: 0 <= i < j < |pairs| ==> pairs[i].lid != pairs[j].lid && pairs[i].pn != pairs[j].pn
  }

  predicate HasLid(pairs: seq<Pair>, lid: string) {
    pairs != [] && (pairs[0].lid == lid || HasLid(pairs[1..], lid))
  }

  predicate HasPN(pairs: seq<Pair>, pn: string) {
    pairs != [] && (pairs[0].pn == pn || HasPN(pairs[1..], pn))
  }

  lemma {:induction false} DropLidMembers(pairs: seq<Pair>, lid: string)
    ensures forall p :: p in DropLid(pairs, lid) <==> p in pairs && p.lid != lid
    ensures HasLid(pairs, lid) <==> exists p :: p in pairs && p.lid == lid
  {
    if pairs != [] {
      DropLidMembers(pairs[1..], lid);
      assert pairs == [pairs[0]] + pairs[1..];
    }
  }

  lemma {:induction false} DropPNMembers(pairs: seq<Pair>, pn: string)
    ensures forall p :: p in DropPN(pairs, pn) <==> p in pairs && p.pn != pn
    ensures HasPN(pairs, pn) <==> exists p :: p in pairs && p.pn == pn
  {
    if pairs != [] {
      DropPNMembers(pairs[1..], pn);
      assert pairs == [pairs[0]] + pairs[1..];
    }
  }

  lemma DistinctCons(p: Pair, rest: seq<Pair>)
    ensures Distinct([p] + rest) <==> Distinct(rest) && forall q :: q in rest ==> q.lid != p.lid && q.pn != p.pn
  {
    if Distinct([p] + rest) {
      forall i, j | 0 <= i < j < |rest| ensures rest[i].lid != rest[j].lid && rest[i].pn != rest[j].pn {
        assert ([p] + rest)[i + 1] == rest[i] && ([p] + rest)[j + 1] == rest[j];
      }
      forall q | q in rest ensures q.lid != p.lid && q.pn != p.pn {
        var j :| 0 <= j < |rest| && rest[j] == q;
        assert ([p] + rest)[0] == p && ([p] + rest)[j + 1] == q;
      }
    }
  }

  lemma {:induction false} DropLidDistinct(pairs: seq<Pair>, lid: string)
    requires Distinct(pairs)
    ensures Distinct(DropLid(pairs, lid))
    ensures if HasLid(pairs, lid) then |DropLid(pairs, lid)| == |pairs| - 1 else DropLid(pairs, lid) == pairs
  {
    hide Distinct;
    if pairs != [] {
      var p, rest := pairs[0], pairs[1..];
      assert pairs == [p] + rest;
      DistinctCons(p, rest);
      DropLidDistinct(rest, lid);
      DropLidMembers(rest, lid);
      DistinctCons(p, DropLid(rest, lid));
    }
  }

  lemma {:induction false} DropPNDistinct(pairs: seq<Pair>, pn: string)
    requires Distinct(pairs)
    ensures Distinct(DropPN(pairs, pn))
    ensures if HasPN(pairs, pn) then |DropPN(pairs, pn)| == |pairs| - 1 else DropPN(pairs, pn) == pairs
  {
    hide Distinct;
    if pairs != [] {
      var p, rest := pairs[0], pairs[1..];
      assert pairs == [p] + rest;
      DistinctCons(p, rest);
      DropPNDistinct(rest, pn);
      DropPNMembers(rest, pn);
      DistinctCons(p, DropPN(rest, pn));
    }
  }

  lemma CutFront(p: Pair, kept: seq<Pair>, size: nat)
    requires size > 0
    ensures var all := [p] + kept;
      (if |all| > size then all[..size] else all) == [p] + if |kept| < size then kept else kept[..size - 1]
  {
  }

  lemma DistinctPrefix(pairs: seq<Pair>, n: nat)
    requires Distinct(pairs) && n <= |pairs|
    ensures Distinct(pairs[..n])
  {
  }

  /** Each side still has one partner, and a pair is evicted for lack of room only when nothing else had to go. */
  lemma LearnedKeeps(pairs: seq<Pair>, size: nat, lid: string, pn: string)
    requires Distinct(pairs) && |pairs| <= size && size > 0
    ensures var r := Learned(pairs, size, lid, pn);
      var kept := DropPN(DropLid(pairs, lid), pn);
      && Distinct(r) && |r| <= size
      && (forall p :: p in kept <==> p in pairs && p.lid != lid && p.pn != pn)
      && (|kept| < size ==> r == [Pair(lid, pn)] + kept)
      && (|kept| >= size ==> kept == pairs && r == [Pair(lid, pn)] + pairs[..size - 1])
  {
    hide DropLid, DropPN, Distinct, HasLid, HasPN;
    var kept := DropPN(DropLid(pairs, lid), pn);
    DropLidMembers(pairs, lid);
    DropLidDistinct(pairs, lid);
    DropPNMembers(DropLid(pairs, lid), pn);
    DropPNDistinct(DropLid(pairs, lid), pn);
    CutFront(Pair(lid, pn), kept, size);
    DistinctCons(Pair(lid, pn), kept);
    if |kept| >= size {
      DistinctPrefix([Pair(lid, pn)] + kept, size);
    }
  }

  // ---- The two maps and the order list that hold it

  function Lids(pairs: seq<Pair>): (r: seq<string>)
    ensures |r| == |pairs|
  {
    seq(|pairs|, i requires 0 <= i < |pairs| => pairs[i].lid)
  }

  function LidMap(pairs: seq<Pair>): map<string, string> {
    if pairs == [] then map[] else LidMap(pairs[1..])[pairs[0].lid := pairs[0].pn]
  }

  function PNMap(pairs: seq<Pair>): map<string, string> {
    if pairs == [] then map[] else PNMap(pairs[1..])[pairs[0].pn := pairs[0].lid]
  }

  lemma {:induction false} MapKeys(pairs: seq<Pair>, jid: string)
    ensures jid in LidMap(pairs) <==> HasLid(pairs, jid)
    ensures jid in PNMap(pairs) <==> HasPN(pairs, jid)
  {
    if pairs != [] {
      MapKeys(pairs[1..], jid);
    }
  }

  /** On a list of distinct pairs the maps hold exactly the pairs, one by each side. */
  lemma {:induction false} MapsHold(pairs: seq<Pair>)
    requires Distinct(pairs)
    ensures forall lid, pn :: (lid in LidMap(pairs) && LidMap(pairs)[lid] == pn) <==> Pair(lid, pn) in pairs
    ensures forall lid, pn :: (pn in PNMap(pairs) && PNMap(pairs)[pn] == lid) <==> Pair(lid, pn) in pairs
    ensures |LidMap(pairs)| == |PNMap(pairs)| == |pairs|
  {
    if pairs != [] {
      MapsHold(pairs[1..]);
      var p, rest := pairs[0], pairs[1..];
      assert pairs == [p] + rest;
      DistinctCons(p, rest);
      MapKeys(rest, p.lid);
      MapKeys(rest, p.pn);
      DropLidMembers(rest, p.lid);
      DropPNMembers(rest, p.pn);
      assert LidMap(pairs).Keys == LidMap(rest).Keys + {p.lid};
      assert PNMap(pairs).Keys == PNMap(rest).Keys + {p.pn};
    }
  }

  predicate Holds(m: map<string, string>, k: string, v: string) {
    k in m && m[k] == v
  }

  lemma MapsAgree(m: map<string, string>, n: map<string, string>)
    requires forall k, v :: Holds(m, k, v) <==> Holds(n, k, v)
    ensures m == n
  {
    forall k ensures (k in m <==> k in n) && (k in m ==> m[k] == n[k]) {
      if k in m {
        assert Holds(m, k, m[k]);
      }
      if k in n {
        assert Holds(n, k, n[k]);
      }
    }
  }

  lemma LidIsMapped(pairs: seq<Pair>, lid: string)
    requires Distinct(pairs)
    ensures HasLid(pairs, lid) <==> lid in LidMap(pairs)
    ensures HasLid(pairs, lid) ==> Pair(lid, LidMap(pairs)[lid]) in pairs
  {
    MapsHold(pairs);
    DropLidMembers(pairs, lid);
    if p :| p in pairs && p.lid == lid {
      assert Pair(lid, p.pn) in pairs;
    }
  }

  lemma PNIsMapped(pairs: seq<Pair>, pn: string)
    requires Distinct(pairs)
    ensures HasPN(pairs, pn) <==> pn in PNMap(pairs)
    ensures HasPN(pairs, pn) ==> Pair(PNMap(pairs)[pn], pn) in pairs
  {
    MapsHold(pairs);
    DropPNMembers(pairs, pn);
    if p :| p in pairs && p.pn == pn {
      assert Pair(p.lid, pn) in pairs;
    }
  }

  /** Two pairs of a distinct list that share a side are one. */
  lemma SharedSide(pairs: seq<Pair>, p: Pair, q: Pair)
    requires Distinct(pairs) && p in pairs && q in pairs && (p.lid == q.lid || p.pn == q.pn)
    ensures p == q
  {
  }

  /** Taking one pair out of the list takes its two entries out of the maps. */
  lemma MapsWithout(pairs: seq<Pair>, rest: seq<Pair>, gone: Pair)
    requires Distinct(pairs) && Distinct(rest) && gone in pairs
    requires forall p :: p in rest <==> p in pairs && p != gone
    ensures LidMap(rest) == LidMap(pairs) - {gone.lid} && PNMap(rest) == PNMap(pairs) - {gone.pn}
  {
    MapsHold(pairs);
    MapsHold(rest);
    hide LidMap, PNMap, Distinct;
    var lids, pns := LidMap(pairs) - {gone.lid}, PNMap(pairs) - {gone.pn};
    forall k, v ensures Holds(lids, k, v) <==> Holds(LidMap(rest), k, v) {
      if Pair(k, v) in pairs && k == gone.lid {
        SharedSide(pairs, Pair(k, v), gone);
      }
    }
    MapsAgree(lids, LidMap(rest));
    forall k, v ensures Holds(pns, k, v) <==> Holds(PNMap(rest), k, v) {
      if Pair(v, k) in pairs && k == gone.pn {
        SharedSide(pairs, Pair(v, k), gone);
      }
    }
    MapsAgree(pns, PNMap(rest));
  }

  function RemoveFirst(order: seq<string>, lid: string): seq<string> {
    if order == [] then [] else if order[0] == lid then order[1..] else [order[0]] + RemoveFirst(order[1..], lid)
  }

  lemma {:induction false} DropLidOrder(pairs: seq<Pair>, lid: string)
    requires Distinct(pairs)
    ensures Lids(DropLid(pairs, lid)) == RemoveFirst(Lids(pairs), lid)
  {
    if pairs != [] {
      var p, rest := pairs[0], pairs[1..];
      assert pairs == [p] + rest;
      DistinctCons(p, rest);
      assert Lids(pairs)[1..] == Lids(rest);
      DropLidOrder(rest, lid);
      if p.lid == lid {
        DropLidMembers(rest, lid);
        DropLidDistinct(rest, lid);
      }
    }
  }

  /** Removing by phone number is removing by the LID that goes with it. */
  lemma {:induction false} DropPNIsDropLid(pairs: seq<Pair>, lid: string, pn: string)
    requires Distinct(pairs) && Pair(lid, pn) in pairs
    ensures DropPN(pairs, pn) == DropLid(pairs, lid)
  {
    var p, rest := pairs[0], pairs[1..];
    assert pairs == [p] + rest;
    DistinctCons(p, rest);
    DropLidMembers(rest, lid);
    DropPNMembers(rest, pn);
    DropLidDistinct(rest, lid);
    DropPNDistinct(rest, pn);
    if p != Pair(lid, pn) {
      DropPNIsDropLid(rest, lid, pn);
    }
  }

  lemma AfterDropLid(pairs: seq<Pair>, lid: string)
    requires Distinct(pairs)
    ensures var m, rest := LidMap(pairs), DropLid(pairs, lid);
      && Distinct(rest) && LidMap(rest) == m - {lid}
      && PNMap(rest) == (if lid in m then PNMap(pairs) - {m[lid]} else PNMap(pairs))
      && Lids(rest) == (if lid in m then RemoveFirst(Lids(pairs), lid) else Lids(pairs))
  {
    hide LidMap, PNMap, Distinct, Lids, RemoveFirst, HasLid, DropLid;
    LidIsMapped(pairs, lid);
    DropLidMembers(pairs, lid);
    DropLidDistinct(pairs, lid);
    if HasLid(pairs, lid) {
      var gone := Pair(lid, LidMap(pairs)[lid]);
      forall p | p in pairs && p.lid == lid ensures p == gone {
        SharedSide(pairs, p, gone);
      }
      MapsWithout(pairs, DropLid(pairs, lid), gone);
      DropLidOrder(pairs, lid);
    }
  }

  lemma AfterDropPN(pairs: seq<Pair>, pn: string)
    requires Distinct(pairs)
    ensures var m, rest := PNMap(pairs), DropPN(pairs, pn);
      && Distinct(rest) && PNMap(rest) == m - {pn}
      && LidMap(rest) == (if pn in m then LidMap(pairs) - {m[pn]} else LidMap(pairs))
      && Lids(rest) == (if pn in m then RemoveFirst(Lids(pairs), m[pn]) else Lids(pairs))
  {
    hide LidMap, PNMap, Distinct, Lids, RemoveFirst, HasPN, DropPN;
    PNIsMapped(pairs, pn);
    DropPNMembers(pairs, pn);
    DropPNDistinct(pairs, pn);
    if HasPN(pairs, pn) {
      var gone := Pair(PNMap(pairs)[pn], pn);
      forall p | p in pairs && p.pn == pn ensures p == gone {
        SharedSide(pairs, p, gone);
      }
      MapsWithout(pairs, DropPN(pairs, pn), gone);
      DropPNIsDropLid(pairs, gone.lid, pn);
      DropLidOrder(pairs, gone.lid);
    }
  }

  lemma AfterPush(p: Pair, rest: seq<Pair>)
    ensures LidMap([p] + rest) == LidMap(rest)[p.lid := p.pn] && PNMap([p] + rest) == PNMap(rest)[p.pn := p.lid]
    ensures Lids([p] + rest) == [p.lid] + Lids(rest)
  {
    assert ([p] + rest)[1..] == rest;
  }

  lemma OverwriteRemoved(m: map<string, string>, k: string, v: string)
    ensures (m - {k})[k := v] == m[k := v]
  {
  }

  lemma MapSize(pairs: seq<Pair>)
    requires Distinct(pairs)
    ensures |LidMap(pairs)| == |pairs|
  {
    MapsHold(pairs);
  }

  lemma LastIsApart(pairs: seq<Pair>)
    requires Distinct(pairs) && pairs != []
    ensures forall p :: p in pairs[..|pairs| - 1] <==> p in pairs && p != pairs[|pairs| - 1]
  {
    assert pairs == pairs[..|pairs| - 1] + [pairs[|pairs| - 1]];
  }

  lemma AfterEvict(pairs: seq<Pair>)
    requires Distinct(pairs) && pairs != []
    ensures var n, m := |pairs| - 1, LidMap(pairs);
      && Distinct(pairs[..n]) && Lids(pairs[..n]) == Lids(pairs)[..n] && Lids(pairs)[n] in m
      && LidMap(pairs[..n]) == m - {Lids(pairs)[n]} && PNMap(pairs[..n]) == PNMap(pairs) - {m[Lids(pairs)[n]]}
  {
    hide LidMap, PNMap, Distinct, Lids;
    var n := |pairs| - 1;
    LastIsApart(pairs);
    DistinctPrefix(pairs, n);
    LidsPrefix(pairs, n);
    PairIsMapped(pairs, pairs[n]);
    MapsWithout(pairs, pairs[..n], pairs[n]);
  }

  lemma LidsPrefix(pairs: seq<Pair>, n: nat)
    requires n < |pairs|
    ensures Lids(pairs[..n]) == Lids(pairs)[..n] && Lids(pairs)[n] == pairs[n].lid
  {
  }

  lemma PairIsMapped(pairs: seq<Pair>, p: Pair)
    requires Distinct(pairs) && p in pairs
    ensures p.lid in LidMap(pairs) && LidMap(pairs)[p.lid] == p.pn
  {
    MapsHold(pairs);
    assert Pair(p.lid, p.pn) in pairs;
  }

  lemma LearnedFits(pairs: seq<Pair>, lid: string, pn: string)
    requires Distinct(pairs)
    ensures var kept := DropPN(DropLid(pairs, lid), pn);
      Distinct([Pair(lid, pn)] + kept) && |kept| <= |pairs|
  {
    hide DropLid, DropPN, Distinct, HasLid, HasPN;
    DropLidMembers(pairs, lid);
    DropLidDistinct(pairs, lid);
    DropPNMembers(DropLid(pairs, lid), pn);
    DropPNDistinct(DropLid(pairs, lid), pn);
    DistinctCons(Pair(lid, pn), DropPN(DropLid(pairs, lid), pn));
  }

  /** The first pair with the LID, or with the phone number. */
  function PNOf(pairs: seq<Pair>, lid: string): Option<string> {
    if pairs == [] then None else if pairs[0].lid == lid then Some(pairs[0].pn) else PNOf(pairs[1..], lid)
  }

  function LidOf(pairs: seq<Pair>, pn: string): Option<string> {
    if pairs == [] then None else if pairs[0].pn == pn then Some(pairs[0].lid) else LidOf(pairs[1..], pn)
  }

  lemma {:induction false} MapsFind(pairs: seq<Pair>, jid: string)
    ensures PNOf(pairs, jid) == if jid in LidMap(pairs) then Some(LidMap(pairs)[jid]) else None
    ensures LidOf(pairs, jid) == if jid in PNMap(pairs) then Some(PNMap(pairs)[jid]) else None
  {
    if pairs != [] {
      MapsFind(pairs[1..], jid);
    }
  }

  /** The partner of a JID, taken as a LID first and then as a phone number; the JID itself when it has none. */
  function Resolved(pairs: seq<Pair>, jid: string): string {
    match PNOf(pairs, jid)
    case Some(pn) => pn
    case None =>
      match LidOf(pairs, jid)
      case Some(lid) => lid
      case None => jid
  }

  /** While no string is both a LID and a phone number, resolving twice leads back. */
  lemma ResolvedTwice(pairs: seq<Pair>, jid: string)
    requires Distinct(pairs) && forall p, q :: p in pairs && q in pairs ==> p.lid != q.pn
    ensures Resolved(pairs, Resolved(pairs, jid)) == jid
  {
    var other := Resolved(pairs, jid);
    MapsFind(pairs, jid);
    MapsFind(pairs, other);
    MapsHold(pairs);
    MapKeys(pairs, other);
    DropLidMembers(pairs, other);
    hide LidMap, PNMap, PNOf, LidOf, HasLid, DropLid;
    if jid in LidMap(pairs) {
      assert Pair(jid, other) in pairs;
      assert other in PNMap(pairs) && PNMap(pairs)[other] == jid;
    } else if jid in PNMap(pairs) {
      assert Pair(other, jid) in pairs;
    }
  }

  lemma CutAtSize(pairs: seq<Pair>, size: nat, lid: string, pn: string)
    requires Distinct(pairs) && |pairs| <= size
    ensures var all := [Pair(lid, pn)] + DropPN(DropLid(pairs, lid), pn);
      |all| <= size + 1 && Learned(pairs, size, lid, pn) == if |all| > size then all[..|all| - 1] else all
  {
    LearnedFits(pairs, lid, pn);
    hide DropLid, DropPN, Distinct;
  }

  // ---- Whole runs

  function LearnAll(size: nat, learns: seq<Pair>): seq<Pair> {
    if learns == [] then []
    else
      var last := |learns| - 1;
      Learned(LearnAll(size, learns[..last]), size, learns[last].lid, learns[last].pn)
  }

  predicate Shares(p: Pair, q: Pair) {
    p.lid == q.lid || p.pn == q.pn
  }

  /** The pair was learned, and nothing learned later shares a side with it. */
  predicate Current(learns: seq<Pair>, p: Pair) {
    exists k :: 0 <= k < |learns| && learns[k] == p && forall j :: k < j < |learns| ==> !Shares(learns[j], p)
  }

  lemma CurrentLast(learns: seq<Pair>, q: Pair, p: Pair)
    ensures Current(learns + [q], p) <==> p == q || (Current(learns, p) && !Shares(q, p))
  {
    var all := learns + [q];
    if Current(all, p) {
      var k :| 0 <= k < |all| && all[k] == p && forall j :: k < j < |all| ==> !Shares(all[j], p);
      if k < |learns| {
        assert !Shares(all[|learns|], p);
        forall j | k < j < |learns| ensures !Shares(learns[j], p) {
          assert all[j] == learns[j];
        }
      }
    }
    if p == q {
      assert all[|learns|] == p;
    } else if Current(learns, p) && !Shares(q, p) {
      var k :| 0 <= k < |learns| && learns[k] == p && forall j :: k < j < |learns| ==> !Shares(learns[j], p);
      assert all[k] == p;
    }
  }

  /** On every run the list is distinct, no longer than its size, and holds only pairs that are still current. */
  lemma {:induction false} RunKeeps(size: nat, learns: seq<Pair>)
    requires size > 0
    ensures var r := LearnAll(size, learns);
      && Distinct(r) && |r| <= size && |r| <= |learns|
      && (forall p :: p in r ==> Current(learns, p))
      && (|learns| <= size ==> forall p :: Current(learns, p) ==> p in r)
  {
    hide Distinct, Current, DropLid, DropPN;
    if learns == [] {
      EmptyRun();
    } else {
      var last := |learns| - 1;
      var before, q := LearnAll(size, learns[..last]), learns[last];
      RunKeeps(size, learns[..last]);
      assert learns == learns[..last] + [q];
      LearnedKeeps(before, size, q.lid, q.pn);
      LearnedFits(before, q.lid, q.pn);
      forall p ensures (p in LearnAll(size, learns) ==> Current(learns, p))
          && (|learns| <= size && Current(learns, p) ==> p in LearnAll(size, learns))
      {
        CurrentLast(learns[..last], q, p);
      }
    }
  }

  lemma EmptyRun()
    ensures Distinct([]) && forall p :: !Current([], p)
  {
  }

  class LidResolver {
    var lidToPN: map<string, string>
    var pnToLID: map<string, string>
    /** The linked list, front first. */
    var order: seq<string>
    const maxSize: nat
    ghost var pairs: seq<Pair>

    ghost predicate Valid()
      reads this
    {
      && maxSize > 0 && Distinct(pairs) && |pairs| <= maxSize
      && lidToPN == LidMap(pairs) && pnToLID == PNMap(pairs) && order == Lids(pairs)
    }

    constructor (maxSize: int)
      ensures Valid() && pairs == [] && this.maxSize == if maxSize <= 0 then DEFAULT_SIZE else maxSize
    {
      this.maxSize := if maxSize <= 0 then DEFAULT_SIZE else maxSize;
      lidToPN, pnToLID, order, pairs := map[], map[], [], [];
    }

    method RemoveFromOrder(lid: string)
      modifies this`order
      ensures order == RemoveFirst(old(order), lid)
    {
      var i := 0;
      while i < |order|
        invariant 0 <= i <= |order| && order == old(order)
        invariant RemoveFirst(order, lid) == order[..i] + RemoveFirst(order[i..], lid)
      {
        if order[i] == lid {
          assert order[i..][1..] == order[i + 1..];
          order := order[..i] + order[i + 1..];
          return;
        }
        assert order[i..][1..] == order[i + 1..];
        assert order[..i + 1] == order[..i] + [order[i]];
        AppendAssoc(order[..i], [order[i]], RemoveFirst(order[i + 1..], lid));
        i := i + 1;
      }
      assert order[..i] + [] == order;
    }

    /** The part of Learn that removes the old partner of the LID; the LID's own entry stays, to be overwritten. */
    method ForgetPartnerOf(lid: string)
      requires Distinct(pairs) && lidToPN == LidMap(pairs) && pnToLID == PNMap(pairs) && order == Lids(pairs)
      modifies this`pnToLID, this`order
      ensures pnToLID == PNMap(DropLid(pairs, lid)) && order == Lids(DropLid(pairs, lid))
    {
      hide LidMap, PNMap, DropLid, Lids, RemoveFirst, Distinct;
      AfterDropLid(pairs, lid);
      if lid in lidToPN {
        var oldPN := lidToPN[lid];
        pnToLID := pnToLID - {oldPN};
        RemoveFromOrder(lid);
      }
    }

    /** The part of Learn that removes the old LID of the phone number. */
    method ForgetLidOf(pn: string)
      requires Distinct(pairs) && pnToLID == PNMap(pairs) && order == Lids(pairs)
      modifies this`lidToPN, this`order
      ensures order == Lids(DropPN(pairs, pn)) && PNMap(DropPN(pairs, pn)) == pnToLID - {pn}
      ensures forall lid :: old(lidToPN) - {lid} == LidMap(pairs) ==> lidToPN - {lid} == LidMap(DropPN(pairs, pn))
    {
      hide LidMap, PNMap, DropPN, Lids, RemoveFirst, Distinct;
      AfterDropPN(pairs, pn);
      if pn in pnToLID {
        var oldLID := pnToLID[pn];
        lidToPN := lidToPN - {oldLID};
        RemoveFromOrder(oldLID);
      }
    }

    /** The part of Learn that drops the last LID of the order and its phone number. */
    method EvictBack()
      requires Distinct(pairs) && lidToPN == LidMap(pairs) && pnToLID == PNMap(pairs) && order == Lids(pairs)
      requires pairs != []
      modifies this
      ensures Distinct(pairs) && pairs == old(pairs[..|pairs| - 1])
      ensures lidToPN == LidMap(pairs) && pnToLID == PNMap(pairs) && order == Lids(pairs)
    {
      hide LidMap, PNMap, Lids, Distinct;
      AfterEvict(pairs);
      var back := order[|order| - 1];
      if back in lidToPN {
        pnToLID := pnToLID - {lidToPN[back]};
      }
      lidToPN := lidToPN - {back};
      order := order[..|order| - 1];
      pairs := pairs[..|pairs| - 1];
    }

    method Learn(lid: string, pn: string)
      requires Valid()
      modifies this
      ensures Valid() && pairs == Learned(old(pairs), maxSize, lid, pn)
    {
      hide LidMap, PNMap, DropLid, DropPN, Lids, Distinct;
      AfterDropLid(pairs, lid);
      ForgetPartnerOf(lid);
      pairs := DropLid(pairs, lid);
      ForgetLidOf(pn);
      pairs := DropPN(pairs, pn);
      AfterPush(Pair(lid, pn), pairs);
      LearnedFits(old(pairs), lid, pn);
      hide Learned;
      OverwriteRemoved(lidToPN, lid, pn);
      OverwriteRemoved(pnToLID, pn, lid);
      lidToPN := lidToPN[lid := pn];
      pnToLID := pnToLID[pn := lid];
      order := [lid] + order;
      pairs := [Pair(lid, pn)] + pairs;
      assert lidToPN == LidMap(pairs) && pnToLID == PNMap(pairs);
      MapSize(pairs);
      CutAtSize(old(pairs), maxSize, lid, pn);
      if |lidToPN| > maxSize {
        EvictBack();
      }
    }

    method ResolveCanonical(jid: string) returns (r: string)
      requires Valid()
      ensures r == Resolved(pairs, jid)
    {
      MapsFind(pairs, jid);
      if jid in lidToPN {
        return lidToPN[jid];
      }
      if jid in pnToLID {
        return pnToLID[jid];
      }
      r := jid;
    }

    /** The zero value of the map, an empty string, when there is no entry. */
    method GetLID(pn: string) returns (lid: string)
      requires Valid()
      ensures LidOf(pairs, pn) == if pn in pnToLID then Some(lid) else None
      ensures LidOf(pairs, pn) == None ==> lid == ""
    {
      MapsFind(pairs, pn);
      lid := if pn in pnToLID then pnToLID[pn] else "";
    }

    method GetPN(lid: string) returns (pn: string)
      requires Valid()
      ensures PNOf(pairs, lid) == if lid in lidToPN then Some(pn) else None
      ensures PNOf(pairs, lid) == None ==> pn == ""
    {
      MapsFind(pairs, lid);
      pn := if lid in lidToPN then lidToPN[lid] else "";
    }
  }
}
