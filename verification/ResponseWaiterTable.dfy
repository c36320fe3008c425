/** The waiter table of the client (whatsmeow/request.go): one method for each critical section or channel operation. */
module ResponseWaiterTable {
  import opened Basics
  import opened ResponseWaiters

  class WaiterTable {
    var channels: seq<Channel>
    var waiters: map<string, nat>
    var deliveries: seq<Delivery>

    function Now(): State
      reads this
    {
      State(channels, waiters, deliveries)
    }

    constructor ()
      ensures Now() == Init()
    {
      channels, waiters, deliveries := [], map[], [];
    }

    method WaitResponse(reqID: string) returns (ch: nat)
      modifies this
      ensures Now() == AfterRegister(old(Now()), reqID) && ch == |old(channels)|
    {
      ch := |channels|;
      channels := Evict(channels, waiters, reqID, ch) + [Channel(reqID, Sending, Waiting, [], None, false)];
      waiters := waiters[reqID := ch];
    }

    /** ok is false where closing a closed channel panics. */
    method CancelResponse(reqID: string, ch: nat) returns (ok: bool)
      requires ch < |channels| && channels[ch].reqID == reqID
      modifies this
      ensures match AfterCancel(old(Now()), ch)
        case Continue(s) => ok && Now() == s
        case Panics => !ok
    {
      var c := channels[ch];
      if c.closed {
        return false;
      }
      var fate := if reqID in waiters && waiters[reqID] == ch then Withdrawn else c.fate;
      channels := Evict(channels, waiters, reqID, ch)[ch := c.(closed := true, phase := Done, fate := fate)];
      waiters := waiters - {reqID};
      ok := true;
    }

    /** receiveResponse up to its unlock; handled is what it returns in the end. */
    method TakeWaiter(node: Node) returns (handled: bool)
      requires MapIsRight(Now())
      modifies this
      ensures Now() == AfterTake(old(Now()), node)
      ensures handled <==> IsAnswer(node) && node.id.value in old(waiters)
    {
      if !IsAnswer(node) {
        return false;
      }
      var id := node.id.value;
      if id !in waiters {
        return false;
      }
      var ch := waiters[id];
      waiters := waiters - {id};
      channels := channels[ch := channels[ch].(fate := Taken)];
      deliveries := deliveries + [Delivery(ch, node)];
      handled := true;
    }

    /** The select of receiveResponse: the send, or a context that is done. ok is false where the send panics. */
    method FinishDelivery(k: nat, contextDone: bool) returns (ok: bool)
      requires k < |deliveries| && deliveries[k].ch < |channels|
      modifies this
      ensures contextDone ==> ok && Now() == AfterContextDone(old(Now()), k)
      ensures !contextDone ==>
        match AfterDeliver(old(Now()), k)
        case Continue(s) => ok && Now() == s
        case Panics => !ok
    {
      var d := deliveries[k];
      if contextDone {
        channels := channels[d.ch := channels[d.ch].(fate := Dropped)];
      } else if channels[d.ch].closed {
        return false;
      } else {
        channels := channels[d.ch := Put(channels[d.ch], d.node)];
      }
      deliveries := Without(deliveries, k);
      ok := true;
    }

    /** The map is walked in any order; ok is false where a send to a closed channel panics. */
    method ClearResponseWaiters(node: Node) returns (ok: bool)
      requires MapIsRight(Now())
      modifies this
      ensures match AfterClear(old(Now()), node)
        case Continue(s) => ok && Now() == s
        case Panics => !ok
    {
      hide Cleared, AfterClear, SendOrClose;
      ghost var before := Now();
      var todo := waiters.Keys;
      NoneCleared(before, node);
      while todo != {}
        invariant todo <= waiters.Keys && waiters == before.waiters && deliveries == before.deliveries
        invariant Cleared(before, channels, todo, node)
        decreases |todo|
      {
        var id :| id in todo;
        var ch := waiters[id];
        ClearOne(before, channels, todo, node, id);
        if channels[ch].closed {
          ClearedPanics(before, node, ch);
          return false;
        }
        channels := channels[ch := SendOrClose(channels[ch], node)];
        todo := todo - {id};
      }
      AllCleared(before, channels, node);
      waiters := map[];
      ok := true;
    }
  }

  /** The waiters of the ids that are no longer to do have been served, and none of them was closed. */
  ghost predicate Cleared(s: State, channels: seq<Channel>, todo: set<string>, node: Node) {
    && |channels| == |s.channels|
    && forall ch :: 0 <= ch < |channels| ==>
      if Registered(s, ch) && s.channels[ch].reqID !in todo
      then channels[ch] == SendOrClose(s.channels[ch], node) && !s.channels[ch].closed
      else channels[ch] == s.channels[ch]
  }

  lemma NoneCleared(s: State, node: Node)
    ensures Cleared(s, s.channels, s.waiters.Keys, node)
  {
  }

  /** One turn of the loop. */
  lemma ClearOne(s: State, channels: seq<Channel>, todo: set<string>, node: Node, id: string)
    requires MapIsRight(s) && Cleared(s, channels, todo, node) && id in todo && id in s.waiters
    ensures var ch := s.waiters[id];
      && ch < |channels| == |s.channels| && channels[ch] == s.channels[ch] && Registered(s, ch)
      && (!channels[ch].closed ==> Cleared(s, channels[ch := SendOrClose(channels[ch], node)], todo - {id}, node))
  {
    hide SendOrClose;
    var ch := s.waiters[id];
    assert s.channels[ch].reqID == id && Registered(s, ch);
  }

  lemma ClearedPanics(s: State, node: Node, ch: nat)
    requires Registered(s, ch) && s.channels[ch].closed
    ensures AfterClear(s, node) == Panics
  {
  }

  lemma AllCleared(s: State, channels: seq<Channel>, node: Node)
    requires Cleared(s, channels, {}, node)
    ensures AfterClear(s, node) == Continue(State(channels, map[], s.deliveries))
  {
    hide SendOrClose;
  }
}
