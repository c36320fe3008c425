/**
 Request and response matching (whatsmeow/request.go) as interleaved atomic steps: each step is one critical section, one
 channel operation, or one move of the goroutine that made the request.
 */
module ResponseWaiters {
  import opened Basics

  /** streamEnd is pointer equality with xmlStreamEndNode. */
  datatype Node = Node(tag: string, id: Option<string>, streamEnd: bool)

  predicate IsDisconnectNode(n: Node) {
    n.streamEnd || n.tag == "stream:error"
  }

  /** What receiveResponse accepts as an answer. */
  predicate IsAnswer(n: Node) {
    n.id.Some? && (n.tag == "iq" || n.tag == "ack") && !n.streamEnd
  }

  /** Where the goroutine that made the request is: still sending it, waiting for the answer, or gone. */
  datatype Phase = Sending | Listening | Done

  /**
   What became of the registration: still in the map, taken by a delivery, sent to, dropped by a delivery whose context
   ended, withdrawn by its own requester, or removed from the map on behalf of another channel.
   */
  datatype Fate = Waiting | Taken | Answered | Dropped | Withdrawn | Lost

  /** A channel of capacity one; sent is everything that was ever put into it. */
  datatype Channel = Channel(reqID: string, phase: Phase, fate: Fate, sent: seq<Node>, buffer: Option<Node>, closed: bool)

  /** A delivery between the critical section of receiveResponse and its send. */
  datatype Delivery = Delivery(ch: nat, node: Node)

  datatype State = State(channels: seq<Channel>, waiters: map<string, nat>, deliveries: seq<Delivery>)

  function Init(): State {
    State([], map[], [])
  }

  datatype Step =
    | Register(id: string)
    | SendSucceeded(ch: nat)
    | Cancel(ch: nat)
    | Take(node: Node)
    | Deliver(k: nat)
    | ContextDone(k: nat)
    | Clear(node: Node)
    | Receive(ch: nat)
    | GiveUp(ch: nat)

  datatype Outcome = Continue(state: State) | Panics

  /** The steps that some goroutine can make. A send into a full open channel blocks. */
  predicate Enabled(s: State, step: Step) {
    match step
    case Register(_) => true
    case SendSucceeded(ch) => ch < |s.channels| && s.channels[ch].phase == Sending
    case Cancel(ch) => ch < |s.channels| && s.channels[ch].phase != Done
    case Take(_) => true
    case Deliver(k) => k < |s.deliveries| && s.deliveries[k].ch < |s.channels|
      && (s.channels[s.deliveries[k].ch].closed || s.channels[s.deliveries[k].ch].buffer == None)
    case ContextDone(k) => k < |s.deliveries| && s.deliveries[k].ch < |s.channels|
    case Clear(node) => IsDisconnectNode(node)
    case Receive(ch) => ch < |s.channels| && s.channels[ch].phase == Listening && s.channels[ch].buffer.Some?
    case GiveUp(ch) => ch < |s.channels| && s.channels[ch].phase == Listening
  }

  function Put(c: Channel, n: Node): Channel {
    c.(sent := c.sent + [n], buffer := Some(n), fate := Answered)
  }

  /** A registration that another channel's step removes from the map. */
  function Evict(channels: seq<Channel>, waiters: map<string, nat>, id: string, keep: nat): (r: seq<Channel>)
    ensures |r| == |channels|
  {
    if id in waiters && waiters[id] < |channels| && waiters[id] != keep
    then channels[waiters[id] := channels[waiters[id]].(fate := Lost)]
    else channels
  }

  function Without<T>(xs: seq<T>, k: nat): (r: seq<T>)
    requires k < |xs|
    ensures |r| == |xs| - 1
  {
    xs[..k] + xs[k + 1..]
  }

  /** waitResponse: an entry with the same id is overwritten. */
  function AfterRegister(s: State, id: string): State {
    var channels := Evict(s.channels, s.waiters, id, |s.channels|);
    State(channels + [Channel(id, Sending, Waiting, [], None, false)], s.waiters[id := |s.channels|], s.deliveries)
  }

  /** cancelResponse: closing a closed channel panics; the map entry is deleted by id, whichever channel it holds. */
  function AfterCancel(s: State, ch: nat): Outcome
    requires ch < |s.channels|
  {
    var c := s.channels[ch];
    if c.closed then Panics
    else
      var fate := if c.reqID in s.waiters && s.waiters[c.reqID] == ch then Withdrawn else c.fate;
      var channels := Evict(s.channels, s.waiters, c.reqID, ch);
      Continue(State(channels[ch := c.(closed := true, phase := Done, fate := fate)], s.waiters - {c.reqID}, s.deliveries))
  }

  /** The critical section of receiveResponse. */
  function AfterTake(s: State, n: Node): State {
    if IsAnswer(n) && n.id.value in s.waiters && s.waiters[n.id.value] < |s.channels| then
      var ch := s.waiters[n.id.value];
      State(s.channels[ch := s.channels[ch].(fate := Taken)], s.waiters - {n.id.value}, s.deliveries + [Delivery(ch, n)])
    else s
  }

  /** The send of receiveResponse: a closed channel panics. */
  function AfterDeliver(s: State, k: nat): Outcome
    requires k < |s.deliveries| && s.deliveries[k].ch < |s.channels|
  {
    var d := s.deliveries[k];
    var c := s.channels[d.ch];
    if c.closed then Panics
    else Continue(State(s.channels[d.ch := Put(c, d.node)], s.waiters, Without(s.deliveries, k)))
  }

  function AfterContextDone(s: State, k: nat): State
    requires k < |s.deliveries| && s.deliveries[k].ch < |s.channels|
  {
    var ch := s.deliveries[k].ch;
    State(s.channels[ch := s.channels[ch].(fate := Dropped)], s.waiters, Without(s.deliveries, k))
  }

  predicate Registered(s: State, ch: nat) {
    ch < |s.channels| && s.channels[ch].reqID in s.waiters && s.waiters[s.channels[ch].reqID] == ch
  }

  /** One waiter in clearResponseWaiters: sent to if there is room, closed if there is none. */
  function SendOrClose(c: Channel, n: Node): Channel {
    if c.buffer == None then Put(c, n) else c.(closed := true)
  }

  /** clearResponseWaiters: the map is iterated in any order. */
  function AfterClear(s: State, n: Node): Outcome {
    if exists ch :: 0 <= ch < |s.channels| && Registered(s, ch) && s.channels[ch].closed then Panics
    else
      var channels := seq(|s.channels|, ch requires 0 <= ch < |s.channels| =>
        if Registered(s, ch) then SendOrClose(s.channels[ch], n) else s.channels[ch]);
      Continue(State(channels, map[], s.deliveries))
  }

  function Next(s: State, step: Step): Outcome
    requires Enabled(s, step)
  {
    match step
    case Register(id) => Continue(AfterRegister(s, id))
    case SendSucceeded(ch) => Continue(s.(channels := s.channels[ch := s.channels[ch].(phase := Listening)]))
    case Cancel(ch) => AfterCancel(s, ch)
    case Take(node) => Continue(AfterTake(s, node))
    case Deliver(k) => AfterDeliver(s, k)
    case ContextDone(k) => Continue(AfterContextDone(s, k))
    case Clear(node) => AfterClear(s, node)
    case Receive(ch) => Continue(s.(channels := s.channels[ch := s.channels[ch].(phase := Done, buffer := None)]))
    case GiveUp(ch) => Continue(s.(channels := s.channels[ch := s.channels[ch].(phase := Done)]))
  }

  datatype Run = Ran(state: State) | RunPanics(before: State, step: Step) | NotARun

  function RunFrom(s: State, steps: seq<Step>): Run
    decreases steps
  {
    if steps == [] then Ran(s)
    else if !Enabled(s, steps[0]) then NotARun
    else match Next(s, steps[0])
      case Panics => RunPanics(s, steps[0])
      case Continue(t) => RunFrom(t, steps[1..])
  }

  // ---- What every step keeps

  /** At most one node was ever sent: an answer with the channel's own id, or a disconnect node. */
  predicate SentIsRight(c: Channel) {
    && |c.sent| <= 1
    && (c.sent == [] <==> c.fate != Answered)
    && (c.buffer.Some? ==> c.sent == [c.buffer.value])
    && (c.sent != [] ==> IsDisconnectNode(c.sent[0]) || (IsAnswer(c.sent[0]) && c.sent[0].id == Some(c.reqID)))
  }

  predicate ChannelIsRight(s: State, ch: nat)
    requires ch < |s.channels|
  {
    var c := s.channels[ch];
    && SentIsRight(c)
    && (c.fate == Waiting <==> Registered(s, ch))
    && (c.fate == Waiting ==> !c.closed)
    && (c.closed || c.fate == Withdrawn ==> c.phase == Done)
  }

  predicate ChannelsAreRight(s: State) {
    forall ch :: 0 <= ch < |s.channels| ==> ChannelIsRight(s, ch)
  }

  predicate MapIsRight(s: State) {
    forall id :: id in s.waiters ==> s.waiters[id] < |s.channels| && s.channels[s.waiters[id]].reqID == id
  }

  predicate DeliveriesAreRight(s: State) {
    && (forall k :: 0 <= k < |s.deliveries| ==> DeliveryIsRight(s, s.deliveries[k]))
    && (forall j, k :: 0 <= j < k < |s.deliveries| ==> s.deliveries[j].ch != s.deliveries[k].ch)
  }

  predicate DeliveryIsRight(s: State, d: Delivery) {
    d.ch < |s.channels| && s.channels[d.ch].fate == Taken && IsAnswer(d.node) && d.node.id == Some(s.channels[d.ch].reqID)
  }

  predicate Inv(s: State) {
    MapIsRight(s) && ChannelsAreRight(s) && DeliveriesAreRight(s)
  }

  /** Deliveries stay right while the channels they hold stay taken. */
  lemma DeliveriesKept(s: State, t: State)
    requires DeliveriesAreRight(s) && t.deliveries == s.deliveries && |t.channels| >= |s.channels|
    requires forall ch :: 0 <= ch < |s.channels| && s.channels[ch].fate == Taken ==>
      t.channels[ch].fate == Taken && t.channels[ch].reqID == s.channels[ch].reqID
    ensures DeliveriesAreRight(t)
  {
    forall k | 0 <= k < |t.deliveries| ensures DeliveryIsRight(t, t.deliveries[k]) {
      assert DeliveryIsRight(s, s.deliveries[k]);
    }
  }

  lemma RegisterKeepsInv(s: State, id: string)
    requires Inv(s)
    ensures Inv(AfterRegister(s, id))
  {
    var t := AfterRegister(s, id);
    forall ch | 0 <= ch < |t.channels| ensures ChannelIsRight(t, ch) {
      if ch < |s.channels| {
        assert ChannelIsRight(s, ch);
      }
    }
    forall ch | 0 <= ch < |s.channels| && s.channels[ch].fate == Taken ensures t.channels[ch] == s.channels[ch] {
      assert ChannelIsRight(s, ch);
    }
    DeliveriesKept(s, t);
  }

  lemma CancelKeepsInv(s: State, ch: nat)
    requires Inv(s) && ch < |s.channels| && s.channels[ch].phase != Done
    ensures AfterCancel(s, ch).Continue? && Inv(AfterCancel(s, ch).state)
  {
    assert ChannelIsRight(s, ch);
    var t := AfterCancel(s, ch).state;
    forall i | 0 <= i < |t.channels| ensures ChannelIsRight(t, i) {
      assert ChannelIsRight(s, i);
    }
    forall i | 0 <= i < |s.channels| && s.channels[i].fate == Taken ensures t.channels[i].fate == Taken {
      assert ChannelIsRight(s, i);
    }
    DeliveriesKept(s, t);
  }

  lemma TakeKeepsInv(s: State, n: Node)
    requires Inv(s)
    ensures Inv(AfterTake(s, n))
  {
    var t := AfterTake(s, n);
    if t != s {
      var ch := s.waiters[n.id.value];
      assert ChannelIsRight(s, ch);
      forall i | 0 <= i < |t.channels| ensures ChannelIsRight(t, i) {
        assert ChannelIsRight(s, i);
      }
      forall k | 0 <= k < |s.deliveries| ensures DeliveryIsRight(t, s.deliveries[k]) && s.deliveries[k].ch != ch {
        assert DeliveryIsRight(s, s.deliveries[k]);
      }
    }
  }

  lemma DeliverKeepsInv(s: State, k: nat)
    requires Inv(s) && k < |s.deliveries| && !s.channels[s.deliveries[k].ch].closed
    ensures Inv(AfterDeliver(s, k).state)
  {
    var t := AfterDeliver(s, k).state;
    assert DeliveryIsRight(s, s.deliveries[k]);
    forall i | 0 <= i < |t.channels| ensures ChannelIsRight(t, i) {
      assert ChannelIsRight(s, i);
    }
    forall j | 0 <= j < |t.deliveries| ensures DeliveryIsRight(t, t.deliveries[j]) {
      assert DeliveryIsRight(s, s.deliveries[if j < k then j else j + 1]);
    }
  }

  lemma ContextDoneKeepsInv(s: State, k: nat)
    requires Inv(s) && k < |s.deliveries|
    ensures Inv(AfterContextDone(s, k))
  {
    var t := AfterContextDone(s, k);
    assert DeliveryIsRight(s, s.deliveries[k]);
    forall i | 0 <= i < |t.channels| ensures ChannelIsRight(t, i) {
      assert ChannelIsRight(s, i);
    }
    forall j | 0 <= j < |t.deliveries| ensures DeliveryIsRight(t, t.deliveries[j]) {
      assert DeliveryIsRight(s, s.deliveries[if j < k then j else j + 1]);
    }
  }

  lemma ClearKeepsInv(s: State, n: Node)
    requires Inv(s) && IsDisconnectNode(n)
    ensures AfterClear(s, n).Continue? && Inv(AfterClear(s, n).state)
  {
    forall i | 0 <= i < |s.channels| && Registered(s, i) ensures !s.channels[i].closed && s.channels[i].buffer == None {
      assert ChannelIsRight(s, i);
    }
    var t := AfterClear(s, n).state;
    forall i | 0 <= i < |t.channels| ensures ChannelIsRight(t, i) {
      assert ChannelIsRight(s, i);
    }
    forall i | 0 <= i < |s.channels| && s.channels[i].fate == Taken ensures t.channels[i] == s.channels[i] {
      assert ChannelIsRight(s, i);
    }
    DeliveriesKept(s, t);
  }

  /** The requester's own moves change its phase and what it has read, and nothing else. */
  lemma RequesterKeepsInv(s: State, ch: nat, c: Channel)
    requires Inv(s) && ch < |s.channels|
    requires var d := s.channels[ch];
      d.phase != Done && c.reqID == d.reqID && c.fate == d.fate && c.sent == d.sent && c.closed == d.closed
      && (c.buffer == d.buffer || c.buffer == None)
    ensures Inv(s.(channels := s.channels[ch := c]))
  {
    var t := s.(channels := s.channels[ch := c]);
    assert ChannelIsRight(s, ch);
    forall i | 0 <= i < |t.channels| ensures ChannelIsRight(t, i) {
      assert ChannelIsRight(s, i);
    }
    DeliveriesKept(s, t);
  }

  lemma StepKeepsInv(s: State, step: Step)
    requires Inv(s) && Enabled(s, step) && Next(s, step).Continue?
    ensures Inv(Next(s, step).state)
  {
    hide Inv, AfterRegister, AfterCancel, AfterTake, AfterContextDone, AfterClear;
    match step
    case Register(id) => RegisterKeepsInv(s, id);
    case SendSucceeded(ch) => RequesterKeepsInv(s, ch, s.channels[ch].(phase := Listening));
    case Cancel(ch) => CancelKeepsInv(s, ch);
    case Take(node) => TakeKeepsInv(s, node);
    case Deliver(k) => DeliverKeepsInv(s, k);
    case ContextDone(k) => ContextDoneKeepsInv(s, k);
    case Clear(node) => ClearKeepsInv(s, node);
    case Receive(ch) => RequesterKeepsInv(s, ch, s.channels[ch].(phase := Done, buffer := None));
    case GiveUp(ch) => RequesterKeepsInv(s, ch, s.channels[ch].(phase := Done));
  }

  // ---- Safety over whole runs

  /** The delivery that step makes holds a channel that its requester has cancelled since it was taken. */
  predicate SendsToCancelled(s: State, step: Step) {
    step.Deliver? && step.k < |s.deliveries| && s.deliveries[step.k].ch < |s.channels|
    && s.channels[s.deliveries[step.k].ch].closed && s.channels[s.deliveries[step.k].ch].fate == Taken
  }

  /** Closing never panics, clearing never meets a closed or full channel, and no send blocks. */
  lemma OnlyCancelledDeliveriesPanic(s: State, step: Step)
    requires Inv(s)
    ensures Enabled(s, step) ==> (Next(s, step).Panics? <==> SendsToCancelled(s, step))
    ensures step.Deliver? && step.k < |s.deliveries| ==> Enabled(s, step)
  {
    match step
    case Cancel(ch) =>
      if Enabled(s, step) {
        CancelKeepsInv(s, ch);
      }
    case Deliver(k) =>
      if k < |s.deliveries| {
        assert DeliveryIsRight(s, s.deliveries[k]);
        assert ChannelIsRight(s, s.deliveries[k].ch);
      }
    case Clear(node) =>
      if Enabled(s, step) {
        ClearKeepsInv(s, node);
      }
    case _ =>
  }

  /** When a delivery takes a channel it is open: it can only be cancelled afterwards. */
  lemma TakenChannelsAreOpen(s: State, n: Node)
    requires Inv(s) && AfterTake(s, n) != s
    ensures var t := AfterTake(s, n);
      var d := t.deliveries[|s.deliveries|];
      && t.deliveries == s.deliveries + [Delivery(d.ch, n)] && !t.channels[d.ch].closed
      && n.id == Some(t.channels[d.ch].reqID) && s.waiters[n.id.value] == d.ch && n.id.value !in t.waiters
  {
    assert ChannelIsRight(s, s.waiters[n.id.value]);
  }

  lemma {:induction false} RunsAreSafeFrom(s: State, steps: seq<Step>)
    requires Inv(s)
    ensures match RunFrom(s, steps)
      case Ran(t) => Inv(t)
      case RunPanics(t, step) => Inv(t) && SendsToCancelled(t, step)
      case NotARun => true
    decreases steps
  {
    hide Inv, Next, Enabled, SendsToCancelled;
    if steps != [] && Enabled(s, steps[0]) {
      OnlyCancelledDeliveriesPanic(s, steps[0]);
      if Next(s, steps[0]).Continue? {
        StepKeepsInv(s, steps[0]);
        RunsAreSafeFrom(Next(s, steps[0]).state, steps[1..]);
      }
    }
  }

  /**
   Over every interleaving: each channel is sent at most one node, its own answer or a disconnect node; a waiter in the
   map is open, empty and never sent to; and the only panic is a delivery to a channel cancelled after it was taken.
   */
  lemma RunsAreSafe(steps: seq<Step>)
    ensures match RunFrom(Init(), steps)
      case Ran(t) => forall ch :: 0 <= ch < |t.channels| ==>
        && SentIsRight(t.channels[ch])
        && (Registered(t, ch) ==> t.channels[ch].sent == [] && t.channels[ch].buffer == None && !t.channels[ch].closed)
      case RunPanics(t, step) => SendsToCancelled(t, step)
      case NotARun => true
  {
    RunsAreSafeFrom(Init(), steps);
    match RunFrom(Init(), steps)
    case Ran(t) =>
      forall ch | 0 <= ch < |t.channels|
        ensures SentIsRight(t.channels[ch])
        ensures Registered(t, ch) ==> t.channels[ch].sent == [] && t.channels[ch].buffer == None && !t.channels[ch].closed
      {
        assert ChannelIsRight(t, ch);
      }
    case _ =>
  }

  /** The node that a requester reads is either its own answer or a disconnect node, and isDisconnectNode tells which. */
  lemma ReadersGetTheirOwn(s: State, ch: nat)
    requires Inv(s) && Enabled(s, Receive(ch))
    ensures var n := s.channels[ch].buffer.value;
      if IsDisconnectNode(n) then !IsAnswer(n) else IsAnswer(n) && n.id == Some(s.channels[ch].reqID)
  {
    assert ChannelIsRight(s, ch);
  }

  // ---- No requester waits in vain

  /** The waiters of a clear get its node; nothing else changes, and nothing is closed. */
  lemma ClearReachesEveryWaiter(s: State, n: Node)
    requires Inv(s) && IsDisconnectNode(n)
    ensures AfterClear(s, n).Continue?
    ensures var t := AfterClear(s, n).state;
      && t.waiters == map[] && t.deliveries == s.deliveries && |t.channels| == |s.channels|
      && forall ch :: 0 <= ch < |s.channels| ==>
           t.channels[ch] == if Registered(s, ch) then Put(s.channels[ch], n) else s.channels[ch]
  {
    ClearKeepsInv(s, n);
    forall ch | 0 <= ch < |s.channels| && Registered(s, ch) ensures s.channels[ch].buffer == None {
      assert ChannelIsRight(s, ch);
    }
  }

  predicate Live(c: Channel) {
    c.phase != Done
  }

  /** No live requester's channel has been removed from the map on behalf of another. */
  predicate NoneLost(s: State) {
    forall ch :: 0 <= ch < |s.channels| && s.channels[ch].fate == Lost ==> !Live(s.channels[ch])
  }

  /** The id maps to a live channel other than the given one. */
  predicate MapsToOther(s: State, id: string, ch: nat) {
    id in s.waiters && s.waiters[id] < |s.channels| && s.waiters[id] != ch && Live(s.channels[s.waiters[id]])
  }

  /** The two steps that remove another requester's registration while it is live. */
  predicate Displaces(s: State, step: Step) {
    match step
    case Register(id) => MapsToOther(s, id, |s.channels|)
    case Cancel(ch) => ch < |s.channels| && MapsToOther(s, s.channels[ch].reqID, ch)
    case _ => false
  }

  predicate NewlyLost(s: State, t: State, ch: nat)
    requires ch < |t.channels|
  {
    t.channels[ch].fate == Lost && Live(t.channels[ch]) && (ch < |s.channels| ==> s.channels[ch].fate != Lost)
  }

  lemma RegisterLosesExactly(s: State, id: string)
    requires Inv(s)
    ensures var t := AfterRegister(s, id);
      (exists ch :: 0 <= ch < |t.channels| && NewlyLost(s, t, ch)) <==> Displaces(s, Register(id))
  {
    hide SentIsRight, DeliveriesAreRight;
    var t := AfterRegister(s, id);
    if Displaces(s, Register(id)) {
      var ch := s.waiters[id];
      assert ChannelIsRight(s, ch);
      assert NewlyLost(s, t, ch);
    }
  }

  lemma CancelLosesExactly(s: State, ch: nat)
    requires Inv(s) && ch < |s.channels| && Live(s.channels[ch])
    ensures AfterCancel(s, ch).Continue?
    ensures var t := AfterCancel(s, ch).state;
      (exists i :: 0 <= i < |t.channels| && NewlyLost(s, t, i)) <==> Displaces(s, Cancel(ch))
  {
    CancelKeepsInv(s, ch);
    hide SentIsRight, DeliveriesAreRight;
    var t := AfterCancel(s, ch).state;
    if Displaces(s, Cancel(ch)) {
      var other := s.waiters[s.channels[ch].reqID];
      assert ChannelIsRight(s, other);
      assert NewlyLost(s, t, other);
    }
  }

  /** A step newly loses a live channel exactly when it registers, or cancels, an id that maps to another live channel. */
  lemma StepLosesExactly(s: State, step: Step)
    requires Inv(s) && Enabled(s, step) && Next(s, step).Continue?
    ensures var t := Next(s, step).state;
      (exists ch :: 0 <= ch < |t.channels| && NewlyLost(s, t, ch)) <==> Displaces(s, step)
  {
    hide SentIsRight, DeliveriesAreRight, AfterRegister, AfterCancel, AfterClear, MapsToOther;
    match step
    case Register(id) => RegisterLosesExactly(s, id);
    case Cancel(ch) => CancelLosesExactly(s, ch);
    case Clear(node) => ClearReachesEveryWaiter(s, node);
    case _ =>
  }

  /** What is lost stays lost, and a requester that is gone stays gone. */
  lemma LossesStay(s: State, step: Step, ch: nat)
    requires Inv(s) && Enabled(s, step) && Next(s, step).Continue? && ch < |s.channels|
    ensures var t := Next(s, step).state;
      && ch < |t.channels|
      && (s.channels[ch].fate == Lost ==> t.channels[ch].fate == Lost)
      && (!Live(s.channels[ch]) ==> !Live(t.channels[ch]))
  {
    hide SentIsRight, AfterClear;
    assert ChannelIsRight(s, ch);
    match step
    case Clear(node) => ClearReachesEveryWaiter(s, node);
    case Deliver(k) => assert DeliveryIsRight(s, s.deliveries[k]);
    case ContextDone(k) => assert DeliveryIsRight(s, s.deliveries[k]);
    case _ =>
  }

  lemma StepKeepsNoneLost(s: State, step: Step)
    requires Inv(s) && NoneLost(s) && Enabled(s, step) && Next(s, step).Continue?
    ensures NoneLost(Next(s, step).state) <==> !Displaces(s, step)
  {
    hide Inv, Next, Displaces;
    var t := Next(s, step).state;
    StepLosesExactly(s, step);
    forall ch | 0 <= ch < |t.channels| ensures t.channels[ch].fate == Lost && Live(t.channels[ch]) ==> NewlyLost(s, t, ch) {
      if ch < |s.channels| {
        LossesStay(s, step, ch);
      }
    }
  }

  /** No step of the run displaces a live requester. */
  predicate NeverDisplaces(s: State, steps: seq<Step>)
    decreases steps
  {
    steps == [] ||
    (!Displaces(s, steps[0]) &&
     (Enabled(s, steps[0]) && Next(s, steps[0]).Continue? ==> NeverDisplaces(Next(s, steps[0]).state, steps[1..])))
  }

  lemma {:induction false} PrefixesRun(s: State, steps: seq<Step>, n: nat)
    requires RunFrom(s, steps).Ran? && n <= |steps|
    ensures RunFrom(s, steps[..n]).Ran?
    decreases steps
  {
    hide Next, Enabled;
    if n > 0 {
      assert steps[..n][1..] == steps[1..][..n - 1];
      PrefixesRun(Next(s, steps[0]).state, steps[1..], n - 1);
    }
  }

  /** At every moment of the run no live requester has lost its registration. */
  ghost predicate NoneEverLost(s: State, steps: seq<Step>)
    requires RunFrom(s, steps).Ran?
  {
    forall n :: 0 <= n <= |steps| ==> LosesNoneIn(s, steps[..n])
  }

  predicate LosesNoneIn(s: State, steps: seq<Step>) {
    RunFrom(s, steps).Ran? ==> NoneLost(RunFrom(s, steps).state)
  }

  lemma FirstStep(s: State, steps: seq<Step>, n: nat)
    requires steps != [] && RunFrom(s, steps).Ran? && 0 < n <= |steps|
    ensures RunFrom(s, steps[..n]) == RunFrom(Next(s, steps[0]).state, steps[1..][..n - 1])
  {
    hide Next, Enabled;
    assert steps[..n][1..] == steps[1..][..n - 1];
  }

  /** On a whole run, live requesters keep their registrations at every moment exactly when no step displaces one. */
  lemma {:induction false} RunLosesExactly(s: State, steps: seq<Step>)
    requires Inv(s) && NoneLost(s) && RunFrom(s, steps).Ran?
    ensures NoneEverLost(s, steps) <==> NeverDisplaces(s, steps)
    decreases steps
  {
    hide Inv, Next, Enabled, Displaces, NoneLost;
    assert steps[..0] == [];
    if steps != [] {
      var t, rest := Next(s, steps[0]).state, steps[1..];
      StepKeepsInv(s, steps[0]);
      StepKeepsNoneLost(s, steps[0]);
      if Displaces(s, steps[0]) {
        FirstStep(s, steps, 1);
        assert rest[..0] == [];
        assert !LosesNoneIn(s, steps[..1]);
      } else {
        RunLosesExactly(t, rest);
        forall n | 0 < n <= |steps| ensures LosesNoneIn(s, steps[..n]) <==> LosesNoneIn(t, rest[..n - 1]) {
          FirstStep(s, steps, n);
        }
        assert NoneEverLost(s, steps) <==> NoneEverLost(t, rest) by {
          if NoneEverLost(t, rest) {
            forall n | 0 <= n <= |steps| ensures LosesNoneIn(s, steps[..n]) {
              assert n > 0 ==> LosesNoneIn(t, rest[..n - 1]);
            }
          }
          if NoneEverLost(s, steps) {
            forall n | 0 <= n <= |rest| ensures LosesNoneIn(t, rest[..n]) {
              assert LosesNoneIn(s, steps[..n + 1]);
            }
          }
        }
      }
    }
  }

  /**
   A disconnect at this moment leaves no live requester behind: each has been sent its answer or the disconnect node, or
   its answer is in the hands of a delivery, or was dropped when that delivery's context ended.
   */
  predicate ServedByClear(s: State, n: Node) {
    && AfterClear(s, n).Continue?
    && forall ch :: 0 <= ch < |s.channels| && Live(s.channels[ch]) ==>
         AfterClear(s, n).state.channels[ch].fate in {Answered, Taken, Dropped}
  }

  lemma ServedExactly(s: State, n: Node)
    requires Inv(s) && IsDisconnectNode(n)
    ensures ServedByClear(s, n) <==> NoneLost(s)
  {
    ClearReachesEveryWaiter(s, n);
    hide AfterClear, SentIsRight, DeliveriesAreRight, MapIsRight, IsDisconnectNode;
    forall ch | 0 <= ch < |s.channels| && Live(s.channels[ch])
      ensures AfterClear(s, n).state.channels[ch].fate in {Answered, Taken, Dropped} <==> s.channels[ch].fate != Lost
    {
      assert ChannelIsRight(s, ch);
    }
  }

  /**
   A disconnect, at whatever moment of a run it comes, leaves no live requester behind, if and only if no step of the run
   registers or cancels an id that maps to another live channel.
   */
  lemma NoWaiterIsLost(steps: seq<Step>, n: Node)
    requires RunFrom(Init(), steps).Ran? && IsDisconnectNode(n)
    ensures (forall k :: 0 <= k <= |steps| ==> ServedAfter(steps[..k], n)) <==> NeverDisplaces(Init(), steps)
  {
    hide NeverDisplaces, NoneLost, ServedByClear, IsDisconnectNode;
    assert NoneLost(Init()) by {
      InitLosesNone();
    }
    RunLosesExactly(Init(), steps);
    forall k | 0 <= k <= |steps| ensures ServedAfter(steps[..k], n) <==> LosesNoneIn(Init(), steps[..k]) {
      PrefixesRun(Init(), steps, k);
      RunsAreSafeFrom(Init(), steps[..k]);
      ServedExactly(RunFrom(Init(), steps[..k]).state, n);
    }
  }

  lemma InitLosesNone()
    ensures NoneLost(Init())
  {
  }

  predicate ServedAfter(steps: seq<Step>, n: Node) {
    RunFrom(Init(), steps).Ran? ==> ServedByClear(RunFrom(Init(), steps).state, n)
  }

  // ---- A discipline that is enough: an id is used again only when its earlier channels are done with

  /** As retryFrame does: the same id again, after the first answer has been read. */
  predicate OwnID(s: State, step: Step) {
    step.Register? ==>
      forall ch :: 0 <= ch < |s.channels| && s.channels[ch].reqID == step.id ==> !Live(s.channels[ch])
  }

  predicate OwnIDs(s: State, steps: seq<Step>)
    decreases steps
  {
    steps == [] ||
    (OwnID(s, steps[0]) &&
     (Enabled(s, steps[0]) && Next(s, steps[0]).Continue? ==> OwnIDs(Next(s, steps[0]).state, steps[1..])))
  }

  /** Of the channels for one id only the latest can be live, and only the latest can be in the map. */
  predicate LatestOnly(s: State) {
    && (forall i, j :: 0 <= i < j < |s.channels| && s.channels[i].reqID == s.channels[j].reqID ==> !Live(s.channels[i]))
    && (forall id, j :: id in s.waiters && s.waiters[id] < j < |s.channels| ==> s.channels[j].reqID != id)
  }

  /** With its own id a cancellation only removes its own registration. */
  lemma CancelRemovesOwn(s: State, ch: nat)
    requires Inv(s) && LatestOnly(s) && ch < |s.channels| && Live(s.channels[ch])
    ensures s.channels[ch].reqID in s.waiters ==> s.waiters[s.channels[ch].reqID] == ch
  {
  }

  lemma OwnIDDisplacesNone(s: State, step: Step)
    requires Inv(s) && LatestOnly(s) && OwnID(s, step) && Enabled(s, step)
    ensures !Displaces(s, step)
  {
    hide SentIsRight, DeliveriesAreRight;
    match step
    case Cancel(ch) => CancelRemovesOwn(s, ch);
    case _ =>
  }

  lemma RegisterKeepsLatest(s: State, id: string)
    requires Inv(s) && LatestOnly(s) && OwnID(s, Register(id))
    ensures LatestOnly(AfterRegister(s, id))
  {
    hide SentIsRight, DeliveriesAreRight, ChannelsAreRight;
  }

  lemma CancelKeepsLatest(s: State, ch: nat)
    requires Inv(s) && LatestOnly(s) && ch < |s.channels| && Live(s.channels[ch]) && AfterCancel(s, ch).Continue?
    ensures LatestOnly(AfterCancel(s, ch).state)
  {
    hide SentIsRight, DeliveriesAreRight;
    CancelRemovesOwn(s, ch);
  }

  lemma StepKeepsLatest(s: State, step: Step)
    requires Inv(s) && LatestOnly(s) && OwnID(s, step) && Enabled(s, step) && Next(s, step).Continue?
    ensures LatestOnly(Next(s, step).state)
  {
    hide SentIsRight, DeliveriesAreRight, AfterClear, AfterCancel;
    match step
    case Register(id) => RegisterKeepsLatest(s, id);
    case Cancel(ch) => CancelKeepsLatest(s, ch);
    case Clear(node) => ClearReachesEveryWaiter(s, node);
    case _ =>
      hide AfterRegister;
      KeysAndLivenessKept(s, Next(s, step).state);
  }

  /** A step that adds no channel, revives none and changes no registration keeps the latest ones the latest. */
  lemma KeysAndLivenessKept(s: State, t: State)
    requires LatestOnly(s) && |t.channels| == |s.channels|
    requires forall ch :: 0 <= ch < |s.channels| ==>
      t.channels[ch].reqID == s.channels[ch].reqID && (Live(t.channels[ch]) ==> Live(s.channels[ch]))
    requires forall id :: id in t.waiters ==> id in s.waiters && t.waiters[id] == s.waiters[id]
    ensures LatestOnly(t)
  {
  }

  /** Requests that keep to their own ids displace nobody. */
  lemma {:induction false} OwnIDsDisplaceNone(s: State, steps: seq<Step>)
    requires Inv(s) && LatestOnly(s) && OwnIDs(s, steps) && RunFrom(s, steps).Ran?
    ensures NeverDisplaces(s, steps)
    decreases steps
  {
    hide Inv, LatestOnly, OwnID, Next, Enabled, Displaces;
    if steps != [] {
      OwnIDDisplacesNone(s, steps[0]);
      StepKeepsInv(s, steps[0]);
      StepKeepsLatest(s, steps[0]);
      OwnIDsDisplaceNone(Next(s, steps[0]).state, steps[1..]);
    }
  }

  /** So, with own ids, a disconnect at any moment serves every live requester. */
  lemma OwnIDsAreServed(steps: seq<Step>, n: Node)
    requires OwnIDs(Init(), steps) && RunFrom(Init(), steps).Ran? && IsDisconnectNode(n)
    ensures ServedByClear(RunFrom(Init(), steps).state, n)
  {
    hide OwnIDs, NeverDisplaces, ServedByClear, IsDisconnectNode;
    OwnIDsDisplaceNone(Init(), steps);
    NoWaiterIsLost(steps, n);
    assert steps[..|steps|] == steps;
    assert ServedAfter(steps[..|steps|], n);
  }

  // ---- Both conditions matter

  /** A timeout that cancels between the take and the send makes the delivery panic. */
  lemma CancelBetweenTakeAndSend(id: string)
    ensures var n := Node("iq", Some(id), false);
      RunFrom(Init(), [Register(id), SendSucceeded(0), Take(n), Cancel(0), Deliver(0)]).RunPanics?
  {
    hide IsDisconnectNode;
    var n := Node("iq", Some(id), false);
    var open := Channel(id, Listening, Taken, [], None, false);
    var s1 := State([Channel(id, Sending, Waiting, [], None, false)], map[id := 0], []);
    var s2 := s1.(channels := [s1.channels[0].(phase := Listening)]);
    var s3 := State([open], map[], [Delivery(0, n)]);
    var s4 := State([open.(closed := true, phase := Done)], map[], [Delivery(0, n)]);
    assert AfterRegister(Init(), id) == s1;
    assert s1.channels[0 := s2.channels[0]] == s2.channels;
    assert map[id := 0] - {id} == map[] && [] + [Delivery(0, n)] == [Delivery(0, n)];
    assert AfterTake(s2, n) == s3;
    assert AfterCancel(s3, 0) == Continue(s4);
    assert RunFrom(s4, [Deliver(0)]) == RunPanics(s4, Deliver(0));
    RunStep(s3, Cancel(0), [Deliver(0)]);
    RunStep(s2, Take(n), [Cancel(0), Deliver(0)]);
    RunStep(s1, SendSucceeded(0), [Take(n), Cancel(0), Deliver(0)]);
    RunStep(Init(), Register(id), [SendSucceeded(0), Take(n), Cancel(0), Deliver(0)]);
  }

  lemma RunStep(s: State, step: Step, rest: seq<Step>)
    requires Enabled(s, step) && Next(s, step).Continue?
    ensures RunFrom(s, [step] + rest) == RunFrom(Next(s, step).state, rest)
  {
    assert ([step] + rest)[1..] == rest;
  }

  /** Two live requests with one id: the first is removed from the map and waits for nothing. */
  lemma SharedIDLosesTheFirst(id: string)
    ensures var r := RunFrom(Init(), [Register(id), Register(id)]);
      r.Ran? && |r.state.channels| == 2 && r.state.channels[0].fate == Lost && r.state.channels[0].phase == Sending
  {
    var s1 := AfterRegister(Init(), id);
    RunStep(Init(), Register(id), [Register(id)]);
    RunStep(s1, Register(id), []);
  }
}
