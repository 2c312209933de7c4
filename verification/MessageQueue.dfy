/** The queue object of `message_q.c`, step by step what the ring and protocol functions say. */
module MessageQueue {
  import opened Bytes
  import opened MessageRing
  import opened Broadcast

  /** The connections: a write delivers a whole message or fails. */
  class Sockets {
    var streams: map<int, seq<Message>>
    ghost var failures: nat  // writes that have failed so far

    function StreamOf(fd: int): seq<Message>
      reads this
    {
      if fd in streams then streams[fd] else []
    }

    method Write(fd: int, m: Message) returns (n: int)
      modifies this
      ensures n < 0 ==> streams == old(streams) && failures == old(failures) + 1
      ensures n >= 0 ==> streams == old(streams)[fd := old(StreamOf(fd)) + [m]] && failures == old(failures)
    {
      if * {
        failures := failures + 1;
        return -1;
      }
      streams := streams[fd := StreamOf(fd) + [m]];
      return |m|;
    }

    /** A new connection has received nothing. */
    method Open(fd: int)
      modifies this`streams
      ensures streams == old(streams)[fd := []]
    {
      streams := streams[fd := []];
    }
  }

  class Queue {
    var messages: array<Option<Message>>
    var start: int
    var end: int
    var clients: seq<Client>

    function State(): Ring
      reads this, messages
    {
      Ring(messages[..], start, end)
    }

    ghost predicate Valid()
      reads this, messages
    {
      Shape(State()) && forall i :: 0 <= i < |clients| ==> clients[i].roff < messages.Length
    }

    /** `message_queue__init`. */
    constructor (capacity: nat)
      requires capacity > 0
      ensures Valid() && fresh(messages)
      ensures State() == Fresh(capacity) && clients == []
    {
      messages := new Option<Message>[capacity](_ => None);
      start, end, clients := MQ_EMPTY_SENTINEL, 0, [];
    }

    /** `message_queue__q`. */
    method Q(msg: Message) returns (rc: int)
      requires Valid()
      modifies this`start, this`end, messages
      ensures Valid()
      ensures rc == if |Live(old(State()))| == messages.Length then MQERR_FULL
                    else if |msg| > MAX_MESSAGE_LENGTH then MQERR_MESSAGE_TOO_LONG
                    else 0
      ensures State() == if rc == 0 then Enqueued(old(State()), msg) else old(State())
      ensures rc == 0 && GuardHolds(old(State())) ==> Live(State()) == Live(old(State())) + [Some(msg)]
    {
      FullIsCapacity(State());
      if end != start {
        EnqueueAppendsIff(State(), msg);
      }
      if end == start {
        return MQERR_FULL;
      }
      if |msg| > MAX_MESSAGE_LENGTH {
        return MQERR_MESSAGE_TOO_LONG;
      }
      messages[end] := Some(msg);
      start := if start == MQ_EMPTY_SENTINEL then 0 else start;
      end := (end + 1) % messages.Length;
      return 0;
    }

    /** `get_length`. */
    method GetLength() returns (n: nat)
      requires Valid()
      ensures n == |Live(State())|
    {
      if start == MQ_EMPTY_SENTINEL {
        return 0;
      }
      if start < end {
        return end - start;
      } else if start == end {
        return messages.Length;
      }
      return messages.Length - start + end;
    }

    /** `message_queue__get`; the source copies the message, so the slot must not be NULL. */
    method Get(index: nat) returns (m: Option<Message>)
      requires Valid() && (index < |Live(State())| ==> Live(State())[index].Some?)
      ensures m == if index < |Live(State())| then Live(State())[index] else None
    {
      if start == MQ_EMPTY_SENTINEL {
        return None;
      }
      var n := GetLength();
      if index >= n {
        return None;
      }
      WrapIndex(start + index, messages.Length);
      m := messages[(start + index) % messages.Length];
    }

    /** `message_queue__dq`. */
    method Dq() returns (m: Option<Message>)
      requires Valid() && (start != MQ_EMPTY_SENTINEL ==> messages[start].Some?)
      modifies this`start, messages
      ensures Valid()
      ensures old(start) == MQ_EMPTY_SENTINEL ==> m == None && State() == old(State())
      ensures old(start) != MQ_EMPTY_SENTINEL ==>
        m == Live(old(State()))[0] && State() == Dequeued(old(State())) && Live(State()) == Live(old(State()))[1..]
    {
      if start == MQ_EMPTY_SENTINEL {
        return None;
      }
      DequeueDropsFirst(State());
      m := messages[start];
      messages[start] := None;
      start := (start + 1) % messages.Length;
      if start == end {
        start := MQ_EMPTY_SENTINEL;
      }
    }

    /** `message_queue__register_client`. */
    method RegisterClient(fd: int)
      requires Valid()
      modifies this`clients
      ensures Valid() && clients == Registered(State(), old(clients), fd)
      ensures clients[1..] == old(clients) && clients[0].fd == fd
      ensures start != MQ_EMPTY_SENTINEL ==> messages[clients[0].roff] == Live(State())[0]
    {
      var client := Client(fd, if start == MQ_EMPTY_SENTINEL then 0 else start);
      clients := [client] + clients;
    }

    /** The list walk of `SLIST_FOREACH`, up to the first client with the descriptor. */
    method FindClient(fd: int) returns (i: nat)
      ensures i == Find(clients, fd)
    {
      i := 0;
      while i < |clients| && clients[i].fd != fd
        invariant 0 <= i <= |clients|
        invariant Find(clients, fd) == i + Find(clients[i..], fd)
      {
        i := i + 1;
      }
    }

    /** `message_queue__unregister_client`. */
    method UnregisterClient(fd: int) returns (rc: int)
      requires Valid()
      modifies this`clients
      ensures Valid() && clients == Unregistered(old(clients), fd)
      ensures rc == if Find(old(clients), fd) < |old(clients)| then 0 else -1
    {
      var i := FindClient(fd);
      if i < |clients| {
        clients := Without(clients, i);
        return 0;
      }
      return -1;
    }

    /** The round of one slot: its message, if it holds one, is written, or the write fails. */
    method WriteSlot(at: nat, fd: int, sockets: Sockets) returns (ok: bool)
      requires at < messages.Length
      modifies sockets
      ensures ok ==>
        && sockets.StreamOf(fd) == old(sockets.StreamOf(fd)) + Present([messages[at]])
        && sockets.failures == old(sockets.failures)
      ensures !ok ==>
        && messages[at].Some? && sockets.StreamOf(fd) == old(sockets.StreamOf(fd))
        && sockets.failures == old(sockets.failures) + 1
      ensures forall fd' :: fd' != fd ==> sockets.StreamOf(fd') == old(sockets.StreamOf(fd'))
    {
      ghost var had := sockets.StreamOf(fd);
      PresentOne(messages[at]);
      if messages[at].None? {
        assert had + [] == had;
        return true;
      }
      var n := sockets.Write(fd, messages[at].value);
      ok := n >= 0;
    }

    /** The list walk of `message_queue__drop_slow_consumers`, which unlinks clients on its way. */
    method UnlinkSlow()
      requires Valid() && start != MQ_EMPTY_SENTINEL
      modifies this`clients
      ensures Valid() && clients == NotSlow(State(), old(clients))
    {
      ghost var r, kept := State(), NotSlow(State(), clients);
      var i := 0;
      WalkStarts(r, clients);
      while i < |clients|
        invariant Valid() && Walking(r, clients, i, kept)
        decreases |clients| - i
      {
        var lag := (messages.Length + clients[i].roff - start) % messages.Length;
        WalkOn(r, clients, i, kept);
        if lag < messages.Length * 4 / 10 {
          clients := Without(clients, i);
        } else {
          i := i + 1;
        }
      }
      WalkEnds(r, clients, i, kept);
    }

    /** `message_queue__drop_slow_consumers`. */
    method DropSlowConsumers()
      requires Valid()
      modifies this`clients
      ensures Valid() && clients == AfterDrop(State(), old(clients))
    {
      if start == MQ_EMPTY_SENTINEL {
        return;
      }
      var n := GetLength();
      if n < messages.Length * 8 / 10 {
        return;
      }
      UnlinkSlow();
    }

    /** The loop of `__flush_client_messages`; it ends early at a write that fails. */
    method WriteFrom(first: nat, fd: int, sockets: Sockets)
      returns (at: nat, ghost writes: nat, ghost sent: seq<Message>)
      requires Valid() && first < messages.Length
      modifies sockets
      ensures Drain(messages[..], first, end, writes) == Drained(sent, at, at == end)
      ensures sockets.StreamOf(fd) == old(sockets.StreamOf(fd)) + sent
      ensures forall fd' :: fd' != fd ==> sockets.StreamOf(fd') == old(sockets.StreamOf(fd'))
      ensures sockets.failures == old(sockets.failures) + if at == end then 0 else 1
    {
      ghost var slots := messages[..];
      at, writes, sent := first, 0, [];
      DrainingStarts(slots, first, end);
      while at != end
        invariant Draining(slots, first, at, end, writes, sent)
        invariant sockets.StreamOf(fd) == old(sockets.StreamOf(fd)) + sent
        invariant forall fd' :: fd' != fd ==> sockets.StreamOf(fd') == old(sockets.StreamOf(fd'))
        invariant sockets.failures == old(sockets.failures)
        decreases Gap(at, end, messages.Length)
      {
        var ok := WriteSlot(at, fd, sockets);
        if !ok {
          break;
        }
        SlotDone(slots, first, at, end, writes, sent);
        Assoc(old(sockets.StreamOf(fd)), sent, Present([slots[at]]));
        sent, writes := sent + Present([slots[at]]), writes + if slots[at].Some? then 1 else 0;
        at := (at + 1) % messages.Length;
      }
      DrainingStops(slots, first, at, end, writes, sent);
    }

    /** `__flush_client_messages`: `writes` counts the writes that succeeded. */
    method FlushClientMessages(i: nat, sockets: Sockets) returns (rc: int, ghost writes: nat)
      requires Valid() && i < |clients|
      modifies this`clients, sockets
      ensures Valid()
      ensures var c := old(clients)[i]; var d := Drain(messages[..], c.roff, end, writes);
              && clients == old(clients)[i := Client(c.fd, d.stop)]
              && sockets.StreamOf(c.fd) == old(sockets.StreamOf(c.fd)) + d.sent
              && (forall fd :: fd != c.fd ==> sockets.StreamOf(fd) == old(sockets.StreamOf(fd)))
              && rc == if d.ok then 0 else -1
      ensures sockets.failures == old(sockets.failures) + if rc == 0 then 0 else 1
    {
      var c, at := clients[i], 0;
      ghost var sent;
      at, writes, sent := WriteFrom(c.roff, c.fd, sockets);
      clients := clients[i := Client(c.fd, at)];
      rc := if at == end then 0 else -1;
    }

    /** The objects are in the state w. */
    ghost predicate Matches(w: World, sockets: Sockets)
      reads this, messages, sockets
    {
      && Valid() && w.ring == State() && w.clients == clients
      && forall fd :: sockets.StreamOf(fd) == Broadcast.StreamOf(w, fd)
    }

    /** The flush of a registered client while messages are queued. */
    method FlushFound(i: nat, fd: int, sockets: Sockets, ghost w: World) returns (rc: int, ghost writes: nat)
      requires Matches(w, sockets) && start != MQ_EMPTY_SENTINEL && i == Find(w.clients, fd) < |w.clients|
      modifies this`clients, sockets
      ensures Matches(Flushed(w, fd, writes), sockets)
      ensures rc == if FlushOk(w, fd, writes) then 0 else -1
      ensures sockets.failures == old(sockets.failures) + if rc == 0 then 0 else 1
    {
      rc, writes := FlushClientMessages(i, sockets);
    }

    /** `message_queue__flush`: a step of the protocol, which fails exactly when its last write failed. */
    method Flush(fd: int, sockets: Sockets, ghost w: World) returns (rc: int, ghost writes: nat)
      requires Matches(w, sockets)
      modifies this`clients, sockets
      ensures Matches(Flushed(w, fd, writes), sockets)
      ensures Find(w.clients, fd) < |w.clients| ==>
        && rc == (if FlushOk(w, fd, writes) then 0 else -1)
        && sockets.failures == old(sockets.failures) + if rc == 0 then 0 else 1
      ensures Find(w.clients, fd) == |w.clients| ==>
        rc == (if start == MQ_EMPTY_SENTINEL then 0 else -1) && sockets.failures == old(sockets.failures)
    {
      var n := GetLength();
      FullIsCapacity(State());
      if n == 0 {
        return 0, 0;
      }
      var i := FindClient(fd);
      if i < |clients| {
        rc, writes := FlushFound(i, fd, sockets, w);
        return;
      }
      return -1, 0;
    }

    /** A connection is accepted and its client registered. */
    method Accept(fd: int, sockets: Sockets, ghost w: World)
      requires Matches(w, sockets)
      modifies this`clients, sockets
      ensures Matches(WorldStep(w, Register(fd)), sockets) && sockets.failures == old(sockets.failures)
    {
      sockets.Open(fd);
      RegisterClient(fd);
      ghost var w' := WorldStep(w, Register(fd));
      forall other ensures sockets.StreamOf(other) == Broadcast.StreamOf(w', other) {
        assert other != fd ==> old(sockets.StreamOf(other)) == Broadcast.StreamOf(w, other);
      }
    }

    /** One request of the server loop; the event tells how many writes of a flush succeeded. */
    method Serve(c: Command, sockets: Sockets, ghost w: World) returns (ghost e: Event)
      requires Matches(w, sockets)
      modifies this, messages, sockets
      ensures messages == old(messages) && Performs(c, e) && Matches(WorldStep(w, e), sockets)
      ensures sockets.failures == old(sockets.failures) + if FlushFails(w, e) then 1 else 0
    {
      match c {
        case Join(fd) =>
          Accept(fd, sockets, w);
          e := Register(fd);
        case Leave(fd) =>
          var _ := UnregisterClient(fd);
          e := Unregister(fd);
        case Post(m) =>
          FullIsCapacity(State());
          var _ := Q(m);
          e := Enqueue(m);
        case Deliver(fd) =>
          var rc;
          ghost var writes;
          rc, writes := Flush(fd, sockets, w);
          e := Event.Flush(fd, writes);
        case Drop =>
          DropSlowConsumers();
          e := DropSlow;
      }
    }

    /** A client's message, as the server takes it; dropping clients frees no slot, so a full queue stays full. */
    method Receive(m: Message, sockets: Sockets, ghost w: World) returns (rc: int, ghost es: seq<Event>)
      requires Matches(w, sockets)
      modifies this, messages
      ensures messages == old(messages) && Matches(RunAll(w, es), sockets)
      ensures es == if IsFull(w.ring) then [Enqueue(m), DropSlow, Enqueue(m)] else [Enqueue(m)]
      ensures rc == if IsFull(w.ring) then -40 else if |m| > 512 then -41 else 0
      ensures rc != 0 ==> State() == old(State())
      ensures rc != -40 ==> clients == old(clients)
      ensures rc == -40 ==> clients == AfterDrop(w.ring, w.clients)
      ensures rc == 0 && GuardHolds(w.ring) ==> Live(State()) == Live(old(State())) + [Some(m)]
    {
      FullIsCapacity(w.ring);
      RunOne(w, Enqueue(m));
      rc := Q(m);
      es := [Enqueue(m)];
      if rc == MQERR_FULL {
        DropSlowConsumers();
        RunSnoc(w, es, DropSlow);
        rc := Q(m);
        RunSnoc(w, es + [DropSlow], Enqueue(m));
        es := es + [DropSlow] + [Enqueue(m)];
      }
    }

    /** Any sequence of requests on the objects is a run of the protocol, with a failed write for each flush that fails. */
    method ServeEach(cs: seq<Command>, sockets: Sockets, ghost w: World) returns (ghost es: seq<Event>)
      requires Matches(w, sockets)
      modifies this, messages, sockets
      ensures messages == old(messages) && Matches(RunAll(w, es), sockets)
      ensures |es| == |cs| && forall i :: 0 <= i < |cs| ==> Performs(cs[i], es[i])
      ensures sockets.failures == old(sockets.failures) + FailedFlushes(w, es)
    {
      es := [];
      ghost var now := w;
      for i := 0 to |cs|
        invariant messages == old(messages)
        invariant |es| == i && forall j :: 0 <= j < i ==> Performs(cs[j], es[j])
        invariant Matches(now, sockets) && now == RunAll(w, es)
        invariant sockets.failures == old(sockets.failures) + FailedFlushes(w, es)
      {
        ghost var e := Serve(cs[i], sockets, now);
        RunSnoc(w, es, e);
        es, now := es + [e], WorldStep(now, e);
      }
    }

    /** Each client has received a prefix of log. */
    ghost predicate InOrder(log: seq<Message>, sockets: Sockets)
      reads this, sockets
    {
      forall i :: 0 <= i < |clients| ==> sockets.StreamOf(clients[i].fd) <= log
    }

    /** A registered client has received all of log, unless log fills the queue and it has received nothing. */
    ghost predicate Served(fd: int, log: seq<Message>, sockets: Sockets)
      reads this, sockets
    {
      fd in Fds(clients) ==>
        sockets.StreamOf(fd) == log || (|log| == messages.Length && sockets.StreamOf(fd) == [])
    }

    lemma StreamsAreSent(w: World, log: seq<Message>, sockets: Sockets)
      requires Matches(w, sockets) && Inv(w) && w.log == log
      ensures InOrder(log, sockets)
      ensures forall fd :: HasAllOrNothing(w, fd) ==> Served(fd, log, sockets)
    {
      forall i | 0 <= i < |clients| ensures sockets.StreamOf(clients[i].fd) <= log {
        assert InStep(w, w.clients[i]);
      }
    }

    /**
    The run is legal when every descriptor accepted is new, and if nobody is dropped only then. In such a
    run each client has received a prefix of the messages posted, as many as the queue holds; if no write
    has failed, every delivery left its client with all of those posted before it, or stuck.
    */
    method ServeAll(cs: seq<Command>, sockets: Sockets, ghost w: World) returns (ghost es: seq<Event>)
      requires Matches(w, sockets)
      modifies this, messages, sockets
      ensures messages == old(messages) && Matches(RunAll(w, es), sockets)
      ensures |es| == |cs| && forall i :: 0 <= i < |cs| ==> Performs(cs[i], es[i])
      ensures sockets.failures == old(sockets.failures) + FailedFlushes(w, es)
      ensures Inv(w) && Drop !in cs ==> (LegalRun(w, es) <==> NewJoins(Fds(w.clients), cs))
      ensures Inv(w) && NewJoins(Fds(w.clients), cs) ==>
        && LegalRun(w, es) && Inv(RunAll(w, es))
        && InOrder(FirstOf(w.log + Posted(cs), messages.Length), sockets)
      ensures Inv(w) && NewJoins(Fds(w.clients), cs) && sockets.failures == old(sockets.failures) ==>
        && (forall k :: 0 <= k < |es| && es[k].Flush? ==> DeliversAt(w, es, k))
        && (EndsDelivering(cs) ==> Served(cs[|cs| - 1].fd, FirstOf(w.log + Posted(cs), messages.Length), sockets))
    {
      es := ServeEach(cs, sockets, w);
      RunIsServed(w, cs, es);
      if Inv(w) && NewJoins(Fds(w.clients), cs) {
        StreamsAreSent(RunAll(w, es), FirstOf(w.log + Posted(cs), messages.Length), sockets);
      }
    }

    /** One operation on the queue alone. */
    method Operate(op: Op) returns (m: Option<Message>)
      requires Valid() && HoldsMessages(State()) && (op.Put? ==> |op.m| <= MAX_MESSAGE_LENGTH && GuardHolds(State()))
      modifies this, messages
      ensures messages == old(messages) && Valid() && HoldsMessages(State())
      ensures State() == RingStep(old(State()), op)
      ensures op.Take? ==> m == if Live(old(State())) == [] then None else Live(old(State()))[0]
    {
      ghost var r := State();
      StepHoldsMessages(r, op);
      FullIsCapacity(r);
      m := None;
      match op {
        case Put(msg) =>
          var _ := Q(msg);
        case Take =>
          if start != MQ_EMPTY_SENTINEL {
            DequeueDropsFirst(r);
            assert Live(r)[0] == messages[start];
          }
          m := Dq();
      }
    }

    /** Any guarded sequence of enqueues and dequeues returns what a bounded FIFO returns. */
    method OperateAll(ops: seq<Op>) returns (taken: seq<Option<Message>>)
      requires Valid() && HoldsMessages(State()) && GuardedRun(State(), ops)
      requires forall i :: 0 <= i < |ops| && ops[i].Put? ==> |ops[i].m| <= MAX_MESSAGE_LENGTH
      modifies this, messages
      ensures Valid() && State() == RunFrom(old(State()), ops)
      ensures taken == FifoTaken(Live(old(State())), messages.Length, ops)
    {
      ghost var r0, all := State(), FifoTaken(Live(State()), messages.Length, ops);
      taken := [];
      assert ops[0..] == ops && taken + all == all;
      for i := 0 to |ops|
        invariant messages == old(messages) && Valid() && HoldsMessages(State())
        invariant GuardedRun(State(), ops[i..]) && RunFrom(State(), ops[i..]) == RunFrom(r0, ops)
        invariant taken + FifoTaken(Live(State()), messages.Length, ops[i..]) == all
      {
        ghost var r, rest := State(), ops[i..];
        assert rest[0] == ops[i] && rest[1..] == ops[i + 1..];
        StepIsFifo(r, ops[i]);
        var m := Operate(ops[i]);
        var now := if ops[i].Take? then [m] else [];
        Assoc(taken, now, FifoTaken(Live(State()), messages.Length, ops[i + 1..]));
        taken := taken + now;
      }
      assert ops[|ops|..] == [] && taken + [] == taken;
    }
  }

  /** A request; unlike an event it does not say how many writes succeed. */
  datatype Command = Join(fd: int) | Leave(fd: int) | Post(m: Message) | Deliver(fd: int) | Drop

  predicate Performs(c: Command, e: Event) {
    match c
    case Join(fd) => e == Register(fd)
    case Leave(fd) => e == Unregister(fd)
    case Post(m) => e == Enqueue(m)
    case Deliver(fd) => e.Flush? && e.fd == fd
    case Drop => e == DropSlow
  }

  function OpenAfter(open: set<int>, c: Command): set<int> {
    match c
    case Join(fd) => open + {fd}
    case Leave(fd) => open - {fd}
    case _ => open
  }

  /** The messages posted, in order, but for those that are too long. */
  function Posted(cs: seq<Command>): seq<Message> {
    if cs == [] then []
    else (if cs[0].Post? && |cs[0].m| <= 512 then [cs[0].m] else []) + Posted(cs[1..])
  }

  lemma {:induction false} PostedIsOffered(cs: seq<Command>, es: seq<Event>)
    requires |es| == |cs| && forall i :: 0 <= i < |cs| ==> Performs(cs[i], es[i])
    ensures Offered(es) == Posted(cs)
  {
    if cs != [] {
      PostedIsOffered(cs[1..], es[1..]);
    }
  }

  predicate EndsDelivering(cs: seq<Command>) {
    cs != [] && cs[|cs| - 1].Deliver?
  }

  /** Each descriptor is accepted only while it is not registered. */
  predicate NewJoins(open: set<int>, cs: seq<Command>)
    decreases |cs|
  {
    cs != [] ==> (cs[0].Join? ==> cs[0].fd !in open) && NewJoins(OpenAfter(open, cs[0]), cs[1..])
  }

  lemma OneJoin(w: World, c: Command, e: Event, open: set<int>)
    requires Performs(c, e)
    ensures Legal(w, e) <==> (c.Join? ==> c.fd !in Fds(w.clients))
    ensures OpenAfter(open, c) == FdsAfter(open, e)
  {
    if e.Register? {
      FindIsIn(w.clients, e.fd);
    }
  }

  /** What the run theorems need, and the progress they give. */
  lemma RunIsServed(w: World, cs: seq<Command>, es: seq<Event>)
    requires WorldShape(w)
    requires |es| == |cs| && forall i :: 0 <= i < |cs| ==> Performs(cs[i], es[i])
    ensures Inv(w) && Drop !in cs ==> (LegalRun(w, es) <==> NewJoins(Fds(w.clients), cs))
    ensures Inv(w) && NewJoins(Fds(w.clients), cs) ==>
      && LegalRun(w, es) && Inv(RunAll(w, es))
      && RunAll(w, es).log == FirstOf(w.log + Posted(cs), |w.ring.slots|)
    ensures Inv(w) && NewJoins(Fds(w.clients), cs) && FailedFlushes(w, es) == 0 ==>
      && (forall k :: 0 <= k < |es| && es[k].Flush? ==> DeliversAt(w, es, k))
      && (EndsDelivering(cs) ==> HasAllOrNothing(RunAll(w, es), cs[|cs| - 1].fd))
  {
    if Inv(w) && Drop !in cs {
      LegalIffNewJoins(w, Fds(w.clients), cs, es);
    }
    if Inv(w) && NewJoins(Fds(w.clients), cs) {
      NewJoinsAreLegal(w, Fds(w.clients), cs, es);
      LogIsOffered(w, es);
      PostedIsOffered(cs, es);
      if FailedFlushes(w, es) == 0 && EndsDelivering(cs) {
        LastDelivery(w, es);
      }
      forall k | FailedFlushes(w, es) == 0 && 0 <= k < |es| && es[k].Flush? ensures DeliversAt(w, es, k) {
        RunDelivers(w, es, k);
      }
    }
  }

  lemma {:induction false} NewJoinsAreLegal(w: World, open: set<int>, cs: seq<Command>, es: seq<Event>)
    requires Inv(w) && WorldShape(w) && Fds(w.clients) <= open && NewJoins(open, cs)
    requires |es| == |cs| && forall i :: 0 <= i < |cs| ==> Performs(cs[i], es[i])
    ensures LegalRun(w, es) && Inv(RunAll(w, es))
    decreases |cs|
  {
    if cs != [] {
      OneJoin(w, cs[0], es[0], open);
      StepFds(w, es[0]);
      StepKeeps(w, es[0]);
      NewJoinsAreLegal(WorldStep(w, es[0]), OpenAfter(open, cs[0]), cs[1..], es[1..]);
    }
  }

  lemma {:induction false} LegalIffNewJoins(w: World, open: set<int>, cs: seq<Command>, es: seq<Event>)
    requires Inv(w) && WorldShape(w) && Drop !in cs && open == Fds(w.clients)
    requires |es| == |cs| && forall i :: 0 <= i < |cs| ==> Performs(cs[i], es[i])
    ensures LegalRun(w, es) <==> NewJoins(open, cs)
    decreases |cs|
  {
    if cs != [] {
      OneJoin(w, cs[0], es[0], open);
      if Legal(w, es[0]) {
        StepFds(w, es[0]);
        StepKeeps(w, es[0]);
        LegalIffNewJoins(WorldStep(w, es[0]), OpenAfter(open, cs[0]), cs[1..], es[1..]);
      }
    }
  }

  /** With drops the condition on commands is not necessary: a starved client is dropped and may join again. */
  lemma DroppedMayRejoin(w: World, fd: int)
    requires Starved(w, fd) && |w.ring.slots| >= 3
    ensures LegalRun(w, [DropSlow, Register(fd)])
    ensures !NewJoins(Fds(w.clients), [Drop, Join(fd)])
  {
    var c, w' := w.clients[Find(w.clients, fd)], WorldStep(w, DropSlow);
    EnqueueKeeps(w.ring, w.log, []);
    DropsTheSlowAndTheDone(w, c);
    FindIsIn(w.clients, fd);
    FindIsIn(w'.clients, fd);
    assert forall other :: other in w.clients && other.fd == fd ==> other == c;
    assert [DropSlow, Register(fd)][1..] == [Register(fd)] && [Drop, Join(fd)][1..] == [Join(fd)];
    assert LegalRun(w', [Register(fd)]);
    assert !NewJoins(Fds(w.clients), [Join(fd)]);
  }

  /** The walk has passed the first i clients; with what the test leaves of the rest they make up `kept`. */
  ghost predicate Walking(r: Ring, clients: seq<Client>, i: int, kept: seq<Client>)
    requires Shape(r)
  {
    0 <= i <= |clients| && clients[..i] + NotSlow(r, clients[i..]) == kept
  }

  lemma WalkStarts(r: Ring, clients: seq<Client>)
    requires Shape(r)
    ensures Walking(r, clients, 0, NotSlow(r, clients))
  {
    assert clients[0..] == clients;
  }

  /** One client of the walk: it is passed by, or unlinked. */
  lemma WalkOn(r: Ring, clients: seq<Client>, i: nat, kept: seq<Client>)
    requires Shape(r) && i < |clients| && Walking(r, clients, i, kept)
    ensures if Slow(r, clients[i]) then Walking(r, Without(clients, i), i, kept) else Walking(r, clients, i + 1, kept)
  {
    assert clients[i..][1..] == clients[i + 1..];
    if Slow(r, clients[i]) {
      var cs := Without(clients, i);
      assert cs[..i] == clients[..i] && cs[i..] == clients[i + 1..];
    } else {
      assert clients[..i + 1] == clients[..i] + [clients[i]];
      Assoc(clients[..i], [clients[i]], NotSlow(r, clients[i + 1..]));
    }
  }

  lemma WalkEnds(r: Ring, clients: seq<Client>, i: int, kept: seq<Client>)
    requires Shape(r) && Walking(r, clients, i, kept) && i >= |clients|
    ensures clients == kept
  {
  }

  lemma WrapIndex(x: nat, n: nat)
    requires n > 0 && x < 2 * n
    ensures x % n == if x < n then x else x - n
  {
  }

  /** A drain that has already sent some messages. */
  function AfterSending(sent: seq<Message>, d: Drained): Drained {
    d.(sent := sent + d.sent)
  }

  /** From `first` the loop has got to `at` with `writes` writes, which sent `sent`. */
  ghost predicate Draining(slots: seq<Option<Message>>, first: int, at: int, end: int,
                           writes: nat, sent: seq<Message>)
  {
    && 0 <= first < |slots| && 0 <= at < |slots| && 0 <= end < |slots|
    && forall more: nat ::
         Drain(slots, first, end, writes + more) == AfterSending(sent, Drain(slots, at, end, more))
  }

  lemma DrainingStarts(slots: seq<Option<Message>>, first: nat, end: nat)
    requires first < |slots| && end < |slots|
    ensures Draining(slots, first, first, end, 0, [])
  {
    forall more: nat ensures Drain(slots, first, end, 0 + more) == AfterSending([], Drain(slots, first, end, more)) {
      var d := Drain(slots, first, end, more);
      assert [] + d.sent == d.sent;
    }
  }

  function Next(at: nat, n: nat): nat {
    if at + 1 == n then 0 else at + 1
  }

  /** One slot more. */
  lemma SlotDone(slots: seq<Option<Message>>, first: nat, at: nat, end: nat, writes: nat, sent: seq<Message>)
    requires Draining(slots, first, at, end, writes, sent) && at != end
    ensures var next := (at + 1) % |slots|;
            && Gap(next, end, |slots|) < Gap(at, end, |slots|)
            && Draining(slots, first, next, end, writes + if slots[at].Some? then 1 else 0,
                        sent + Present([slots[at]]))
  {
    NextIndex(at, |slots|);
    PresentOne(slots[at]);
    if slots[at].Some? {
      SendingOn(slots, first, at, end, writes, sent);
    } else {
      SkippingNull(slots, first, at, end, writes, sent);
      assert sent + [] == sent;
    }
  }

  /** One successful write more. */
  lemma SendingOn(slots: seq<Option<Message>>, first: nat, at: nat, end: nat, writes: nat, sent: seq<Message>)
    requires Draining(slots, first, at, end, writes, sent) && at != end && slots[at].Some?
    ensures Draining(slots, first, Next(at, |slots|), end, writes + 1, sent + [slots[at].value])
  {
    var next, m := Next(at, |slots|), slots[at].value;
    forall more: nat
      ensures Drain(slots, first, end, writes + 1 + more) == AfterSending(sent + [m], Drain(slots, next, end, more))
    {
      assert Drain(slots, first, end, writes + (1 + more)) == AfterSending(sent, Drain(slots, at, end, 1 + more));
      Assoc(sent, [m], Drain(slots, next, end, more).sent);
    }
  }

  lemma SkippingNull(slots: seq<Option<Message>>, first: nat, at: nat, end: nat, writes: nat, sent: seq<Message>)
    requires Draining(slots, first, at, end, writes, sent) && at != end && slots[at].None?
    ensures Draining(slots, first, Next(at, |slots|), end, writes, sent)
  {
    forall more: nat
      ensures Drain(slots, first, end, writes + more) == AfterSending(sent, Drain(slots, Next(at, |slots|), end, more))
    {
      assert Drain(slots, at, end, more) == Drain(slots, Next(at, |slots|), end, more);
    }
  }

  /** At the end, or at a write that fails, the drain is what has been sent. */
  lemma DrainingStops(slots: seq<Option<Message>>, first: nat, at: nat, end: nat, writes: nat, sent: seq<Message>)
    requires Draining(slots, first, at, end, writes, sent) && (at == end || slots[at].Some?)
    ensures Drain(slots, first, end, writes) == Drained(sent, at, at == end)
  {
    assert Drain(slots, first, end, writes + 0) == AfterSending(sent, Drain(slots, at, end, 0));
    assert sent + [] == sent;
  }
}
