/**
The broadcast protocol over the ring: clients with read offsets, and flushes that may fail halfway.
One World is the queue, its clients, and what each client's connection has received.
*/
module Broadcast {
  import opened Bytes
  import opened MessageRing

  datatype Client = Client(fd: int, roff: nat)

  /** What a flush does: the messages written, the offset it leaves, and whether it got to the end. */
  datatype Drained = Drained(sent: seq<Message>, stop: nat, ok: bool)

  /** Slots from i round to end. */
  function Gap(i: nat, end: nat, n: nat): nat
    requires i < n && end < n
  {
    if i <= end then end - i else n - i + end
  }

  /** `__flush_client_messages` from offset i when the first `writes` writes succeed and the next one fails. */
  function Drain(slots: seq<Option<Message>>, i: nat, end: nat, writes: nat): (d: Drained)
    requires i < |slots| && end < |slots|
    ensures d.stop < |slots|
    decreases Gap(i, end, |slots|)
  {
    if i == end then Drained([], i, true)
    else
      var next := if i + 1 == |slots| then 0 else i + 1;
      match slots[i]
      case None => Drain(slots, next, end, writes)
      case Some(m) =>
        if writes == 0 then Drained([], i, false)
        else
          var d := Drain(slots, next, end, writes - 1);
          d.(sent := [m] + d.sent)
  }

  /** The first client with this descriptor, or the number of clients. */
  function Find(clients: seq<Client>, fd: int): (i: nat)
    ensures i <= |clients|
    ensures i < |clients| ==> clients[i].fd == fd
    ensures forall j :: 0 <= j < i ==> clients[j].fd != fd
  {
    if clients == [] || clients[0].fd == fd then 0 else 1 + Find(clients[1..], fd)
  }

  function Registered(r: Ring, clients: seq<Client>, fd: int): seq<Client>
    requires Shape(r)
  {
    [Client(fd, if r.start == MQ_EMPTY_SENTINEL then 0 else r.start)] + clients
  }

  function Without(clients: seq<Client>, i: nat): (cs: seq<Client>)
    requires i < |clients|
    ensures |cs| == |clients| - 1
    ensures forall j :: 0 <= j < |cs| ==> cs[j] == clients[if j < i then j else j + 1]
  {
    clients[..i] + clients[i + 1..]
  }

  function Unregistered(clients: seq<Client>, fd: int): seq<Client> {
    var i := Find(clients, fd);
    if i < |clients| then Without(clients, i) else clients
  }

  /** The lag test of `message_queue__drop_slow_consumers`: the offset stands in the first 40% of the ring. */
  predicate Slow(r: Ring, c: Client)
    requires Shape(r)
  {
    (|r.slots| + c.roff - r.start) % |r.slots| < |r.slots| * 4 / 10
  }

  /** What the test leaves of the clients. */
  function NotSlow(r: Ring, clients: seq<Client>): (cs: seq<Client>)
    requires Shape(r)
    ensures forall c :: c in cs ==> c in clients
  {
    if clients == [] then []
    else (if Slow(r, clients[0]) then [] else [clients[0]]) + NotSlow(r, clients[1..])
  }

  /** Nobody is dropped before the ring is 80% full. */
  function AfterDrop(r: Ring, clients: seq<Client>): (cs: seq<Client>)
    requires Shape(r)
    ensures forall c :: c in cs ==> c in clients
  {
    if r.start == MQ_EMPTY_SENTINEL || |Live(r)| < |r.slots| * 8 / 10 then clients else NotSlow(r, clients)
  }

  /** The messages among some slots. */
  function Present(ss: seq<Option<Message>>): seq<Message> {
    if ss == [] then []
    else (if ss[0].Some? then [ss[0].value] else []) + Present(ss[1..])
  }

  lemma PresentOne(slot: Option<Message>)
    ensures Present([slot]) == if slot.Some? then [slot.value] else []
  {
    var rest: seq<Option<Message>> := [slot][1..];
    assert rest == [];
  }

  /** The slots from i round to end; none when they coincide. */
  function Arc(slots: seq<Option<Message>>, i: nat, end: nat): seq<Option<Message>>
    requires i < |slots| && end < |slots|
  {
    if i <= end then slots[i..end] else slots[i..] + slots[..end]
  }

  lemma ArcFrom(slots: seq<Option<Message>>, i: nat, end: nat)
    requires i < |slots| && end < |slots| && i != end
    ensures Arc(slots, i, end) == [slots[i]] + Arc(slots, if i + 1 == |slots| then 0 else i + 1, end)
  {
    if i < end {
      HeadOfSlice(slots, i, end);
    } else {
      HeadOfSlice(slots, i, |slots|);
      assert slots[i..|slots|] == slots[i..] && slots[i + 1..|slots|] == slots[i + 1..];
      Assoc([slots[i]], slots[i + 1..], slots[..end]);
      assert i + 1 == |slots| ==> slots[i + 1..] + slots[..end] == slots[0..end];
    }
  }

  /** On any ring, a flush whose writes all succeed sends the messages from the offset round to end. */
  lemma {:induction false} DrainSendsArc(slots: seq<Option<Message>>, i: nat, end: nat, writes: nat)
    requires i < |slots| && end < |slots| && writes >= Gap(i, end, |slots|)
    ensures Drain(slots, i, end, writes) == Drained(Present(Arc(slots, i, end)), end, true)
    decreases Gap(i, end, |slots|)
  {
    if i != end {
      var next := if i + 1 == |slots| then 0 else i + 1;
      DrainSendsArc(slots, next, end, if slots[i].Some? then writes - 1 else writes);
      ArcFrom(slots, i, end);
      assert Arc(slots, i, end)[1..] == Arc(slots, next, end);
    }
  }

  /** A client that registers while messages are queued gets exactly those, if the ring is not full. */
  lemma NewClientGetsTheLive(r: Ring, clients: seq<Client>, fd: int, writes: nat)
    requires Shape(r) && r.start != MQ_EMPTY_SENTINEL && writes >= |r.slots|
    ensures var c := Registered(r, clients, fd)[0];
            Drain(r.slots, c.roff, r.end, writes) == Drained(if IsFull(r) then [] else Present(Live(r)), r.end, true)
  {
    DrainSendsArc(r.slots, r.start, r.end, writes);
  }

  // ---- Runs of the protocol ----

  /** log is every message accepted so far; streams what each descriptor has received since it registered. */
  datatype World = World(ring: Ring, clients: seq<Client>, log: seq<Message>, streams: map<int, seq<Message>>)

  datatype Event =
    | Register(fd: int)
    | Unregister(fd: int)
    | Enqueue(m: Message)
    | Flush(fd: int, writes: nat)
    | DropSlow

  function Init(capacity: nat): World
    requires capacity > 0
  {
    World(Fresh(capacity), [], [], map[])
  }

  function StreamOf(w: World, fd: int): seq<Message> {
    if fd in w.streams then w.streams[fd] else []
  }

  predicate WorldShape(w: World) {
    Shape(w.ring) && forall i :: 0 <= i < |w.clients| ==> w.clients[i].roff < |w.ring.slots|
  }

  function Flushed(w: World, fd: int, writes: nat): (w': World)
    requires WorldShape(w)
  {
    var i := Find(w.clients, fd);
    if w.ring.start == MQ_EMPTY_SENTINEL || i == |w.clients| then w
    else
      var d := Drain(w.ring.slots, w.clients[i].roff, w.ring.end, writes);
      w.(clients := w.clients[i := Client(fd, d.stop)], streams := w.streams[fd := StreamOf(w, fd) + d.sent])
  }

  /** The flush of a registered client returns 0. */
  predicate FlushOk(w: World, fd: int, writes: nat)
    requires WorldShape(w) && Find(w.clients, fd) < |w.clients|
  {
    w.ring.start == MQ_EMPTY_SENTINEL
    || Drain(w.ring.slots, w.clients[Find(w.clients, fd)].roff, w.ring.end, writes).ok
  }

  /** The event is a flush of a registered client that ends at a failed write. */
  predicate FlushFails(w: World, e: Event)
    requires WorldShape(w)
  {
    e.Flush? && Find(w.clients, e.fd) < |w.clients| && !FlushOk(w, e.fd, e.writes)
  }

  function WorldStep(w: World, e: Event): (w': World)
    requires WorldShape(w)
    ensures WorldShape(w')
  {
    match e
    case Register(fd) => w.(clients := Registered(w.ring, w.clients, fd), streams := w.streams[fd := []])
    case Unregister(fd) => w.(clients := Unregistered(w.clients, fd))
    case Enqueue(m) =>
      if IsFull(w.ring) || |m| > MAX_MESSAGE_LENGTH then w
      else w.(ring := Enqueued(w.ring, m), log := w.log + [m])
    case Flush(fd, writes) => Flushed(w, fd, writes)
    case DropSlow =>
      var cs := AfterDrop(w.ring, w.clients);
      assert forall i :: 0 <= i < |cs| ==> cs[i] in cs;
      w.(clients := cs)
  }

  /** A descriptor is registered only while no client holds it. */
  predicate Legal(w: World, e: Event) {
    e.Register? ==> Find(w.clients, e.fd) == |w.clients|
  }

  // ---- The invariant ----

  function Min(a: nat, b: nat): nat {
    if a < b then a else b
  }

  /** Where the message after the first k of the log stands. */
  function SlotAfter(k: nat, capacity: nat): nat {
    if k == capacity then 0 else k
  }

  /** Without dequeues the ring holds the whole log from slot 0 on. */
  ghost predicate Holds(r: Ring, log: seq<Message>) {
    && Shape(r) && |log| <= |r.slots|
    && r.start == (if log == [] then MQ_EMPTY_SENTINEL else 0)
    && r.end == SlotAfter(|log|, |r.slots|)
    && (forall i :: 0 <= i < |log| ==> r.slots[i] == Some(log[i]))
  }

  /** The client has received the log's first messages, and its offset is where the next one stands. */
  ghost predicate InStep(w: World, c: Client) {
    && c.fd in w.streams
    && w.streams[c.fd] <= w.log
    && c.roff == SlotAfter(|w.streams[c.fd]|, |w.ring.slots|)
  }

  ghost predicate Distinct(clients: seq<Client>) {
    forall i, j :: 0 <= i < j < |clients| ==> clients[i].fd != clients[j].fd
  }

  ghost predicate Inv(w: World) {
    && Holds(w.ring, w.log)
    && Distinct(w.clients)
    && (forall i :: 0 <= i < |w.clients| ==> InStep(w, w.clients[i]))
  }

  /** The ring is full and the client has read nothing: start, end and its offset coincide. */
  predicate Stuck(r: Ring, log: seq<Message>, k: nat) {
    k == 0 && |log| == |r.slots|
  }

  /** A flush continues the client's stream with the log, message by message, for as long as writes succeed. */
  lemma {:induction false} DrainContinues(r: Ring, log: seq<Message>, k: nat, e: nat, writes: nat)
    requires Holds(r, log) && k <= |log| && !Stuck(r, log, k) && e == Min(k + writes, |log|)
    ensures Drain(r.slots, SlotAfter(k, |r.slots|), r.end, writes)
         == Drained(log[k..e], SlotAfter(e, |r.slots|), e == |log|)
    decreases e - k
  {
    if k < e {
      DrainContinues(r, log, k + 1, e, writes - 1);
      DrainWrites(r.slots, k, r.end, writes);
      HeadOfSlice(log, k, e);
    } else {
      assert log[k..e] == [];
    }
  }

  lemma DrainWrites(slots: seq<Option<Message>>, i: nat, end: nat, writes: nat)
    requires i < |slots| && end < |slots| && i != end && slots[i].Some? && writes > 0
    ensures var d := Drain(slots, SlotAfter(i + 1, |slots|), end, writes - 1);
            Drain(slots, i, end, writes) == Drained([slots[i].value] + d.sent, d.stop, d.ok)
  {
  }

  lemma EnqueueKeeps(r: Ring, log: seq<Message>, m: Message)
    requires Holds(r, log)
    ensures IsFull(r) <==> |log| == |r.slots|
    ensures !IsFull(r) ==> Holds(Enqueued(r, m), log + [m])
  {
    if !IsFull(r) {
      NextIndex(r.end, |r.slots|);
    }
  }

  /** The world once client i has received the first k messages of the log. */
  function Moved(w: World, i: nat, k: nat): World
    requires i < |w.clients| && k <= |w.log|
  {
    var fd := w.clients[i].fd;
    w.(clients := w.clients[i := Client(fd, SlotAfter(k, |w.ring.slots|))], streams := w.streams[fd := w.log[..k]])
  }

  lemma MovedKeeps(w: World, i: nat, k: nat)
    requires Inv(w) && i < |w.clients| && k <= |w.log|
    ensures Inv(Moved(w, i, k))
  {
    var w' := Moved(w, i, k);
    forall j | 0 <= j < |w'.clients| ensures InStep(w', w'.clients[j]) {
      assert InStep(w, w.clients[j]);
    }
  }

  /** How much of the log a stream of k messages holds after a flush: no more than before when stuck. */
  function Reached(w: World, k: nat, writes: nat): (e: nat)
    requires k <= |w.log|
    ensures k <= e <= |w.log|
  {
    if Stuck(w.ring, w.log, k) then 0 else Min(k + writes, |w.log|)
  }

  /** What the flush of client i sends, after the k messages it has received. */
  lemma DrainReaches(w: World, i: nat, k: nat, writes: nat)
    requires Inv(w) && i < |w.clients| && w.log != [] && k == |StreamOf(w, w.clients[i].fd)|
    ensures k <= |w.log| && StreamOf(w, w.clients[i].fd) == w.log[..k]
    ensures var e, d := Reached(w, k, writes), Drain(w.ring.slots, w.clients[i].roff, w.ring.end, writes);
            && d.sent == w.log[k..e] && d.stop == SlotAfter(e, |w.ring.slots|)
            && (d.ok <==> Stuck(w.ring, w.log, k) || k + writes >= |w.log|)
  {
    assert InStep(w, w.clients[i]);
    if !Stuck(w.ring, w.log, k) {
      DrainContinues(w.ring, w.log, k, Reached(w, k, writes), writes);
    }
  }

  lemma FlushMoves(w: World, i: nat, k: nat, writes: nat)
    requires Inv(w) && WorldShape(w) && i < |w.clients| && i == Find(w.clients, w.clients[i].fd)
    requires k == |StreamOf(w, w.clients[i].fd)|
    ensures k <= |w.log|
    ensures Flushed(w, w.clients[i].fd, writes) == Moved(w, i, Reached(w, k, writes))
    ensures FlushOk(w, w.clients[i].fd, writes) <==> Stuck(w.ring, w.log, k) || k + writes >= |w.log|
  {
    var c := w.clients[i];
    assert InStep(w, c);
    if w.log == [] {
      assert w.clients[i := c] == w.clients && w.streams[c.fd := []] == w.streams;
    } else {
      DrainReaches(w, i, k, writes);
      var e := Reached(w, k, writes);
      assert w.log[..k] + w.log[k..e] == w.log[..e];
    }
  }

  lemma FlushWrites(w: World, fd: int, writes: nat)
    requires Inv(w) && WorldShape(w) && Find(w.clients, fd) < |w.clients|
    ensures var k := |StreamOf(w, fd)|;
            && k <= |w.log| && StreamOf(Flushed(w, fd, writes), fd) == w.log[..Reached(w, k, writes)]
            && (FlushOk(w, fd, writes) <==> Stuck(w.ring, w.log, k) || k + writes >= |w.log|)
    ensures Inv(Flushed(w, fd, writes))
  {
    var i, k := Find(w.clients, fd), |StreamOf(w, fd)|;
    FlushMoves(w, i, k, writes);
    MovedKeeps(w, i, Reached(w, k, writes));
  }

  /**
  A flush never loses, repeats or reorders a message, failed or not: it extends the client's stream
  along the log, and no other stream. A successful one brings the whole log, unless the ring is full
  and the client has read nothing, when it writes nothing at all; a failed one brings what it wrote.
  */
  lemma FlushDelivers(w: World, fd: int, writes: nat)
    requires Inv(w) && WorldShape(w) && Find(w.clients, fd) < |w.clients|
    ensures var w' := Flushed(w, fd, writes); var had, has := StreamOf(w, fd), StreamOf(w', fd);
            && had <= has <= w.log
            && (FlushOk(w, fd, writes) ==> (has == w.log <==> !Stuck(w.ring, w.log, |had|)))
            && (!FlushOk(w, fd, writes) ==> |has| == |had| + writes < |w.log|)
            && (forall fd' :: fd' != fd ==> StreamOf(w', fd') == StreamOf(w, fd'))
  {
    FlushWrites(w, fd, writes);
    assert InStep(w, w.clients[Find(w.clients, fd)]);
  }

  lemma RegisterKeeps(w: World, fd: int)
    requires Inv(w) && WorldShape(w) && Legal(w, Register(fd))
    ensures Inv(WorldStep(w, Register(fd)))
  {
    var w' := WorldStep(w, Register(fd));
    forall j | 0 <= j < |w'.clients| ensures InStep(w', w'.clients[j]) && (j > 0 ==> w'.clients[j].fd != fd) {
      if j > 0 {
        assert InStep(w, w.clients[j - 1]);
      }
    }
  }

  lemma UnregisterKeeps(w: World, fd: int)
    requires Inv(w) && WorldShape(w)
    ensures Inv(WorldStep(w, Unregister(fd)))
  {
    var w' := WorldStep(w, Unregister(fd));
    var i := Find(w.clients, fd);
    if i < |w.clients| {
      forall j | 0 <= j < |w'.clients|
        ensures w'.clients[j] == w.clients[if j < i then j else j + 1] && InStep(w', w'.clients[j])
      {
        assert InStep(w, w.clients[if j < i then j else j + 1]);
      }
    }
  }

  /** Unregistering forgets this client, and only this one: the others keep their offsets. */
  lemma UnregisterForgets(w: World, fd: int)
    requires Inv(w)
    ensures var cs := Unregistered(w.clients, fd);
            && (forall i :: 0 <= i < |cs| ==> cs[i].fd != fd)
            && (forall c :: c in w.clients && c.fd != fd ==> c in cs)
  {
    var cs, i := Unregistered(w.clients, fd), Find(w.clients, fd);
    if i < |w.clients| {
      forall j | 0 <= j < |cs| ensures cs[j].fd != fd {
        assert cs[j] == w.clients[if j < i then j else j + 1];
      }
      forall c | c in w.clients && c.fd != fd ensures c in cs {
        var j :| 0 <= j < |w.clients| && w.clients[j] == c;
        assert c == cs[if j < i then j else j - 1];
      }
    }
  }

  lemma {:induction false} NotSlowKeeps(r: Ring, clients: seq<Client>, c: Client)
    requires Shape(r) && c in clients
    ensures c in NotSlow(r, clients) <==> !Slow(r, c)
  {
    if c in clients[1..] {
      NotSlowKeeps(r, clients[1..], c);
    } else {
      assert c == clients[0];
    }
  }

  lemma {:induction false} NotSlowDistinct(r: Ring, clients: seq<Client>)
    requires Shape(r) && Distinct(clients)
    ensures Distinct(NotSlow(r, clients))
  {
    if clients != [] {
      NotSlowDistinct(r, clients[1..]);
      forall c | c in NotSlow(r, clients[1..]) ensures c.fd != clients[0].fd {
        assert c in clients[1..];
      }
    }
  }

  lemma DropKeeps(w: World)
    requires Inv(w) && WorldShape(w)
    ensures Inv(WorldStep(w, DropSlow))
  {
    NotSlowDistinct(w.ring, w.clients);
    var cs := AfterDrop(w.ring, w.clients);
    forall j | 0 <= j < |cs| ensures InStep(WorldStep(w, DropSlow), cs[j]) {
      assert cs[j] in w.clients;
      assert InStep(w, cs[j]);
    }
  }

  /**
  Whom `message_queue__drop_slow_consumers` drops, by what they have received: those behind by more
  than 60% of the capacity, but on a full ring also those that have received everything, whose
  offset has come round to the start.
  */
  lemma DropsTheSlowAndTheDone(w: World, c: Client)
    requires Inv(w) && WorldShape(w) && c in w.clients
    ensures c !in WorldStep(w, DropSlow).clients <==>
      && w.log != [] && |w.log| >= |w.ring.slots| * 8 / 10
      && (|| |StreamOf(w, c.fd)| < |w.ring.slots| * 4 / 10
          || (|StreamOf(w, c.fd)| == |w.ring.slots| && |w.ring.slots| * 4 / 10 > 0))
  {
    var n := |w.ring.slots|;
    assert InStep(w, c);
    NotSlowKeeps(w.ring, w.clients, c);
    if w.log != [] {
      LiveIsLog(w.ring, w.log);
      WrapOnce(c.roff, n);
    }
  }

  lemma LiveIsLog(r: Ring, log: seq<Message>)
    requires Holds(r, log)
    ensures |Live(r)| == |log|
  {
  }

  lemma WrapOnce(i: nat, n: nat)
    requires i < n
    ensures (n + i) % n == i
  {
    ModUnique(n + i, n, 1, i);
  }

  /** Every step keeps the invariant. */
  lemma StepKeeps(w: World, e: Event)
    requires Inv(w) && WorldShape(w) && Legal(w, e)
    ensures Inv(WorldStep(w, e))
  {
    match e
    case Register(fd) => RegisterKeeps(w, fd);
    case Unregister(fd) => UnregisterKeeps(w, fd);
    case Enqueue(m) =>
      EnqueueKeeps(w.ring, w.log, m);
      var w' := WorldStep(w, e);
      forall j | 0 <= j < |w'.clients| ensures InStep(w', w'.clients[j]) {
        assert InStep(w, w.clients[j]);
      }
    case Flush(fd, writes) =>
      if Find(w.clients, fd) < |w.clients| {
        FlushWrites(w, fd, writes);
      }
    case DropSlow => DropKeeps(w);
  }

  /** The descriptors that are registered. */
  function Fds(clients: seq<Client>): set<int> {
    set c | c in clients :: c.fd
  }

  lemma FindIsIn(clients: seq<Client>, fd: int)
    ensures Find(clients, fd) < |clients| <==> fd in Fds(clients)
  {
    if fd in Fds(clients) {
      var c :| c in clients && c.fd == fd;
      var i :| 0 <= i < |clients| && clients[i] == c;
    }
  }

  /** The registered descriptors after an event that drops nobody. */
  function FdsAfter(open: set<int>, e: Event): set<int> {
    match e
    case Register(fd) => open + {fd}
    case Unregister(fd) => open - {fd}
    case _ => open
  }

  lemma StepFds(w: World, e: Event)
    requires Inv(w) && WorldShape(w)
    ensures Fds(WorldStep(w, e).clients) <= FdsAfter(Fds(w.clients), e)
    ensures e != DropSlow ==> Fds(WorldStep(w, e).clients) == FdsAfter(Fds(w.clients), e)
  {
    match e
    case Register(fd) => RegisterFds(w.ring, w.clients, fd);
    case Unregister(fd) => UnregisterFds(w, fd);
    case Enqueue(_) =>
    case Flush(fd, writes) => FlushKeepsFds(w, fd, writes);
    case DropSlow =>
  }

  lemma RegisterFds(r: Ring, clients: seq<Client>, fd: int)
    requires Shape(r)
    ensures Fds(Registered(r, clients, fd)) == Fds(clients) + {fd}
  {
    var cs := Registered(r, clients, fd);
    assert forall c :: c in cs <==> c == cs[0] || c in clients;
  }

  lemma UnregisterFds(w: World, fd: int)
    requires Inv(w)
    ensures Fds(Unregistered(w.clients, fd)) == Fds(w.clients) - {fd}
  {
    var cs := Unregistered(w.clients, fd);
    UnregisterForgets(w, fd);
    forall x | x in Fds(cs) ensures x in Fds(w.clients) && x != fd {
      var c :| c in cs && c.fd == x;
      assert c in w.clients;
    }
    forall x | x in Fds(w.clients) && x != fd ensures x in Fds(cs) {
      var c :| c in w.clients && c.fd == x;
      assert c in cs;
    }
  }

  lemma FlushKeepsFds(w: World, fd: int, writes: nat)
    requires WorldShape(w)
    ensures Fds(Flushed(w, fd, writes).clients) == Fds(w.clients)
  {
    var cs := Flushed(w, fd, writes).clients;
    assert |cs| == |w.clients| && forall i :: 0 <= i < |cs| ==> cs[i].fd == w.clients[i].fd;
    forall x ensures x in Fds(cs) <==> x in Fds(w.clients) {
      if i :| 0 <= i < |cs| && cs[i].fd == x {
        assert cs[i] in cs && w.clients[i] in w.clients;
      }
    }
  }

  predicate LegalRun(w: World, es: seq<Event>)
    requires WorldShape(w)
    decreases |es|
  {
    es != [] ==> Legal(w, es[0]) && LegalRun(WorldStep(w, es[0]), es[1..])
  }

  function RunAll(w: World, es: seq<Event>): (w': World)
    requires WorldShape(w)
    ensures WorldShape(w')
    decreases |es|
  {
    if es == [] then w else RunAll(WorldStep(w, es[0]), es[1..])
  }

  /** How many flushes of the run end at a failed write. */
  function FailedFlushes(w: World, es: seq<Event>): nat
    requires WorldShape(w)
    decreases |es|
  {
    if es == [] then 0
    else (if FlushFails(w, es[0]) then 1 else 0) + FailedFlushes(WorldStep(w, es[0]), es[1..])
  }

  lemma {:induction false} RunKeeps(w: World, es: seq<Event>)
    requires Inv(w) && WorldShape(w) && LegalRun(w, es)
    ensures Inv(RunAll(w, es))
    decreases |es|
  {
    if es != [] {
      StepKeeps(w, es[0]);
      RunKeeps(WorldStep(w, es[0]), es[1..]);
    }
  }

  // ---- What the log is ----

  /** The messages the run offers to the queue, in order, but for those that are too long. */
  function Offered(es: seq<Event>): seq<Message> {
    if es == [] then []
    else (if es[0].Enqueue? && |es[0].m| <= 512 then [es[0].m] else []) + Offered(es[1..])
  }

  /** The first n of them, or all. */
  function FirstOf(ms: seq<Message>, n: nat): seq<Message> {
    if |ms| <= n then ms else ms[..n]
  }

  lemma StepLogs(w: World, e: Event)
    requires WorldShape(w) && Holds(w.ring, w.log)
    ensures var w' := WorldStep(w, e);
            && Holds(w'.ring, w'.log) && |w'.ring.slots| == |w.ring.slots|
            && w'.log == FirstOf(w.log + if e.Enqueue? && |e.m| <= 512 then [e.m] else [], |w.ring.slots|)
  {
    if e.Enqueue? {
      EnqueueKeeps(w.ring, w.log, e.m);
      assert (w.log + [e.m])[..|w.log|] == w.log;
    }
    assert w.log + [] == w.log;
  }

  lemma FirstOfMore(a: seq<Message>, b: seq<Message>, n: nat)
    ensures FirstOf(FirstOf(a, n) + b, n) == FirstOf(a + b, n)
  {
    if |a| > n {
      assert (a[..n] + b)[..n] == a[..n] == (a + b)[..n];
    }
  }

  /** The queue accepts, in order, the messages offered until it is full, and no others, whatever else happens. */
  lemma {:induction false} LogIsOffered(w: World, es: seq<Event>)
    requires WorldShape(w) && Holds(w.ring, w.log)
    ensures RunAll(w, es).log == FirstOf(w.log + Offered(es), |w.ring.slots|)
    decreases |es|
  {
    if es == [] {
      assert w.log + [] == w.log;
    } else {
      var one: seq<Message> := if es[0].Enqueue? && |es[0].m| <= 512 then [es[0].m] else [];
      StepLogs(w, es[0]);
      LogIsOffered(WorldStep(w, es[0]), es[1..]);
      FirstOfMore(w.log + one, Offered(es[1..]), |w.ring.slots|);
      Assoc(w.log, one, Offered(es[1..]));
    }
  }

  /**
  In every run of registrations, unregistrations, enqueues and flushes from a fresh queue of any
  capacity, each client has received a prefix of the accepted messages, in order and without gaps.
  */
  lemma EveryRunDeliversInOrder(capacity: nat, es: seq<Event>)
    requires capacity > 0 && LegalRun(Init(capacity), es)
    ensures var w := RunAll(Init(capacity), es);
            && Inv(w) && w.log == FirstOf(Offered(es), capacity) && |w.log| <= capacity
            && forall i :: 0 <= i < |w.clients| ==> StreamOf(w, w.clients[i].fd) <= w.log
  {
    RunKeeps(Init(capacity), es);
    LogIsOffered(Init(capacity), es);
    assert [] + Offered(es) == Offered(es);
    var w := RunAll(Init(capacity), es);
    forall i | 0 <= i < |w.clients| ensures StreamOf(w, w.clients[i].fd) <= w.log {
      assert InStep(w, w.clients[i]);
    }
  }

  /** Once event k of the run, a flush of a registered client, is done, the client has the whole log unless stuck. */
  ghost predicate DeliversAt(w: World, es: seq<Event>, k: nat)
    requires WorldShape(w) && k < |es| && es[k].Flush?
  {
    var before, fd := RunAll(w, es[..k]), es[k].fd;
    var after := StreamOf(RunAll(w, es[..k + 1]), fd);
    Find(before.clients, fd) < |before.clients| ==>
      (after == before.log <==> !Stuck(before.ring, before.log, |StreamOf(before, fd)|))
  }

  /**
  Progress: in a run without failed writes every delivery to a registered client leaves it with all
  messages accepted so far, unless the ring is full and the client has read nothing.
  */
  lemma {:induction false} RunDelivers(w: World, es: seq<Event>, k: nat)
    requires Inv(w) && WorldShape(w) && LegalRun(w, es) && FailedFlushes(w, es) == 0
    requires k < |es| && es[k].Flush?
    ensures DeliversAt(w, es, k)
    decreases k
  {
    var w' := WorldStep(w, es[0]);
    PrefixStarts(w, es, k + 1);
    if k == 0 {
      assert es[..1][1..] == [] && es[..0] == [];
      assert RunAll(w', []) == w';
      if Find(w.clients, es[0].fd) < |w.clients| {
        FlushDelivers(w, es[0].fd, es[0].writes);
      }
    } else {
      PrefixStarts(w, es, k);
      StepKeeps(w, es[0]);
      RunDelivers(w', es[1..], k - 1);
    }
  }

  lemma PrefixStarts(w: World, es: seq<Event>, k: nat)
    requires WorldShape(w) && 0 < k <= |es|
    ensures RunAll(w, es[..k]) == RunAll(WorldStep(w, es[0]), es[1..][..k - 1])
  {
    assert es[..k][1..] == es[1..][..k - 1];
  }

  /** The ring is full and the registered client has received nothing. */
  ghost predicate Starved(w: World, fd: int) {
    Inv(w) && WorldShape(w) && IsFull(w.ring) && Find(w.clients, fd) < |w.clients| && StreamOf(w, fd) == []
  }

  lemma RegisterKeepsClient(r: Ring, clients: seq<Client>, other: int, fd: int)
    requires Shape(r) && Find(clients, fd) < |clients|
    ensures var cs := Registered(r, clients, other); Find(cs, fd) < |cs|
  {
    assert Registered(r, clients, other)[Find(clients, fd) + 1].fd == fd;
  }

  lemma UnregisterKeepsClient(clients: seq<Client>, other: int, fd: int)
    requires Find(clients, fd) < |clients| && other != fd
    ensures var cs := Unregistered(clients, other); Find(cs, fd) < |cs|
  {
    var i, j := Find(clients, fd), Find(clients, other);
    assert Unregistered(clients, other)[if j < i then i - 1 else i].fd == fd;
  }

  /** A flush on a full ring finds this client stuck; a flush of another client passes it by. */
  lemma FlushKeepsStarved(w: World, fd: int, other: int, writes: nat)
    requires Starved(w, fd)
    ensures var w' := Flushed(w, other, writes); StreamOf(w', fd) == [] && Find(w'.clients, fd) < |w'.clients|
  {
    if Find(w.clients, other) < |w.clients| {
      FlushDelivers(w, other, writes);
      FlushWrites(w, other, writes);
      EnqueueKeeps(w.ring, w.log, []);
      assert Flushed(w, other, writes).clients[Find(w.clients, fd)].fd == fd;
    }
  }

  lemma StarvedStep(w: World, fd: int, e: Event)
    requires Starved(w, fd) && Legal(w, e) && e != Unregister(fd) && e != DropSlow
    ensures Starved(WorldStep(w, e), fd)
  {
    StepKeeps(w, e);
    match e
    case Register(other) => RegisterKeepsClient(w.ring, w.clients, other, fd);
    case Unregister(other) => UnregisterKeepsClient(w.clients, other, fd);
    case Enqueue(_) =>
    case Flush(other, writes) => FlushKeepsStarved(w, fd, other, writes);
  }

  /** The ring is full and nothing has been sent to this descriptor since it was registered, if it ever was. */
  ghost predicate Silent(w: World, fd: int) {
    Inv(w) && WorldShape(w) && IsFull(w.ring) && StreamOf(w, fd) == []
  }

  lemma SilentStep(w: World, fd: int, e: Event)
    requires Silent(w, fd) && Legal(w, e)
    ensures Silent(WorldStep(w, e), fd)
  {
    StepKeeps(w, e);
    if e.Flush? && Find(w.clients, e.fd) < |w.clients| {
      FlushDelivers(w, e.fd, e.writes);
      FlushWrites(w, e.fd, e.writes);
      EnqueueKeeps(w.ring, w.log, []);
    }
  }

  /**
  Once the ring is full, a descriptor that has received nothing never will: neither its client, nor any
  client that takes the descriptor later.
  */
  lemma {:induction false} SilentForEver(w: World, fd: int, es: seq<Event>)
    requires Silent(w, fd) && LegalRun(w, es)
    ensures Silent(RunAll(w, es), fd)
    decreases |es|
  {
    if es != [] {
      SilentStep(w, fd, es[0]);
      SilentForEver(WorldStep(w, es[0]), fd, es[1..]);
    }
  }

  /** A client that has read nothing when the ring fills up stays so while it stays registered. */
  lemma {:induction false} StarvedForEver(w: World, fd: int, es: seq<Event>)
    requires Starved(w, fd) && LegalRun(w, es)
    ensures StreamOf(RunAll(w, es), fd) == []
    ensures Unregister(fd) !in es && DropSlow !in es ==> Starved(RunAll(w, es), fd)
    decreases |es|
  {
    SilentForEver(w, fd, es);
    if es != [] && es[0] != Unregister(fd) && es[0] != DropSlow {
      StarvedStep(w, fd, es[0]);
      StarvedForEver(WorldStep(w, es[0]), fd, es[1..]);
    }
  }

  /** A run into that state: one message fills a queue of capacity 1 before the client's first flush. */
  lemma FullQueueStarves(m: Message, fd: int, writes: nat)
    requires |m| <= MAX_MESSAGE_LENGTH
    ensures var w := RunAll(Init(1), [Register(fd), Enqueue(m), Flush(fd, writes)]);
            w.log == [m] && Starved(w, fd)
  {
    var es := [Register(fd), Enqueue(m), Flush(fd, writes)];
    RunOfThree(Init(1), es);
    var w := WorldStep(WorldStep(Init(1), Register(fd)), Enqueue(m));
    OneMessageFills(m, fd);
    StarvedStep(w, fd, Flush(fd, writes));
    assert Flushed(w, fd, writes).log == w.log;
  }

  lemma OneMessageFills(m: Message, fd: int)
    requires |m| <= MAX_MESSAGE_LENGTH
    ensures var w := WorldStep(WorldStep(Init(1), Register(fd)), Enqueue(m)); w.log == [m] && Starved(w, fd)
  {
    var w0 := Init(1);
    var w1 := WorldStep(w0, Register(fd));
    RegisterKeeps(w0, fd);
    assert w1 == World(Fresh(1), [Client(fd, 0)], [], map[fd := []]);
    StepKeeps(w1, Enqueue(m));
    assert WorldStep(w1, Enqueue(m)) == World(Ring([Some(m)], 0, 0), [Client(fd, 0)], [m], map[fd := []]);
  }

  lemma RunOfThree(w: World, es: seq<Event>)
    requires WorldShape(w) && |es| == 3
    ensures RunAll(w, es) == WorldStep(WorldStep(WorldStep(w, es[0]), es[1]), es[2])
  {
    var w1 := WorldStep(w, es[0]);
    var w2 := WorldStep(w1, es[1]);
    assert es[1..][1..] == [es[2]] && [es[2]][1..] == [];
    assert RunAll(w2, [es[2]]) == WorldStep(w2, es[2]);
    assert RunAll(w1, es[1..]) == RunAll(w2, es[1..][1..]);
  }

  lemma RunOne(w: World, e: Event)
    requires WorldShape(w)
    ensures RunAll(w, [e]) == WorldStep(w, e)
  {
    RunSnoc(w, [], e);
    assert [] + [e] == [e] && RunAll(w, []) == w;
  }

  /** A run and one step more. */
  lemma {:induction false} RunSnoc(w: World, es: seq<Event>, e: Event)
    requires WorldShape(w)
    ensures RunAll(w, es + [e]) == WorldStep(RunAll(w, es), e)
    ensures FailedFlushes(w, es + [e]) == FailedFlushes(w, es) + if FlushFails(RunAll(w, es), e) then 1 else 0
    decreases |es|
  {
    if es == [] {
      assert (es + [e])[1..] == [];
      assert RunAll(WorldStep(w, e), []) == WorldStep(w, e);
      assert FailedFlushes(WorldStep(w, e), []) == 0;
    } else {
      assert (es + [e])[1..] == es[1..] + [e];
      RunSnoc(WorldStep(w, es[0]), es[1..], e);
    }
  }

  lemma {:induction false} LegalPrefix(w: World, es: seq<Event>, k: nat)
    requires WorldShape(w) && LegalRun(w, es) && k <= |es|
    ensures LegalRun(w, es[..k])
    decreases k
  {
    if k > 0 {
      LegalPrefix(WorldStep(w, es[0]), es[1..], k - 1);
      assert es[..k][1..] == es[1..][..k - 1];
    }
  }

  /** All of the log, or nothing when the log has filled the queue. */
  ghost predicate HasAllOrNothing(w: World, fd: int) {
    fd in Fds(w.clients) ==>
      StreamOf(w, fd) == w.log || (|w.log| == |w.ring.slots| && StreamOf(w, fd) == [])
  }

  lemma SuccessfulFlush(w: World, fd: int, writes: nat)
    requires Inv(w) && WorldShape(w) && !FlushFails(w, Flush(fd, writes))
    ensures HasAllOrNothing(Flushed(w, fd, writes), fd)
  {
    FlushKeepsFds(w, fd, writes);
    FindIsIn(w.clients, fd);
    if fd in Fds(w.clients) {
      FlushWrites(w, fd, writes);
      FlushKeepsLog(w, fd, writes);
    }
  }

  lemma FlushKeepsLog(w: World, fd: int, writes: nat)
    requires WorldShape(w)
    ensures Flushed(w, fd, writes).log == w.log && Flushed(w, fd, writes).ring == w.ring
  {
  }

  /** A run without failed writes that ends with a delivery leaves its client with the whole log, or stuck. */
  lemma LastDelivery(w: World, es: seq<Event>)
    requires Inv(w) && WorldShape(w) && LegalRun(w, es) && FailedFlushes(w, es) == 0
    requires es != [] && es[|es| - 1].Flush?
    ensures HasAllOrNothing(RunAll(w, es), es[|es| - 1].fd)
  {
    var before, e := es[..|es| - 1], es[|es| - 1];
    LegalPrefix(w, es, |es| - 1);
    RunKeeps(w, before);
    assert es == before + [e];
    RunSnoc(w, before, e);
    SuccessfulFlush(RunAll(w, before), e.fd, e.writes);
  }
}
