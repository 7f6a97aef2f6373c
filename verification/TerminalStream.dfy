/**
 The generation-fenced terminal streams of mobile/scripts/mock-server-terminal-stream.ts, with the delayed,
 guarded replies of mobile/scripts/mock-server-rpc-handlers.ts.

 A `World` holds the streams, the registry of current ones, the sockets that are no longer open, the
 replies waiting for their delay, and everything sent.  Requests, interval ticks, due replies and socket
 closes may come in any order.
 */
module TerminalStream {
  // The number of chunks a stream plays after its scrollback
  const CHUNKS: nat := 5

  type Pane = (nat, string)     // a socket and a terminal name

  // A stream object: its interval, and the chunk index of its closure
  datatype Stream = Stream(pane: Pane, armed: bool, chunkIndex: nat)

  datatype Content = Scrollback | Chunk(index: nat)

  datatype Frame = Frame(stream: nat, content: Content)

  // A stream is known by its place in `streams`.  `delayed` says whether replies wait; those that do come
  // due in the order they were made, all of them having the same delay.
  datatype World = World(delayed: bool, streams: seq<Stream>, registered: map<Pane, nat>, closed: set<nat>,
                         pending: seq<Frame>, sent: seq<Frame>)

  datatype Event = Subscribe(pane: Pane) | Unsubscribe(pane: Pane) | Tick(stream: nat) | Due | Close(socket: nat)

  function Initial(delayed: bool): World { World(delayed, [], map[], {}, [], []) }

  predicate IsRegistered(w: World, id: nat) {
    id < |w.streams| && w.streams[id].pane in w.registered && w.registered[w.streams[id].pane] == id
  }

  predicate IsCurrent(w: World, id: nat) { IsRegistered(w, id) && w.streams[id].pane.0 !in w.closed }

  function Stopped(w: World, id: nat): World
    requires id < |w.streams|
  {
    w.(streams := w.streams[id := w.streams[id].(armed := false)])
  }

  function Cleared(w: World, pane: Pane): World {
    if pane in w.registered && w.registered[pane] < |w.streams| then
      Stopped(w, w.registered[pane]).(registered := w.registered - {pane})
    else w
  }

  function Begun(w: World, pane: Pane): World {
    var c := Cleared(w, pane);
    c.(streams := c.streams + [Stream(pane, false, 0)], registered := c.registered[pane := |c.streams|])
  }

  function Delivered(w: World, f: Frame): World { if IsCurrent(w, f.stream) then w.(sent := w.sent + [f]) else w }

  function Responded(w: World, f: Frame): World { if w.delayed then w.(pending := w.pending + [f]) else Delivered(w, f) }

  function Armed(w: World, id: nat): World
    requires id < |w.streams|
  {
    w.(streams := w.streams[id := w.streams[id].(armed := true)])
  }

  function Advanced(w: World, id: nat): World
    requires id < |w.streams|
  {
    w.(streams := w.streams[id := w.streams[id].(chunkIndex := w.streams[id].chunkIndex + 1)])
  }

  // A cleared interval does not fire, a reply comes due only if one is waiting.
  function Step(w: World, e: Event): World {
    match e
    case Subscribe(pane) =>
      var b := Begun(w, pane);
      Armed(Responded(b, Frame(|b.streams| - 1, Scrollback)), |b.streams| - 1)
    case Unsubscribe(pane) => Cleared(w, pane)
    case Tick(id) =>
      if id >= |w.streams| || !w.streams[id].armed then w
      else if !IsCurrent(w, id) || w.streams[id].chunkIndex >= CHUNKS then Stopped(w, id)
      else Advanced(Responded(w, Frame(id, Chunk(w.streams[id].chunkIndex))), id)
    case Due => if w.pending == [] then w else Delivered(w.(pending := w.pending[1..]), w.pending[0])
    case Close(socket) => w.(closed := w.closed + {socket})
  }

  function Run(w: World, events: seq<Event>): World
    decreases |events|
  {
    if events == [] then w else Run(Step(w, events[0]), events[1..])
  }

  // ---------- the handlers ----------

  class TerminalStreams {
    const delayed: bool
    var streams: seq<Stream>
    var terminalStreams: map<Pane, nat>
    var closed: set<nat>
    var timeouts: seq<Frame>
    var sent: seq<Frame>

    function View(): World
      reads this
    {
      World(delayed, streams, terminalStreams, closed, timeouts, sent)
    }

    constructor (delayed: bool)
      ensures View() == Initial(delayed)
    {
      this.delayed := delayed;
      streams, terminalStreams, closed, timeouts, sent := [], map[], {}, [], [];
    }

    method StopInterval(id: nat)
      requires id < |streams|
      modifies this`streams
      ensures View() == Stopped(old(View()), id)
    {
      if streams[id].armed {
        streams := streams[id := streams[id].(armed := false)];
      }
    }

    method Clear(pane: Pane)
      requires forall p :: p in terminalStreams ==> terminalStreams[p] < |streams|
      modifies this
      ensures View() == Cleared(old(View()), pane)
    {
      if pane in terminalStreams {
        StopInterval(terminalStreams[pane]);
        terminalStreams := terminalStreams - {pane};
      }
    }

    method Begin(pane: Pane) returns (id: nat)
      requires forall p :: p in terminalStreams ==> terminalStreams[p] < |streams|
      modifies this
      ensures View() == Begun(old(View()), pane) && id == |streams| - 1
    {
      Clear(pane);
      id := |streams|;
      streams := streams + [Stream(pane, false, 0)];
      terminalStreams := terminalStreams[pane := id];
    }

    method Deliver(f: Frame)
      modifies this`sent
      ensures View() == Delivered(old(View()), f)
    {
      if IsCurrent(View(), f.stream) {
        sent := sent + [f];
      }
    }

    method Respond(f: Frame)
      modifies this`timeouts, this`sent
      ensures View() == Responded(old(View()), f)
    {
      if delayed {
        timeouts := timeouts + [f];
        return;
      }
      Deliver(f);
    }

    method OnSubscribe(pane: Pane)
      requires forall p :: p in terminalStreams ==> terminalStreams[p] < |streams|
      modifies this
      ensures View() == Step(old(View()), Subscribe(pane))
    {
      var id := Begin(pane);
      Respond(Frame(id, Scrollback));
      streams := streams[id := streams[id].(armed := true)];
    }

    method OnUnsubscribe(pane: Pane)
      requires forall p :: p in terminalStreams ==> terminalStreams[p] < |streams|
      modifies this
      ensures View() == Step(old(View()), Unsubscribe(pane))
    {
      Clear(pane);
    }

    method OnTick(id: nat)
      requires id < |streams| && streams[id].armed
      modifies this
      ensures View() == Step(old(View()), Tick(id))
    {
      if !IsCurrent(View(), id) {
        StopInterval(id);
        return;
      }
      if streams[id].chunkIndex >= CHUNKS {
        StopInterval(id);
        return;
      }
      Respond(Frame(id, Chunk(streams[id].chunkIndex)));
      streams := streams[id := streams[id].(chunkIndex := streams[id].chunkIndex + 1)];
    }

    method OnDue()
      requires timeouts != []
      modifies this
      ensures View() == Step(old(View()), Due)
    {
      var f := timeouts[0];
      timeouts := timeouts[1..];
      Deliver(f);
    }
  }

  // ---------- frames ----------

  // The frames of one stream, in order
  function FramesOf(frames: seq<Frame>, id: nat): seq<Content> {
    if frames == [] then []
    else FramesOf(frames[..|frames| - 1], id) + (if frames[|frames| - 1].stream == id then [frames[|frames| - 1].content] else [])
  }

  // What a stream has produced once `n` of its chunks were
  function Script(n: nat): seq<Content> { [Scrollback] + seq(n, i requires 0 <= i < n => Chunk(i)) }

  lemma FramesOfAppend(frames: seq<Frame>, f: Frame, id: nat)
    ensures FramesOf(frames + [f], id) == FramesOf(frames, id) + if f.stream == id then [f.content] else []
  {
    assert (frames + [f])[..|frames + [f]| - 1] == frames;
  }

  lemma {:induction false} FramesOfFirst(frames: seq<Frame>, id: nat)
    requires frames != []
    ensures FramesOf(frames, id) == (if frames[0].stream == id then [frames[0].content] else []) + FramesOf(frames[1..], id)
    decreases |frames|
  {
    if |frames| > 1 {
      FramesOfFirst(frames[..|frames| - 1], id);
      assert frames[..|frames| - 1][1..] == frames[1..][..|frames[1..]| - 1];
    }
  }

  lemma {:induction false} FramesOfNone(frames: seq<Frame>, id: nat)
    requires forall f :: f in frames ==> f.stream != id
    ensures FramesOf(frames, id) == []
  {
    if frames != [] {
      FramesOfNone(frames[..|frames| - 1], id);
    }
  }

  // ---------- the invariant ----------

  // The registry names each stream by the pane it serves.
  ghost predicate Registry(w: World) {
    forall p :: p in w.registered ==> w.registered[p] < |w.streams| && w.streams[w.registered[p]].pane == p
  }

  // A running interval belongs to the stream its pane is registered to; a current stream whose interval
  // has stopped has played every chunk.
  ghost predicate Intervals(w: World) {
    forall id :: 0 <= id < |w.streams| ==>
                   && w.streams[id].chunkIndex <= CHUNKS
                   && (w.streams[id].armed ==> IsRegistered(w, id))
                   && (IsRegistered(w, id) && w.streams[id].pane.0 !in w.closed && !w.streams[id].armed ==> w.streams[id].chunkIndex == CHUNKS)
  }

  ghost predicate Known(w: World) {
    && (forall f :: f in w.sent || f in w.pending ==> f.stream < |w.streams|)
    && (!w.delayed ==> w.pending == [])
  }

  // What was sent of a stream is a beginning of its script; while it is current, what waits continues it.
  ghost predicate InOrder(w: World, id: nat)
    requires id < |w.streams|
  {
    && FramesOf(w.sent, id) <= Script(w.streams[id].chunkIndex)
    && (IsCurrent(w, id) ==> FramesOf(w.sent, id) + FramesOf(w.pending, id) == Script(w.streams[id].chunkIndex))
  }

  ghost predicate Sound(w: World) {
    Registry(w) && Intervals(w) && Known(w) && forall id :: 0 <= id < |w.streams| ==> InOrder(w, id)
  }

  lemma ScriptGrows(n: nat)
    ensures Script(n + 1) == Script(n) + [Chunk(n)]
  {
  }

  // Dropping currency and stopping intervals keeps every stream's frames in order.
  lemma InOrderLater(w: World, t: World, id: nat)
    requires id < |w.streams| && id < |t.streams| && InOrder(w, id)
    requires t.sent == w.sent && t.pending == w.pending && t.streams[id].chunkIndex == w.streams[id].chunkIndex
    requires IsCurrent(t, id) ==> IsCurrent(w, id)
    ensures InOrder(t, id)
  {
  }

  lemma SoundCleared(w: World, pane: Pane)
    requires Sound(w)
    ensures Sound(Cleared(w, pane)) && |Cleared(w, pane).streams| == |w.streams|
    ensures forall id :: 0 <= id < |w.streams| && IsRegistered(Cleared(w, pane), id) ==> IsRegistered(w, id) && w.streams[id].pane != pane
  {
    var t := Cleared(w, pane);
    forall id | 0 <= id < |t.streams|
      ensures InOrder(t, id)
    {
      InOrderLater(w, t, id);
    }
  }

  lemma Regrouped<T>(a: seq<T>, b: seq<T>, c: seq<T>)
    ensures (a + b) + c == a + (b + c)
    ensures b == [] ==> (a + c) + b == (a + b) + c
    ensures c == [] ==> a + b == (a + b) + c
  {
  }

  // What a reply does to the frames of a stream, sent and waiting
  lemma RespondedFrames(w: World, f: Frame, id: nat)
    requires Known(w) && (f.stream == id ==> IsCurrent(w, id))
    ensures var t := Responded(w, f);
            var added := if f.stream == id then [f.content] else [];
            && FramesOf(t.sent, id) + FramesOf(t.pending, id) == FramesOf(w.sent, id) + FramesOf(w.pending, id) + added
            && (f.stream != id ==> FramesOf(t.sent, id) == FramesOf(w.sent, id))
  {
    var added := if f.stream == id then [f.content] else [];
    Regrouped(FramesOf(w.sent, id), FramesOf(w.pending, id), added);
    if w.delayed {
      FramesOfAppend(w.pending, f, id);
    } else if IsCurrent(w, f.stream) {
      FramesOfAppend(w.sent, f, id);
    }
  }

  // A stream that was there before
  lemma OlderInOrder(w: World, pane: Pane, id: nat)
    requires Sound(w) && id < |w.streams|
    ensures id < |Step(w, Subscribe(pane)).streams| && InOrder(Step(w, Subscribe(pane)), id)
  {
    SoundCleared(w, pane);
    SubscribedShape(w, pane);
    var c := Cleared(w, pane);
    assert InOrder(c, id);
    RespondedFrames(Begun(w, pane), Frame(|w.streams|, Scrollback), id);
  }

  // The new stream
  lemma NewInOrder(w: World, pane: Pane)
    requires Sound(w)
    ensures var n := |w.streams|;
            n < |Step(w, Subscribe(pane)).streams| && InOrder(Step(w, Subscribe(pane)), n)
  {
    SoundCleared(w, pane);
    SubscribedShape(w, pane);
    var b, n := Begun(w, pane), |w.streams|;
    var t := Step(w, Subscribe(pane));
    FramesOfNone(w.sent, n);
    FramesOfNone(w.pending, n);
    if IsCurrent(b, n) {
      RespondedFrames(b, Frame(n, Scrollback), n);
      InOrderWhole(t, n);
    }
  }

  lemma SubscribedInOrder(w: World, pane: Pane, id: nat)
    requires Sound(w) && id <= |w.streams|
    ensures id < |Step(w, Subscribe(pane)).streams| && InOrder(Step(w, Subscribe(pane)), id)
  {
    if id < |w.streams| {
      OlderInOrder(w, pane, id);
    } else {
      NewInOrder(w, pane);
    }
  }

  lemma SubscribedShape(w: World, pane: Pane)
    ensures var c, t := Cleared(w, pane), Step(w, Subscribe(pane));
            t.streams == c.streams + [Stream(pane, true, 0)] && t.registered == c.registered[pane := |c.streams|] && t.closed == c.closed
  {
  }

  lemma BegunIntervals(c: World, t: World, pane: Pane)
    requires Registry(c) && Intervals(c) && pane !in c.registered
    requires t.streams == c.streams + [Stream(pane, true, 0)] && t.registered == c.registered[pane := |c.streams|] && t.closed == c.closed
    ensures Registry(t) && Intervals(t)
  {
    forall id | 0 <= id < |c.streams|
      ensures IsRegistered(t, id) <==> IsRegistered(c, id)
    {
    }
  }

  lemma SubscribedIntervals(w: World, pane: Pane)
    requires Sound(w)
    ensures Registry(Step(w, Subscribe(pane))) && Intervals(Step(w, Subscribe(pane)))
  {
    SoundCleared(w, pane);
    SubscribedShape(w, pane);
    BegunIntervals(Cleared(w, pane), Step(w, Subscribe(pane)), pane);
  }

  lemma SubscribedKnown(w: World, pane: Pane)
    requires Known(w) && Registry(w)
    ensures Known(Step(w, Subscribe(pane)))
  {
  }

  lemma SoundSubscribe(w: World, pane: Pane)
    requires Sound(w)
    ensures Sound(Step(w, Subscribe(pane)))
  {
    SubscribedIntervals(w, pane);
    SubscribedKnown(w, pane);
    var t := Step(w, Subscribe(pane));
    forall id | 0 <= id < |t.streams|
      ensures InOrder(t, id)
    {
      SubscribedInOrder(w, pane, id);
    }
  }

  lemma InOrderWhole(w: World, id: nat)
    requires id < |w.streams| && FramesOf(w.sent, id) + FramesOf(w.pending, id) == Script(w.streams[id].chunkIndex)
    ensures InOrder(w, id)
  {
  }

  lemma TickedInOrder(w: World, tick: nat, id: nat)
    requires Known(w) && tick < |w.streams| && IsCurrent(w, tick) && id < |w.streams| && InOrder(w, id)
    ensures var f := Frame(tick, Chunk(w.streams[tick].chunkIndex));
            InOrder(Advanced(Responded(w, f), tick), id)
  {
    var n := w.streams[tick].chunkIndex;
    var f := Frame(tick, Chunk(n));
    var t := Advanced(Responded(w, f), tick);
    RespondedFrames(w, f, id);
    ScriptGrows(n);
    if id == tick {
      InOrderWhole(t, id);
    } else {
      assert FramesOf(t.sent, id) == FramesOf(w.sent, id);
    }
  }

  lemma SoundTick(w: World, id: nat)
    requires Sound(w)
    ensures Sound(Step(w, Tick(id)))
  {
    if id < |w.streams| && w.streams[id].armed {
      var t := Step(w, Tick(id));
      forall i | 0 <= i < |t.streams|
        ensures InOrder(t, i)
      {
        if !IsCurrent(w, id) || w.streams[id].chunkIndex >= CHUNKS {
          InOrderLater(w, t, i);
        } else {
          TickedInOrder(w, id, i);
        }
      }
    }
  }

  lemma DueFrames(w: World, id: nat)
    requires w.pending != []
    ensures var t, f := Step(w, Due), w.pending[0];
            && (f.stream != id ==> FramesOf(t.sent, id) == FramesOf(w.sent, id) && FramesOf(t.pending, id) == FramesOf(w.pending, id))
            && (!IsCurrent(w, f.stream) ==> t.sent == w.sent)
            && (IsCurrent(w, f.stream) ==>
                  FramesOf(t.sent, id) + FramesOf(t.pending, id) == FramesOf(w.sent, id) + FramesOf(w.pending, id))
  {
    var f := w.pending[0];
    var rest := w.pending[1..];
    var moved := if f.stream == id then [f.content] else [];
    FramesOfFirst(w.pending, id);
    Regrouped(FramesOf(w.sent, id), moved, FramesOf(rest, id));
    assert moved == [] ==> moved + FramesOf(rest, id) == FramesOf(rest, id);
    if IsCurrent(w, f.stream) {
      DeliveredNext(w);
      FramesOfAppend(w.sent, f, id);
    }
  }

  lemma DeliveredNext(w: World)
    requires w.pending != [] && IsCurrent(w, w.pending[0].stream)
    ensures Step(w, Due).sent == w.sent + [w.pending[0]] && Step(w, Due).pending == w.pending[1..]
  {
  }

  lemma DueInOrder(w: World, id: nat)
    requires w.pending != [] && id < |w.streams| && InOrder(w, id)
    ensures InOrder(Step(w, Due), id)
  {
    DueFrames(w, id);
    if IsCurrent(w, id) && w.pending[0].stream == id {
      InOrderWhole(Step(w, Due), id);
    }
  }

  lemma SoundDue(w: World)
    requires Sound(w)
    ensures Sound(Step(w, Due))
  {
    if w.pending != [] {
      forall id | 0 <= id < |w.streams|
        ensures InOrder(Step(w, Due), id)
      {
        DueInOrder(w, id);
      }
    }
  }

  lemma SoundStep(w: World, e: Event)
    requires Sound(w)
    ensures Sound(Step(w, e))
  {
    match e {
      case Subscribe(pane) => SoundSubscribe(w, pane);
      case Unsubscribe(pane) => SoundCleared(w, pane);
      case Tick(id) => SoundTick(w, id);
      case Due => SoundDue(w);
      case Close(_) =>
        forall id | 0 <= id < |w.streams|
          ensures InOrder(Step(w, e), id)
        {
          InOrderLater(w, Step(w, e), id);
        }
    }
  }

  lemma {:induction false} SoundRun(w: World, events: seq<Event>)
    requires Sound(w)
    ensures Sound(Run(w, events))
    decreases |events|
  {
    if events != [] {
      SoundStep(w, events[0]);
      SoundRun(Step(w, events[0]), events[1..]);
    }
  }

  // ---------- theorems over every run ----------

  ghost predicate Reachable(w: World) {
    exists delayed, events :: w == Run(Initial(delayed), events)
  }

  lemma ReachableSound(w: World)
    requires Reachable(w)
    ensures Sound(w)
  {
    var delayed, events :| w == Run(Initial(delayed), events);
    SoundRun(Initial(delayed), events);
  }

  // What a client is sent of a stream is a beginning of scrollback and chunks: in order, nothing twice.
  // A stream that is still current, has stopped its interval and has nothing waiting was sent all of it.
  lemma FramesInOrder(w: World, id: nat)
    requires Reachable(w) && id < |w.streams|
    ensures FramesOf(w.sent, id) <= Script(CHUNKS)
    ensures IsCurrent(w, id) && !w.streams[id].armed && FramesOf(w.pending, id) == [] ==> FramesOf(w.sent, id) == Script(CHUNKS)
  {
    ReachableSound(w);
    assert InOrder(w, id);
    var n := w.streams[id].chunkIndex;
    assert Script(n) <= Script(CHUNKS) by {
      assert Script(CHUNKS)[..n + 1] == Script(n);
    }
  }

  // ---------- progress ----------

  // What was made of a stream: sent, or waiting to be
  function Made(w: World, id: nat): seq<Content> { FramesOf(w.sent, id) + FramesOf(w.pending, id) }

  // A new subscription on an open socket becomes current, makes its scrollback and arms its interval.
  lemma SubscribePlays(w: World, pane: Pane)
    requires Reachable(w) && pane.0 !in w.closed
    ensures var t, id := Step(w, Subscribe(pane)), |w.streams|;
            |t.streams| == id + 1 && IsCurrent(t, id) && t.streams[id].armed && Made(t, id) == [Scrollback]
  {
    ReachableSound(w);
    SoundCleared(w, pane);
    SubscribedShape(w, pane);
    FramesOfNone(w.sent, |w.streams|);
    FramesOfNone(w.pending, |w.streams|);
    RespondedFrames(Begun(w, pane), Frame(|w.streams|, Scrollback), |w.streams|);
  }

  // A tick of a current stream makes the next of the five chunks, or stops the interval once all are made.
  lemma TickPlays(w: World, id: nat)
    requires Reachable(w) && id < |w.streams| && w.streams[id].armed && IsCurrent(w, id)
    ensures var t := Step(w, Tick(id));
            && 1 <= |Made(w, id)| <= 6 && IsCurrent(t, id)
            && (|Made(w, id)| < 6 ==> t.streams[id].armed && Made(t, id) == Made(w, id) + [Chunk(|Made(w, id)| - 1)])
            && (|Made(w, id)| == 6 ==> !t.streams[id].armed && Made(t, id) == Made(w, id))
  {
    ReachableSound(w);
    assert InOrder(w, id);
    if w.streams[id].chunkIndex < CHUNKS {
      RespondedFrames(w, Frame(id, Chunk(w.streams[id].chunkIndex)), id);
    }
  }

  // The reply that has waited longest is sent when it comes due, if its stream is still current.
  lemma DueSends(w: World)
    requires Reachable(w) && w.pending != []
    ensures var t := Step(w, Due);
            t.pending == w.pending[1..] && t.sent == if IsCurrent(w, w.pending[0].stream) then w.sent + [w.pending[0]] else w.sent
  {
  }

  lemma ReachableStep(w: World, e: Event)
    requires Reachable(w)
    ensures Reachable(Step(w, e))
  {
    var delayed, events :| w == Run(Initial(delayed), events);
    RunAppend(Initial(delayed), events, e);
    assert Step(w, e) == Run(Initial(delayed), events + [e]);
  }

  lemma {:induction false} RunAppend(w: World, events: seq<Event>, e: Event)
    ensures Run(w, events + [e]) == Step(Run(w, events), e)
    decreases |events|
  {
    if events == [] {
      assert [] + [e] == [e] && [e][1..] == [];
    } else {
      assert (events + [e])[0] == events[0] && (events + [e])[1..] == events[1..] + [e];
      RunAppend(Step(w, events[0]), events[1..], e);
    }
  }

  function Ticks(id: nat, n: nat): seq<Event> { seq(n, i requires 0 <= i < n => Tick(id)) }

  // Left alone, a current stream plays to its end: ticks make every chunk, in order, and then stop it.
  lemma {:induction false} PlaysOut(w: World, id: nat)
    requires Reachable(w) && id < |w.streams| && w.streams[id].armed && IsCurrent(w, id)
    ensures |Made(w, id)| <= 6
    ensures var t := Run(w, Ticks(id, 7 - |Made(w, id)|));
            id < |t.streams| && IsCurrent(t, id) && !t.streams[id].armed && Made(t, id) == [Scrollback, Chunk(0), Chunk(1), Chunk(2), Chunk(3), Chunk(4)]
    decreases 7 - |Made(w, id)|
  {
    ReachableSound(w);
    TickPlays(w, id);
    var n := |Made(w, id)|;
    var t := Step(w, Tick(id));
    var ticks := Ticks(id, 7 - n);
    assert ticks[0] == Tick(id) && ticks[1..] == Ticks(id, 6 - n);
    if n < 6 {
      ReachableStep(w, Tick(id));
      PlaysOut(t, id);
    } else {
      assert InOrder(w, id) && w.streams[id].chunkIndex == 5;
      WholeScript();
      assert Run(w, ticks) == Run(t, []) == t;
    }
  }

  lemma WholeScript()
    ensures Script(5) == [Scrollback, Chunk(0), Chunk(1), Chunk(2), Chunk(3), Chunk(4)]
  {
  }

  // At most one interval runs for a pane, that of the stream registered there; it is current exactly
  // when its socket is open.
  lemma OneIntervalPerPane(w: World, a: nat, b: nat)
    requires Reachable(w) && a < |w.streams| && b < |w.streams| && w.streams[a].armed
    ensures IsRegistered(w, a)
    ensures w.streams[b].armed && w.streams[a].pane == w.streams[b].pane ==> a == b
    ensures IsCurrent(w, a) <==> w.streams[a].pane.0 !in w.closed
  {
    ReachableSound(w);
  }

  // Closing a socket does not stop its interval: it runs on, no longer current, until its next tick, which
  // sends nothing.
  lemma IntervalOutlivesClose(w: World, id: nat)
    requires Reachable(w) && id < |w.streams| && w.streams[id].armed
    ensures var socket := w.streams[id].pane.0;
            var t := Step(w, Close(socket));
            && t.streams[id].armed && !IsCurrent(t, id)
            && !Step(t, Tick(id)).streams[id].armed
            && Step(t, Tick(id)).sent == w.sent && Step(t, Tick(id)).pending == w.pending
  {
  }

  // Whatever an event sends, it sends at most one frame, of a stream that is current.
  lemma SentWhileCurrent(w: World, e: Event)
    requires Reachable(w)
    ensures var t := Step(w, e);
            && (t.sent == w.sent || (|t.sent| == |w.sent| + 1 && w.sent <= t.sent && IsCurrent(t, t.sent[|w.sent|].stream)))
            && (e.Due? && t.sent != w.sent ==> t.sent == w.sent + [w.pending[0]] && IsCurrent(w, w.pending[0].stream))
  {
    ReachableSound(w);
    if e.Subscribe? { SoundCleared(w, e.pane); }
  }

  lemma RepliesKeepStreams(w: World, f: Frame)
    ensures var t := Responded(w, f); t.streams == w.streams && t.registered == w.registered && t.closed == w.closed
    ensures var t := Delivered(w, f); t.streams == w.streams && t.registered == w.registered && t.closed == w.closed
  {
  }

  lemma CurrencyStep(w: World, e: Event, id: nat)
    requires Sound(w) && id < |w.streams| && !IsCurrent(w, id)
    ensures id < |Step(w, e).streams| && !IsCurrent(Step(w, e), id)
  {
    match e {
      case Subscribe(pane) =>
        SoundCleared(w, pane);
        SubscribedShape(w, pane);
      case Unsubscribe(pane) => SoundCleared(w, pane);
      case Tick(tick) => if tick < |w.streams| { RepliesKeepStreams(w, Frame(tick, Chunk(w.streams[tick].chunkIndex))); }
      case Due => if w.pending != [] { RepliesKeepStreams(w.(pending := w.pending[1..]), w.pending[0]); }
      case Close(_) =>
    }
  }

  // A stream that lost currency never regains it, and is sent nothing more.
  lemma {:induction false} CurrencyNeverRegained(w: World, events: seq<Event>, id: nat)
    requires Sound(w) && id < |w.streams| && !IsCurrent(w, id)
    ensures id < |Run(w, events).streams| && !IsCurrent(Run(w, events), id)
    ensures FramesOf(Run(w, events).sent, id) == FramesOf(w.sent, id)
    decreases |events|
  {
    if events != [] {
      var t := Step(w, events[0]);
      CurrencyStep(w, events[0], id);
      SentNothing(w, events[0], id);
      SoundStep(w, events[0]);
      CurrencyNeverRegained(t, events[1..], id);
    }
  }

  lemma RepliesToOthers(w: World, f: Frame, id: nat)
    requires f.stream != id || !IsCurrent(w, id)
    ensures FramesOf(Responded(w, f).sent, id) == FramesOf(w.sent, id) == FramesOf(Delivered(w, f).sent, id)
  {
    FramesOfAppend(w.sent, f, id);
  }

  lemma SentNothing(w: World, e: Event, id: nat)
    requires Sound(w) && id < |w.streams| && !IsCurrent(w, id)
    ensures FramesOf(Step(w, e).sent, id) == FramesOf(w.sent, id)
  {
    match e {
      case Subscribe(pane) =>
        SoundCleared(w, pane);
        RepliesToOthers(Begun(w, pane), Frame(|w.streams|, Scrollback), id);
      case Tick(tick) =>
        if tick < |w.streams| { RepliesToOthers(w, Frame(tick, Chunk(w.streams[tick].chunkIndex)), id); }
      case Due => if w.pending != [] { RepliesToOthers(w.(pending := w.pending[1..]), w.pending[0], id); }
      case _ =>
    }
  }

  // A pane is subscribed again or unsubscribed, or its socket closes.
  predicate Ends(e: Event, pane: Pane) { e == Subscribe(pane) || e == Unsubscribe(pane) || e == Close(pane.0) }

  lemma EndedNow(w: World, e: Event, id: nat)
    requires Sound(w) && id < |w.streams| && Ends(e, w.streams[id].pane)
    ensures id < |Step(w, e).streams| && !IsCurrent(Step(w, e), id) && FramesOf(Step(w, e).sent, id) == FramesOf(w.sent, id)
  {
    var pane := w.streams[id].pane;
    if e == Subscribe(pane) {
      SoundCleared(w, pane);
      SubscribedShape(w, pane);
      RepliesToOthers(Begun(w, pane), Frame(|w.streams|, Scrollback), id);
    } else if e == Unsubscribe(pane) {
      SoundCleared(w, pane);
    }
  }

  // Each of these ends the earlier stream of a pane for good: nothing more of it is sent.
  lemma Superseded(w: World, e: Event, id: nat, events: seq<Event>)
    requires Reachable(w) && id < |w.streams| && Ends(e, w.streams[id].pane)
    ensures FramesOf(Run(Step(w, e), events).sent, id) == FramesOf(w.sent, id)
  {
    ReachableSound(w);
    SoundStep(w, e);
    EndedNow(w, e, id);
    CurrencyNeverRegained(Step(w, e), events, id);
  }
}
