/**
  Client, network and relay together (web/src/sync.ts).

  The relay is known by its contract alone: it appends batches it receives to a log and
  sends an update frame only for a batch already in the log. The network is as bad as it
  can be: a batch handed to a socket may be lost, delayed past a reconnect, reordered or
  delivered twice, and so may an update frame; sockets close at any moment. Messages reach
  the client only on an open socket.

  Distinct local batches have distinct bytes, and no other peer writes a batch with the
  bytes of ours. Those are the two assumptions, stated in `Enabled`.
 */
module SyncProtocol {
  import opened Wrappers
  import opened Binary
  import opened Sorting
  import opened SyncClient

  datatype System = System(
    c: Client,
    produced: seq<Bytes>,   // every batch that ever entered the queue
    receipted: seq<Bytes>,  // every batch that ever left it
    wire: set<Bytes>,       // batches handed to some socket, any of which may still arrive
    log: seq<Bytes>,        // what the relay has persisted, repeats included
    onSocket: seq<Bytes>,   // update frames handed to the current socket
    ready: nat,
    seeded: nat,
    sockets: nat)

  datatype Event =
    | Reconnect
    | Opened(helloOk: bool)
    | WelcomeTimeout
    | Welcome(content: bool, importOk: bool)
    | Update(bytes: Bytes, importOk: bool)
    | Snapshot(importOk: bool)
    | ErrorFrame(code: nat)
    | BadFrame
    | SocketClosed
    | Local(bytes: Bytes)
    | StopCall
    | Persist(bytes: Bytes)
    | PeerPersist(bytes: Bytes)

  const Initial: System := System(Connect(Fresh), [], [], {}, [], [], 0, 0, 1)

  predicate IsNew(s: System, bytes: Bytes) {
    bytes !in s.produced && bytes !in s.log
  }

  predicate Enabled(s: System, e: Event, seed: Option<Bytes>) {
    match e
    case Reconnect => s.c.reconnectArmed
    case Opened(_) => s.c.socket.Connecting?
    case WelcomeTimeout => s.c.welcomeArmed
    case Welcome(content, _) =>
      s.c.socket.Open? && (s.c.firstHandshake && !content && seed.Some? ==> IsNew(s, seed.value))
    case Update(bytes, _) => s.c.socket.Open? && bytes in s.log
    case Snapshot(_) => s.c.socket.Open?
    case ErrorFrame(_) => s.c.socket.Open?
    case BadFrame => s.c.socket.Open?
    case SocketClosed => s.c.socket.Connecting? || s.c.socket.Open? || s.c.socket.Closing?
    case Local(bytes) => s.c.subscribed && IsNew(s, bytes)
    case StopCall => true
    case Persist(bytes) => bytes in s.wire
    case PeerPersist(bytes) => bytes !in s.produced
  }

  predicate IsClientEvent(e: Event) { !e.Persist? && !e.PeerPersist? }

  function ClientAfter(c: Client, e: Event, seed: Option<Bytes>): Client
    requires IsClientEvent(e)
  {
    match e
    case Reconnect => OnReconnectTimer(c)
    case Opened(ok) => OnOpen(c, ok)
    case WelcomeTimeout => OnWelcomeTimeout(c)
    case Welcome(content, ok) => OnWelcome(c, content, ok, seed)
    case Update(bytes, ok) => OnUpdate(c, bytes, ok)
    case Snapshot(ok) => OnSnapshot(c, ok)
    case ErrorFrame(code) => OnError(c, code)
    case BadFrame => Fail(c)
    case SocketClosed => OnClose(c)
    case Local(bytes) => Enqueue(c, bytes)
    case StopCall => Stop(c)
  }

  function EffectsOf(c: Client, e: Event, seed: Option<Bytes>): Effects {
    match e
    case Reconnect => ReconnectEffects(c)
    case Welcome(content, ok) => WelcomeEffects(c, content, ok, seed)
    case Update(bytes, ok) => UpdateEffects(c, bytes, ok)
    case Local(bytes) => EnqueueEffects(c, bytes)
    case _ => Nothing
  }

  function Absorb(s: System, c: Client, f: Effects): System {
    System(c,
           s.produced + f.produced, s.receipted + f.receipted,
           s.wire + (set b | b in f.sent), s.log,
           (if f.sockets > 0 then [] else s.onSocket) + f.sent,
           s.ready + f.ready, s.seeded + f.seeded, s.sockets + f.sockets)
  }

  function Next(s: System, e: Event, seed: Option<Bytes>): System {
    match e
    case Persist(bytes) => s.(log := s.log + [bytes])
    case PeerPersist(bytes) => s.(log := s.log + [bytes])
    case _ => Absorb(s, ClientAfter(s.c, e, seed), EffectsOf(s.c, e, seed))
  }

  predicate EnabledRun(s: System, es: seq<Event>, seed: Option<Bytes>) {
    if es == [] then true
    else
      var n := |es| - 1;
      EnabledRun(s, es[..n], seed) && Enabled(Run(s, es[..n], seed), es[n], seed)
  }

  function Run(s: System, es: seq<Event>, seed: Option<Bytes>): System {
    if es == [] then s else Next(Run(s, es[..|es| - 1], seed), es[|es| - 1], seed)
  }

  // ------------------------------------------------------------------ what one handler may do to the queue

  predicate Waiting(c: Client) {
    c.awaitingReceipt ==> c.pending != [] && c.handshakeComplete
  }

  predicate Kept(c: Client, d: Client, f: Effects) {
    f.produced == [] && f.receipted == [] && d.pending == c.pending
  }

  predicate Pushed(c: Client, d: Client, f: Effects) {
    |f.produced| == 1 && f.receipted == [] && d.pending == c.pending + f.produced
  }

  predicate Popped(c: Client, d: Client, f: Effects) {
    && c.awaitingReceipt && c.handshakeComplete && d.handshakeComplete && c.pending != []
    && f.produced == [] && f.receipted == [c.pending[0]] && d.pending == c.pending[1..]
  }

  /** What goes out is the head of the queue, and only when nothing else awaits a receipt. */
  predicate SendsHead(c: Client, d: Client, f: Effects) {
    && d.pending != [] && f.sent == [d.pending[0]] && d.awaitingReceipt
    && (c.awaitingReceipt ==> f.receipted != [])
  }

  /** Batches enter at the back, leave at the front on a receipt, and go out one at a time. */
  predicate QueueStep(c: Client, d: Client, f: Effects) {
    && Waiting(d)
    && (Kept(c, d, f) || Pushed(c, d, f) || Popped(c, d, f))
    && (SendsHead(c, d, f) ||
        (f.sent == [] && (d.awaitingReceipt ==> c.awaitingReceipt && c.handshakeComplete && f.receipted == [])))
    && (c.awaitingReceipt && d.handshakeComplete && !d.awaitingReceipt ==> f.receipted != [])
  }

  /** A handler that leaves the queue alone and at most gives up waiting. */
  predicate QuietStep(c: Client, d: Client) {
    && d.pending == c.pending
    && if d.awaitingReceipt == c.awaitingReceipt then c.awaitingReceipt ==> d.handshakeComplete
       else !d.awaitingReceipt && !d.handshakeComplete
  }

  lemma QuietIsQueueStep(c: Client, d: Client, f: Effects)
    requires Waiting(c) && QuietStep(c, d) && f.produced == f.receipted == f.sent == []
    ensures QueueStep(c, d, f)
  {
  }

  lemma SendStep(c: Client, mid: Client, f: Effects)
    requires Waiting(c) && Waiting(mid) && mid.handshakeComplete
    requires Kept(c, mid, f) || Pushed(c, mid, f) || Popped(c, mid, f)
    requires mid.awaitingReceipt == (c.awaitingReceipt && f.receipted == [])
    requires f.sent == NextSent(mid)
    ensures QueueStep(c, SendNext(mid), f)
  {
  }

  lemma EnqueueStep(c: Client, bytes: Bytes)
    requires Waiting(c)
    ensures QueueStep(c, Enqueue(c, bytes), EnqueueEffects(c, bytes))
  {
    var mid := c.(pending := c.pending + [bytes]);
    if bytes != [] && c.handshakeComplete {
      SendStep(c, mid, EnqueueEffects(c, bytes));
    }
  }

  lemma WelcomeStep(c: Client, content: bool, ok: bool, seed: Option<Bytes>)
    requires Waiting(c)
    ensures QueueStep(c, OnWelcome(c, content, ok, seed), WelcomeEffects(c, content, ok, seed))
  {
    if content && !ok {
      QuietIsQueueStep(c, Fail(Shaken(c)), Nothing);
    } else if !c.firstHandshake {
      SendStep(c, Shaken(c), Nothing.(sent := NextSent(Shaken(c))));
    } else if !content && seed.Some? {
      EnqueueStep(Shaken(c), seed.value);
    } else {
      QuietIsQueueStep(c, Shaken(c), Nothing.(ready := 1));
    }
  }

  lemma UpdateStep(c: Client, bytes: Bytes, ok: bool)
    requires Waiting(c)
    ensures QueueStep(c, OnUpdate(c, bytes, ok), UpdateEffects(c, bytes, ok))
  {
    if !c.handshakeComplete || !ok {
      QuietIsQueueStep(c, Fail(c), Nothing);
    } else if IsReceipt(c, bytes) {
      SendStep(c, Received(c), UpdateEffects(c, bytes, ok));
    } else {
      QuietIsQueueStep(c, c, Nothing);
    }
  }

  predicate MovesQueue(e: Event) { e.Welcome? || e.Update? || e.Local? }

  lemma QuietConnecting(c: Client, ok: bool)
    requires Waiting(c)
    ensures QuietStep(c, OnReconnectTimer(c)) && QuietStep(c, OnOpen(c, ok)) && QuietStep(c, OnWelcomeTimeout(c))
  {
  }

  lemma QuietFailing(c: Client, ok: bool, code: nat)
    requires Waiting(c)
    ensures QuietStep(c, Fail(c)) && QuietStep(c, OnSnapshot(c, ok)) && QuietStep(c, OnError(c, code))
  {
  }

  lemma QuietEnding(c: Client)
    requires Waiting(c)
    ensures QuietStep(c, OnClose(c)) && QuietStep(c, Stop(c))
  {
  }

  lemma QuietEvents(c: Client, e: Event, seed: Option<Bytes>)
    requires IsClientEvent(e) && !MovesQueue(e) && Waiting(c)
    ensures QuietStep(c, ClientAfter(c, e, seed))
  {
    if e.Reconnect? || e.Opened? || e.WelcomeTimeout? {
      QuietConnecting(c, e.Opened? && e.helloOk);
    } else if e.SocketClosed? || e.StopCall? {
      QuietEnding(c);
    } else {
      QuietFailing(c, e.Snapshot? && e.importOk, if e.ErrorFrame? then e.code else 0);
    }
  }

  lemma ClientStep(c: Client, e: Event, seed: Option<Bytes>)
    requires IsClientEvent(e) && Waiting(c)
    ensures QueueStep(c, ClientAfter(c, e, seed), EffectsOf(c, e, seed))
  {
    if e.Welcome? {
      WelcomeStep(c, e.content, e.importOk, seed);
    } else if e.Update? {
      UpdateStep(c, e.bytes, e.importOk);
    } else if e.Local? {
      EnqueueStep(c, e.bytes);
    } else {
      QuietEvents(c, e, seed);
      QuietIsQueueStep(c, ClientAfter(c, e, seed), EffectsOf(c, e, seed));
    }
  }

  // ------------------------------------------------------------------ the queue and the log

  /** The local batches of the log, at their first occurrence, in log order. */
  function Own(log: seq<Bytes>, k: nat, produced: seq<Bytes>): seq<Bytes>
    requires k <= |log|
  {
    if k == 0 then []
    else
      var before := Own(log, k - 1, produced);
      if log[k - 1] in produced && log[k - 1] !in before then before + [log[k - 1]] else before
  }

  lemma {:induction false} OwnFrame(log: seq<Bytes>, log': seq<Bytes>, k: nat, produced: seq<Bytes>)
    requires k <= |log| && k <= |log'| && forall i :: 0 <= i < k ==> log[i] == log'[i]
    ensures Own(log, k, produced) == Own(log', k, produced)
  {
    if k > 0 { OwnFrame(log, log', k - 1, produced); }
  }

  /** A batch the relay has never seen does not change what it has of ours. */
  lemma {:induction false} OwnMore(log: seq<Bytes>, k: nat, produced: seq<Bytes>, bytes: Bytes)
    requires k <= |log| && bytes !in log
    ensures Own(log, k, produced + [bytes]) == Own(log, k, produced)
  {
    if k > 0 { OwnMore(log, k - 1, produced, bytes); }
  }

  lemma {:induction false} OwnHas(log: seq<Bytes>, k: nat, produced: seq<Bytes>, bytes: Bytes)
    requires k <= |log| && bytes in log[..k] && bytes in produced
    ensures bytes in Own(log, k, produced)
  {
    if k > 0 {
      assert log[..k] == log[..k - 1] + [log[k - 1]];
      if bytes in log[..k - 1] { OwnHas(log, k - 1, produced, bytes); }
    }
  }

  /** How many batches the client knows or may soon know to be persisted. */
  predicate LogPrefix(s: System) {
    var own := Own(s.log, |s.log|, s.produced);
    && |s.receipted| <= |own| <= |s.receipted| + 1
    && |own| <= |s.produced|
    && own == s.produced[..|own|]
  }

  /** Only receipted batches and the one after them have been handed to a socket. */
  predicate WireBound(s: System) {
    forall b <- s.wire :: exists i :: 0 <= i <= |s.receipted| && i < |s.produced| && s.produced[i] == b
  }

  ghost predicate QueueInv(s: System) {
    && Waiting(s.c)
    && s.produced == s.receipted + s.c.pending
    && Distinct(s.produced)
    && WireBound(s)
    && LogPrefix(s)
  }

  /** Persisting a batch on the wire adds nothing or exactly the next batch. */
  lemma PersistKeepsPrefix(s: System, t: System, i: nat)
    requires LogPrefix(s) && i <= |s.receipted| && i < |s.produced|
    requires t.produced == s.produced && t.receipted == s.receipted && t.log == s.log + [s.produced[i]]
    ensures LogPrefix(t)
  {
    var own := Own(s.log, |s.log|, s.produced);
    OwnFrame(s.log, t.log, |s.log|, s.produced);
    assert i < |own| ==> own[i] == s.produced[i];
    if i == |own| { assert own + [s.produced[i]] == s.produced[..i + 1]; }
  }

  lemma PersistKeepsQueue(s: System, bytes: Bytes)
    requires QueueInv(s) && bytes in s.wire
    ensures QueueInv(s.(log := s.log + [bytes]))
  {
    var t := s.(log := s.log + [bytes]);
    var i :| 0 <= i <= |s.receipted| && i < |s.produced| && s.produced[i] == bytes;
    PersistKeepsPrefix(s, t, i);
    LogLeavesWire(s, bytes);
  }

  lemma LogLeavesWire(s: System, bytes: Bytes)
    requires WireBound(s)
    ensures WireBound(s.(log := s.log + [bytes]))
  {
    forall b | b in s.wire
      ensures exists i :: 0 <= i <= |s.receipted| && i < |s.produced| && s.produced[i] == b
    {
    }
  }

  lemma PeerKeepsQueue(s: System, bytes: Bytes)
    requires QueueInv(s) && bytes !in s.produced
    ensures QueueInv(s.(log := s.log + [bytes]))
  {
    OwnFrame(s.log, s.log + [bytes], |s.log|, s.produced);
  }

  /** A batch already produced is in the log when its receipt arrives. */
  lemma ReceiptKeepsPrefix(s: System, t: System)
    requires LogPrefix(s) && s.produced == s.receipted + s.c.pending && s.c.pending != [] && Distinct(s.produced)
    requires s.c.pending[0] in s.log
    requires t.log == s.log && t.produced == s.produced && t.receipted == s.receipted + [s.c.pending[0]]
    ensures LogPrefix(t)
  {
    var own, n := Own(s.log, |s.log|, s.produced), |s.receipted|;
    assert s.produced[n] == s.c.pending[0];
    assert s.log[..|s.log|] == s.log;
    OwnHas(s.log, |s.log|, s.produced, s.c.pending[0]);
    var i :| 0 <= i < |own| && own[i] == s.c.pending[0];
    assert s.produced[i] == s.produced[n];
  }

  ghost predicate QueueCore(s: System) {
    s.produced == s.receipted + s.c.pending && Distinct(s.produced) && LogPrefix(s)
  }

  lemma PushKeepsCore(s: System, d: Client, f: Effects)
    requires QueueCore(s) && Pushed(s.c, d, f) && IsNew(s, f.produced[0])
    ensures QueueCore(Absorb(s, d, f))
  {
    var t := Absorb(s, d, f);
    assert t.produced == s.produced + [f.produced[0]] == t.receipted + d.pending;
    OwnMore(s.log, |s.log|, s.produced, f.produced[0]);
  }

  lemma PopKeepsCore(s: System, d: Client, f: Effects)
    requires QueueCore(s) && Popped(s.c, d, f) && s.c.pending[0] in s.log
    ensures QueueCore(Absorb(s, d, f))
  {
    var t := Absorb(s, d, f);
    assert t.produced == s.produced == t.receipted + d.pending;
    ReceiptKeepsPrefix(s, t);
  }

  lemma QuietKeepsCore(s: System, d: Client, f: Effects)
    requires QueueCore(s) && Kept(s.c, d, f)
    ensures QueueCore(Absorb(s, d, f))
  {
    assert s.produced + [] == s.produced && s.receipted + [] == s.receipted;
  }

  /** Every handler step that respects the queue discipline keeps the queue invariant. */
  lemma HandlerKeepsQueue(s: System, d: Client, f: Effects)
    requires QueueInv(s) && QueueStep(s.c, d, f)
    requires f.produced != [] ==> IsNew(s, f.produced[0])
    requires f.receipted != [] ==> s.c.pending != [] && s.c.pending[0] in s.log
    ensures QueueInv(Absorb(s, d, f))
  {
    if Pushed(s.c, d, f) {
      PushKeepsCore(s, d, f);
    } else if Popped(s.c, d, f) {
      PopKeepsCore(s, d, f);
    } else {
      QuietKeepsCore(s, d, f);
    }
    WireStaysBound(s, d, f);
  }

  lemma WireStaysBound(s: System, d: Client, f: Effects)
    requires QueueInv(s) && QueueStep(s.c, d, f)
    requires var t := Absorb(s, d, f); t.produced == t.receipted + d.pending
    ensures WireBound(Absorb(s, d, f))
  {
    var t := Absorb(s, d, f);
    forall b | b in t.wire ensures exists i :: 0 <= i <= |t.receipted| && i < |t.produced| && t.produced[i] == b {
      if b in s.wire {
        var i :| 0 <= i <= |s.receipted| && i < |s.produced| && s.produced[i] == b;
        assert t.produced[i] == b;
      } else {
        assert t.produced[|t.receipted|] == d.pending[0] == b;
      }
    }
  }

  lemma StepKeepsQueue(s: System, e: Event, seed: Option<Bytes>)
    requires QueueInv(s) && Enabled(s, e, seed)
    ensures QueueInv(Next(s, e, seed))
  {
    if e.Persist? {
      PersistKeepsQueue(s, e.bytes);
    } else if e.PeerPersist? {
      PeerKeepsQueue(s, e.bytes);
    } else {
      ClientStep(s.c, e, seed);
      HandlerKeepsQueue(s, ClientAfter(s.c, e, seed), EffectsOf(s.c, e, seed));
    }
  }

  // ------------------------------------------------------------------ one socket at a time

  /** Batches up to here have gone out or been receipted. */
  function SentUpTo(s: System): nat {
    |s.receipted| + if s.c.awaitingReceipt then 1 else 0
  }

  /** What went out on this socket: consecutive batches, ending at the one that awaits its receipt. */
  predicate Consecutive(s: System) {
    && |s.onSocket| <= SentUpTo(s) <= |s.produced|
    && s.onSocket == s.produced[SentUpTo(s) - |s.onSocket|..SentUpTo(s)]
  }

  lemma SliceSnoc(xs: seq<Bytes>, i: nat, j: nat)
    requires i <= j < |xs|
    ensures xs[i..j] + [xs[j]] == xs[i..j + 1]
  {
  }

  lemma SliceOfPrefix(xs: seq<Bytes>, ys: seq<Bytes>, i: nat, j: nat)
    requires i <= j <= |xs| && xs <= ys
    ensures xs[i..j] == ys[i..j]
  {
  }

  lemma SliceGrows(xs: seq<Bytes>, ys: seq<Bytes>, run: seq<Bytes>, upTo: nat, sent: seq<Bytes>)
    requires xs <= ys && |run| <= upTo <= |xs| && run == xs[upTo - |run|..upTo]
    requires sent == [] || (upTo < |ys| && sent == [ys[upTo]])
    ensures upTo + |sent| <= |ys| && run + sent == ys[upTo - |run|..upTo + |sent|]
  {
    SliceOfPrefix(xs, ys, upTo - |run|, upTo);
    if sent != [] { SliceSnoc(ys, upTo - |run|, upTo); }
  }

  /** The next frame out is the next batch. */
  lemma SentIsNext(s: System, d: Client, f: Effects)
    requires Waiting(s.c) && QueueStep(s.c, d, f) && d.handshakeComplete && f.sockets == 0
    requires s.produced == s.receipted + s.c.pending
    requires var t := Absorb(s, d, f); t.produced == t.receipted + d.pending
    ensures var t := Absorb(s, d, f);
            SentUpTo(t) == SentUpTo(s) + |f.sent| && s.produced <= t.produced
            && (f.sent == [] || (SentUpTo(s) < |t.produced| && f.sent == [t.produced[SentUpTo(s)]]))
  {
  }

  lemma HandlerKeepsSocket(s: System, d: Client, f: Effects)
    requires Waiting(s.c) && Consecutive(s) && QueueStep(s.c, d, f) && d.handshakeComplete && f.sockets == 0
    requires s.produced == s.receipted + s.c.pending
    requires var t := Absorb(s, d, f); t.produced == t.receipted + d.pending
    ensures Consecutive(Absorb(s, d, f))
  {
    SentIsNext(s, d, f);
    SliceGrows(s.produced, Absorb(s, d, f).produced, s.onSocket, SentUpTo(s), f.sent);
  }

  // ------------------------------------------------------------------ the control state

  /** What holds of the flags between any two events. */
  predicate ControlInv(c: Client) {
    && (c.handshakeComplete ==> (c.socket.Open? || c.socket.Closing?) && !c.firstHandshake)
    && (c.firstHandshake ==> !c.subscribed)
    && (c.reconnectArmed ==> c.socket.Closed?)
    && (c.Terminal() ==> (c.socket.Closing? || c.socket.Closed?) && !c.reconnectArmed)
    && (!c.Terminal() ==> !c.socket.NoSocket? && (c.socket.Closed? ==> c.reconnectArmed))
  }

  /** The circumstances in which the browser fires an event. */
  predicate Fires(c: Client, e: Event) {
    && (e.Reconnect? ==> c.reconnectArmed)
    && (e.Opened? ==> c.socket.Connecting?)
    && (e.WelcomeTimeout? ==> c.welcomeArmed)
    && (e.Welcome? || e.Update? || e.Snapshot? || e.ErrorFrame? || e.BadFrame? ==> c.socket.Open?)
    && (e.SocketClosed? ==> c.socket.Connecting? || c.socket.Open? || c.socket.Closing?)
    && (e.Local? ==> c.subscribed)
  }

  /** What a handler may do to the flags. */
  predicate ControlStep(c: Client, d: Client, f: Effects) {
    && ControlInv(d)
    && (c.Terminal() ==> d.Terminal() && f.sockets == 0 && f.sent == [])
    && (d.firstHandshake ==> c.firstHandshake && f.produced == [] && f.ready == 0 && f.seeded == 0)
    && (!c.firstHandshake ==> f.ready == 0 && f.seeded == 0)
    && f.seeded <= f.ready <= 1
    && (d.handshakeComplete ==> f.sockets == 0)
    && (d.handshakeComplete && !c.handshakeComplete ==> c.socket.Open?)
    && (!d.handshakeComplete && (d.socket.Open? || d.socket.Connecting?) && f.sockets == 0 ==>
          !c.handshakeComplete && (c.socket.Open? || c.socket.Connecting?))
    && (f.sent != [] ==> d.handshakeComplete)
  }

  lemma ConnectingControl(c: Client, ok: bool)
    requires ControlInv(c)
    ensures c.reconnectArmed ==> ControlStep(c, OnReconnectTimer(c), Nothing.(sockets := 1))
    ensures c.socket.Connecting? ==> ControlStep(c, OnOpen(c, ok), Nothing)
    ensures ControlStep(c, OnWelcomeTimeout(c), Nothing)
  {
  }

  lemma FailControl(c: Client, f: Effects)
    requires ControlInv(c) && c.socket.Open? && f == Nothing
    ensures ControlStep(c, Fail(c), f)
    ensures ControlStep(c, CloseSocket(c), f)
  {
  }

  lemma EndControl(c: Client)
    requires ControlInv(c)
    ensures !c.socket.Closed? && !c.socket.NoSocket? ==> ControlStep(c, OnClose(c), Nothing)
    ensures ControlStep(c, Stop(c), Nothing)
  {
  }

  lemma EnqueueControl(c: Client, bytes: Bytes)
    requires ControlInv(c) && c.subscribed
    ensures ControlStep(c, Enqueue(c, bytes), EnqueueEffects(c, bytes))
  {
  }

  lemma FirstWelcomeControl(c: Client, content: bool, seed: Option<Bytes>)
    requires ControlInv(c) && c.socket.Open? && c.firstHandshake
    ensures ControlStep(c, SettleRetries(Begin(Shaken(c), content, seed)), BeginEffects(Shaken(c), content, seed))
  {
  }

  lemma WelcomeControl(c: Client, content: bool, ok: bool, seed: Option<Bytes>)
    requires ControlInv(c) && c.socket.Open?
    ensures ControlStep(c, OnWelcome(c, content, ok, seed), WelcomeEffects(c, content, ok, seed))
  {
    if content && !ok {
    } else if c.firstHandshake {
      FirstWelcomeControl(c, content, seed);
    } else {
    }
  }

  lemma UpdateControl(c: Client, bytes: Bytes, ok: bool)
    requires ControlInv(c) && c.socket.Open?
    ensures ControlStep(c, OnUpdate(c, bytes, ok), UpdateEffects(c, bytes, ok))
  {
    if !c.handshakeComplete || !ok {
      FailControl(c, Nothing);
    }
  }

  lemma ControlAfter(c: Client, e: Event, seed: Option<Bytes>)
    requires IsClientEvent(e) && ControlInv(c) && Fires(c, e)
    ensures ControlStep(c, ClientAfter(c, e, seed), EffectsOf(c, e, seed))
  {
    if e.Welcome? {
      WelcomeControl(c, e.content, e.importOk, seed);
    } else if e.Update? {
      UpdateControl(c, e.bytes, e.importOk);
    } else if e.Local? {
      EnqueueControl(c, e.bytes);
    } else if e.Reconnect? || e.Opened? || e.WelcomeTimeout? {
      ConnectingControl(c, e.Opened? && e.helloOk);
    } else if e.SocketClosed? || e.StopCall? {
      EndControl(c);
    } else {
      FailControl(c, Nothing);
    }
  }

  // ------------------------------------------------------------------ no idling

  /** An open, handshaken connection with work queued is waiting for a receipt. */
  predicate Busy(c: Client) {
    c.handshakeComplete && c.socket.Open? && c.pending != [] ==> c.awaitingReceipt
  }

  lemma ConnectingBusy(c: Client, ok: bool)
    requires Busy(c) && ControlInv(c)
    ensures c.reconnectArmed ==> Busy(OnReconnectTimer(c))
    ensures c.socket.Connecting? ==> Busy(OnOpen(c, ok))
    ensures Busy(OnWelcomeTimeout(c))
  {
  }

  lemma FailingBusy(c: Client, ok: bool, code: nat)
    requires Busy(c)
    ensures Busy(Fail(c)) && Busy(OnSnapshot(c, ok)) && Busy(OnError(c, code))
  {
  }

  lemma EndingBusy(c: Client)
    requires Busy(c)
    ensures Busy(OnClose(c)) && Busy(Stop(c))
  {
  }

  lemma SendingBusy(c: Client, bytes: Bytes, ok: bool)
    requires Busy(c) && Waiting(c)
    ensures Busy(Enqueue(c, bytes)) && Busy(OnUpdate(c, bytes, ok))
  {
  }

  lemma WelcomeBusy(c: Client, content: bool, ok: bool, seed: Option<Bytes>)
    requires Busy(c) && Waiting(c) && ControlInv(c) && (c.firstHandshake ==> c.pending == [])
    ensures Busy(OnWelcome(c, content, ok, seed))
  {
    if !(content && !ok) && c.firstHandshake && !content && seed.Some? {
      SendingBusy(Shaken(c), seed.value, true);
    }
  }

  lemma BusyAfter(c: Client, e: Event, seed: Option<Bytes>)
    requires IsClientEvent(e) && Fires(c, e)
    requires Busy(c) && Waiting(c) && ControlInv(c) && (c.firstHandshake ==> c.pending == [])
    ensures Busy(ClientAfter(c, e, seed))
  {
    if e.Welcome? {
      WelcomeBusy(c, e.content, e.importOk, seed);
    } else if e.Update? {
      SendingBusy(c, e.bytes, e.importOk);
    } else if e.Local? {
      SendingBusy(c, e.bytes, true);
    } else if e.Reconnect? || e.Opened? || e.WelcomeTimeout? {
      ConnectingBusy(c, e.Opened? && e.helloOk);
    } else if e.SocketClosed? || e.StopCall? {
      EndingBusy(c);
    } else {
      FailingBusy(c, e.Snapshot? && e.importOk, if e.ErrorFrame? then e.code else 0);
    }
  }

  /** The awaited batch has been handed to a socket. */
  predicate AwaitedIsOut(s: System) {
    s.c.awaitingReceipt && s.c.pending != [] ==> s.c.pending[0] in s.wire
  }

  lemma AwaitedStaysOut(s: System, d: Client, f: Effects)
    requires AwaitedIsOut(s) && Waiting(s.c) && QueueStep(s.c, d, f)
    ensures AwaitedIsOut(Absorb(s, d, f))
  {
  }

  // ------------------------------------------------------------------ every reachable state

  ghost predicate Inv(s: System) {
    && QueueInv(s)
    && ControlInv(s.c)
    && (s.c.handshakeComplete ==> Consecutive(s))
    && (!s.c.handshakeComplete && (s.c.socket.Open? || s.c.socket.Connecting?) ==> s.onSocket == [])
    && (s.c.firstHandshake ==> s.produced == [] && s.ready == 0)
    && s.seeded <= s.ready <= 1
    && Busy(s.c) && AwaitedIsOut(s)
  }

  lemma HandlerKeepsInv(s: System, e: Event, seed: Option<Bytes>)
    requires Inv(s) && Enabled(s, e, seed) && IsClientEvent(e)
    ensures Inv(Next(s, e, seed))
  {
    var d, f := ClientAfter(s.c, e, seed), EffectsOf(s.c, e, seed);
    StepKeepsQueue(s, e, seed);
    ClientStep(s.c, e, seed);
    ControlAfter(s.c, e, seed);
    BusyAfter(s.c, e, seed);
    AbsorbedKeepsInv(s, d, f);
  }

  /** Any step of the queue and the flags that keeps the queue's part keeps the rest. */
  lemma AbsorbedKeepsInv(s: System, d: Client, f: Effects)
    requires Inv(s) && QueueStep(s.c, d, f) && ControlStep(s.c, d, f)
    requires QueueInv(Absorb(s, d, f)) && Busy(d)
    ensures Inv(Absorb(s, d, f))
  {
    AwaitedStaysOut(s, d, f);
    if d.handshakeComplete {
      if !s.c.handshakeComplete { assert Consecutive(s); }
      HandlerKeepsSocket(s, d, f);
    }
  }

  lemma RelayKeepsInv(s: System, e: Event, seed: Option<Bytes>)
    requires Inv(s) && Enabled(s, e, seed) && !IsClientEvent(e)
    ensures Inv(Next(s, e, seed))
  {
    StepKeepsQueue(s, e, seed);
    OnlyTheLog(s, Next(s, e, seed));
  }

  /** What the relay persists concerns the queue alone. */
  lemma OnlyTheLog(s: System, t: System)
    requires Inv(s) && QueueInv(t) && t == s.(log := t.log)
    ensures Inv(t)
  {
    assert Consecutive(t) == Consecutive(s);
  }

  lemma StepKeepsInv(s: System, e: Event, seed: Option<Bytes>)
    requires Inv(s) && Enabled(s, e, seed)
    ensures Inv(Next(s, e, seed))
  {
    if IsClientEvent(e) { HandlerKeepsInv(s, e, seed); } else { RelayKeepsInv(s, e, seed); }
  }

  lemma {:induction false} RunKeepsInv(s: System, es: seq<Event>, seed: Option<Bytes>)
    requires Inv(s) && EnabledRun(s, es, seed)
    ensures Inv(Run(s, es, seed))
  {
    if es != [] {
      RunKeepsInv(s, es[..|es| - 1], seed);
      StepKeepsInv(Run(s, es[..|es| - 1], seed), es[|es| - 1], seed);
    }
  }

  /** The invariant holds of every state the system can reach. */
  lemma Reachable(es: seq<Event>, seed: Option<Bytes>)
    requires EnabledRun(Initial, es, seed)
    ensures Inv(Run(Initial, es, seed))
  {
    RunKeepsInv(Initial, es, seed);
  }
}
