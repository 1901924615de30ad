/**
  What the sync client guarantees in every run (web/src/sync.ts), read off the invariant of
  SyncProtocol.dfy.
 */
module SyncTheorems {
  import opened Wrappers
  import opened Binary
  import opened SyncClient
  import opened SyncProtocol

  // ------------------------------------------------------------------ delivery

  lemma {:induction false} OwnInLog(log: seq<Bytes>, k: nat, produced: seq<Bytes>, bytes: Bytes)
    requires k <= |log| && bytes in Own(log, k, produced)
    ensures bytes in log
  {
    if bytes in Own(log, k - 1, produced) { OwnInLog(log, k - 1, produced, bytes); }
  }

  /**
    In every reachable state nothing produced is lost or reordered: what left the queue is
    persisted, what did not leave it is still queued, and the first occurrences of our
    batches in the relay log are the produced batches, as far as the receipts or one further.
   */
  lemma NothingIsLost(es: seq<Event>, seed: Option<Bytes>)
    requires EnabledRun(Initial, es, seed)
    ensures var s := Run(Initial, es, seed);
            && s.produced == s.receipted + s.c.pending
            && (forall b <- s.receipted :: b in s.log)
            && (var own := Own(s.log, |s.log|, s.produced);
                |s.receipted| <= |own| <= |s.receipted| + 1 && own <= s.produced)
  {
    Reachable(es, seed);
    var s := Run(Initial, es, seed);
    var own := Own(s.log, |s.log|, s.produced);
    forall b | b in s.receipted ensures b in s.log {
      var i :| 0 <= i < |s.receipted| && s.receipted[i] == b;
      assert own[i] == s.produced[i] == b;
      OwnInLog(s.log, |s.log|, s.produced, b);
    }
  }

  /**
    On one socket batches go out in order, without gap or repeat, and never more than one
    beyond the receipts.
   */
  lemma StopAndWait(es: seq<Event>, seed: Option<Bytes>)
    requires EnabledRun(Initial, es, seed)
    requires Run(Initial, es, seed).c.handshakeComplete
    ensures var s := Run(Initial, es, seed);
            var end := |s.receipted| + if s.c.awaitingReceipt then 1 else 0;
            |s.onSocket| <= end <= |s.produced| && s.onSocket == s.produced[end - |s.onSocket|..end]
  {
    Reachable(es, seed);
  }

  // ------------------------------------------------------------------ origin

  /** The editor is attached at most once, and the relay seeded at most once. */
  lemma OneOrigin(es: seq<Event>, seed: Option<Bytes>)
    requires EnabledRun(Initial, es, seed)
    ensures Run(Initial, es, seed).seeded <= Run(Initial, es, seed).ready <= 1
  {
    Reachable(es, seed);
  }

  /** Only the first welcome of all, and only one without content, may seed. */
  lemma SeedsOnlyAnEmptyRelay(s: System, e: Event, seed: Option<Bytes>)
    requires Inv(s) && Enabled(s, e, seed) && Next(s, e, seed).seeded > s.seeded
    ensures e.Welcome? && !e.content && s.c.firstHandshake && seed.Some?
    ensures s.produced == [] && !Next(s, e, seed).c.firstHandshake
  {
    if IsClientEvent(e) { ControlAfter(s.c, e, seed); }
  }

  /** After the first handshake a welcome produces nothing: reconnecting only merges and resumes. */
  lemma ReconnectOnlyMerges(s: System, e: Event, seed: Option<Bytes>)
    requires Inv(s) && Enabled(s, e, seed) && e.Welcome? && !s.c.firstHandshake
    ensures var t := Next(s, e, seed);
            t.produced == s.produced && t.receipted == s.receipted && t.c.pending == s.c.pending && t.ready == s.ready
    ensures e.importOk || !e.content ==>
              var t := Next(s, e, seed);
              && (t.c.pending != [] ==> t.c.awaitingReceipt)
              && t.onSocket == s.onSocket + if s.c.pending != [] && !s.c.awaitingReceipt then [s.c.pending[0]] else []
  {
    assert s.produced + [] == s.produced && s.receipted + [] == s.receipted;
  }

  /** The first welcome among the events, which gives the replica its origin. */
  function FirstWelcome(es: seq<Event>): Option<Event> {
    if es == [] then None
    else
      match FirstWelcome(es[..|es| - 1])
      case Some(e) => Some(e)
      case None => if es[|es| - 1].Welcome? then Some(es[|es| - 1]) else None
  }

  /** The non-empty batches the editor hands over, in order. */
  function Handed(es: seq<Event>): seq<Bytes> {
    if es == [] then []
    else
      var e := es[|es| - 1];
      Handed(es[..|es| - 1]) + if e.Local? && e.bytes != [] then [e.bytes] else []
  }

  /** The first welcome seeds the relay exactly if it brings no content and there is a seed. */
  predicate Seeds(first: Option<Event>, seed: Option<Bytes>) {
    first.Some? && first.value.Welcome? && !first.value.content && seed.Some?
  }

  function SeedOf(first: Option<Event>, seed: Option<Bytes>): seq<Bytes> {
    if Seeds(first, seed) && seed.value != [] then [seed.value] else []
  }

  lemma SeedFirst(first: Option<Event>, seed: Option<Bytes>, handed: seq<Bytes>, more: seq<Bytes>)
    ensures SeedOf(first, seed) + handed + more == SeedOf(first, seed) + (handed + more)
  {
  }

  /** The first welcome attaches the editor exactly if it is merged. */
  predicate Attaches(first: Option<Event>) {
    first.Some? && first.value.Welcome? && (first.value.importOk || !first.value.content)
  }

  /** A batch of the editor enters the queue whatever else is going on; only an empty one does not. */
  lemma LocalIsProduced(s: System, bytes: Bytes, seed: Option<Bytes>)
    requires Enabled(s, Local(bytes), seed)
    ensures Next(s, Local(bytes), seed).produced == s.produced + if bytes == [] then [] else [bytes]
    ensures bytes != [] ==> Next(s, Local(bytes), seed).c.pending == s.c.pending + [bytes]
    ensures var t := Next(s, Local(bytes), seed);
            t.ready == s.ready && t.seeded == s.seeded && t.c.firstHandshake == s.c.firstHandshake
  {
  }

  /** Nothing enters the queue, and no origin is given. */
  predicate Quiet(c: Client, d: Client, f: Effects) {
    f.produced == [] && f.ready == 0 && f.seeded == 0 && d.firstHandshake == c.firstHandshake
  }

  lemma QuietWelcome(c: Client, content: bool, ok: bool, seed: Option<Bytes>)
    requires !c.firstHandshake
    ensures Quiet(c, OnWelcome(c, content, ok, seed), WelcomeEffects(c, content, ok, seed))
  {
  }

  lemma QuietUpdate(c: Client, bytes: Bytes, ok: bool)
    ensures Quiet(c, OnUpdate(c, bytes, ok), UpdateEffects(c, bytes, ok))
  {
  }

  lemma QuietConnecting(c: Client, ok: bool)
    ensures Quiet(c, OnReconnectTimer(c), ReconnectEffects(c)) && Quiet(c, OnOpen(c, ok), Nothing)
    ensures Quiet(c, OnWelcomeTimeout(c), Nothing)
  {
  }

  lemma QuietEnding(c: Client)
    ensures Quiet(c, OnClose(c), Nothing) && Quiet(c, Stop(c), Nothing)
  {
  }

  lemma QuietFailing(c: Client, code: nat, ok: bool)
    ensures Quiet(c, Fail(c), Nothing) && Quiet(c, OnError(c, code), Nothing) && Quiet(c, OnSnapshot(c, ok), Nothing)
  {
  }

  lemma QuietClient(c: Client, e: Event, seed: Option<Bytes>)
    requires IsClientEvent(e) && !e.Local? && !(e.Welcome? && c.firstHandshake)
    ensures Quiet(c, ClientAfter(c, e, seed), EffectsOf(c, e, seed))
  {
    if e.Welcome? {
      QuietWelcome(c, e.content, e.importOk, seed);
    } else if e.Update? {
      QuietUpdate(c, e.bytes, e.importOk);
    } else if e.Reconnect? || e.Opened? || e.WelcomeTimeout? {
      QuietConnecting(c, e.Opened? && e.helloOk);
    } else if e.SocketClosed? || e.StopCall? {
      QuietEnding(c);
    } else {
      QuietFailing(c, if e.ErrorFrame? then e.code else 0, e.Snapshot? && e.importOk);
    }
  }

  lemma OnlyLocalProduces(s: System, e: Event, seed: Option<Bytes>)
    requires !e.Local? && !(e.Welcome? && s.c.firstHandshake)
    ensures var t := Next(s, e, seed);
            t.produced == s.produced && t.ready == s.ready && t.seeded == s.seeded
            && t.c.firstHandshake == s.c.firstHandshake
  {
    if IsClientEvent(e) {
      QuietClient(s.c, e, seed);
      assert s.produced + [] == s.produced;
    }
  }

  lemma FirstWelcomeStep(s: System, e: Event, seed: Option<Bytes>)
    requires Inv(s) && Enabled(s, e, seed) && e.Welcome? && s.c.firstHandshake
    ensures var t := Next(s, e, seed);
            && t.produced == SeedOf(Some(e), seed)
            && t.seeded == (if Seeds(Some(e), seed) then 1 else 0)
            && t.ready == (if Attaches(Some(e)) then 1 else 0)
            && !t.c.firstHandshake
  {
    assert !s.c.Terminal();
  }

  /** What entered the queue is the seed, if the first welcome seeds, and then these batches. */
  predicate ProducedAfter(s: System, first: Option<Event>, handed: seq<Bytes>, seed: Option<Bytes>) {
    && s.produced == SeedOf(first, seed) + handed
    && s.seeded == (if Seeds(first, seed) then 1 else 0)
    && s.ready == (if Attaches(first) then 1 else 0)
    && (s.c.firstHandshake <==> first.None?)
  }

  lemma ProducedStep(s: System, e: Event, seed: Option<Bytes>, first: Option<Event>, handed: seq<Bytes>)
    requires Inv(s) && Enabled(s, e, seed) && ProducedAfter(s, first, handed, seed)
    ensures ProducedAfter(Next(s, e, seed), if first.None? && e.Welcome? then Some(e) else first,
                          handed + if e.Local? && e.bytes != [] then [e.bytes] else [], seed)
  {
    var more := if e.Local? && e.bytes != [] then [e.bytes] else [];
    SeedFirst(first, seed, handed, more);
    if e.Local? {
      LocalIsProduced(s, e.bytes, seed);
    } else if e.Welcome? && s.c.firstHandshake {
      FirstWelcomeStep(s, e, seed);
      assert handed == [];
    } else {
      OnlyLocalProduces(s, e, seed);
    }
  }

  /**
    In every run the queue has taken in exactly the seed, if the first welcome seeds, and then
    every non-empty batch of the editor in order; and the editor is attached exactly if the
    first welcome was merged.
   */
  lemma {:induction false} ProducedIsHanded(es: seq<Event>, seed: Option<Bytes>)
    requires EnabledRun(Initial, es, seed)
    ensures ProducedAfter(Run(Initial, es, seed), FirstWelcome(es), Handed(es), seed)
  {
    if es != [] {
      var before, e := es[..|es| - 1], es[|es| - 1];
      ProducedIsHanded(before, seed);
      Reachable(before, seed);
      ProducedStep(Run(Initial, before, seed), e, seed, FirstWelcome(before), Handed(before));
    }
  }

  // ------------------------------------------------------------------ failures

  /** Limits, eviction and relay failures lead to a reconnect with the queue kept; any other code is final. */
  lemma ErrorIsRetriedIff(s: System, code: nat, seed: Option<Bytes>)
    requires Inv(s) && Enabled(s, ErrorFrame(code), seed)
    ensures var t := Next(s, ErrorFrame(code), seed);
            && Enabled(t, SocketClosed, seed)
            && (var u := Next(t, SocketClosed, seed);
                u.c.pending == s.c.pending && u.c.reconnectArmed == (code in {4029, 4091, 4500})
                && u.c.Terminal() == (code !in {4029, 4091, 4500}))
  {
    var t := Next(s, ErrorFrame(code), seed);
    assert t.c == OnError(s.c, code) && Next(t, SocketClosed, seed).c == OnClose(t.c);
    ErrorThenClose(s.c, code);
  }

  lemma ErrorThenClose(c: Client, code: nat)
    requires ControlInv(c) && c.socket.Open?
    ensures var d := OnError(c, code);
            && d.socket.Closing? && d.pending == c.pending == OnClose(d).pending
            && OnClose(d).reconnectArmed == (code in {4029, 4091, 4500})
            && OnClose(d).Terminal() == (code !in {4029, 4091, 4500})
  {
  }

  /** While an open connection waits for its welcome, the timer that ends the wait is armed. */
  predicate Timed(c: Client) { c.socket.Open? && !c.handshakeComplete && !c.Terminal() ==> c.welcomeArmed }

  lemma TimedMerge(c: Client, content: bool, bytes: Bytes, ok: bool, seed: Option<Bytes>)
    requires Timed(c)
    ensures Timed(OnWelcome(c, content, ok, seed)) && Timed(OnUpdate(c, bytes, ok)) && Timed(Enqueue(c, bytes))
  {
  }

  lemma TimedConnecting(c: Client, ok: bool)
    requires Timed(c)
    ensures Timed(OnReconnectTimer(c)) && Timed(OnOpen(c, ok)) && Timed(OnWelcomeTimeout(c))
  {
  }

  lemma TimedEnding(c: Client)
    requires Timed(c)
    ensures Timed(OnClose(c)) && Timed(Stop(c))
  {
  }

  lemma TimedFailing(c: Client, code: nat, ok: bool)
    requires Timed(c)
    ensures Timed(Fail(c)) && Timed(OnError(c, code)) && Timed(OnSnapshot(c, ok))
  {
  }

  lemma TimedAfter(c: Client, e: Event, seed: Option<Bytes>)
    requires IsClientEvent(e) && Timed(c)
    ensures Timed(ClientAfter(c, e, seed))
  {
    if e.Welcome? {
      TimedMerge(c, e.content, [], e.importOk, seed);
    } else if e.Update? || e.Local? {
      TimedMerge(c, false, e.bytes, e.Update? && e.importOk, seed);
    } else if e.Reconnect? || e.Opened? || e.WelcomeTimeout? {
      TimedConnecting(c, e.Opened? && e.helloOk);
    } else if e.SocketClosed? || e.StopCall? {
      TimedEnding(c);
    } else {
      TimedFailing(c, if e.ErrorFrame? then e.code else 0, e.Snapshot? && e.importOk);
    }
  }

  /** No run leaves the client waiting for a welcome that never comes, or closed with nothing armed. */
  lemma {:induction false} NeverHangs(es: seq<Event>, seed: Option<Bytes>)
    requires EnabledRun(Initial, es, seed)
    ensures var c := Run(Initial, es, seed).c;
            Timed(c) && (c.socket.Closed? && !c.Terminal() ==> c.reconnectArmed)
  {
    Reachable(es, seed);
    if es != [] {
      var s := Run(Initial, es[..|es| - 1], seed);
      NeverHangs(es[..|es| - 1], seed);
      if IsClientEvent(es[|es| - 1]) { TimedAfter(s.c, es[|es| - 1], seed); }
    }
  }

  /** The attempts are counted up at every close, and from zero once nothing waits or a receipt came. */
  lemma AttemptsAreCounted(c: Client, content: bool, bytes: Bytes, seed: Option<Bytes>)
    ensures !c.Terminal() ==> OnClose(c).retries == c.retries + 1
    ensures var d := OnWelcome(c, content, true, seed); d.retries == if d.pending == [] then 0 else c.retries
    ensures c.handshakeComplete ==> OnUpdate(c, bytes, true).retries == if IsReceipt(c, bytes) then 0 else c.retries
  {
  }

  /** The editor is let go of when the connection has ended for good. */
  lemma EndUnsubscribes(s: System, seed: Option<Bytes>)
    requires Inv(s)
    ensures !Next(s, StopCall, seed).c.subscribed
    ensures s.c.Terminal() && Enabled(s, SocketClosed, seed) ==> !Next(s, SocketClosed, seed).c.subscribed
  {
  }

  /** A relay that does not answer the hello is left for a new attempt; a late timer changes nothing else. */
  lemma SilentRelayIsLeft(s: System, seed: Option<Bytes>)
    requires Inv(s) && Enabled(s, WelcomeTimeout, seed)
    ensures var t := Next(s, WelcomeTimeout, seed);
            && (s.c.handshakeComplete || s.c.Terminal() ==> t.c == s.c.(welcomeArmed := false))
            && (!s.c.handshakeComplete && !s.c.Terminal() ==>
                t.c == s.c.(welcomeArmed := false, socket := if s.c.socket.Closed? then Closed else Closing))
  {
  }

  // ------------------------------------------------------------------ the end

  /** No update frame was handed to a socket, not even one that had been sent before. */
  predicate NothingSent(s: System, t: System) { t.onSocket == s.onSocket && t.wire == s.wire }

  lemma TerminalStep(s: System, e: Event, seed: Option<Bytes>)
    requires Inv(s) && s.c.Terminal() && Enabled(s, e, seed)
    ensures var t := Next(s, e, seed); t.c.Terminal() && t.sockets == s.sockets && NothingSent(s, t)
  {
    if IsClientEvent(e) { ControlAfter(s.c, e, seed); }
  }

  /** Closed and unsupported are absorbing: no socket is opened and no update is sent again. */
  lemma {:induction false} TerminalIsFinal(s: System, es: seq<Event>, seed: Option<Bytes>)
    requires Inv(s) && s.c.Terminal() && EnabledRun(s, es, seed)
    ensures var t := Run(s, es, seed); t.c.Terminal() && t.sockets == s.sockets && NothingSent(s, t)
  {
    if es != [] {
      TerminalIsFinal(s, es[..|es| - 1], seed);
      RunKeepsInv(s, es[..|es| - 1], seed);
      TerminalStep(Run(s, es[..|es| - 1], seed), es[|es| - 1], seed);
    }
  }

  // ------------------------------------------------------------------ never wedged

  lemma {:induction false} RunCons(s: System, e: Event, es: seq<Event>, seed: Option<Bytes>)
    requires Enabled(s, e, seed) && EnabledRun(Next(s, e, seed), es, seed)
    ensures EnabledRun(s, [e] + es, seed) && Run(s, [e] + es, seed) == Run(Next(s, e, seed), es, seed)
  {
    if es == [] {
      assert [e] + es == [] + [e];
      RunSnoc(s, [], e, seed);
    } else {
      var init, last := es[..|es| - 1], es[|es| - 1];
      assert es == init + [last] && [e] + es == [e] + init + [last];
      RunCons(s, e, init, seed);
      RunSnoc(Next(s, e, seed), init, last, seed);
      RunSnoc(s, [e] + init, last, seed);
    }
  }

  lemma RunSnoc(s: System, es: seq<Event>, e: Event, seed: Option<Bytes>)
    ensures EnabledRun(s, es + [e], seed) <==> EnabledRun(s, es, seed) && Enabled(Run(s, es, seed), e, seed)
    ensures Run(s, es + [e], seed) == Next(Run(s, es, seed), e, seed)
  {
    assert (es + [e])[..|es|] == es;
  }

  /** Open, handshaken, and if work is queued it is on the wire and its receipt awaited. */
  predicate Flowing(s: System) {
    && s.c.socket.Open? && s.c.handshakeComplete && !s.c.Terminal()
    && (s.c.pending != [] ==> s.c.awaitingReceipt && s.c.pending[0] in s.wire)
  }

  /** How many events a live connection is away from its handshake. */
  function Distance(c: Client): nat {
    if c.socket.Closing? then 3
    else if c.socket.Closed? then 2
    else if c.socket.Connecting? then 1
    else 0
  }

  function Helpful(c: Client): Event {
    if c.socket.Closing? then SocketClosed
    else if c.socket.Closed? then Reconnect
    else if c.socket.Connecting? then Opened(true)
    else Welcome(true, true)
  }

  predicate SameBatches(s: System, t: System) {
    t.produced == s.produced && t.receipted == s.receipted
  }

  lemma HelpfulStep(s: System, seed: Option<Bytes>)
    requires Inv(s) && !s.c.Terminal() && !(s.c.socket.Open? && s.c.handshakeComplete)
    ensures Enabled(s, Helpful(s.c), seed)
    ensures var t := Next(s, Helpful(s.c), seed);
            && SameBatches(s, t) && !t.c.Terminal()
            && if s.c.socket.Open? then Flowing(t)
               else Distance(t.c) < Distance(s.c) && !t.c.handshakeComplete
  {
    assert s.produced + [] == s.produced && s.receipted + [] == s.receipted;
  }

  /** A live connection can always get back to an open, handshaken socket. */
  lemma {:induction false} CanConnect(s: System, seed: Option<Bytes>) returns (es: seq<Event>)
    requires Inv(s) && !s.c.Terminal() && !(s.c.socket.Open? && s.c.handshakeComplete)
    ensures EnabledRun(s, es, seed) && Flowing(Run(s, es, seed)) && SameBatches(s, Run(s, es, seed))
    decreases Distance(s.c)
  {
    var e := Helpful(s.c);
    var t := Next(s, e, seed);
    HelpfulStep(s, seed);
    StepKeepsInv(s, e, seed);
    if s.c.socket.Open? {
      es := [];
    } else {
      es := CanConnect(t, seed);
    }
    RunCons(s, e, es, seed);
    es := [e] + es;
  }

  /** The relay persists the awaited batch and echoes it: one batch fewer is queued. */
  lemma DeliverStep(s: System, seed: Option<Bytes>)
    requires Inv(s) && Flowing(s) && s.c.pending != []
    ensures var b := s.c.pending[0];
            var t := Next(s, Persist(b), seed);
            && Enabled(s, Persist(b), seed) && Enabled(t, Update(b, true), seed)
            && var u := Next(t, Update(b, true), seed);
               Flowing(u) && u.produced == s.produced && u.c.pending == s.c.pending[1..]
  {
    var b := s.c.pending[0];
    var t := Next(s, Persist(b), seed);
    assert b in t.log;
    assert s.produced + [] == s.produced;
  }

  lemma {:induction false} CanFlush(s: System, seed: Option<Bytes>) returns (es: seq<Event>)
    requires Inv(s) && Flowing(s)
    ensures EnabledRun(s, es, seed)
    ensures var t := Run(s, es, seed); Inv(t) && t.c.pending == [] && t.produced == s.produced && Flowing(t)
    decreases |s.c.pending|
  {
    es := [];
    if s.c.pending != [] {
      var b := s.c.pending[0];
      var t := Next(s, Persist(b), seed);
      var u := Next(t, Update(b, true), seed);
      DeliverStep(s, seed);
      StepKeepsInv(s, Persist(b), seed);
      StepKeepsInv(t, Update(b, true), seed);
      es := CanFlush(u, seed);
      RunCons(t, Update(b, true), es, seed);
      RunCons(s, Persist(b), [Update(b, true)] + es, seed);
      es := [Persist(b)] + ([Update(b, true)] + es);
    }
  }

  lemma {:induction false} RunConcat(s: System, es: seq<Event>, fs: seq<Event>, seed: Option<Bytes>)
    requires EnabledRun(s, es, seed) && EnabledRun(Run(s, es, seed), fs, seed)
    ensures EnabledRun(s, es + fs, seed) && Run(s, es + fs, seed) == Run(Run(s, es, seed), fs, seed)
  {
    if fs == [] {
      assert es + fs == es;
    } else {
      var init, last := fs[..|fs| - 1], fs[|fs| - 1];
      assert fs == init + [last] && es + fs == es + init + [last];
      RunConcat(s, es, init, seed);
      RunSnoc(Run(s, es, seed), init, last, seed);
      RunSnoc(s, es + init, last, seed);
    }
  }

  /**
    The protocol is never wedged: from every reachable live state some continuation delivers
    everything queued, whatever was lost, delayed or dropped before.
   */
  lemma CanDrain(es: seq<Event>, seed: Option<Bytes>) returns (more: seq<Event>)
    requires EnabledRun(Initial, es, seed) && !Run(Initial, es, seed).c.Terminal()
    ensures EnabledRun(Initial, es + more, seed)
    ensures var s, t := Run(Initial, es, seed), Run(Initial, es + more, seed);
            t.c.pending == [] && t.produced == s.produced == t.receipted && forall b <- s.produced :: b in t.log
  {
    Reachable(es, seed);
    var s := Run(Initial, es, seed);
    more := [];
    if !(s.c.socket.Open? && s.c.handshakeComplete) {
      more := CanConnect(s, seed);
      RunKeepsInv(s, more, seed);
    }
    var mid := Run(s, more, seed);
    var rest := CanFlush(mid, seed);
    RunConcat(s, more, rest, seed);
    RunConcat(Initial, es, more + rest, seed);
    more := more + rest;
    var t := Run(Initial, es + more, seed);
    assert t.receipted + [] == t.receipted;
    NothingIsLost(es + more, seed);
  }
}
