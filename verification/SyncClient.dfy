/**
  The sync client (`connectSync` in web/src/sync.ts).

  The closure variables of the source are the fields of `SyncConnection`, and every event
  handler is a method. `Client` is the value of those fields; the functions on it say what
  each handler does, so that whole runs can be reasoned about in SyncProtocol.dfy.

  Wall clocks and back-off delays are left to the environment: a timer may fire whenever
  it is armed. Importing bytes into the replica is foreign code that may throw, so handlers
  that import take the outcome as a parameter.
 */
module SyncClient {
  import opened Wrappers
  import opened Binary

  datatype Socket = NoSocket | Connecting | Open | Closing | Closed

  datatype Client = Client(
    socket: Socket,
    closed: bool,
    unsupported: bool,
    subscribed: bool,
    reconnectArmed: bool,
    welcomeArmed: bool,
    handshakeComplete: bool,
    firstHandshake: bool,
    retries: nat,
    pending: seq<Bytes>,
    awaitingReceipt: bool)
  {
    predicate Terminal() { closed || unsupported }
  }

  const Fresh: Client :=
    Client(NoSocket, false, false, false, false, false, false, true, 0, [], false)

  /** What a handler did besides changing the fields. */
  datatype Effects = Effects(
    sent: seq<Bytes>,       // update frames handed to the socket
    produced: seq<Bytes>,   // batches that entered the queue
    receipted: seq<Bytes>,  // batches that left the queue
    ready: nat,             // calls of onReady
    seeded: nat,            // seeds of an empty relay
    sockets: nat)           // sockets created

  const Nothing: Effects := Effects([], [], [], 0, 0, 0)

  /** `socket?.close()`. */
  function CloseSocket(c: Client): Client {
    if c.socket.Connecting? || c.socket.Open? then c.(socket := Closing) else c
  }

  predicate CanSend(c: Client) {
    c.handshakeComplete && !c.awaitingReceipt && c.pending != [] && c.socket.Open?
  }

  /** `sendNext`: the head of the queue goes out only when nothing awaits a receipt. */
  function SendNext(c: Client): Client {
    if CanSend(c) then c.(awaitingReceipt := true) else c
  }

  function NextSent(c: Client): seq<Bytes> {
    if CanSend(c) then [c.pending[0]] else []
  }

  /** `sendUpdate`. */
  function Enqueue(c: Client, bytes: Bytes): Client {
    if bytes == [] then c else SendNext(c.(pending := c.pending + [bytes]))
  }

  function EnqueueEffects(c: Client, bytes: Bytes): Effects {
    if bytes == [] then Nothing
    else Nothing.(sent := NextSent(c.(pending := c.pending + [bytes])), produced := [bytes])
  }

  /** `teardownSocket`; the subscription is kept across reconnects and dropped for good at the end. */
  function Teardown(c: Client): Client {
    c.(welcomeArmed := false, awaitingReceipt := false, handshakeComplete := false,
       subscribed := c.subscribed && !c.Terminal())
  }

  /** The catch block of the message handler. */
  function Fail(c: Client): Client {
    CloseSocket(Teardown(c.(unsupported := true)))
  }

  /** `connect`. */
  function Connect(c: Client): Client {
    if c.Terminal() then c else c.(socket := Connecting)
  }

  /** The open event; `helloOk` says whether the hello frame could be encoded and sent. */
  function OnOpen(c: Client, helloOk: bool): Client {
    var o := c.(socket := Open);
    if c.Terminal() then CloseSocket(o)
    else if helloOk then o.(welcomeArmed := true)
    else CloseSocket(o.(unsupported := true))
  }

  function OnWelcomeTimeout(c: Client): Client {
    if c.Terminal() || c.handshakeComplete then c.(welcomeArmed := false)
    else CloseSocket(c.(welcomeArmed := false))
  }

  function SettleRetries(c: Client): Client {
    if c.pending == [] then c.(retries := 0) else c
  }

  function Shaken(c: Client): Client {
    c.(firstHandshake := false, handshakeComplete := true, welcomeArmed := false)
  }

  /** The first welcome of all, once merged: seed an empty relay, subscribe, attach the editor. */
  function Begin(c: Client, content: bool, seed: Option<Bytes>): Client {
    if !content && seed.Some? then Enqueue(c, seed.value).(subscribed := true) else c.(subscribed := true)
  }

  function BeginEffects(c: Client, content: bool, seed: Option<Bytes>): Effects {
    if !content && seed.Some? then EnqueueEffects(c, seed.value).(ready := 1, seeded := 1)
    else Nothing.(ready := 1)
  }

  /**
    A welcome frame. The very first one gives the replica its origin: the relay's content,
    or the stored body if the relay has none. Every later one only merges and resumes.
   */
  function OnWelcome(c: Client, content: bool, importOk: bool, seed: Option<Bytes>): Client {
    if content && !importOk then Fail(Shaken(c))
    else if c.firstHandshake then SettleRetries(Begin(Shaken(c), content, seed))
    else SettleRetries(SendNext(Shaken(c)))
  }

  function WelcomeEffects(c: Client, content: bool, importOk: bool, seed: Option<Bytes>): Effects {
    if content && !importOk then Nothing
    else if c.firstHandshake then BeginEffects(Shaken(c), content, seed)
    else Nothing.(sent := NextSent(Shaken(c)))
  }

  /** The bytes are the receipt the client is waiting for. */
  predicate IsReceipt(c: Client, bytes: Bytes) {
    c.awaitingReceipt && c.pending != [] && c.pending[0] == bytes
  }

  function Received(c: Client): Client
    requires c.pending != []
  {
    c.(pending := c.pending[1..], retries := 0, awaitingReceipt := false)
  }

  /** An update frame: merged first, then compared with the batch that awaits its receipt. */
  function OnUpdate(c: Client, bytes: Bytes, importOk: bool): Client {
    if !c.handshakeComplete || !importOk then Fail(c)
    else if IsReceipt(c, bytes) then SendNext(Received(c))
    else c
  }

  function UpdateEffects(c: Client, bytes: Bytes, importOk: bool): Effects {
    if !c.handshakeComplete || !importOk || !IsReceipt(c, bytes) then Nothing
    else Nothing.(sent := NextSent(Received(c)), receipted := [bytes])
  }

  /** A snapshot frame is merged and is never a receipt. */
  function OnSnapshot(c: Client, importOk: bool): Client {
    if !c.handshakeComplete || !importOk then Fail(c) else c
  }

  /** An error frame: limits, eviction and relay failures are retried, the rest is final. */
  function OnError(c: Client, code: nat): Client {
    if code == 4029 || code == 4091 || code == 4500 then CloseSocket(c) else Fail(c)
  }

  function OnClose(c: Client): Client {
    var t := Teardown(c.(socket := Closed));
    if t.Terminal() then t else t.(reconnectArmed := true, retries := t.retries + 1)
  }

  function OnReconnectTimer(c: Client): Client {
    Connect(c.(reconnectArmed := false))
  }

  function ReconnectEffects(c: Client): Effects {
    Nothing.(sockets := if c.Terminal() then 0 else 1)
  }

  /** The caller's `close`. */
  function Stop(c: Client): Client {
    CloseSocket(Teardown(c.(closed := true, reconnectArmed := false)))
  }

  // ------------------------------------------------------------------ the stateful client

  class SyncConnection {
    var socket: Socket
    var closed: bool
    var unsupported: bool
    var subscribed: bool
    var reconnectArmed: bool
    var welcomeArmed: bool
    var handshakeComplete: bool
    var firstHandshake: bool
    var retries: nat
    var pending: seq<Bytes>
    var awaitingReceipt: bool

    ghost function Now(): Client
      reads this
    {
      Client(socket, closed, unsupported, subscribed, reconnectArmed, welcomeArmed,
             handshakeComplete, firstHandshake, retries, pending, awaitingReceipt)
    }

    /** `connectSync` starts by connecting. */
    constructor ()
      ensures Now() == Connect(Fresh)
    {
      socket, closed, unsupported, subscribed := Connecting, false, false, false;
      reconnectArmed, welcomeArmed := false, false;
      handshakeComplete, firstHandshake, retries := false, true, 0;
      pending, awaitingReceipt := [], false;
    }

    method Shut()
      modifies this
      ensures Now() == CloseSocket(old(Now()))
    {
      if socket.Connecting? || socket.Open? {
        socket := Closing;
      }
    }

    method SendPending() returns (sent: seq<Bytes>)
      modifies this
      ensures Now() == SendNext(old(Now())) && sent == NextSent(old(Now()))
    {
      sent := [];
      if !handshakeComplete || awaitingReceipt || pending == [] || !socket.Open? {
        return;
      }
      awaitingReceipt := true;
      sent := [pending[0]];
    }

    method SendUpdate(bytes: Bytes) returns (f: Effects)
      modifies this
      ensures Now() == Enqueue(old(Now()), bytes) && f == EnqueueEffects(old(Now()), bytes)
    {
      f := Nothing;
      if bytes == [] {
        return;
      }
      pending := pending + [bytes];
      f := f.(produced := [bytes]);
      var sent := SendPending();
      f := f.(sent := sent);
    }

    method TeardownSocket()
      modifies this
      ensures Now() == Teardown(old(Now()))
    {
      welcomeArmed := false;
      if closed || unsupported {
        subscribed := false;
      }
      awaitingReceipt := false;
      handshakeComplete := false;
    }

    method Abort()
      modifies this
      ensures Now() == Fail(old(Now()))
    {
      unsupported := true;
      TeardownSocket();
      Shut();
    }

    method HandleOpen(helloOk: bool)
      modifies this
      ensures Now() == OnOpen(old(Now()), helloOk)
    {
      socket := Open;
      if closed || unsupported {
        Shut();
      } else if helloOk {
        welcomeArmed := true;
      } else {
        unsupported := true;
        Shut();
      }
    }

    method HandleWelcomeTimeout()
      modifies this
      ensures Now() == OnWelcomeTimeout(old(Now()))
    {
      welcomeArmed := false;
      if closed || unsupported || handshakeComplete {
        return;
      }
      Shut();
    }

    method BeginSession(content: bool, seed: Option<Bytes>) returns (f: Effects)
      modifies this
      ensures Now() == Begin(old(Now()), content, seed) && f == BeginEffects(old(Now()), content, seed)
    {
      f := Nothing;
      if !content && seed.Some? {
        f := SendUpdate(seed.value);
        f := f.(seeded := 1);
      }
      subscribed := true;
      f := f.(ready := 1);
    }

    method HandleWelcome(content: bool, importOk: bool, seed: Option<Bytes>) returns (f: Effects)
      modifies this
      ensures Now() == OnWelcome(old(Now()), content, importOk, seed)
      ensures f == WelcomeEffects(old(Now()), content, importOk, seed)
    {
      f := Nothing;
      var first := firstHandshake;
      firstHandshake, handshakeComplete, welcomeArmed := false, true, false;
      assert Now() == Shaken(old(Now()));
      if content && !importOk {
        Abort();
        return;
      }
      if first {
        f := BeginSession(content, seed);
      } else {
        var sent := SendPending();
        f := f.(sent := sent);
      }
      if pending == [] {
        retries := 0;
      }
    }

    method HandleUpdate(bytes: Bytes, importOk: bool) returns (f: Effects)
      modifies this
      ensures Now() == OnUpdate(old(Now()), bytes, importOk)
      ensures f == UpdateEffects(old(Now()), bytes, importOk)
    {
      f := Nothing;
      if !handshakeComplete || !importOk {
        Abort();
        return;
      }
      if awaitingReceipt && pending != [] && pending[0] == bytes {
        f := f.(receipted := [pending[0]]);
        pending := pending[1..];
        retries := 0;
        awaitingReceipt := false;
        var sent := SendPending();
        f := f.(sent := sent);
      }
    }

    method HandleSnapshot(importOk: bool)
      modifies this
      ensures Now() == OnSnapshot(old(Now()), importOk)
    {
      if !handshakeComplete || !importOk {
        Abort();
      }
    }

    method HandleError(code: nat)
      modifies this
      ensures Now() == OnError(old(Now()), code)
    {
      if code == 4029 || code == 4091 || code == 4500 {
        Shut();
      } else {
        Abort();
      }
    }

    method HandleClose()
      modifies this
      ensures Now() == OnClose(old(Now()))
    {
      socket := Closed;
      TeardownSocket();
      if closed || unsupported {
        return;
      }
      reconnectArmed := true;
      retries := retries + 1;
    }

    method HandleReconnectTimer() returns (f: Effects)
      modifies this
      ensures Now() == OnReconnectTimer(old(Now())) && f == ReconnectEffects(old(Now()))
    {
      f := Nothing;
      reconnectArmed := false;
      if closed || unsupported {
        return;
      }
      socket := Connecting;
      f := f.(sockets := 1);
    }

    method Close()
      modifies this
      ensures Now() == Stop(old(Now()))
    {
      closed := true;
      reconnectArmed := false;
      TeardownSocket();
      Shut();
    }
  }
}
