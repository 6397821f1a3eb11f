/** The relay's pending-session handshake (relay::PendingSession).

    A pending session wraps one accepted connection. It arms a handshake
    timer, reads a 4-byte big-endian length prefix, checks it against the
    capacity of its receive buffer, reads that many body bytes and hands the
    buffer to the message parser. It tells its owner (the delegate) "failed"
    or "ready"; stop() clears the delegate so that completions arriving
    later do nothing.

    asio completions and the timer are modelled as methods a caller invokes
    (OnLengthRead, OnBodyRead, OnTimeout); the delegate calls are recorded in
    the ghost log `calls`. */
module Relay {
  import opened Optional
  import opened Endian

  /** The connection as the session sees it. A moved-from asio socket is not
      open, just like a closed one. */
  datatype SocketState = Open(handle: nat) | NotOpen

  /** How an asio async_read completes. */
  datatype ReadOutcome =
    | Transferred(data: seq<byte>)
    | OperationAborted
    | ReadFailed(code: nat)

  /** The parsed handshake message; only the fields the relay matches on. */
  datatype PeerToRelay = PeerToRelay(keyId: uint32, secret: seq<byte>)

  /** A call on PendingSession::Delegate. */
  datatype DelegateCall = SessionFailed | SessionReady(message: PeerToRelay)

  /** Which read, if any, the session has in flight. */
  datatype Stage = NotStarted | ReadingLength | ReadingBody | ReadsDone

  /** The session's real (non-ghost) fields, as one value. */
  datatype Fields = Fields(
    hasDelegate: bool,
    timerArmed: bool,
    socket: SocketState,
    bufferSize: uint32,
    keyId: uint32,
    secret: seq<byte>)

  /** The identity a session presents for matching. */
  datatype Identity = Identity(keyId: uint32, secret: seq<byte>)

  /** Reference definition of "peers": the same identity, with a secret that
      is not empty. */
  predicate Peers(a: Identity, b: Identity)
  {
    a == b && a.secret != []
  }

  /** A declared body length the session accepts: neither zero nor larger
      than the receive buffer. */
  predicate LengthAccepted(declared: uint32, capacity: nat)
  {
    declared != 0 && declared as int <= capacity
  }

  /** The effect of stop() on the fields: the first call clears the
      delegate, stops the timer and cancels and closes the socket; when the
      delegate is already cleared nothing changes. */
  function Stopped(f: Fields): (g: Fields)
    ensures !g.hasDelegate
    ensures f.hasDelegate ==> !g.timerArmed && g.socket == NotOpen
    ensures !f.hasDelegate ==> g == f
    ensures g.bufferSize == f.bufferSize && g.keyId == f.keyId && g.secret == f.secret
  {
    if !f.hasDelegate then f
    else f.(hasDelegate := false, timerArmed := false, socket := NotOpen)
  }

  /** stop() is idempotent. */
  lemma StopIdempotent(f: Fields)
    ensures Stopped(Stopped(f)) == Stopped(f)
  {
  }

  /** What onErrorOccurred tells the delegate: "failed", if it is still set. */
  function FailureNotice(hasDelegate: bool): seq<DelegateCall>
  {
    if hasDelegate then [SessionFailed] else []
  }

  /** What onMessage tells the delegate after a successful parse. */
  function ReadyNotice(hasDelegate: bool, m: PeerToRelay): seq<DelegateCall>
  {
    if hasDelegate then [SessionReady(m)] else []
  }

  /** The shapes the delegate log can take: nothing, one call, or "ready"
      followed by "failed" (the handshake timer is not cancelled when the
      session becomes ready). */
  ghost predicate WellFormedLog(log: seq<DelegateCall>)
  {
    |log| <= 1 || (|log| == 2 && log[0].SessionReady? && log[1] == SessionFailed)
  }

  function FailedCount(log: seq<DelegateCall>): nat
  {
    if log == [] then 0 else (if log[0] == SessionFailed then 1 else 0) + FailedCount(log[1..])
  }

  function ReadyCount(log: seq<DelegateCall>): nat
  {
    if log == [] then 0 else (if log[0].SessionReady? then 1 else 0) + ReadyCount(log[1..])
  }

  /** Each of "failed" and "ready" is delivered at most once, nothing follows
      "failed", and "ready" is never delivered after "failed". */
  lemma {:induction false} LogDeliversAtMostOnce(log: seq<DelegateCall>)
    requires WellFormedLog(log)
    ensures FailedCount(log) <= 1 && ReadyCount(log) <= 1
    ensures SessionFailed in log ==> log[|log| - 1] == SessionFailed
    ensures forall i, j | 0 <= i < j < |log| :: log[j].SessionReady? ==> !(log[i] == SessionFailed)
  {
    if |log| == 2 {
      var tail := log[1..];
      assert tail == [SessionFailed] && tail[1..] == [];
      assert FailedCount(tail) == 1 && ReadyCount(tail) == 0;
      assert FailedCount(log) == 1 && ReadyCount(log) == 1;
    } else if |log| == 1 {
      assert log[1..] == [];
    }
  }

  /** In a well-formed log "ready" can only be the first call. */
  ghost predicate ReadyDelivered(log: seq<DelegateCall>)
  {
    log != [] && log[0].SessionReady?
  }

  class PendingSession {
    /** buffer_.size(): the receive buffer's fixed capacity. */
    const capacity: nat
    const buffer: array<byte>

    var hasDelegate: bool       // delegate_ != nullptr
    var timerArmed: bool        // timer_ started and neither fired nor stopped
    var socket: SocketState
    var bufferSize: uint32      // the declared body length
    var keyId: uint32
    var secret: seq<byte>

    ghost var stage: Stage
    /** Every call made on the delegate, in order. */
    ghost var calls: seq<DelegateCall>
    /** The bytes last handed to the message parser. */
    ghost var parsedInput: seq<byte>

    function State(): Fields
      reads this
    {
      Fields(hasDelegate, timerArmed, socket, bufferSize, keyId, secret)
    }

    ghost predicate Valid()
      reads this
    {
      && buffer.Length == capacity
      && WellFormedLog(calls)
      // "failed" is followed by stop(), so while the delegate is set it has not been sent
      && (hasDelegate ==> calls == [] || (|calls| == 1 && calls[0].SessionReady?))
      // "ready" is sent only once the body has been read
      && (ReadyDelivered(calls) ==> stage == ReadsDone)
      && (stage == ReadingBody ==> LengthAccepted(bufferSize, capacity))
    }

    /** A session over an accepted socket; `delegate` says whether the
        owner passed a non-null delegate. */
    constructor (socket: SocketState, delegate: bool, capacity: nat)
      ensures Valid() && fresh(buffer)
      ensures this.capacity == capacity
      ensures State() == Fields(delegate, false, socket, 0, 0, [])
      ensures stage == NotStarted && calls == [] && parsedInput == []
    {
      this.capacity := capacity;
      buffer := new byte[capacity];
      hasDelegate := delegate;
      timerArmed := false;
      this.socket := socket;
      bufferSize := 0;
      keyId := 0;
      secret := [];
      stage := NotStarted;
      calls := [];
      parsedInput := [];
    }

    /** start(): arm the handshake timer and issue the length read. */
    method Start()
      requires Valid() && stage == NotStarted
      modifies this
      ensures Valid()
      ensures State() == old(State()).(timerArmed := true)
      ensures stage == ReadingLength
      ensures calls == old(calls) && parsedInput == old(parsedInput)
    {
      timerArmed := true;
      stage := ReadingLength;
    }

    /** stop(): on the first call clear the delegate, stop the timer and
        cancel and close the socket; afterwards return at once. */
    method Stop()
      modifies this
      ensures State() == Stopped(old(State()))
      ensures stage == old(stage) && calls == old(calls) && parsedInput == old(parsedInput)
      ensures old(Valid()) ==> Valid()
    {
      if !hasDelegate {
        return;
      }
      hasDelegate := false;
      timerArmed := false;
      socket := NotOpen;
    }

    /** setIdentify(): overwrite the identity used for matching. */
    method SetIdentify(newKeyId: uint32, newSecret: seq<byte>)
      modifies this`keyId, this`secret
      ensures State() == old(State()).(keyId := newKeyId, secret := newSecret)
      ensures old(Valid()) ==> Valid()
    {
      secret := newSecret;
      keyId := newKeyId;
    }

    /** isPeerFor(): false when either secret is empty, otherwise equal key
        ids and equal secrets. */
    function IsPeerFor(other: PendingSession): (r: bool)
      reads this, other
      ensures r <==> Peers(Identity(keyId, secret), Identity(other.keyId, other.secret))
    {
      if |secret| == 0 || |other.secret| == 0 then false
      else keyId == other.keyId && secret == other.secret
    }

    /** takeSocket(): move the socket out; the session is left without an
        open socket. */
    method TakeSocket() returns (s: SocketState)
      modifies this`socket
      ensures s == old(socket)
      ensures State() == old(State()).(socket := NotOpen)
      ensures old(Valid()) ==> Valid()
    {
      s := socket;
      socket := NotOpen;
    }

    /** onErrorOccurred(): tell the delegate "failed" if it is still set,
        then stop(). */
    method OnErrorOccurred()
      requires Valid()
      modifies this
      ensures Valid()
      ensures calls == old(calls) + FailureNotice(old(hasDelegate))
      ensures State() == Stopped(old(State()))
      ensures stage == old(stage) && parsedInput == old(parsedInput)
    {
      if hasDelegate {
        calls := calls + [SessionFailed];
      }
      Stop();
    }

    /** The handshake timer fires (it is one-shot): the error path. */
    method OnTimeout()
      requires Valid() && timerArmed
      modifies this
      ensures Valid()
      ensures calls == old(calls) + FailureNotice(old(hasDelegate))
      ensures State() == Stopped(old(State()).(timerArmed := false))
      ensures stage == old(stage) && parsedInput == old(parsedInput)
    {
      timerArmed := false;
      OnErrorOccurred();
    }

    /** Completion of the 4-byte length read issued by doReadMessage. An
        aborted read returns silently; another error, or a declared length
        of zero or above the capacity, takes the error path; otherwise the
        body read is issued. */
    method OnLengthRead(outcome: ReadOutcome)
      requires Valid() && stage == ReadingLength
      requires outcome.Transferred? ==> |outcome.data| == 4
      modifies this
      ensures Valid()
      ensures parsedInput == old(parsedInput)
      ensures outcome.OperationAborted? ==>
        State() == old(State()) && calls == old(calls) && stage == ReadsDone
      ensures outcome.ReadFailed? ==>
        && State() == Stopped(old(State()))
        && calls == old(calls) + FailureNotice(old(hasDelegate))
        && stage == ReadsDone
      ensures outcome.Transferred? ==>
        var n := FromBigEndian32(outcome.data);
        if LengthAccepted(n, capacity) then
          State() == old(State()).(bufferSize := n) && calls == old(calls) && stage == ReadingBody
        else
          && State() == Stopped(old(State()).(bufferSize := n))
          && calls == old(calls) + FailureNotice(old(hasDelegate))
          && stage == ReadsDone
    {
      stage := ReadsDone;
      match outcome {
        case OperationAborted =>
          return;
        case ReadFailed(_) =>
          OnErrorOccurred();
          return;
        case Transferred(data) =>
          bufferSize := FromBigEndian32(data);
          if bufferSize == 0 || bufferSize as int > buffer.Length {
            OnErrorOccurred();
            return;
          }
          stage := ReadingBody;
      }
    }

    /** Completion of the body read of bufferSize bytes into the front of
        the buffer. An aborted read returns silently, another error takes the
        error path, a complete read goes on to onMessage. */
    method OnBodyRead(outcome: ReadOutcome, parse: seq<byte> -> Option<PeerToRelay>)
      requires Valid() && stage == ReadingBody
      requires outcome.Transferred? ==> |outcome.data| == bufferSize as int
      modifies this, buffer
      ensures Valid() && stage == ReadsDone
      ensures !outcome.Transferred? ==>
        buffer[..] == old(buffer[..]) && parsedInput == old(parsedInput)
      ensures outcome.OperationAborted? ==> State() == old(State()) && calls == old(calls)
      ensures outcome.ReadFailed? ==>
        State() == Stopped(old(State())) && calls == old(calls) + FailureNotice(old(hasDelegate))
      ensures outcome.Transferred? ==>
        && buffer[..] == outcome.data + old(buffer[bufferSize as int..])
        && parsedInput == buffer[..]
        && match parse(buffer[..])
           case None =>
             State() == Stopped(old(State())) && calls == old(calls) + FailureNotice(old(hasDelegate))
           case Some(m) =>
             State() == old(State()) && calls == old(calls) + ReadyNotice(old(hasDelegate), m)
    {
      stage := ReadsDone;
      match outcome {
        case OperationAborted =>
          return;
        case ReadFailed(_) =>
          OnErrorOccurred();
          return;
        case Transferred(data) =>
          forall i | 0 <= i < |data| {
            buffer[i] := data[i];
          }
          assert buffer[..] == data + old(buffer[bufferSize as int..]);
          OnMessage(parse);
      }
    }

    /** onMessage(): parse the WHOLE buffer (capacity bytes, not only the
        declared length); on failure take the error path, on success tell the
        delegate "ready" if it is still set. */
    method OnMessage(parse: seq<byte> -> Option<PeerToRelay>)
      requires Valid() && stage == ReadsDone
      requires !ReadyDelivered(calls)
      modifies this
      ensures Valid() && stage == old(stage)
      ensures parsedInput == buffer[..] && |parsedInput| == capacity
      ensures parse(buffer[..]).None? ==>
        State() == Stopped(old(State())) && calls == old(calls) + FailureNotice(old(hasDelegate))
      ensures parse(buffer[..]).Some? ==>
        State() == old(State()) && calls == old(calls) + ReadyNotice(old(hasDelegate), parse(buffer[..]).value)
    {
      parsedInput := buffer[..];
      var message := parse(buffer[..]);
      if message.None? {
        OnErrorOccurred();
        return;
      }
      if hasDelegate {
        calls := calls + [SessionReady(message.value)];
      }
    }
  }

  /** isPeerFor is symmetric. */
  lemma PeerForSymmetric(a: PendingSession, b: PendingSession)
    ensures a.IsPeerFor(b) == b.IsPeerFor(a)
  {
  }

  /** A session with an empty secret is nobody's peer, not even its own or
      another empty one's. */
  lemma EmptySecretNeverPeer(a: PendingSession, b: PendingSession)
    requires a.secret == [] || b.secret == []
    ensures !a.IsPeerFor(b) && !b.IsPeerFor(a)
  {
  }

  /** A session that became ready but was not matched still receives
      "failed" when the handshake timer fires. */
  method ReadyThenTimeout(m: PeerToRelay)
  {
    var s := new PendingSession(Open(7), true, 64);
    s.Start();
    DecodeEncode(5);
    s.OnLengthRead(Transferred(ToBigEndian32(5)));
    assert s.stage == ReadingBody;
    s.OnBodyRead(Transferred([1, 2, 3, 4, 5]), (b: seq<byte>) => Some(m));
    assert s.calls == [SessionReady(m)];
    assert s.timerArmed;
    s.OnTimeout();
    assert s.calls == [SessionReady(m), SessionFailed];
    assert s.socket == NotOpen && !s.hasDelegate;
  }

  /** A declared length of zero fails the session and issues no body read;
      a second error after stop() changes nothing. */
  method ZeroLengthFails()
  {
    var s := new PendingSession(Open(3), true, 64);
    s.Start();
    DecodeEncode(0);
    s.OnLengthRead(Transferred(ToBigEndian32(0)));
    assert s.calls == [SessionFailed] && s.stage == ReadsDone;
    assert !s.hasDelegate && !s.timerArmed && s.socket == NotOpen;
    s.OnErrorOccurred();
    assert s.calls == [SessionFailed];
  }
}
