/**
  The P2PChat NetworkCom: dispatch of received frames to the UI callbacks, the per-connection
  receive loop with its cleanup, and the guards of sendMessage, connectPeer and stopListening.

  The UI callbacks a handler makes are an event trace. A connection's incoming side is a
  Transport inbox. The socket calls (send, connect, close) become outcomes: the frame that would
  be sent, the status connect returned, the set of sockets that would be closed.
*/
module Netlib {
  import opened Outcome
  import opened Wire
  import opened Transport
  import opened SocketRegistry
  import opened Peers

  /** The UiCallbacks calls, in the order they are made. */
  datatype Event =
    | BindSucceeded
    | AuthReceived(peer: string)
    | TextReceived(peer: string, text: string)
    | ImageReceived(peer: string, image: seq<byte>)
    | PeerDisconnected(peer: string)

  /** The addNewSocket a handler uses: the one written, or the one that drops stale entries. */
  datatype Version = AsWritten | Corrected

  function Add(v: Version, r: Registry, name: string, sock: int): (r': Registry)
    ensures GetClientSocket(r', name) == sock && GetSocketName(r', sock) == name
  {
    match v
    case AsWritten => AddNewSocket(r, name, sock)
    case Corrected => Register(r, name, sock)
  }

  /** A callback a frame can produce; only the cleanup reports a disconnect. */
  predicate IsDelivery(e: Event) {
    e.AuthReceived? || e.TextReceived? || e.ImageReceived?
  }

  predicate AllDeliveries(events: seq<Event>) {
    forall i :: 0 <= i < |events| ==> IsDelivery(events[i])
  }

  // ---------------------------------------------------------------------------------------------
  // deserializeHandleMessage
  // ---------------------------------------------------------------------------------------------

  /**
    deserializeHandleMessage: the socket's name is resolved first; an AUTH frame registers its
    name for the socket and then reports it; TEXT and IMAGE report the name resolved before; a
    frame of unknown type does nothing.
  */
  function Dispatch(v: Version, reg: Registry, sock: int, header: Header, body: seq<byte>)
    : (out: (Registry, seq<Event>))
    ensures AllDeliveries(out.1) && |out.1| <= 1
    ensures header.kind == Some(Auth) ==>
      var name := DecodeBody(Auth, body).name;
      out.1 == [AuthReceived(name)] && GetClientSocket(out.0, name) == sock && GetSocketName(out.0, sock) == name
    ensures header.kind != Some(Auth) ==> out.0 == reg
    ensures header.kind == Some(Text) ==> out.1 == [TextReceived(GetSocketName(reg, sock), DecodeBody(Text, body).text)]
    ensures header.kind == Some(Image) ==> out.1 == [ImageReceived(GetSocketName(reg, sock), body)]
    ensures header.kind == None ==> out.1 == []
  {
    var socketName := GetSocketName(reg, sock);
    match header.kind
    case None => (reg, [])
    case Some(Auth) =>
      var name := DecodeBody(Auth, body).name;
      (Add(v, reg, name, sock), [AuthReceived(name)])
    case Some(Text) => (reg, [TextReceived(socketName, DecodeBody(Text, body).text)])
    case Some(Image) => (reg, [ImageReceived(socketName, DecodeBody(Image, body).image)])
  }

  /** What the UI should see for one message sent by the peer on socket `sock`. */
  function Deliver(v: Version, reg: Registry, sock: int, m: Message): (Registry, seq<Event>)
  {
    match m
    case AuthMessage(name) => (Add(v, reg, name, sock), [AuthReceived(name)])
    case TextMessage(text) => (reg, [TextReceived(GetSocketName(reg, sock), text)])
    case ImageMessage(image) => (reg, [ImageReceived(GetSocketName(reg, sock), image)])
    case Untyped => (reg, [])
  }

  function DeliverAll(v: Version, reg: Registry, sock: int, msgs: seq<Message>): (Registry, seq<Event>)
    decreases |msgs|
  {
    if |msgs| == 0 then (reg, [])
    else
      var first := Deliver(v, reg, sock, msgs[0]);
      var more := DeliverAll(v, first.0, sock, msgs[1..]);
      (more.0, first.1 + more.1)
  }

  /** Dispatching a frame the sender built gives the callbacks its message calls for. */
  lemma DispatchFrame(v: Version, reg: Registry, sock: int, m: Message)
    requires Fits(m) && !m.Untyped?
    ensures var f := SerializeMessage(m).value;
      Dispatch(v, reg, sock, DecodeHeader(f[..HeaderLen]), f[HeaderLen..]) == Deliver(v, reg, sock, m)
  {
    FrameRoundTrip(m);
  }

  // ---------------------------------------------------------------------------------------------
  // handleConnections as written
  // ---------------------------------------------------------------------------------------------

  /** How a receive loop ended: the registry, the callbacks made, and whether the thread threw. */
  datatype LoopEnd = LoopEnd(reg: Registry, events: seq<Event>, terminated: bool)

  /**
    The while loop of handleConnections. The header is one recv of at most 8 bytes into a fresh
    buffer (a short read leaves the rest of it as allocated), the body loop fills a second fresh
    buffer, and the frame is dispatched even when the body loop stopped early, after which the
    loop ends. `k` counts the frames read so far: frame k's buffers are allocations 2k and 2k + 1.

    A decoded length below 8 makes `msgHeader.length - headerSize` wrap around in size_t to at
    least 2^64 - 2^31 - 8, more than `new uint8_t[...]` can ever provide: the exception leaves
    the thread and std::terminate ends the process, with no dispatch and no cleanup.
  */
  function ReadLoop(reg: Registry, sock: int, inbox: seq<Segment>, junk: Junk, k: nat): (out: LoopEnd)
    ensures AllDeliveries(out.events)
    decreases Measure(inbox)
  {
    var (got, next) := Recv(inbox, HeaderLen);
    match got
    case Got(h) =>
      var header := DecodeHeader(Filled(Fresh(junk, 2 * k, HeaderLen), h));
      if header.length < HeaderLen then LoopEnd(reg, [], true)
      else
        var size := BodySize(header);
        var body := ReadUpTo(next, size);
        var first := Dispatch(AsWritten, reg, sock, header, Filled(Fresh(junk, 2 * k + 1, size), body.received));
        if body.complete then
          var more := ReadLoop(first.0, sock, body.rest, junk, k + 1);
          LoopEnd(more.reg, first.1 + more.events, more.terminated)
        else
          LoopEnd(first.0, first.1, false)
    case PeerClosed => LoopEnd(reg, [], false)
    case RecvError => LoopEnd(reg, [], false)
  }

  /**
    The cleanup after the loop: the socket's name is resolved, removed from the registry and
    reported once as disconnected.
  */
  function Cleanup(reg: Registry, sock: int, events: seq<Event>): (out: (Registry, seq<Event>))
    requires AllDeliveries(events)
    ensures var peer := GetSocketName(reg, sock);
      out.1 == events + [PeerDisconnected(peer)] && GetClientSocket(out.0, peer) == -1
    ensures Valid(reg) ==> Valid(out.0) && sock !in out.0.names
  {
    var peer := GetSocketName(reg, sock);
    CleanupKeepsValid(reg, sock);
    (RemoveSocket(reg, peer), events + [PeerDisconnected(peer)])
  }

  lemma CleanupKeepsValid(reg: Registry, sock: int)
    ensures Valid(reg) ==>
      var reg' := RemoveSocket(reg, GetSocketName(reg, sock));
      Valid(reg') && sock !in reg'.names
  {
    if Valid(reg) {
      var peer := GetSocketName(reg, sock);
      RemoveKeepsValid(reg, peer);
      if sock in reg.names {
        assert reg.sockets[peer] == sock;
      }
    }
  }

  /**
    handleConnections: the receive loop, then the cleanup. When the loop ended the process there
    is no cleanup: no peerDisconnected, and the name stays registered.
  */
  function HandleConnections(reg: Registry, sock: int, inbox: seq<Segment>, junk: Junk): (out: LoopEnd)
    ensures !out.terminated ==>
      |out.events| >= 1 && out.events[|out.events| - 1].PeerDisconnected? &&
      GetClientSocket(out.reg, out.events[|out.events| - 1].peer) == -1
    ensures out.terminated ==> AllDeliveries(out.events)
  {
    var loop := ReadLoop(reg, sock, inbox, junk, 0);
    if loop.terminated then loop
    else
      var end := Cleanup(loop.reg, sock, loop.events);
      LoopEnd(end.0, end.1, false)
  }

  /**
    Unless the process ended, the handler makes exactly one peerDisconnected, as its last
    callback, naming what the socket resolved to after the loop ("[INVALID]" when it never
    authenticated), and that name is no longer registered.
  */
  lemma DisconnectReportedOnce(reg: Registry, sock: int, inbox: seq<Segment>, junk: Junk)
    ensures var loop := ReadLoop(reg, sock, inbox, junk, 0);
      var out := HandleConnections(reg, sock, inbox, junk);
      var peer := GetSocketName(loop.reg, sock);
      out.terminated == loop.terminated &&
      (!out.terminated ==>
        |out.events| >= 1 && out.events[|out.events| - 1] == PeerDisconnected(peer) &&
        (forall i :: 0 <= i < |out.events| - 1 ==> !out.events[i].PeerDisconnected?) &&
        GetClientSocket(out.reg, peer) == -1)
  {
  }

  /** A whole first header that decodes to a length below 8 ends the process before anything else. */
  lemma ShortLengthTerminates(reg: Registry, sock: int, h: seq<byte>, rest: seq<Segment>, junk: Junk)
    requires |h| == HeaderLen && DecodeHeader(h).length < HeaderLen
    ensures ReadLoop(reg, sock, [Data(h)] + rest, junk, 0) == LoopEnd(reg, [], true)
    ensures HandleConnections(reg, sock, [Data(h)] + rest, junk) == LoopEnd(reg, [], true)
  {
    var inbox := [Data(h)] + rest;
    assert inbox[1..] == rest;
    assert Filled(Fresh(junk, 0, HeaderLen), h) == h;
  }

  /**
    Eight zero bytes decode to the length -10^9: a peer that sends them first ends the whole
    process, with no callback at all.
  */
  lemma ZeroHeaderTerminates(reg: Registry, sock: int, rest: seq<Segment>, junk: Junk)
    ensures HandleConnections(reg, sock, [Data(Zeros(HeaderLen))] + rest, junk) == LoopEnd(reg, [], true)
  {
    var h := Zeros(HeaderLen);
    assert LengthField(h) == 0;
    ShortLengthTerminates(reg, sock, h, rest, junk);
  }

  /**
    A body cut short by an error is still dispatched: after a whole header and fewer body bytes
    than it announces, the callbacks get the frame with the missing bytes as they were in the
    freshly allocated buffer. (A length below 8 ends the process instead.)
  */
  lemma PartialBodyDispatched(reg: Registry, sock: int, h: seq<byte>, part: seq<byte>, size: nat, junk: Junk)
    requires |h| == HeaderLen && BodySize(DecodeHeader(h)) == size && |part| < size
    ensures DecodeHeader(h).length < HeaderLen ==>
      ReadLoop(reg, sock, [Data(h + part), Failed], junk, 0) == LoopEnd(reg, [], true)
    ensures HeaderLen <= DecodeHeader(h).length ==>
      var d := Dispatch(AsWritten, reg, sock, DecodeHeader(h), part + Fresh(junk, 1, size)[|part|..]);
      ReadLoop(reg, sock, [Data(h + part), Failed], junk, 0) == LoopEnd(d.0, d.1, false)
  {
    var inbox := [Data(h + part), Failed];
    assert Stream(inbox) == h + part by {
      assert Stream(inbox[1..]) == [];
    }
    var (got, next) := Recv(inbox, HeaderLen);
    assert got.bytes == (h + part)[..HeaderLen] == h;
    assert Stream(next) == part;
    assert Filled(Fresh(junk, 0, HeaderLen), h) == h;
    var body := ReadUpTo(next, size);
    assert !body.complete && body.received == part;
  }

  // ---------------------------------------------------------------------------------------------
  // handleConnections with whole frames only
  // ---------------------------------------------------------------------------------------------

  /**
    The receive loop as it is meant to work: the header is read like the body, until all 8 bytes
    are there, a length below 8 ends the connection, a frame is dispatched only when it arrived
    whole, and AUTH uses the registration that drops stale entries.
  */
  function CheckedLoop(reg: Registry, sock: int, inbox: seq<Segment>): (out: (Registry, seq<Event>))
    ensures AllDeliveries(out.1)
    decreases Measure(inbox)
  {
    var head := ReadUpTo(inbox, HeaderLen);
    if !head.complete then (reg, [])
    else
      var header := DecodeHeader(head.received);
      if header.length < HeaderLen then (reg, [])
      else
        var body := ReadUpTo(head.rest, BodySize(header));
        if !body.complete then (reg, [])
        else
          var first := Dispatch(Corrected, reg, sock, header, body.received);
          var more := CheckedLoop(first.0, sock, body.rest);
          (more.0, first.1 + more.1)
  }

  function CheckedHandle(reg: Registry, sock: int, inbox: seq<Segment>): (Registry, seq<Event>)
  {
    var (reg1, events) := CheckedLoop(reg, sock, inbox);
    Cleanup(reg1, sock, events)
  }

  predicate Sendable(m: Message) {
    Fits(m) && !m.Untyped?
  }

  predicate AllSendable(msgs: seq<Message>) {
    forall i :: 0 <= i < |msgs| ==> Sendable(msgs[i])
  }

  /** The bytes a peer puts on the connection when it sends `msgs` one after the other. */
  function Frames(msgs: seq<Message>): seq<byte>
    requires AllSendable(msgs)
  {
    if |msgs| == 0 then [] else SerializeMessage(msgs[0]).value + Frames(msgs[1..])
  }

  /**
    The corrected loop on bytes that start with an 8-byte header and the body it announces:
    that frame is dispatched and the loop carries on with what follows.
  */
  lemma CheckedWhole(reg: Registry, sock: int, inbox: seq<Segment>, h: seq<byte>, body: seq<byte>, tail: seq<byte>)
    returns (rest: seq<Segment>)
    requires |h| == HeaderLen && HeaderLen <= DecodeHeader(h).length && BodySize(DecodeHeader(h)) == |body|
    requires Stream(inbox) == h + (body + tail)
    ensures Stream(rest) == tail
    ensures var first := Dispatch(Corrected, reg, sock, DecodeHeader(h), body);
      var more := CheckedLoop(first.0, sock, rest);
      CheckedLoop(reg, sock, inbox) == (more.0, first.1 + more.1)
  {
    ReadExact(inbox, h, body + tail);
    var head := ReadUpTo(inbox, HeaderLen);
    ReadExact(head.rest, body, tail);
    rest := ReadUpTo(head.rest, |body|).rest;
  }

  /**
    One frame through the corrected loop: when the bytes start with a whole frame of m, the loop
    delivers m and carries on with what follows the frame.
  */
  lemma CheckedStep(reg: Registry, sock: int, inbox: seq<Segment>, m: Message, tail: seq<byte>)
    returns (rest: seq<Segment>)
    requires Sendable(m) && Stream(inbox) == SerializeMessage(m).value + tail
    ensures Stream(rest) == tail
    ensures var first := Deliver(Corrected, reg, sock, m);
      var more := CheckedLoop(first.0, sock, rest);
      CheckedLoop(reg, sock, inbox) == (more.0, first.1 + more.1)
  {
    var f := SerializeMessage(m).value;
    SplitAt(f, HeaderLen, tail);
    FrameRoundTrip(m);
    rest := CheckedWhole(reg, sock, inbox, f[..HeaderLen], f[HeaderLen..], tail);
    DispatchFrame(Corrected, reg, sock, m);
  }

  lemma SplitAt(f: seq<byte>, n: nat, tail: seq<byte>)
    requires n <= |f|
    ensures f + tail == f[..n] + (f[n..] + tail)
  {
    assert f == f[..n] + f[n..];
  }

  /** Fewer than 8 bytes make no header: the corrected loop stops without a callback. */
  lemma CheckedStopsShort(reg: Registry, sock: int, inbox: seq<Segment>)
    requires |Stream(inbox)| < HeaderLen
    ensures CheckedLoop(reg, sock, inbox) == (reg, [])
  {
  }

  /** A step whose continuation has no whole header left gives the step's own outcome. */
  lemma CheckedLastStep(reg: Registry, sock: int, inbox: seq<Segment>, rest: seq<Segment>, first: (Registry, seq<Event>))
    requires |Stream(rest)| < HeaderLen
    requires var more := CheckedLoop(first.0, sock, rest);
      CheckedLoop(reg, sock, inbox) == (more.0, first.1 + more.1)
    ensures CheckedLoop(reg, sock, inbox) == first
  {
    CheckedStopsShort(first.0, sock, rest);
    assert first.1 + [] == first.1;
  }

  /** A connection that delivers exactly one frame gets its message delivered. */
  lemma CheckedDeliversOne(reg: Registry, sock: int, inbox: seq<Segment>, m: Message)
    requires Sendable(m) && Stream(inbox) == SerializeMessage(m).value
    ensures CheckedLoop(reg, sock, inbox) == Deliver(Corrected, reg, sock, m)
  {
    assert Stream(inbox) == SerializeMessage(m).value + [];
    var rest := CheckedStep(reg, sock, inbox, m, []);
    CheckedLastStep(reg, sock, inbox, rest, Deliver(Corrected, reg, sock, m));
  }

  lemma AllSendableTail(msgs: seq<Message>)
    requires |msgs| > 0 && AllSendable(msgs)
    ensures Sendable(msgs[0]) && AllSendable(msgs[1..])
  {
    forall i | 0 <= i < |msgs| - 1
      ensures Sendable(msgs[1..][i])
    {
      assert msgs[1..][i] == msgs[i + 1];
    }
  }

  /**
    The corrected loop delivers exactly the messages the peer sent, in order, however the bytes
    are split across recv calls.
  */
  lemma {:induction false} CheckedDelivers(reg: Registry, sock: int, inbox: seq<Segment>, msgs: seq<Message>)
    requires AllSendable(msgs) && Stream(inbox) == Frames(msgs)
    ensures CheckedLoop(reg, sock, inbox) == DeliverAll(Corrected, reg, sock, msgs)
    decreases |msgs|
  {
    if |msgs| == 0 {
      assert !ReadUpTo(inbox, HeaderLen).complete;
    } else {
      AllSendableTail(msgs);
      var rest := CheckedStep(reg, sock, inbox, msgs[0], Frames(msgs[1..]));
      CheckedDelivers(Deliver(Corrected, reg, sock, msgs[0]).0, sock, rest, msgs[1..]);
    }
  }

  /** What the corrected loop does depends on the delivered bytes only, not on their split. */
  lemma {:induction false} CheckedIgnoresSegmentation(reg: Registry, sock: int, a: seq<Segment>, b: seq<Segment>)
    requires Stream(a) == Stream(b)
    ensures CheckedLoop(reg, sock, a) == CheckedLoop(reg, sock, b)
    decreases Measure(a)
  {
    var headA, headB := ReadUpTo(a, HeaderLen), ReadUpTo(b, HeaderLen);
    if headA.complete {
      var header := DecodeHeader(headA.received);
      var bodyA, bodyB := ReadUpTo(headA.rest, BodySize(header)), ReadUpTo(headB.rest, BodySize(header));
      if header.length >= HeaderLen && bodyA.complete {
        CheckedIgnoresSegmentation(Dispatch(Corrected, reg, sock, header, bodyA.received).0, sock, bodyA.rest, bodyB.rest);
      }
    }
  }

  /** The corrected loop dispatches nothing from a frame whose body is cut short. */
  lemma CheckedDropsPartialBody(reg: Registry, sock: int, m: Message, k: nat)
    requires Fits(m) && !m.Untyped?
    requires k < |EncodeBody(m)|
    ensures var f := SerializeMessage(m).value;
      CheckedLoop(reg, sock, [Data(f[..HeaderLen + k]), Failed]) == (reg, [])
  {
    var f := SerializeMessage(m).value;
    FrameRoundTrip(m);
    var inbox := [Data(f[..HeaderLen + k]), Failed];
    assert Stream(inbox) == f[..HeaderLen + k];
    var head := ReadUpTo(inbox, HeaderLen);
    assert head.received == f[..HeaderLen];
    assert Stream(head.rest) == f[HeaderLen..HeaderLen + k];
  }

  /**
    A header whose length is below 8 ends the corrected loop without a callback, and the cleanup
    still reports the disconnect.
  */
  lemma CheckedRejectsShortLength(reg: Registry, sock: int, inbox: seq<Segment>, h: seq<byte>, tail: seq<byte>)
    requires |h| == HeaderLen && DecodeHeader(h).length < HeaderLen
    requires Stream(inbox) == h + tail
    ensures CheckedLoop(reg, sock, inbox) == (reg, [])
    ensures CheckedHandle(reg, sock, inbox).1 == [PeerDisconnected(GetSocketName(reg, sock))]
  {
    ReadExact(inbox, h, tail);
  }

  /**
    A peer that authenticates and then sends a text is reported under its authenticated name,
    however the bytes arrive.
  */
  lemma AuthThenText(reg: Registry, sock: int, inbox: seq<Segment>, name: string, text: string)
    requires 3 * |name| <= MaxBody && 3 * |text| <= MaxBody
    requires Stream(inbox) == Frames([AuthMessage(name), TextMessage(text)])
    ensures CheckedLoop(reg, sock, inbox).1 == [AuthReceived(name), TextReceived(name, text)]
  {
    var msgs := [AuthMessage(name), TextMessage(text)];
    CheckedDelivers(reg, sock, inbox, msgs);
    AuthThenTextDelivered(reg, sock, name, text);
  }

  lemma AuthThenTextDelivered(reg: Registry, sock: int, name: string, text: string)
    ensures DeliverAll(Corrected, reg, sock, [AuthMessage(name), TextMessage(text)]).1 ==
      [AuthReceived(name), TextReceived(name, text)]
  {
    var msgs := [AuthMessage(name), TextMessage(text)];
    var first := Deliver(Corrected, reg, sock, msgs[0]);
    assert msgs[1..] == [TextMessage(text)];
    assert msgs[1..][1..] == [];
    var second := Deliver(Corrected, first.0, sock, msgs[1]);
    assert DeliverAll(Corrected, first.0, sock, msgs[1..]).1 == second.1 + [];
  }

  /**
    The header is taken from a single recv. When it arrives as 3 bytes and then the rest, bytes 3
    to 7 of the header buffer are `z`, whatever the allocation left there, and the body size comes
    out right exactly when the two of them that belong to the length field happen to be the ones
    the sender wrote.
  */
  lemma ShortHeaderMisread(t: MessageType, n: int, z: seq<byte>)
    requires 0 <= n <= MaxBody && |z| == HeaderLen - 3
    ensures var h := EncodeHeader(t, Padding + HeaderLen + n);
      BodySize(DecodeHeader(h[..3] + z)) == n <==> z[..2] == h[3..5]
  {
    var field := Padding + HeaderLen + n;
    var h := EncodeHeader(t, field);
    var cut := h[..3] + z;
    LengthFieldOfHeader(t, field);
    var delta: int := (z[0] as int - h[3] as int) * 0x100 + (z[1] as int - h[4] as int);
    assert LengthField(cut) == field + delta;
    assert -0x1_0000 < delta < 0x1_0000;
    var length := DecodeHeader(cut).length;
    assert length == HeaderLen + n + delta;
    assert z[..2] == h[3..5] <==> z[0] == h[3] && z[1] == h[4] by {
      if z[0] == h[3] && z[1] == h[4] {
        assert z[..2] == [z[0], z[1]] && h[3..5] == [h[3], h[4]];
      }
    }
    if delta == 0 {
      DigitPairsUnique(z[0], z[1], h[3], h[4]);
    } else if n + delta < 0 {
      assert BodySize(DecodeHeader(cut)) == n + delta + Two64;
    }
  }

  /** Two bytes read as a base-256 pair determine both bytes. */
  lemma DigitPairsUnique(hi: byte, lo: byte, hi': byte, lo': byte)
    requires hi * 0x100 + lo == hi' * 0x100 + lo'
    ensures hi == hi' && lo == lo'
  {
    assert (hi * 0x100 + lo) / 0x100 == hi;
    assert (hi' * 0x100 + lo') / 0x100 == hi';
  }

  /** A split header is no obstacle to the corrected loop. */
  lemma CheckedReadsSplitHeader(reg: Registry, sock: int, m: Message)
    requires Fits(m) && !m.Untyped?
    ensures var f := SerializeMessage(m).value;
      CheckedLoop(reg, sock, [Data(f[..3]), Data(f[3..]), Closed]) == Deliver(Corrected, reg, sock, m)
  {
    var f := SerializeMessage(m).value;
    var inbox := [Data(f[..3]), Data(f[3..]), Closed];
    assert Stream(inbox) == f by {
      assert Stream(inbox[2..]) == [];
      assert inbox[1..][1..] == inbox[2..];
      assert f[..3] + f[3..] == f;
    }
    CheckedDeliversOne(reg, sock, inbox, m);
  }

  // ---------------------------------------------------------------------------------------------
  // sendMessage, connectPeer, startListening and stopListening
  // ---------------------------------------------------------------------------------------------

  /**
    The effect of sendMessage: nothing for a name without a socket; for an untyped message the
    null buffer from serializeMessage is dereferenced; otherwise the frame goes to the socket.
  */
  datatype SendOutcome = NotSent | NullFrame(sock: int) | Sent(sock: int, frame: seq<byte>)

  function SendMessage(reg: Registry, peerName: string, m: Message): (o: SendOutcome)
    requires GetClientSocket(reg, peerName) >= 0 ==> Fits(m)
    ensures o.NotSent? <==> GetClientSocket(reg, peerName) < 0
    ensures o.NullFrame? <==> GetClientSocket(reg, peerName) >= 0 && m.Untyped?
    ensures !o.NotSent? ==> o.sock == GetClientSocket(reg, peerName)
    ensures o.Sent? ==> |o.frame| == HeaderLen + |EncodeBody(m)|
  {
    var sock := GetClientSocket(reg, peerName);
    if sock < 0 then NotSent
    else
      match SerializeMessage(m)
      case None => NullFrame(sock)
      case Some(frame) => Sent(sock, frame)
  }

  /** What one peer sends, the other peer's corrected loop delivers. */
  lemma SendThenReceive(reg: Registry, peerName: string, m: Message, remote: Registry, remoteSock: int)
    requires Sendable(m) && GetClientSocket(reg, peerName) >= 0
    ensures var o := SendMessage(reg, peerName, m);
      o.Sent? && CheckedLoop(remote, remoteSock, [Data(o.frame), Closed]) == Deliver(Corrected, remote, remoteSock, m)
  {
    var o := SendMessage(reg, peerName, m);
    var inbox := [Data(o.frame), Closed];
    assert Stream(inbox) == o.frame by {
      assert Stream(inbox[1..]) == [];
      assert |o.frame| > 0;
    }
    CheckedDeliversOne(remote, remoteSock, inbox, m);
  }

  /**
    connectPeer after the host lookup and socket(): `status` is what connect returned. A failed
    connect registers nothing; a successful one registers the peer's name for the socket.
  */
  function ConnectPeer(reg: Registry, peer: Peer, sock: int, status: int): (out: (bool, Registry))
    ensures out.0 <==> status >= 0
    ensures !out.0 ==> out.1 == reg
    ensures out.0 ==> GetClientSocket(out.1, peer.name) == sock && GetSocketName(out.1, sock) == peer.name
  {
    if status < 0 then (false, reg) else (true, AddNewSocket(reg, peer.name, sock))
  }

  /** After a successful connect, messages to the peer's name go to the new socket. */
  lemma ConnectThenSend(reg: Registry, peer: Peer, sock: int, status: int, m: Message)
    requires status >= 0 && sock >= 0 && Sendable(m)
    ensures var (ok, reg') := ConnectPeer(reg, peer, sock, status);
      ok && SendMessage(reg', peer.name, m) == Sent(sock, SerializeMessage(m).value)
  {
  }

  /** The NetworkCom state the listening functions touch. */
  datatype Net = Net(reg: Registry, listening: bool, localSocket: int)

  /**
    startListening once socket, bind and listen succeeded (their failures exit the process):
    `sock` is the descriptor socket() returned, which becomes the local socket; bindSucceeded is
    reported and the object is listening.
  */
  function StartListening(net: Net, sock: int): (out: (Net, seq<Event>))
    ensures out.0.listening && out.0.localSocket == sock && out.0.reg == net.reg && out.1 == [BindSucceeded]
  {
    (Net(net.reg, true, sock), [BindSucceeded])
  }

  /**
    stopListening: a no-op unless listening; otherwise every socket of openSocketsToName and the
    local socket are closed and the object is no longer listening. The registry is left as it is.
  */
  function StopListening(net: Net): (out: (Net, set<int>))
    ensures !net.listening ==> out == (net, {})
    ensures net.listening ==> !out.0.listening && out.0.reg == net.reg
    ensures net.listening ==> out.1 == net.reg.names.Keys + {net.localSocket}
  {
    if !net.listening then (net, {})
    else (net.(listening := false), net.reg.names.Keys + {net.localSocket})
  }

  /** A second stopListening does nothing; start then stop closes the socket start created. */
  lemma StopIsIdempotent(net: Net, sock: int)
    ensures var (once, _) := StopListening(net);
      StopListening(once) == (once, {})
    ensures var (started, _) := StartListening(net, sock);
      sock in StopListening(started).1 && !StopListening(started).0.listening
  {
  }
}
