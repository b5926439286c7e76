/**
  The earlier NetworkCom in netlib/networking.cpp. Compared with the P2PChat one it keeps only
  the name-to-socket map, its callbacks carry no sender, its handler returns without cleanup, and
  its serializeMessage copies the whole frame length from the body.
*/
module OldNetlib {
  import opened Outcome
  import opened Wire
  import opened Transport
  import opened Peers

  /** openSockets: peer name to socket. */
  type Sockets = map<string, int>

  /** addNewSocket: the name now maps to the socket, whatever it mapped to before. */
  function OldAdd(r: Sockets, name: string, sock: int): (r': Sockets)
    ensures name in r' && r'[name] == sock
    ensures forall n :: n != name ==> (n in r' <==> n in r) && (n in r ==> r'[n] == r[n])
  {
    r[name := sock]
  }

  /** removeSocket: the name is erased when present; nothing else changes. */
  function OldRemove(r: Sockets, name: string): (r': Sockets)
    ensures name !in r'
    ensures forall n :: n != name ==> (n in r' <==> n in r) && (n in r ==> r'[n] == r[n])
  {
    if name in r then r - {name} else r
  }

  /** getClientSocket: the name's socket, or -1. */
  function OldGet(r: Sockets, name: string): (s: int)
    ensures name in r ==> s == r[name]
    ensures name !in r ==> s == -1
  {
    if name in r then r[name] else -1
  }

  /** Removing after adding forgets the name, and removing an absent name changes nothing. */
  lemma OldAddRemove(r: Sockets, name: string, sock: int)
    ensures OldGet(OldRemove(OldAdd(r, name, sock), name), name) == -1
    ensures name !in r ==> OldRemove(OldAdd(r, name, sock), name) == r
    ensures name !in r ==> OldRemove(r, name) == r
  {
    if name !in r {
      assert r[name := sock] - {name} == r;
    }
  }

  // ---------------------------------------------------------------------------------------------
  // serializeMessage
  // ---------------------------------------------------------------------------------------------

  /**
    The IMAGE case first copies the image into `mutable_image()->mutable_data()`, a destination
    with room for one element: the copy of every image byte is modelled by CopyInto into a
    one-element target, which faults for an image of 2 or more bytes.
  */
  function ImageStaging(m: Message): (r: Result<seq<byte>, CopyFault>)
    ensures r.Err? <==> m.ImageMessage? && |m.image| >= 2
    ensures r.Err? ==> r.error == WriteOverrun(|m.image|, 1)
  {
    if m.ImageMessage? then CopyInto(m.image, |m.image|, [0], 0) else Ok([])
  }

  /**
    serializeMessage as written: for an image, the staging copy into the message object comes
    first; then the frame buffer holds 8 + bodySize bytes, but the copy takes bufferLen =
    8 + bodySize bytes from a body buffer of bodySize bytes and writes them from offset 8. An
    untyped message gives no buffer. An out-of-bounds copy is undefined behaviour, which the
    model turns into a fault that ends the call (see Wire.CopyInto).
  */
  function OldSerializeMessage(m: Message): (r: Result<Option<seq<byte>>, CopyFault>)
    requires Fits(m)
    ensures r == Ok(None) <==> m.Untyped?
    ensures r.Err? <==> !m.Untyped?
  {
    match TypeOf(m)
    case None => Ok(None)
    case Some(t) =>
      match ImageStaging(m)
      case Err(fault) => Err(fault)
      case Ok(_) =>
        var body := EncodeBody(m);
        var bufferLen := HeaderLen + |body|;
        var buffer := EncodeHeader(t, Padding + bufferLen) + Zeros(|body|);
        match CopyInto(body, bufferLen, buffer, HeaderLen)
        case Ok(frame) => Ok(Some(frame))
        case Err(fault) => Err(fault)
  }

  /**
    Which copy ends the call: an image of 2 or more bytes overruns its one-element staging
    target; every other typed message (AUTH, TEXT, and an image of at most one byte) reaches the
    frame copy, which runs 8 bytes past the end of the body it reads from (and, were that
    readable, 8 bytes past the end of the frame it writes). The P2PChat version, which copies
    bodySize bytes, produces the frame (Wire.SerializeIsCopy).
  */
  lemma OldCopyOverflows(m: Message)
    requires Fits(m) && !m.Untyped?
    ensures m.ImageMessage? && |m.image| >= 2 ==>
      OldSerializeMessage(m) == Err(WriteOverrun(|m.image|, 1))
    ensures !(m.ImageMessage? && |m.image| >= 2) ==>
      var n := |EncodeBody(m)|;
      OldSerializeMessage(m) == Err(ReadOverrun(HeaderLen + n, n))
    ensures var n := |EncodeBody(m)|;
      var buffer := EncodeHeader(TypeOf(m).value, Padding + HeaderLen + n) + Zeros(n);
      CopyInto(EncodeBody(m) + Zeros(HeaderLen), HeaderLen + n, buffer, HeaderLen) ==
        Err(WriteOverrun(2 * HeaderLen + n, HeaderLen + n))
  {
  }

  // ---------------------------------------------------------------------------------------------
  // deserializeHandleMessage and handleConnections
  // ---------------------------------------------------------------------------------------------

  /** The callbacks of this version: the message alone, without the sender's name. */
  datatype OldEvent = AuthDelivered(name: string) | TextDelivered(text: string) | ImageDelivered(image: seq<byte>)

  /** deserializeHandleMessage: AUTH registers the name for the socket before reporting it. */
  function OldDispatch(r: Sockets, sock: int, header: Header, body: seq<byte>): (out: (Sockets, seq<OldEvent>))
    ensures header.kind == Some(Auth) ==>
      var name := DecodeBody(Auth, body).name;
      out == (OldAdd(r, name, sock), [AuthDelivered(name)])
    ensures header.kind != Some(Auth) ==> out.0 == r
    ensures header.kind == Some(Text) ==> out.1 == [TextDelivered(DecodeBody(Text, body).text)]
    ensures header.kind == Some(Image) ==> out.1 == [ImageDelivered(body)]
    ensures header.kind == None ==> out.1 == []
  {
    match header.kind
    case None => (r, [])
    case Some(Auth) =>
      var name := DecodeBody(Auth, body).name;
      (OldAdd(r, name, sock), [AuthDelivered(name)])
    case Some(Text) => (r, [TextDelivered(DecodeBody(Text, body).text)])
    case Some(Image) => (r, [ImageDelivered(DecodeBody(Image, body).image)])
  }

  /**
    What the callbacks should see for one message: an AUTH sender is registered for the socket,
    nothing else changes the sockets, and each typed message makes one callback carrying its
    content.
  */
  function OldDeliver(r: Sockets, sock: int, m: Message): (out: (Sockets, seq<OldEvent>))
    ensures m.AuthMessage? ==> OldGet(out.0, m.name) == sock && out.1 == [AuthDelivered(m.name)]
    ensures !m.AuthMessage? ==> out.0 == r
    ensures m.TextMessage? ==> out.1 == [TextDelivered(m.text)]
    ensures m.ImageMessage? ==> out.1 == [ImageDelivered(m.image)]
    ensures m.Untyped? ==> out.1 == []
  {
    match m
    case AuthMessage(name) => (OldAdd(r, name, sock), [AuthDelivered(name)])
    case TextMessage(text) => (r, [TextDelivered(text)])
    case ImageMessage(image) => (r, [ImageDelivered(image)])
    case Untyped => (r, [])
  }

  /** How the handler ended: the sockets, the callbacks made, and whether the thread threw. */
  datatype OldEnd = OldEnd(sockets: Sockets, events: seq<OldEvent>, terminated: bool)

  /**
    handleConnections: a single recv of at most 8 bytes for the header into a fresh buffer (a
    short read leaves the rest of it as allocated), returning on 0 or -1; the body loop returns on
    0 or -1 without dispatching; a whole frame is dispatched. `k` counts the frames read so far:
    frame k's header buffer is allocation 2k. Nothing is removed from openSockets when the
    connection ends. A decoded length below 8 wraps the body size around to at least
    2^64 - 2^31 - 8 bytes, whose allocation throws: std::terminate ends the process.
  */
  function OldHandle(r: Sockets, sock: int, inbox: seq<Segment>, junk: Junk, k: nat): (out: OldEnd)
    ensures r.Keys <= out.sockets.Keys
    decreases Measure(inbox)
  {
    var (got, next) := Recv(inbox, HeaderLen);
    match got
    case Got(h) =>
      var header := DecodeHeader(Filled(Fresh(junk, 2 * k, HeaderLen), h));
      if header.length < HeaderLen then OldEnd(r, [], true)
      else
        var body := ReadUpTo(next, BodySize(header));
        if !body.complete then OldEnd(r, [], false)
        else
          var first := OldDispatch(r, sock, header, body.received);
          var more := OldHandle(first.0, sock, body.rest, junk, k + 1);
          OldEnd(more.sockets, first.1 + more.events, more.terminated)
    case PeerClosed => OldEnd(r, [], false)
    case RecvError => OldEnd(r, [], false)
  }

  /** A frame whose body is cut short is not dispatched. */
  lemma OldDropsPartialBody(r: Sockets, sock: int, m: Message, k: nat, junk: Junk)
    requires Fits(m) && !m.Untyped?
    requires k < |EncodeBody(m)|
    ensures var f := SerializeMessage(m).value;
      OldHandle(r, sock, [Data(f[..HeaderLen + k]), Failed], junk, 0) == OldEnd(r, [], false)
  {
    var f := SerializeMessage(m).value;
    FrameRoundTrip(m);
    var inbox := [Data(f[..HeaderLen + k]), Failed];
    assert Stream(inbox) == f[..HeaderLen + k] by {
      assert Stream(inbox[1..]) == [];
    }
    var (got, next) := Recv(inbox, HeaderLen);
    assert got.bytes == f[..HeaderLen];
    assert Filled(Fresh(junk, 0, HeaderLen), got.bytes) == got.bytes;
    assert Stream(next) == f[HeaderLen..HeaderLen + k];
  }

  /**
    A frame that arrives in one piece, followed by the end of the connection, is delivered; the
    sender's name stays registered for the closed socket.
  */
  lemma OldDeliversWholeFrame(r: Sockets, sock: int, m: Message, junk: Junk)
    requires Fits(m) && !m.Untyped?
    ensures var f := SerializeMessage(m).value;
      var d := OldDeliver(r, sock, m);
      OldHandle(r, sock, [Data(f), Closed], junk, 0) == OldEnd(d.0, d.1, false)
    ensures m.AuthMessage? ==>
      OldGet(OldHandle(r, sock, [Data(SerializeMessage(m).value), Closed], junk, 0).sockets, m.name) == sock
  {
    var f := SerializeMessage(m).value;
    FrameRoundTrip(m);
    assert f == f[..HeaderLen] + f[HeaderLen..];
    OldWhole(r, sock, f[..HeaderLen], f[HeaderLen..], junk);
  }

  /**
    One connection, one frame: the header and the body it announces, then an orderly close. The
    frame is dispatched, unless its length is below 8, which ends the process.
  */
  lemma OldWhole(r: Sockets, sock: int, h: seq<byte>, body: seq<byte>, junk: Junk)
    requires |h| == HeaderLen && BodySize(DecodeHeader(h)) == |body|
    ensures DecodeHeader(h).length < HeaderLen ==>
      OldHandle(r, sock, [Data(h + body), Closed], junk, 0) == OldEnd(r, [], true)
    ensures HeaderLen <= DecodeHeader(h).length ==>
      var d := OldDispatch(r, sock, DecodeHeader(h), body);
      OldHandle(r, sock, [Data(h + body), Closed], junk, 0) == OldEnd(d.0, d.1, false)
  {
    var inbox := [Data(h + body), Closed];
    assert Stream(inbox) == h + body by {
      assert Stream(inbox[1..]) == [];
    }
    var (got, next) := Recv(inbox, HeaderLen);
    assert got.bytes == (h + body)[..HeaderLen] == h;
    assert Filled(Fresh(junk, 0, HeaderLen), h) == h;
    if HeaderLen <= DecodeHeader(h).length {
      assert Stream(next) == body + [];
      ReadExact(next, body, []);
      var rest := ReadUpTo(next, |body|).rest;
      var first := OldDispatch(r, sock, DecodeHeader(h), body);
      assert !Recv(rest, HeaderLen).0.Got?;
      assert OldHandle(first.0, sock, rest, junk, 1) == OldEnd(first.0, [], false);
      assert first.1 + [] == first.1;
    }
  }

  /** Eight zero bytes decode to the length -10^9: a peer that sends them first ends the process. */
  lemma OldZeroHeaderTerminates(r: Sockets, sock: int, rest: seq<Segment>, junk: Junk)
    ensures OldHandle(r, sock, [Data(Zeros(HeaderLen))] + rest, junk, 0) == OldEnd(r, [], true)
  {
    var h := Zeros(HeaderLen);
    var inbox := [Data(h)] + rest;
    assert inbox[1..] == rest;
    assert LengthField(h) == 0;
    assert Filled(Fresh(junk, 0, HeaderLen), h) == h;
  }

  // ---------------------------------------------------------------------------------------------
  // sendMessage, connectPeer and disconnect
  // ---------------------------------------------------------------------------------------------

  /**
    The effect of sendMessage: nothing for an unknown name; otherwise the buffer serializeMessage
    returns is dereferenced, which is the null pointer for an untyped message and a frame built
    by the overrunning copy for the others, whose undefined behaviour the model turns into a
    fault that ends the call.
  */
  datatype OldSendOutcome = Skipped | NullFrame(sock: int) | CopyFailed(sock: int, fault: CopyFault) | Sent(sock: int, frame: seq<byte>)

  function OldSendMessage(r: Sockets, peer: Peer, m: Message): (o: OldSendOutcome)
    requires OldGet(r, peer.name) >= 0 ==> Fits(m)
    ensures o.Skipped? <==> OldGet(r, peer.name) < 0
    ensures o.NullFrame? <==> OldGet(r, peer.name) >= 0 && m.Untyped?
    ensures !o.Skipped? ==> o.sock == OldGet(r, peer.name)
  {
    var sock := OldGet(r, peer.name);
    if sock < 0 then Skipped
    else
      match OldSerializeMessage(m)
      case Ok(None) => NullFrame(sock)
      case Ok(Some(frame)) => Sent(sock, frame)
      case Err(fault) => CopyFailed(sock, fault)
  }

  /**
    With an overrunning copy modelled as a fault that ends the call, no typed message to a known
    peer reaches send: an image of 2 or more bytes stops at its staging copy, every other typed
    message at the read past its body.
  */
  lemma OldSendNeverSends(r: Sockets, peer: Peer, m: Message)
    requires Fits(m) && !m.Untyped? && OldGet(r, peer.name) >= 0
    ensures m.ImageMessage? && |m.image| >= 2 ==>
      OldSendMessage(r, peer, m) == CopyFailed(OldGet(r, peer.name), WriteOverrun(|m.image|, 1))
    ensures !(m.ImageMessage? && |m.image| >= 2) ==>
      OldSendMessage(r, peer, m) ==
        CopyFailed(OldGet(r, peer.name), ReadOverrun(HeaderLen + |EncodeBody(m)|, |EncodeBody(m)|))
  {
    OldCopyOverflows(m);
  }

  /** connectPeer: `status` is what connect returned; a success registers the peer's name. */
  function OldConnectPeer(r: Sockets, peer: Peer, sock: int, status: int): (r': Sockets)
    ensures status < 0 ==> r' == r
    ensures status >= 0 ==> OldGet(r', peer.name) == sock
  {
    if status < 0 then r else OldAdd(r, peer.name, sock)
  }

  /** disconnect has an empty body: the peer stays registered. */
  function Disconnect(r: Sockets, peer: Peer): (r': Sockets)
    ensures OldGet(r', peer.name) == OldGet(r, peer.name)
  {
    r
  }

  /** After connect then disconnect, messages to the peer still go to the connected socket. */
  lemma ConnectDisconnectKeepsPeer(r: Sockets, peer: Peer, sock: int, status: int)
    requires status >= 0
    ensures OldGet(Disconnect(OldConnectPeer(r, peer, sock, status), peer), peer.name) == sock
  {
  }
}
