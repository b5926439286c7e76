/**
  The receiving end of a connected socket, as the connection handlers see it through recv.

  The peer's side is given as a list of segments: runs of bytes as they arrive, then possibly the
  end of the connection (an orderly close) or an error. recv(buf, max) returns at most max bytes
  of the run at the head, 0 once the connection is closed, and -1 on an error.
*/
module Transport {
  import opened Wire

  datatype Segment = Data(bytes: seq<byte>) | Closed | Failed

  /** The result of one recv: a positive count with its bytes, 0, or -1. */
  datatype Received = Got(bytes: seq<byte>) | PeerClosed | RecvError

  /** The bytes the connection delivers before it is closed or fails. */
  function Stream(inbox: seq<Segment>): seq<byte>
  {
    if |inbox| == 0 then []
    else match inbox[0]
      case Data(b) => if |b| == 0 then [] else b + Stream(inbox[1..])
      case Closed => []
      case Failed => []
  }

  function SegmentSize(s: Segment): nat
  {
    match s
    case Data(b) => |b| + 1
    case Closed => 1
    case Failed => 1
  }

  /** What is left to receive; every recv that returns bytes makes it smaller. */
  function Measure(inbox: seq<Segment>): nat
  {
    if |inbox| == 0 then 0 else SegmentSize(inbox[0]) + Measure(inbox[1..])
  }

  /**
    recv(socket, buf, max, 0): the head run gives up to max bytes and keeps the rest for the next
    call; an empty run or the end of the list reads as an orderly close.
  */
  function Recv(inbox: seq<Segment>, max: nat): (r: (Received, seq<Segment>))
    requires max > 0
    ensures r.0.Got? ==> 0 < |r.0.bytes| <= max && Stream(inbox) == r.0.bytes + Stream(r.1)
    ensures r.0.Got? ==> Measure(r.1) < Measure(inbox)
    ensures r.0.Got? <==> Stream(inbox) != []
    ensures !r.0.Got? ==> r.1 == inbox
  {
    if |inbox| == 0 then (PeerClosed, inbox)
    else match inbox[0]
      case Data(b) =>
        if |b| == 0 then (PeerClosed, inbox)
        else if |b| <= max then (Got(b), inbox[1..])
        else
          var rest := [Data(b[max..])] + inbox[1..];
          assert rest[1..] == inbox[1..];
          assert b == b[..max] + b[max..];
          (Got(b[..max]), rest)
      case Closed => (PeerClosed, inbox)
      case Failed => (RecvError, inbox)
  }

  /** The outcome of reading a fixed number of bytes: whether all came, what came, what is left. */
  datatype Fill = Fill(complete: bool, received: seq<byte>, rest: seq<Segment>)

  function Min(a: int, b: int): int {
    if a <= b then a else b
  }

  /**
    Calls recv until n bytes have arrived or a call returns 0 or -1. What it reads depends on the
    delivered bytes alone, not on how they are split into runs.
  */
  function ReadUpTo(inbox: seq<Segment>, n: nat): (r: Fill)
    ensures r.complete <==> |Stream(inbox)| >= n
    ensures r.received == Stream(inbox)[..Min(n, |Stream(inbox)|)]
    ensures r.complete ==> Stream(r.rest) == Stream(inbox)[n..]
    ensures Measure(r.rest) <= Measure(inbox)
    ensures |r.received| > 0 ==> Measure(r.rest) < Measure(inbox)
    decreases Measure(inbox)
  {
    if n == 0 then Fill(true, [], inbox)
    else
      var (got, next) := Recv(inbox, n);
      match got
      case Got(b) =>
        var r := ReadUpTo(next, n - |b|);
        assert Stream(inbox) == b + Stream(next);
        Fill(r.complete, b + r.received, r.rest)
      case PeerClosed => Fill(false, [], inbox)
      case RecvError => Fill(false, [], inbox)
  }

  /** When the connection delivers p and then more, reading |p| bytes gets exactly p. */
  lemma ReadExact(inbox: seq<Segment>, p: seq<byte>, tail: seq<byte>)
    requires Stream(inbox) == p + tail
    ensures var r := ReadUpTo(inbox, |p|);
      r.complete && r.received == p && Stream(r.rest) == tail
  {
    assert (p + tail)[..|p|] == p;
    assert (p + tail)[|p|..] == tail;
  }

  /** A write of `chunk` into `buffer` at offset `at`, as recv does it. */
  function WriteAt(buffer: seq<byte>, at: nat, chunk: seq<byte>): (b: seq<byte>)
    requires at + |chunk| <= |buffer|
    ensures |b| == |buffer|
    ensures b[..at + |chunk|] == buffer[..at] + chunk
    ensures b[at + |chunk|..] == buffer[at + |chunk|..]
  {
    buffer[..at] + chunk + buffer[at + |chunk|..]
  }

  /**
    The contents of buffers from `new uint8_t[n]`, which C++ leaves indeterminate: `junk(k, i)` is
    byte i of the k-th buffer a handler allocates. Nothing about it is assumed, so what is stated
    for a handler holds whatever the allocator leaves in its buffers.
  */
  type Junk = (nat, nat) -> byte

  /** The k-th fresh buffer of n bytes, before anything is written to it. */
  function Fresh(junk: Junk, k: nat, n: nat): (b: seq<byte>)
    ensures |b| == n && forall i :: 0 <= i < n ==> b[i] == junk(k, i)
  {
    seq(n, i requires 0 <= i < n => junk(k, i))
  }

  /** A fresh buffer after its first |written| bytes were written: the rest is as it was allocated. */
  function Filled(initial: seq<byte>, written: seq<byte>): (b: seq<byte>)
    requires |written| <= |initial|
    ensures |b| == |initial| && b[..|written|] == written && b[|written|..] == initial[|written|..]
  {
    written + initial[|written|..]
  }

  /**
    The body loop of handleConnections: a freshly allocated buffer (its contents are `initial`) is
    filled at offset totalBytesReceived by recv calls asking for the bytes still missing, until
    the count reaches the size or a call returns 0 or -1.
  */
  method ReceiveBody(inbox: seq<Segment>, initial: seq<byte>)
    returns (complete: bool, buffer: seq<byte>, total: nat, rest: seq<Segment>)
    ensures total <= |initial| && total <= |Stream(inbox)|
    ensures complete <==> total == |initial|
    ensures buffer == Filled(initial, Stream(inbox)[..total])
    ensures complete ==> Stream(rest) == Stream(inbox)[|initial|..]
    ensures !complete ==> |Stream(inbox)| == total
    ensures var r := ReadUpTo(inbox, |initial|);
      complete == r.complete && buffer == Filled(initial, r.received)
  {
    var size := |initial|;
    buffer := initial;
    total := 0;
    rest := inbox;
    complete := true;
    while total < size
      invariant total <= size && total <= |Stream(inbox)| && |buffer| == size
      invariant buffer[..total] == Stream(inbox)[..total]
      invariant buffer[total..] == initial[total..]
      invariant Stream(rest) == Stream(inbox)[total..]
      invariant complete
      decreases Measure(rest)
    {
      var (got, next) := Recv(rest, size - total);
      if !got.Got? {
        complete := false;
        break;
      }
      var chunk := got.bytes;
      ghost var before := buffer;
      buffer := WriteAt(buffer, total, chunk);
      assert buffer[..total + |chunk|] == before[..total] + chunk;
      assert buffer[total + |chunk|..] == initial[total + |chunk|..] by {
        assert before[total..][|chunk|..] == before[total + |chunk|..];
        assert initial[total..][|chunk|..] == initial[total + |chunk|..];
      }
      assert Stream(inbox)[total..] == chunk + Stream(next);
      assert Stream(inbox)[..total + |chunk|] == Stream(inbox)[..total] + chunk;
      total := total + |chunk|;
      rest := next;
    }
    assert buffer == buffer[..total] + buffer[total..];
  }
}
