/**
  The chat frame of both networking layers: an 8-byte header whose length field carries a padding
  of 10^9 plus the frame length, followed by the message body.

  The protobuf messages the header and the bodies are serialized with are not part of this model.
  In their place stand two small codecs with the properties the framing relies on: the header
  codec writes the type tag and a 32-bit length field into exactly 8 bytes, and the body codec
  writes each character of a name or a text as three bytes (an image is copied as it is). Only
  the padding and length arithmetic around them is taken from the source.
*/
module Wire {
  import opened Outcome

  type byte = x: int | 0 <= x < 256

  const Padding: int := 1_000_000_000
  const HeaderLen: int := 8

  const Two32: int := 0x1_0000_0000
  const Two64: int := 0x1_0000_0000_0000_0000
  const IntMax: int := 0x7FFF_FFFF

  /** The largest body whose padded length still fits in an int. */
  const MaxBody: int := IntMax - Padding - HeaderLen

  /** The three message types both networking files switch on. */
  datatype MessageType = Auth | Text | Image

  /**
    A message handed to serializeMessage. `Untyped` is one whose header type is none of the
    three, for which serializeMessage gives (nullptr, 0).
  */
  datatype Message =
    | AuthMessage(name: string)
    | TextMessage(text: string)
    | ImageMessage(image: seq<byte>)
    | Untyped

  function TypeOf(m: Message): Option<MessageType>
  {
    match m
    case AuthMessage(_) => Some(Auth)
    case TextMessage(_) => Some(Text)
    case ImageMessage(_) => Some(Image)
    case Untyped => None
  }

  /** An int holding x after the wrap-around of 32-bit two's complement arithmetic. */
  function Int32(x: int): (r: int)
    ensures -0x8000_0000 <= r <= IntMax
    ensures (r - x) % Two32 == 0
    ensures -0x8000_0000 <= x <= IntMax ==> r == x
  {
    (x + 0x8000_0000) % Two32 - 0x8000_0000
  }

  function Zeros(n: nat): (z: seq<byte>)
    ensures |z| == n && forall i :: 0 <= i < n ==> z[i] == 0
  {
    seq(n, i => 0)
  }

  // ---------------------------------------------------------------------------------------------
  // The 8-byte header
  // ---------------------------------------------------------------------------------------------

  /** The tag byte of a message type, one of the three the header decoder recognises. */
  function TagOf(t: MessageType): (tag: byte)
    ensures tag < 3
  {
    match t
    case Auth => 0
    case Text => 1
    case Image => 2
  }

  /** Different message types have different tags. */
  lemma TagOfInjective(t: MessageType, u: MessageType)
    ensures TagOf(t) == TagOf(u) <==> t == u
  {
  }

  /** The type a tag byte stands for; any other tag leaves the type unset. */
  function KindOf(tag: byte): (k: Option<MessageType>)
    ensures forall t :: k == Some(t) <==> TagOf(t) == tag
  {
    if tag == 0 then Some(Auth) else if tag == 1 then Some(Text) else if tag == 2 then Some(Image) else None
  }

  /** The header as set_type and set_length fill it in, serialized into 8 bytes. */
  function EncodeHeader(t: MessageType, field: int): (h: seq<byte>)
    requires 0 <= field < Two32
    ensures |h| == HeaderLen
  {
    [TagOf(t), field / 0x100_0000, field / 0x1_0000 % 0x100, field / 0x100 % 0x100, field % 0x100, 0, 0, 0]
  }

  /** The length field as it stands in the 8 header bytes. */
  function LengthField(h: seq<byte>): (field: int)
    requires |h| == HeaderLen
    ensures 0 <= field < Two32
  {
    h[1] as int * 0x100_0000 + h[2] as int * 0x1_0000 + h[3] as int * 0x100 + h[4] as int
  }

  /** MessageHeader: the type (unset for an unknown tag) and the int length. */
  datatype Header = Header(kind: Option<MessageType>, length: int)

  /** getMessageHeader: the type from the tag and the length field minus the padding, as an int. */
  function DecodeHeader(h: seq<byte>): (header: Header)
    requires |h| == HeaderLen
    ensures header.kind == KindOf(h[0])
    ensures (header.length - (LengthField(h) - Padding)) % Two32 == 0
  {
    Header(KindOf(h[0]), Int32(LengthField(h) - Padding))
  }

  /**
    The receiver's body size: `msgHeader.length - headerSize` computed in size_t, so a length
    below 8 wraps around to a huge size.
  */
  function BodySize(header: Header): (n: nat)
    ensures n < Two64
    ensures HeaderLen <= header.length <= IntMax ==> n == header.length - HeaderLen
  {
    (header.length - HeaderLen) % Two64
  }

  /** The length field is read back exactly as it was written. */
  lemma LengthFieldOfHeader(t: MessageType, field: int)
    requires 0 <= field < Two32
    ensures LengthField(EncodeHeader(t, field)) == field
  {
    var h := EncodeHeader(t, field);
    var q := field / 0x100;
    var q2 := q / 0x100;
    assert field == q * 0x100 + h[4];
    assert q == q2 * 0x100 + h[3];
    assert field / 0x1_0000 == q2;
    assert q2 == (field / 0x100_0000) * 0x100 + h[2] by {
      assert field / 0x100_0000 == q2 / 0x100;
    }
  }

  /**
    Header round trip: for a body of n bytes the receiver decodes the sender's type, the length
    8 + n, and so the body size n.
  */
  lemma HeaderRoundTrip(t: MessageType, n: int)
    requires 0 <= n <= MaxBody
    ensures var header := DecodeHeader(EncodeHeader(t, Padding + HeaderLen + n));
      header.kind == Some(t) && header.length == HeaderLen + n && BodySize(header) == n
  {
    LengthFieldOfHeader(t, Padding + HeaderLen + n);
  }

  // ---------------------------------------------------------------------------------------------
  // Message bodies
  // ---------------------------------------------------------------------------------------------

  predicate IsCharCode(n: int) {
    0 <= n < 0xD800 || 0xE000 <= n < 0x11_0000
  }

  function CharBytes(c: char): (b: seq<byte>)
    ensures |b| == 3
  {
    var n := c as int;
    [n / 0x1_0000, n / 0x100 % 0x100, n % 0x100]
  }

  function EncodeChars(s: string): (b: seq<byte>)
    ensures |b| == 3 * |s|
  {
    if |s| == 0 then [] else CharBytes(s[0]) + EncodeChars(s[1..])
  }

  /** The characters of a body, or None when the bytes do not form a string. */
  function DecodeChars(b: seq<byte>): (s: Option<string>)
    ensures s.Some? ==> 3 * |s.value| == |b|
  {
    if |b| == 0 then Some([])
    else if |b| < 3 then None
    else
      var n := b[0] as int * 0x1_0000 + b[1] as int * 0x100 + b[2] as int;
      if !IsCharCode(n) then None
      else
        match DecodeChars(b[3..])
        case Some(rest) => Some([n as char] + rest)
        case None => None
  }

  lemma CharBytesValue(c: char)
    ensures var b := CharBytes(c); b[0] as int * 0x1_0000 + b[1] as int * 0x100 + b[2] as int == c as int
  {
    var n := c as int;
    assert n == (n / 0x100) * 0x100 + n % 0x100;
    assert n / 0x100 == (n / 0x1_0000) * 0x100 + n / 0x100 % 0x100;
  }

  lemma {:induction false} CharsRoundTrip(s: string)
    ensures DecodeChars(EncodeChars(s)) == Some(s)
  {
    if |s| > 0 {
      var b := EncodeChars(s);
      CharBytesValue(s[0]);
      assert b[3..] == EncodeChars(s[1..]);
      CharsRoundTrip(s[1..]);
      assert [s[0]] + s[1..] == s;
    }
  }

  /**
    The body bytes the sender copies after the header: nothing for an untyped message, and for a
    typed one bytes that the receiver parses back, under the same type, to the same message.
  */
  function EncodeBody(m: Message): (b: seq<byte>)
    ensures m.Untyped? ==> b == []
    ensures !m.Untyped? ==> DecodeBody(TypeOf(m).value, b) == m
  {
    match m
    case AuthMessage(name) => CharsRoundTrip(name); EncodeChars(name)
    case TextMessage(text) => CharsRoundTrip(text); EncodeChars(text)
    case ImageMessage(image) => image
    case Untyped => []
  }

  /**
    ParseFromArray on the body followed by the field access. A body that does not parse leaves
    the field empty.
  */
  function DecodeBody(t: MessageType, b: seq<byte>): (m: Message)
    ensures TypeOf(m) == Some(t)
  {
    match t
    case Auth => AuthMessage(DecodeChars(b).GetOr([]))
    case Text => TextMessage(DecodeChars(b).GetOr([]))
    case Image => ImageMessage(b)
  }

  lemma BodyRoundTrip(m: Message)
    requires !m.Untyped?
    ensures DecodeBody(TypeOf(m).value, EncodeBody(m)) == m
  {
    match m
    case AuthMessage(name) => CharsRoundTrip(name);
    case TextMessage(text) => CharsRoundTrip(text);
    case ImageMessage(_) =>
  }

  // ---------------------------------------------------------------------------------------------
  // Copying into a buffer
  // ---------------------------------------------------------------------------------------------

  /** An out-of-bounds std::copy: past the end of the source, or past the end of the target. */
  datatype CopyFault = ReadOverrun(readEnd: nat, available: nat) | WriteOverrun(writeEnd: nat, size: nat)

  /**
    std::copy of the first `count` bytes of `source` into `target` at offset `at`. A copy that
    would leave either buffer is undefined behaviour; the model does not guess what it does and
    ends the call with a fault naming the overrun instead.
  */
  function CopyInto(source: seq<byte>, count: nat, target: seq<byte>, at: nat): (r: Result<seq<byte>, CopyFault>)
    ensures r.Ok? <==> count <= |source| && at + count <= |target|
    ensures r.Ok? ==>
      |r.value| == |target| && r.value[..at] == target[..at] &&
      r.value[at..at + count] == source[..count] && r.value[at + count..] == target[at + count..]
  {
    if count > |source| then Err(ReadOverrun(count, |source|))
    else if at + count > |target| then Err(WriteOverrun(at + count, |target|))
    else
      var b := target[..at] + source[..count] + target[at + count..];
      assert b[at..at + count] == source[..count];
      Ok(b)
  }

  // ---------------------------------------------------------------------------------------------
  // serializeMessage (P2PChat)
  // ---------------------------------------------------------------------------------------------

  /** A message whose padded frame length does not overflow the int it is computed in. */
  predicate Fits(m: Message) {
    |EncodeBody(m)| <= MaxBody
  }

  /**
    serializeMessage: a buffer of 8 + bodySize bytes, the header first, carrying the padding plus
    the frame length, and the body copied from offset 8. An untyped message gives no buffer.
  */
  function SerializeMessage(m: Message): (frame: Option<seq<byte>>)
    requires Fits(m)
    ensures frame.None? <==> m.Untyped?
    ensures frame.Some? ==>
      var f := frame.value;
      |f| == HeaderLen + |EncodeBody(m)| && f[HeaderLen..] == EncodeBody(m) &&
      LengthField(f[..HeaderLen]) == Padding + |f| && KindOf(f[0]) == TypeOf(m)
  {
    match TypeOf(m)
    case None => None
    case Some(t) =>
      var body := EncodeBody(m);
      var header := EncodeHeader(t, Padding + HeaderLen + |body|);
      LengthFieldOfHeader(t, Padding + HeaderLen + |body|);
      assert (header + body)[..HeaderLen] == header;
      Some(header + body)
  }

  /**
    Frame round trip: the receiver decodes from the frame the sender's type, the body size the
    sender used, and the message itself.
  */
  lemma FrameRoundTrip(m: Message)
    requires Fits(m) && !m.Untyped?
    ensures var f := SerializeMessage(m).value;
      var header := DecodeHeader(f[..HeaderLen]);
      header.kind == TypeOf(m) && header.length == |f| && BodySize(header) == |f| - HeaderLen &&
      DecodeBody(header.kind.value, f[HeaderLen..]) == m
  {
    FrameHeader(m);
    BodyRoundTrip(m);
  }

  /** The header of a frame announces the frame's type and the length of the body after it. */
  lemma FrameHeader(m: Message)
    requires Fits(m) && !m.Untyped?
    ensures var f := SerializeMessage(m).value;
      var header := DecodeHeader(f[..HeaderLen]);
      header.kind == TypeOf(m) && header.length == |f| && BodySize(header) == |f| - HeaderLen == |EncodeBody(m)| &&
      f[HeaderLen..] == EncodeBody(m)
  {
    var f := SerializeMessage(m).value;
    var t := TypeOf(m).value;
    assert f[..HeaderLen] == EncodeHeader(t, Padding + HeaderLen + |EncodeBody(m)|);
    HeaderRoundTrip(t, |EncodeBody(m)|);
  }

  /**
    The P2PChat serializeMessage step by step: a zeroed buffer of 8 + bodySize bytes, the header
    serialized into its first 8 bytes, and bodySize bytes of the body copied to offset 8.
  */
  lemma SerializeIsCopy(m: Message)
    requires Fits(m) && !m.Untyped?
    ensures var body := EncodeBody(m);
      var buffer := EncodeHeader(TypeOf(m).value, Padding + HeaderLen + |body|) + Zeros(|body|);
      CopyInto(body, |body|, buffer, HeaderLen) == Ok(SerializeMessage(m).value)
  {
    var body := EncodeBody(m);
    var header := EncodeHeader(TypeOf(m).value, Padding + HeaderLen + |body|);
    var buffer := header + Zeros(|body|);
    assert buffer[..HeaderLen] == header;
    assert body[..|body|] == body;
    assert buffer[HeaderLen + |body|..] == [];
    assert CopyInto(body, |body|, buffer, HeaderLen).value == header + body;
  }
}
