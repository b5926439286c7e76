# P2PChat networking, peer data readers and two C++ challenges, in Dafny

This project models the core of a small peer-to-peer chat written in C++, plus two stand-alone
exercises from the same repository:

- **NetworkCom** (`P2PChat/netlib/networking.cpp`). This is the chat's networking layer:
  - the registry mapping peer names to sockets and sockets to names;
  - the 8-byte frame header, whose length field is padded by 10^9;
  - `serializeMessage` and `getMessageHeader`;
  - the per-connection receive loop `handleConnections`, with its cleanup;
  - `deserializeHandleMessage`, which turns frames into UI callbacks;
  - `sendMessage`, `connectPeer`, `startListening` and `stopListening`.

  The earlier version in `netlib/networking.cpp` is modelled next to it (module `OldNetlib`).
- **Peer data readers** (`P2PChat/dataio/dataio.cpp`, and the stubbed `dataio/dataio.cpp`):
  - the reader factory;
  - the reader list built from a JSON configuration;
  - the JSON and CSV `readData` loops, with their per-element error handling.
- **`Peer::operator<`** in the three headers that declare `Peer`: the order used by
  `std::map<Peer, …>`.
- **`IPv4`** (`CppChallenges/IPv4.cpp`): the conversions to and from `unsigned long`, `++` and
  `--`, the comparisons, `operator>>`, `operator<<`, `clear`, and the range loop in `main`.
- **The 2D matrix** (`CppChallenges/2DArray.cpp`): checked row and column indexing, the four
  constructors, and the row-major iterator that `std::fill` runs through.

Modules and files:

| file | module | models |
|---|---|---|
| outcome.dfy | `Outcome` | `Option` and `Result` |
| text.dfy | `Text` | `std::getline` splitting, decimal digits, `std::stoi`, conversion to `short` |
| wire.dfy | `Wire` | frame header, message bodies, P2PChat `serializeMessage` |
| transport.dfy | `Transport` | `recv` on a connected socket, reading a fixed number of bytes |
| registry.dfy | `SocketRegistry` | `openSockets` / `openSocketsToName` and their four operations |
| netlib.dfy | `Netlib` | P2PChat dispatch, receive loop, send, connect, listen |
| oldnetlib.dfy | `OldNetlib` | the earlier `netlib/networking.cpp` |
| peers.dfy | `Peers` | `Peer` and its `operator<` |
| dataio.dfy | `DataIO` | reader factory, JSON and CSV readers, configuration |
| ipv4.dfy | `IPv4Addr` | the `IPv4` class |
| matrix.dfy | `Matrix2D` | `Row`, `Matrix` and `Matrix::Iterator` |

Conventions used throughout:

- **Exceptions** become values, so an error path is an outcome of the function and not a
  precondition:
  - `std::out_of_range` is `Err(OutOfRange(message))`;
  - a `json::type_error` is `Err(TypeError(id))`;
  - a `std::stoi` failure is `Err(InvalidArgument)` or `Err(OutOfRange)`.
- **UI callbacks** are an event trace.
- **The peer's side of a socket** is a list of segments: runs of bytes, then an orderly close or
  an error. `recv` is modelled on that list.
- **The socket calls** (`send`, `connect`, `close`) become outcomes: the frame that would be
  sent, the status `connect` returned, and the set of sockets that would be closed.
- **Freshly allocated buffers** (`new uint8_t[n]`) hold indeterminate bytes. The model takes a
  `Junk` function as input: allocation k holds `junk(k, i)` at position i. Frame k of a
  connection reads its header into allocation 2k and its body into allocation 2k + 1. Where
  `recv` wrote only part of a buffer, the rest keeps the allocation's bytes. The sender's
  `std::vector<uint8_t>(bufferLen)` is zero-initialized and is modelled as zeros.
- **Undefined behaviour** is not given a meaning, with one assumption noted under "Left out"
  (the reserved body buffer of `serializeMessage`). An out-of-bounds `std::copy` is modelled as
  a fault that ends the call, so nothing after it (such as the `send`) happens in the model.
- **Process termination**: a `new uint8_t[n]` that cannot succeed throws (`std::bad_alloc`, or
  its subclass `std::bad_array_new_length`). Nothing catches it on the connection's thread, so
  `std::terminate` ends the process. The receive loops report this as `terminated`, with no further callback and no cleanup.
- **Machine integers** are unbounded in the model. Wrap-around is written out where the source
  depends on it:
  - the header length is a 32-bit `int`;
  - `msgHeader.length - headerSize` is computed in `size_t`;
  - `to_ulong() ± 1` is computed in a 64-bit `unsigned long`;
  - the port is converted to a 16-bit `short`.

## Model

| member | source | states |
|---|---|---|
| Text.RawSplit | P2PChat/dataio/dataio.cpp:49-51 | splitting on a delimiter yields at least one field, and no field contains the delimiter |
| Text.GetlineSplit | P2PChat/dataio/dataio.cpp:44-51 | the fields a getline loop yields (also used at CppChallenges/IPv4.cpp:91) contain no delimiter; there are none exactly for the empty string; joined with the delimiter they give back the string, less one trailing delimiter if it ended with one |
| Text.JoinRawSplit | CppChallenges/IPv4.cpp:91 | joining the split fields with the delimiter gives back the original string, so splitting loses nothing |
| Text.RawSplitJoin | P2PChat/dataio/dataio.cpp:49-51 | splitting a join of delimiter-free fields gives back exactly those fields |
| Text.GetlineSplitJoin | P2PChat/dataio/dataio.cpp:44-51 | repeated getline on a delimiter-joined text returns the joined parts, provided the last part is non-empty (getline drops an empty final piece) |
| Text.Decimal | CppChallenges/IPv4.cpp:112 | the decimal rendering of a number is a non-empty run of digits |
| Text.DigitsValueDecimal | CppChallenges/IPv4.cpp:112 | reading back the decimal rendering of n gives n |
| Text.SkipSpaces | CppChallenges/IPv4.cpp:93 | what stoi reads after skipping leading whitespace does not start with a space |
| Text.LeadingDigits | CppChallenges/IPv4.cpp:93 | the digit prefix stoi consumes consists of digits only |
| Text.Stoi | CppChallenges/IPv4.cpp:93 | stoi succeeds only with a value in the 32-bit int range |
| Text.StoiDigits | P2PChat/dataio/dataio.cpp:54 | after the sign, stoi throws invalid_argument exactly when no digit follows, and any value it returns fits in an int |
| Text.StoiOfDigits | CppChallenges/IPv4.cpp:93 | stoi of a digit string whose value fits in an int returns that value |
| Text.StoiDecimal | CppChallenges/IPv4.cpp:93 | stoi reads back any decimal rendering of a number up to INT_MAX |
| Text.ToShort | P2PChat/inetui/PeersInfo.h:12 | converting an int to short keeps the value modulo 2^16, and keeps it exactly when it is in the short range |
| Wire.Int32 | P2PChat/netlib/networking.cpp:192 | an int holding x after 32-bit two's complement wrap-around: in range, congruent to x, and x itself when x fits |
| Wire.KindOf | P2PChat/netlib/networking.cpp:181-191 | a header tag byte maps to a message type exactly when it is that type's tag, and to no type otherwise |
| Wire.TagOf | P2PChat/netlib/networking.cpp:128-150 | the header tag of a type is one of the three wire tags |
| Wire.TagOfInjective | P2PChat/netlib/networking.cpp:128-150 | distinct message types get distinct tags |
| Wire.EncodeHeader | P2PChat/netlib/networking.cpp:165-170 | the serialized header takes exactly MSG_HEADER_LEN (8) bytes |
| Wire.DecodeHeader | P2PChat/netlib/networking.cpp:177-194 | getMessageHeader reads the type from the tag and the length as the length field minus 10^9, wrapped to an int |
| Wire.LengthField | P2PChat/netlib/networking.cpp:179-191 | the length field read from a header is an unsigned 32-bit number |
| Wire.BodySize | P2PChat/netlib/networking.cpp:249 | the receiver's body size is the header length minus 8 when the header length is at least 8, and wraps around in 64 bits otherwise |
| Wire.LengthFieldOfHeader | P2PChat/netlib/networking.cpp:167-170 | the length field written into the header is the one read back from it |
| Wire.HeaderRoundTrip | P2PChat/netlib/networking.cpp:165-194 | a header written for type t and body size n decodes to type t, length 8 + n and body size n |
| Wire.CharsRoundTrip | P2PChat/netlib/networking.cpp:131-135 | decoding an encoded name or text gives back the same string |
| Wire.DecodeChars | P2PChat/netlib/networking.cpp:205 | a body that decodes as a string has three bytes per character |
| Wire.DecodeBody | P2PChat/netlib/networking.cpp:202-231 | parsing a body for a header type always yields a message of that type |
| Wire.EncodeBody | P2PChat/netlib/networking.cpp:127-158 | an untyped message has no body, and every typed body parses back, under its own type, to the message |
| Wire.BodyRoundTrip | P2PChat/netlib/networking.cpp:127-158 | parsing an encoded body under its own type gives back the message |
| Wire.CopyInto | P2PChat/netlib/networking.cpp:173 | std::copy of count bytes is performed exactly when it stays inside both buffers (an overrun is undefined behaviour, modelled as a fault that ends the call); the bytes before the target offset are kept, the copied range equals the source prefix, and the bytes after it are kept |
| Wire.SerializeMessage | P2PChat/netlib/networking.cpp:121-175 | an untyped message gives no buffer; otherwise the frame is 8 + bodySize bytes, ends with the body, carries its type tag, and its length field is 10^9 plus the frame length |
| Wire.FrameRoundTrip | P2PChat/netlib/networking.cpp:121-233 | the receiver decodes from a frame the sender's type, the sender's body size and the sender's message |
| Wire.FrameHeader | P2PChat/netlib/networking.cpp:248-249 | the header of a serialized frame announces exactly the body that follows it |
| Wire.SerializeIsCopy | P2PChat/netlib/networking.cpp:169-174 | copying bodySize bytes after the header stays in bounds and produces the serialized frame |
| Transport.Recv | P2PChat/netlib/networking.cpp:240-246 | a successful recv returns between 1 and max bytes, which are the next bytes of the stream; it succeeds exactly when bytes remain; on 0 or -1 the connection is left as it was |
| Transport.ReadUpTo | P2PChat/netlib/networking.cpp:254-263 | reading n bytes completes exactly when the stream has n bytes; it receives the stream's prefix, and the rest starts right after n bytes |
| Transport.ReadExact | P2PChat/netlib/networking.cpp:254-263 | when the stream is p followed by more, reading p's length receives exactly p and leaves the rest |
| Transport.WriteAt | P2PChat/netlib/networking.cpp:255-256 | recv writing a chunk into the buffer at an offset keeps the buffer's size and the bytes before and after the chunk |
| Transport.ReceiveBody | P2PChat/netlib/networking.cpp:251-263 | the body loop writes the stream's prefix into the buffer and leaves the rest of it as the allocation left it; it completes exactly when the whole size arrived; it agrees with ReadUpTo |
| SocketRegistry.GetClientSocket | P2PChat/netlib/networking.cpp:47-53 | an unknown name gives -1, and in a valid registry a non-negative socket is given exactly for registered names |
| SocketRegistry.GetSocketName | P2PChat/netlib/networking.cpp:55-61 | an unknown socket gives "[INVALID]", and in a consistent registry the name found maps back to the socket |
| SocketRegistry.AddNewSocket | P2PChat/netlib/networking.cpp:27-31 | afterwards the name and the socket resolve to each other, and every other name and every other socket resolve as before |
| SocketRegistry.RemoveSocket | P2PChat/netlib/networking.cpp:33-45 | the name is gone, its socket resolves to "[INVALID]", and every other name and socket resolve as before |
| SocketRegistry.AddThenLookup | P2PChat/netlib/networking.cpp:27-61 | after addNewSocket both lookups return what was added |
| SocketRegistry.AddKeepsInverseIff | P2PChat/netlib/networking.cpp:27-31 | addNewSocket keeps the two maps inverse to each other if and only if neither the name nor the socket was bound to something else |
| SocketRegistry.ReconnectLeavesStaleEntry | P2PChat/netlib/networking.cpp:27-31 | re-registering a name on a new socket leaves the old socket still mapped to the name |
| SocketRegistry.StaleCleanupDropsLiveConnection | P2PChat/netlib/networking.cpp:268-271 | the old connection's cleanup then unregisters the name, and the live socket no longer resolves |
| SocketRegistry.Register | P2PChat/netlib/networking.cpp:27-31 | registration that drops stale entries binds the name and the socket to each other and keeps a valid registry valid |
| SocketRegistry.RegisterKeepsInverse | P2PChat/netlib/networking.cpp:27-31 | dropping the old bindings of both the name and the socket before adding keeps the maps inverse |
| SocketRegistry.ReconnectWithRegister | P2PChat/netlib/networking.cpp:268-271 | with that registration, a reconnect unbinds the old socket, and the old connection's cleanup leaves the live one registered |
| SocketRegistry.RemoveKeepsValid | P2PChat/netlib/networking.cpp:33-45 | removeSocket keeps a valid registry valid |
| SocketRegistry.RemoveAbsentIsNoOp | P2PChat/netlib/networking.cpp:33-45 | removing an unregistered name changes nothing |
| Netlib.Add | P2PChat/netlib/networking.cpp:209 | whichever registration the handler uses, the AUTH name and the socket resolve to each other afterwards |
| Netlib.Dispatch | P2PChat/netlib/networking.cpp:196-233 | AUTH registers the sent name for the socket and reports it; TEXT and IMAGE report the decoded content under the name the socket had before and leave the registry alone; an unknown type does nothing; at most one callback |
| Netlib.DispatchFrame | P2PChat/netlib/networking.cpp:196-233 | dispatching a serialized frame makes exactly the callback and registration the message calls for |
| Netlib.ReadLoop | P2PChat/netlib/networking.cpp:236-266 | the receive loop, whose buffers start with whatever the allocation left, only ever makes message callbacks, never a disconnect, whether or not it ends the process |
| Netlib.HandleConnections | P2PChat/netlib/networking.cpp:235-272 | unless the process ended, the last callback is a peerDisconnected whose name is no longer registered; a process that ended made message callbacks only |
| Netlib.Cleanup | P2PChat/netlib/networking.cpp:268-271 | the cleanup appends one peerDisconnected for the socket's name and unregisters that name; in a valid registry the socket is gone as well |
| Netlib.CleanupKeepsValid | P2PChat/netlib/networking.cpp:268-270 | removing the name the socket resolves to keeps a valid registry valid and leaves no entry for the socket |
| Netlib.DisconnectReportedOnce | P2PChat/netlib/networking.cpp:235-272 | unless a length below 8 ended the process, handleConnections ends with exactly one peerDisconnected, as its last callback, and the reported name is no longer registered; when the loop ended the process, so did the handler |
| Netlib.PartialBodyDispatched | P2PChat/netlib/networking.cpp:251-265 | after a whole header and a body cut short by an error, the frame is still dispatched, with the missing bytes whatever the allocation left there; a length below 8 ends the process instead |
| Netlib.ShortLengthTerminates | P2PChat/netlib/networking.cpp:248-251 | a first header whose length is below 8 makes the body size wrap around and its allocation throw, so the process ends with no callback and no cleanup |
| Netlib.ZeroHeaderTerminates | P2PChat/netlib/networking.cpp:248-251 | eight zero bytes at the start of a connection end the process, with no callback |
| Netlib.CheckedLoop | P2PChat/netlib/networking.cpp:237-266 | the loop that dispatches only whole frames makes message callbacks only |
| Netlib.CheckedWhole | P2PChat/netlib/networking.cpp:237-266 | when a whole header and the body it announces arrive, they are dispatched and the loop carries on with exactly the bytes that follow |
| Netlib.CheckedStep | P2PChat/netlib/networking.cpp:237-266 | a serialized message at the head of the stream is delivered, and the loop continues after it |
| Netlib.CheckedStopsShort | P2PChat/netlib/networking.cpp:240-246 | fewer than 8 bytes before the end of the connection deliver nothing and change nothing |
| Netlib.CheckedDeliversOne | P2PChat/netlib/networking.cpp:237-266 | a connection carrying one serialized message delivers exactly that message |
| Netlib.CheckedDelivers | P2PChat/netlib/networking.cpp:237-266 | a connection carrying a sequence of serialized messages delivers them all, in order |
| Netlib.CheckedIgnoresSegmentation | P2PChat/netlib/networking.cpp:237-266 | what is delivered depends only on the bytes received, not on how recv splits them |
| Netlib.CheckedDropsPartialBody | P2PChat/netlib/networking.cpp:254-265 | a frame whose body is cut short by an error is not dispatched |
| Netlib.CheckedRejectsShortLength | P2PChat/netlib/networking.cpp:248-251 | in the corrected loop a header whose length is below 8 ends the connection without a callback, and the cleanup reports the disconnect |
| Netlib.AuthThenText | P2PChat/netlib/networking.cpp:203-221 | after an AUTH frame, a TEXT frame on the same connection is reported under the authenticated name |
| Netlib.AuthThenTextDelivered | P2PChat/netlib/networking.cpp:203-221 | delivering AUTH and then TEXT reports the text under the authenticated name |
| Netlib.ShortHeaderMisread | P2PChat/netlib/networking.cpp:240-249 | a header that arrives as 3 bytes is decoded from a buffer whose last 5 bytes are whatever the allocation left; the body size comes out right exactly when the two of those bytes inside the length field equal the ones the sender wrote |
| Netlib.DigitPairsUnique | P2PChat/netlib/networking.cpp:179-191 | two bytes of the length field are determined by the 16-bit number they spell |
| Netlib.CheckedReadsSplitHeader | P2PChat/netlib/networking.cpp:240-249 | reading the header until all 8 bytes arrive delivers a frame whose header is split across two recv calls |
| Netlib.SendMessage | P2PChat/netlib/networking.cpp:274-284 | nothing is sent to an unknown peer; an untyped message dereferences a null buffer; otherwise the frame goes to the peer's socket and has 8 + bodySize bytes |
| Netlib.SendThenReceive | P2PChat/netlib/networking.cpp:274-284 | a message sent to a known peer is sent, and the frame is delivered on the other side as that message |
| Netlib.ConnectPeer | P2PChat/netlib/networking.cpp:286-307 | connectPeer reports success exactly when connect did not fail; a failure leaves the registry alone; a success binds the peer's name and the socket to each other |
| Netlib.ConnectThenSend | P2PChat/netlib/networking.cpp:286-307 | after a successful connect, a message to that peer's name is sent, as its frame, to the new socket |
| Netlib.StartListening | P2PChat/netlib/networking.cpp:82-106 | once socket, bind and listen succeeded, the descriptor socket() returned becomes the local socket, the UI is told that binding succeeded and the layer is listening, with the registry unchanged |
| Netlib.StopListening | P2PChat/netlib/networking.cpp:63-77 | if not listening, nothing happens; otherwise every registered socket and the local socket are closed and listening stops, with the registry unchanged |
| Netlib.StopIsIdempotent | P2PChat/netlib/networking.cpp:63-106 | stopping twice closes nothing the second time, and stopping after start closes the socket start created and stops listening |
| OldNetlib.OldAdd | netlib/networking.cpp:30-33 | the name maps to the socket afterwards, and every other name is unchanged |
| OldNetlib.OldRemove | netlib/networking.cpp:35-40 | the name is gone afterwards, and every other name is unchanged |
| OldNetlib.OldGet | netlib/networking.cpp:42-48 | a registered name gives its socket, and an unknown name gives -1 |
| OldNetlib.OldAddRemove | netlib/networking.cpp:30-48 | removing after adding forgets the name, and removing an absent name changes nothing |
| OldNetlib.OldSerializeMessage | netlib/networking.cpp:99-154 | an untyped message gives no buffer; every typed message reaches an out-of-bounds copy (the image staging copy or the frame copy), which, with undefined behaviour modelled as a fault that ends the call, means no frame is returned |
| OldNetlib.ImageStaging | netlib/networking.cpp:127-132 | copying the image into the message object's one-element destination faults exactly for an image of 2 or more bytes, with a write overrun past that one element |
| OldNetlib.OldCopyOverflows | netlib/networking.cpp:127-152 | an image of 2 or more bytes faults first at the staging copy, writing past its one-element target; every other typed message reaches the frame copy, which reads bufferLen bytes from a body of bodySize bytes, 8 past its end (and would also write 8 past the frame's end) |
| OldNetlib.OldDispatch | netlib/networking.cpp:177-208 | AUTH registers the name and reports it; TEXT and IMAGE report the content without a sender; an unknown type does nothing |
| OldNetlib.OldDeliver | netlib/networking.cpp:177-208 | an AUTH message registers its name for the socket and reports it; the others leave the sockets alone; TEXT and IMAGE report their content and an untyped message nothing |
| OldNetlib.OldHandle | netlib/networking.cpp:210-238 | the old loop never unregisters a name, whether the connection ends or the process does |
| OldNetlib.OldDropsPartialBody | netlib/networking.cpp:226-234 | a body cut short ends the handler without dispatching and without ending the process |
| OldNetlib.OldDeliversWholeFrame | netlib/networking.cpp:210-238 | a whole frame followed by a close is delivered, and an AUTH sender stays registered after the connection ends |
| OldNetlib.OldWhole | netlib/networking.cpp:210-238 | one header with the body it announces, then a close, dispatches exactly that frame; a header whose length is below 8 ends the process instead |
| OldNetlib.OldZeroHeaderTerminates | netlib/networking.cpp:221-223 | eight zero bytes at the start of a connection end the process, with no callback |
| OldNetlib.OldSendMessage | netlib/networking.cpp:240-251 | nothing is sent to an unknown peer; an untyped message dereferences a null buffer; otherwise the socket used is the peer's |
| OldNetlib.OldSendNeverSends | netlib/networking.cpp:240-251 | with overrunning copies modelled as faults that end the call, no typed message to a known peer reaches send: an image of 2 or more bytes stops at the staging write, every other typed message at the read past the body |
| OldNetlib.OldConnectPeer | netlib/networking.cpp:253-271 | a failed connect leaves the registry alone, and a successful one registers the peer's socket |
| OldNetlib.Disconnect | netlib/networking.cpp:273-275 | disconnect leaves the peer's registration as it was |
| OldNetlib.ConnectDisconnectKeepsPeer | netlib/networking.cpp:253-275 | after connect and then disconnect, the peer's name still resolves to the connected socket |
| Peers.MakePeer | P2PChat/inetui/PeersInfo.h:12 | the constructor stores name, address and port in their fields |
| Peers.StrLess | P2PChat/inetui/PeersInfo.h:17 | std::string's < never holds between equal strings, and a proper prefix is less than the string |
| Peers.StrLessIrreflexive | P2PChat/inetui/PeersInfo.h:17 | std::string's < never holds between a string and itself |
| Peers.StrLessTransitive | P2PChat/inetui/PeersInfo.h:17 | std::string's < is transitive |
| Peers.StrLessTrichotomy | P2PChat/inetui/PeersInfo.h:17 | of two strings, exactly one is less than the other or they are equal |
| Peers.Less | P2PChat/inetui/PeersInfo.h:14-18 | Peer's < is the lexicographic order on the (address, port) pair |
| Peers.LessIgnoresName | inetui/PeersInfo.h:10-14 | the order never looks at the name, so two peers differing only in name are equivalent |
| Peers.LessIrreflexive | inetui/UiNetlibInterfaces.h:15-19 | no peer is less than itself |
| Peers.LessAsymmetric | P2PChat/inetui/PeersInfo.h:14-18 | if a < b then not b < a |
| Peers.LessTransitive | P2PChat/inetui/PeersInfo.h:14-18 | < is transitive |
| Peers.LessTrichotomy | P2PChat/inetui/PeersInfo.h:14-18 | two peers either compare one way, the other way, or have the same address and port, and exactly one of these holds |
| Peers.IncomparableTransitive | P2PChat/inetui/PeersInfo.h:14-18 | incomparability is transitive, so < is the strict weak order std::map requires |
| DataIO.CreateDataReader | P2PChat/dataio/dataio.cpp:75-84 | a reader is created exactly for "json", "csv" and "sqlite", of the matching kind and with the given path |
| DataIO.CreateDataReaderExact | dataio/dataio.cpp:43-52 | each kind's type name creates that kind's reader, and no other type name does |
| DataIO.CreateDataReaderCaseSensitive | P2PChat/dataio/dataio.cpp:77-83 | the type names are matched case-sensitively |
| DataIO.Member | P2PChat/dataio/dataio.cpp:21 | a non-null member lookup finds an entry with that key |
| DataIO.Elements | P2PChat/dataio/dataio.cpp:19 | range-for visits an array's items, one value per object member, and nothing for null |
| DataIO.AsString | P2PChat/dataio/dataio.cpp:21 | conversion to std::string succeeds exactly for strings |
| DataIO.AsShort | P2PChat/dataio/dataio.cpp:21 | conversion to short succeeds exactly for numbers and booleans, and a number is truncated to 16 bits |
| DataIO.PeerOf | P2PChat/dataio/dataio.cpp:21 | an element that is neither an object nor null throws type_error 305, and a failed conversion throws only 302 or 305 |
| DataIO.PeerOfOk | P2PChat/dataio/dataio.cpp:21 | an element converts exactly when it is an object (or null) whose name and ip are strings and whose port is a number or a boolean; the peer then holds those fields |
| DataIO.KeepConverted | P2PChat/dataio/dataio.cpp:19-27 | the readers collect no more peers than there were elements |
| DataIO.CollectPeers | P2PChat/dataio/dataio.cpp:19-27 | the loop keeps at most one peer per element |
| DataIO.JsonReadData | P2PChat/dataio/dataio.cpp:14-29 | every peer read is the conversion of an element of the document; when every element converts, the peers are those conversions, one per element, in order |
| DataIO.JsonScalarDocuments | P2PChat/dataio/dataio.cpp:17-19 | a null, number or string document yields no peers |
| DataIO.JsonDocumentShapes | P2PChat/dataio/dataio.cpp:17-19 | an object document is read through its member values |
| DataIO.CollectPeersAppend | P2PChat/dataio/dataio.cpp:19-27 | reading a concatenation collects the peers of each part, in order |
| DataIO.SkipsBadElement | P2PChat/dataio/dataio.cpp:24-26 | an element that throws a json exception is skipped without affecting the others |
| DataIO.CollectPeersSound | P2PChat/dataio/dataio.cpp:19-27 | every collected peer is the conversion of some element |
| DataIO.CollectsAllGood | P2PChat/dataio/dataio.cpp:19-27 | when every element converts, the peers are those conversions, one per element, in order |
| DataIO.JsonExamples | P2PChat/dataio/dataio.cpp:21-25 | port 70000 becomes 4464; a string port throws type_error 302; a number element throws 305; a null element throws 302 |
| DataIO.CsvRow | P2PChat/dataio/dataio.cpp:45-53 | a line is skipped exactly when getline splits it into fewer than 3 columns |
| DataIO.CsvRowColumns | P2PChat/dataio/dataio.cpp:44-56 | a line is skipped exactly when it has fewer than 3 columns; otherwise it yields a peer exactly when stoi accepts the third column, and that peer holds the first two columns and the port truncated to short; otherwise stoi's error |
| DataIO.CollectRows | P2PChat/dataio/dataio.cpp:44-57 | the CSV reader collects no more peers than there are lines |
| DataIO.CollectRowsErrIff | P2PChat/dataio/dataio.cpp:54 | reading fails exactly when some row's stoi throws |
| DataIO.CsvFailsIff | P2PChat/dataio/dataio.cpp:44-57 | the whole file fails exactly when some line has 3 or more columns and a third column stoi rejects |
| DataIO.CsvReadData | P2PChat/dataio/dataio.cpp:38-59 | reading fails exactly when some line's stoi throws; otherwise there are at most as many peers as lines |
| DataIO.CsvLinesAppend | P2PChat/dataio/dataio.cpp:44-57 | when both parts read without error, reading their concatenation collects the peers of each part, in order |
| DataIO.CsvSingleLine | P2PChat/dataio/dataio.cpp:52-56 | one accepted line yields its peer, and one short line yields nothing |
| DataIO.ColumnsOf | P2PChat/dataio/dataio.cpp:49-51 | a line written as name,ip,port splits back into those three columns |
| DataIO.CsvRowRoundTrip | P2PChat/dataio/dataio.cpp:49-56 | a line written from a name, an ip and a port in the short range reads back as that peer |
| DataIO.SameFirstColumns | P2PChat/dataio/dataio.cpp:52-54 | lines that agree on their first three columns read the same |
| DataIO.CsvRowIgnoresExtraColumns | P2PChat/dataio/dataio.cpp:52-54 | columns after the third do not change what a line reads as |
| DataIO.CsvShortLinesSkipped | P2PChat/dataio/dataio.cpp:52-53 | an empty line and a two-column line are skipped |
| DataIO.CsvFileLines | P2PChat/dataio/dataio.cpp:44 | a file made of newline-separated lines is read line by line |
| DataIO.StubReadData | dataio/dataio.cpp:14-38 | every reader of the older data layer returns a null result, and so does the SQLite reader of P2PChat/dataio/dataio.cpp (lines 68-70) |
| DataIO.ReadersFromConfig | P2PChat/dataio/dataio.cpp:86-100 | a null configuration gives no readers; a configuration that is neither object nor null throws; with an object of data sources it throws exactly when some path is not a string |
| DataIO.ReadersFromValue | P2PChat/dataio/dataio.cpp:91 | null data sources give no readers, and an object is read entry by entry |
| DataIO.ReadersFromSources | P2PChat/dataio/dataio.cpp:91-98 | no more readers than entries |
| DataIO.ReadersFromSourcesAppend | P2PChat/dataio/dataio.cpp:91-98 | with string paths throughout, the readers of a concatenation are the readers of each part, in order |
| DataIO.ReadersFromSourcesOk | P2PChat/dataio/dataio.cpp:92 | when every path is a string, no exception escapes |
| DataIO.ReadersFromSourcesErrIff | P2PChat/dataio/dataio.cpp:92 | reading the sources throws exactly when some path is not a string |
| DataIO.ReadersFromSourcesSound | P2PChat/dataio/dataio.cpp:91-96 | every reader comes from an entry whose name is its kind's type name and whose value is its path as a string |
| DataIO.ReadersFromOneSource | P2PChat/dataio/dataio.cpp:94-96 | one entry gives its reader when the type is known and nothing otherwise |
| DataIO.ConfigExample | dataio/dataio.cpp:54-68 | sources csv, json and ldap give the csv and json readers, in order; a null configuration gives none; a numeric path throws type_error 302 |
| IPv4Addr.ValueBound | CppChallenges/IPv4.cpp:37-39 | the address value fits in 32 bits, and the top bit is set exactly when the first part is 128 or more |
| IPv4Addr.ToULong | CppChallenges/IPv4.cpp:37-39 | to_ulong fits in 64 bits and agrees with the address value modulo 2^32; it is below 2^32 exactly when the first part is below 128 |
| IPv4Addr.FromULong | CppChallenges/IPv4.cpp:30-33 | the constructor from unsigned long keeps the low 32 bits |
| IPv4Addr.OctetsOfValue | CppChallenges/IPv4.cpp:30-39 | constructing from an address's value gives back the address |
| IPv4Addr.ValueInjective | CppChallenges/IPv4.cpp:37-39 | two addresses with the same value are the same address |
| IPv4Addr.ULongRoundTrip | CppChallenges/IPv4.cpp:30-39 | to_ulong (sign-extended when the first part is 128 or more) agrees with the value modulo 2^32, and the constructor gives back the address |
| IPv4Addr.Next | CppChallenges/IPv4.cpp:47-50 | ++ adds one to the address value modulo 2^32 |
| IPv4Addr.Prev | CppChallenges/IPv4.cpp:57-60 | -- subtracts one from the address value modulo 2^32 |
| IPv4Addr.WrapStep | CppChallenges/IPv4.cpp:48 | stepping to_ulong in 64-bit arithmetic and keeping 32 bits is stepping the 32-bit value |
| IPv4Addr.PostIncrement | CppChallenges/IPv4.cpp:51-55 | postfix ++ returns the old address and advances the variable by one |
| IPv4Addr.PostDecrement | CppChallenges/IPv4.cpp:61-65 | postfix -- returns the old address and steps the variable back by one |
| IPv4Addr.NextValue | CppChallenges/IPv4.cpp:47-50 | ++ gives value + 1, except that the last address wraps to 0 |
| IPv4Addr.PrevValue | CppChallenges/IPv4.cpp:57-60 | -- gives value - 1, except that 0 wraps to the last address |
| IPv4Addr.NextPrevInverse | CppChallenges/IPv4.cpp:47-60 | ++ and -- undo each other |
| IPv4Addr.NextOfLast | CppChallenges/IPv4.cpp:47-50 | ++ on the last address gives 0.0.0.0 |
| IPv4Addr.PrevOfFirst | CppChallenges/IPv4.cpp:57-60 | -- on 0.0.0.0 gives the last address |
| IPv4Addr.IncrementWraps | CppChallenges/IPv4.cpp:47-60 | 255.255.255.255 ++ is 0.0.0.0, and 0.0.0.0 -- is 255.255.255.255 |
| IPv4Addr.Equal | CppChallenges/IPv4.cpp:67-69 | == holds exactly for equal addresses |
| IPv4Addr.NotEqual | CppChallenges/IPv4.cpp:70-72 | != holds exactly for different addresses |
| IPv4Addr.Less | CppChallenges/IPv4.cpp:124-126 | < compares the 32-bit address values |
| IPv4Addr.Greater | CppChallenges/IPv4.cpp:128-130 | > compares the 32-bit address values |
| IPv4Addr.LessEq | CppChallenges/IPv4.cpp:132-134 | <= compares the 32-bit address values |
| IPv4Addr.GreaterEq | CppChallenges/IPv4.cpp:136-138 | >= compares the 32-bit address values |
| IPv4Addr.TotalOrder | CppChallenges/IPv4.cpp:124-138 | < is a strict total order; <= is < or ==; >= is > or == |
| IPv4Addr.Clear | CppChallenges/IPv4.cpp:119-122 | clear sets all four parts to zero, which is the value 0 |
| IPv4Addr.Format | CppChallenges/IPv4.cpp:109-117 | the printed address consists of the four parts in decimal, separated by dots, with no trailing dot |
| IPv4Addr.StoiAll | CppChallenges/IPv4.cpp:93 | each dot-separated part is read by its own stoi, in order |
| IPv4Addr.Parse | CppChallenges/IPv4.cpp:83-107 | operator>> accepts exactly when at most four parts were read and each is an in-range octet, and a rejected line leaves the address cleared |
| IPv4Addr.ReadParts | CppChallenges/IPv4.cpp:88-105 | the reading loop accepts exactly when at most four parts remain and each is an in-range octet, and a rejected input leaves the address cleared |
| IPv4Addr.ReadPartsStores | CppChallenges/IPv4.cpp:92-93 | after an accepted read, each part read is stored at its position |
| IPv4Addr.ReadPartsKeeps | CppChallenges/IPv4.cpp:92-93 | after an accepted read, positions no part was read for keep their old value |
| IPv4Addr.FourPartsDetermine | CppChallenges/IPv4.cpp:88-105 | an accepted read of four parts yields exactly the address those parts spell |
| IPv4Addr.ReadOctets | CppChallenges/IPv4.cpp:88-105 | reading an address's four octets yields that address, whatever was stored before |
| IPv4Addr.DecimalsRead | CppChallenges/IPv4.cpp:93 | stoi reads back each printed octet |
| IPv4Addr.FormatParseRoundTrip | CppChallenges/IPv4.cpp:83-117 | reading what operator<< prints yields the printed address |
| IPv4Addr.ShortInputAccepted | CppChallenges/IPv4.cpp:88-105 | operator>> accepts "1.2" and the empty line, keeping the old parts it did not overwrite |
| IPv4Addr.ParseExact | CppChallenges/IPv4.cpp:101-105 | the reader that demands four parts accepts exactly when the line has four parts and stoi reads each as a value in 0..255, and a rejected read clears the address |
| IPv4Addr.ParseExactIgnoresOldValue | CppChallenges/IPv4.cpp:101-105 | the reader that demands four parts produces a result independent of the old value, and reads back every printed address |
| IPv4Addr.ListRange | CppChallenges/IPv4.cpp:157-161 | counting down from hi while the address is at least lo lists hi - lo + 1 addresses (none when hi < lo), the k-th being hi - k |
| IPv4Addr.ListRangeInclusive | CppChallenges/IPv4.cpp:157-161 | the listing that stops once lo is listed gives hi - lo + 1 addresses (none when hi < lo), the k-th being hi - k, for every lo including 0.0.0.0 |
| IPv4Addr.GuardHoldsAtZero | CppChallenges/IPv4.cpp:136-138 | every address is >= 0.0.0.0, so counting down to 0.0.0.0 never ends |
| Matrix2D.Fill | CppChallenges/2DArray.cpp:41-48 | a filled row holds the filler in every position |
| Matrix2D.FlattenAppend | CppChallenges/2DArray.cpp:132-137 | row-major order of stacked rows is the concatenation of each block's order |
| Matrix2D.FlattenLength | CppChallenges/2DArray.cpp:132-137 | a rows x cols matrix has rows * cols cells in row-major order |
| Matrix2D.FlattenIndex | CppChallenges/2DArray.cpp:98-113 | cell (i, j) sits at position i * cols + j in row-major order |
| Matrix2D.FlattenUpdate | CppChallenges/2DArray.cpp:113 | writing cell (i, j) writes position i * cols + j of the row-major order |
| Matrix2D.RowAt | CppChallenges/2DArray.cpp:74-83 | row indexing throws "Invalid row index." exactly for a negative row or one at or past Rows, and otherwise gives a row of Cols cells |
| Matrix2D.ColumnAt | CppChallenges/2DArray.cpp:20-30 | column indexing throws "Invalid column index." exactly for a negative column or one at or past Cols |
| Matrix2D.At | CppChallenges/2DArray.cpp:20-83 | m[r][c] succeeds exactly when both the row and the column are in range |
| Matrix2D.AtIsRowMajor | CppChallenges/2DArray.cpp:20-83 | m[r][c] checks the row before the column, and in range gives cell r * cols + c of the row-major order |
| Matrix2D.Filled | CppChallenges/2DArray.cpp:41-48 | the filler constructor gives a rows x cols matrix holding the filler in every cell |
| Matrix2D.FlattenFilled | CppChallenges/2DArray.cpp:41-48 | a filled matrix's row-major order is rows * cols copies of the filler |
| Matrix2D.FromList | CppChallenges/2DArray.cpp:49-59 | the list constructor throws "Number of items is more than matrix capacity." exactly when the list is longer than rows * cols; otherwise the row-major order is the list followed by default values |
| Matrix2D.FromListPlacesItem | CppChallenges/2DArray.cpp:52-57 | item k of the list lands in row k / cols, column k % cols |
| Matrix2D.FromListKeepsRest | CppChallenges/2DArray.cpp:16 | cells past the list keep their default value |
| Matrix2D.CopyOf | CppChallenges/2DArray.cpp:60-67 | the copy constructor gives a matrix of the same shape with the same cell in every position |
| Matrix2D.Move | CppChallenges/2DArray.cpp:68-72 | the move constructor takes the source's storage and leaves the source with none |
| Matrix2D.MovePreservesCells | CppChallenges/2DArray.cpp:68-83 | indexing the moved-to matrix gives what indexing the original gave |
| Matrix2D.Increment | CppChallenges/2DArray.cpp:98-102 | ++ moves to the next position in row-major order: the next column, or column 0 of the next row |
| Matrix2D.PostIncrement | CppChallenges/2DArray.cpp:119-123 | postfix ++ returns the old iterator and advances by one position |
| Matrix2D.IterEqual | CppChallenges/2DArray.cpp:124-129 | iterators compare equal exactly when row and column agree, whatever matrix they point into |
| Matrix2D.Begin | CppChallenges/2DArray.cpp:132-134 | begin is row-major position 0 in the matrix it came from |
| Matrix2D.End | CppChallenges/2DArray.cpp:135-137 | end is row-major position rows * cols, and equals begin exactly for a matrix with no rows |
| Matrix2D.Deref | CppChallenges/2DArray.cpp:113 | for a row in range, * throws "Invalid column index." exactly when the column is out of range, and otherwise gives the cell at the iterator's row-major position |
| Matrix2D.Traverse | CppChallenges/2DArray.cpp:158-160 | iterating from begin to end visits every cell once, in row-major order, in rows * cols steps |
| Matrix2D.FillThrough | CppChallenges/2DArray.cpp:161 | std::fill from begin to end gives the matrix the filler constructor would give |

## Left out

- Sockets themselves are not modelled: `socket`, `bind`, `listen`, `accept`, `gethostbyname`,
  `inet_addr`, `htons` and `close`. A connection's bytes are an input, `connect`'s status is a
  parameter, and closing is the set of sockets that would be closed.
- The accept loop of `startListening` and the thread started per connection are not modelled.
  `Netlib.StartListening` models only the state after a successful bind.
- Concurrency is not modelled: the `shared_mutex` around the registry, and handlers running
  on several threads. Every operation is modelled as atomic.
- Logging and `printf` are not modelled; they do not affect state.
- The `exit(EXIT_FAILURE)` paths of `startListening` are not modelled; they end the process.
- The old `startListening` (netlib/networking.cpp:50-87) is not modelled on its own. It differs
  from the P2PChat one only in logging, in not calling `bindSucceeded`, and in retrying a failed
  `accept`.
- The protobuf wire format is not modelled. The header codec and the body codec are stand-ins
  with the properties the framing uses:
  - the header is 8 bytes and carries a 32-bit length field;
  - a body parses back to its message.

  What protobuf would do with a body that does not parse is modelled as an empty field.
- An unknown header tag: the model leaves the type unset and dispatches nothing. In the source,
  `msgHeader.type` keeps its value-initialized zero, whichever enumerator that is. The P2PChat
  `MessageTypes.h` that defines it is not part of this model.
- Wire.SerializeMessage: requires the padded frame length to fit in an `int`
  (body of at most 2^31 - 1 - 10^9 - 8 bytes). Beyond that, the source's `int` arithmetic
  overflows, which is undefined behaviour.
- Wire.SerializeMessage: assumes the body buffer holds bodySize bytes. The source calls
  `reserve(bodySize)` and then writes and reads through `bodyBuffer->data()`
  (P2PChat/netlib/networking.cpp:134-135, 145-146, 156-157 and 173). The vector's size stays 0,
  so those accesses are formally outside the vector. The model treats the reserved storage as
  the serialized body.
- OldNetlib.ImageStaging: for an image of 0 or 1 byte, what the staging copy leaves in the
  message object is not modelled. The body is taken to be the whole image, and the call then
  ends at the frame copy in any case.
- IPv4Addr.IPv4: the parts are octets 0..255 in the model. The source stores
  `std::array<int, 4>`, and its constructor `IPv4(int a, int b, int c, int d)`
  (CppChallenges/IPv4.cpp:34) accepts any int. With out-of-range parts, `to_ulong` mixes the
  parts' bits, and the comparisons no longer follow the octets. That constructor is not
  modelled; `main` calls it only with octets.
- The default constructor `Peer()` (P2PChat/inetui/PeersInfo.h:11) is not modelled; nothing in
  the modelled code uses it.
- IPv4Addr.ListRange: requires `lo` to differ from 0.0.0.0. With `lo` = 0.0.0.0 the loop in
  `main` never ends (`IPv4Addr.GuardHoldsAtZero`), so there is no result to state.
- Matrix2D.Filled, Matrix2D.FromList and the other matrix members: require `cols > 0`. A
  `Row<T, 0>` declares a zero-length array member, which standard C++ rejects at compile time.
- The matrix `operator<<` and `print` (CppChallenges/2DArray.cpp:140-154) are not modelled;
  they only write to a stream. The destructor's `delete[]` is not modelled either.
- `IPv4` `operator>>` reads its line from a stream; the model takes the line as input. The
  exception `bad_ipv4_format` is the `Rejected` outcome, and an exception from `std::stoi` is
  the `StoiThrew` outcome.
- Files are not modelled: `std::ifstream` and `json::parse` are replaced by their contents,
  which the model takes as input (a JSON value, or the file's text).
- JSON numbers are integers in the model. Floating-point numbers and their conversion to
  `short` are not modelled.
- JSON object members are taken in the order given. nlohmann's `std::map` sorts them by key;
  the order of the input is assumed to be that order already.
- DataIO.ReadersFromConfig: states nothing about a `data_sources` array. The model says that an
  empty array gives no readers and any other array throws type_error 305 at
  `config["data_sources"][name]`. The contract states only the null, object and non-object
  configurations.
- Wire.CopyInto, OldNetlib.OldSerializeMessage, OldNetlib.OldSendMessage: an out-of-bounds
  `std::copy` is undefined behaviour, and the model does not say what it does. It is modelled
  as a fault that ends the call. This covers the old image staging copy
  (netlib/networking.cpp:131-132) and the old frame copy (line 152). The old `sendMessage` is
  therefore never shown sending a typed message: the model states what the copy would overrun, not what a real build would send.
- Allocation failure for sizes a body can actually have: `new uint8_t[n]` with n at most
  2^31 - 9 (what a 32-bit length can announce) is assumed to succeed. Only the wrapped-around
  sizes of at least 2^64 - 2^31 - 8, which no allocator can provide, throw in the model.
- The contents of a fresh buffer are arbitrary and chosen per allocation by the `Junk` input.
  Nothing is assumed about them, and every property of the receive loops holds for every choice.
- `std::unique_ptr<uint8_t>` holding a `new[]` array is released with `delete` instead of
  `delete[]`, which is undefined behaviour. Memory release is not modelled.
- The `NetworkCom` constructor and destructor and `createNetworking` are not modelled; they only
  store their arguments.

## Findings

| source | as written | input that shows it | evidently intended | confidence | as-written member | corrected member |
|---|---|---|---|---|---|---|
| P2PChat/netlib/networking.cpp:27-31 | `addNewSocket` overwrites both maps without removing the old entries, so a reconnecting name leaves its old socket mapped to it; when the old connection ends, its cleanup removes the name that now belongs to the live connection | "bob" on socket 5, then "bob" on socket 7, then socket 5 closes: `getClientSocket("bob")` is -1 while socket 7 is still open | a registration that drops the name's old socket and the socket's old name, keeping the two maps inverse | not executed | SocketRegistry.StaleCleanupDropsLiveConnection | SocketRegistry.ReconnectWithRegister |
| P2PChat/netlib/networking.cpp:254-265 | when the body loop stops on an error, the loop only clears `waitAndReceive`, and the partly filled buffer is still handed to `deserializeHandleMessage` | a header announcing 10 body bytes, then 4 bytes, then a recv error: the message is dispatched with 6 bytes that were never received, whatever the allocation left there | dispatch only a frame whose body arrived whole | not executed | Netlib.PartialBodyDispatched | Netlib.CheckedDropsPartialBody |
| P2PChat/netlib/networking.cpp:240-249 | the header is taken from a single `recv` of at most 8 bytes, and a short read is decoded from a buffer whose unwritten bytes are whatever the allocation left | a TEXT frame whose first `recv` returns 3 bytes: bytes 3 to 7 of the header buffer are indeterminate when the length field is decoded, and the body size is right only if two of them happen to match what the sender wrote | read the header like the body, until all 8 bytes have arrived | not executed | Netlib.ShortHeaderMisread | Netlib.CheckedReadsSplitHeader |
| netlib/networking.cpp:148-152 | `std::copy` takes `bufferLen` (8 + bodySize) bytes from a body buffer of bodySize bytes and writes them at offset 8 of a buffer of bufferLen bytes; this is undefined behaviour, modelled as a fault that ends the call | any typed message, e.g. a TEXT message "hi": 8 bytes are read past the body and written past the frame | copy `bodySize` bytes, as the P2PChat version does | not executed | OldNetlib.OldCopyOverflows | Wire.SerializeIsCopy |
| P2PChat/netlib/networking.cpp:248-251 | `msgHeader.length - headerSize` is computed in `size_t`, so a length below 8 wraps around to at least 2^64 - 2^31 - 8; `new uint8_t[...]` of that size throws, nothing on the thread catches it, and `std::terminate` ends the process | a peer whose first 8 bytes are all zero: the length field 0 decodes to -10^9, and the whole chat ends without any callback | end that connection (and report its disconnect) when the length is below 8 | not executed | Netlib.ZeroHeaderTerminates | Netlib.CheckedRejectsShortLength |
| netlib/networking.cpp:221-223 | the earlier version computes the body size the same way, with the same wrap-around and the same uncaught allocation failure | a peer whose first 8 bytes are all zero ends the process | end that connection when the length is below 8 | not executed | OldNetlib.OldZeroHeaderTerminates | Netlib.CheckedRejectsShortLength |
| CppChallenges/IPv4.cpp:157-161 | the range loop tests `x >= ip` after each `--x`; every address is `>=` 0.0.0.0, and `--` on 0.0.0.0 wraps to 255.255.255.255 | a lower bound of 0.0.0.0: the guard always holds, so the loop never ends | stop once the lower bound has been listed | not executed | IPv4Addr.GuardHoldsAtZero | IPv4Addr.ListRangeInclusive |
| CppChallenges/IPv4.cpp:88-105 | `ok` turns false only for an out-of-range part or a fifth part, so fewer than four parts are accepted and the old parts are kept | the line "1.2" read into 9.9.9.9 gives 1.2.9.9; the empty line leaves 9.9.9.9 unchanged | require exactly four parts, as the comment on line 101 says | not executed | IPv4Addr.ShortInputAccepted | IPv4Addr.ParseExactIgnoresOldValue |
