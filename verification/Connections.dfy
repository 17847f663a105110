/** Sending and receiving messages over a stream socket, which takes and gives bytes in pieces of
    any size. */
module Connections {
  import opened Bytes
  import opened Messages

  datatype Error = NoError | Eof | Reset | Fault

  function Flat(pieces: seq<seq<Byte>>): seq<Byte> {
    if pieces == [] then [] else pieces[0] + Flat(pieces[1..])
  }

  predicate NonEmpty(pieces: seq<seq<Byte>>) {
    pieces == [] || (pieces[0] != [] && NonEmpty(pieces[1..]))
  }

  function Capacity(quotas: seq<nat>): nat {
    if quotas == [] then 0 else quotas[0] + Capacity(quotas[1..])
  }

  predicate AllPositive(quotas: seq<nat>) {
    quotas == [] || (0 < quotas[0] && AllPositive(quotas[1..]))
  }

  /** What will arrive, piece by piece, and with which error reading then ends: that of a peer that
      has closed, or any other; what has been written; and how much each further write will take
      before the connection breaks. */
  class Socket {
    var incoming: seq<seq<Byte>>
    var ending: Error
    var written: seq<Byte>
    var quotas: seq<nat>

    predicate Valid()
      reads this
    {
      NonEmpty(incoming) && AllPositive(quotas) && (ending == Eof || ending == Reset)
    }

    /** At least one byte and at most `length` of them, or an error. */
    method ReadSome(buf: array<Byte>, at: nat, length: nat) returns (error: Error, received: nat)
      requires Valid() && 0 < length && at + length <= buf.Length
      modifies this`incoming, buf
      ensures Valid() && buf[..at] == old(buf[..at]) && buf[at + length..] == old(buf[at + length..])
      ensures old(incoming) == [] ==> error == ending && incoming == []
      ensures old(incoming) != [] ==>
        && error == NoError && 0 < received <= length
        && Flat(old(incoming)) == buf[at..at + received] + Flat(incoming)
    {
      if incoming == [] {
        return ending, 0;
      }
      var piece := incoming[0];
      error, received := NoError, if |piece| < length then |piece| else length;
      forall i | 0 <= i < received {
        buf[at + i] := piece[i];
      }
      if received < |piece| {
        TakeFront(incoming, received);
        incoming := [piece[received..]] + incoming[1..];
      } else {
        incoming := incoming[1..];
      }
      assert buf[at..at + received] == piece[..received];
    }

    method WriteSome(data: seq<Byte>) returns (error: Error, sent: nat)
      requires Valid() && data != []
      modifies this`written, this`quotas
      ensures Valid()
      ensures old(quotas) == [] ==> error == Reset && quotas == [] && written == old(written)
      ensures old(quotas) != [] ==>
        && error == NoError && 0 < sent <= |data| && sent <= old(quotas[0])
        && (sent < |data| ==> sent == old(quotas[0]))
        && quotas == old(quotas[1..]) && written == old(written) + data[..sent]
    {
      if quotas == [] {
        return Reset, 0;
      }
      error, sent := NoError, if quotas[0] < |data| then quotas[0] else |data|;
      written := written + data[..sent];
      quotas := quotas[1..];
    }
  }

  lemma TakeFront(pieces: seq<seq<Byte>>, n: nat)
    requires NonEmpty(pieces) && pieces != [] && n < |pieces[0]|
    ensures var rest := [pieces[0][n..]] + pieces[1..];
            NonEmpty(rest) && Flat(pieces) == pieces[0][..n] + Flat(rest)
  {
    var rest := [pieces[0][n..]] + pieces[1..];
    assert rest[1..] == pieces[1..];
    assert pieces[0] == pieces[0][..n] + pieces[0][n..];
  }

  /** Fills the buffer from `at` on, by recursion on what is still missing. */
  method ReadExactly(sock: Socket, buf: array<Byte>, at: nat, length: nat) returns (error: Error)
    requires sock.Valid() && 0 < length && at + length <= buf.Length
    modifies sock`incoming, buf
    ensures sock.Valid() && buf[..at] == old(buf[..at]) && buf[at + length..] == old(buf[at + length..])
    ensures var stream := Flat(old(sock.incoming));
            if length <= |stream| then
              error == NoError && buf[at..at + length] == stream[..length] && Flat(sock.incoming) == stream[length..]
            else error == sock.ending && sock.incoming == []
    decreases length
  {
    ghost var stream := Flat(sock.incoming);
    var received;
    error, received := sock.ReadSome(buf, at, length);
    if error != NoError {
      return;
    }
    ghost var first := buf[at..at + received];
    if received < length {
      ghost var before := buf[..at + received];
      error := ReadExactly(sock, buf, at + received, length - received);
      assert buf[..at + received] == before && before[at..] == first && buf[..at] == before[..at];
    }
    assert stream == first + stream[received..];
    if error == NoError {
      assert buf[at..at + length] == first + buf[at + received..at + length];
    }
  }

  /** Writes everything, unless the connection breaks first. */
  method WriteExactly(sock: Socket, data: seq<Byte>) returns (error: Error)
    requires sock.Valid() && data != []
    modifies sock`written, sock`quotas
    ensures sock.Valid()
    ensures error == NoError ==> sock.written == old(sock.written) + data
    ensures error != NoError ==>
      && error == Reset && Capacity(old(sock.quotas)) < |data|
      && sock.written == old(sock.written) + data[..Capacity(old(sock.quotas))]
    decreases |data|
  {
    var sent;
    error, sent := sock.WriteSome(data);
    if error != NoError {
      return;
    }
    if sent < |data| {
      error := WriteExactly(sock, data[sent..]);
      assert data == data[..sent] + data[sent..];
      if error != NoError {
        assert data[..sent] + data[sent..][..Capacity(old(sock.quotas[1..]))] == data[..Capacity(old(sock.quotas))];
      }
    } else {
      assert data[..sent] == data;
    }
  }

  /** Only valid messages are sent. */
  method SendMessage(sock: Socket, m: Message) returns (error: Error)
    requires sock.Valid()
    modifies sock`written, sock`quotas
    ensures sock.Valid()
    ensures !ValidMessage(m.bytes[..]) ==> error == Fault && sock.written == old(sock.written)
    ensures ValidMessage(m.bytes[..]) && error == NoError ==> sock.written == old(sock.written) + m.bytes[..]
    ensures ValidMessage(m.bytes[..]) && error != NoError ==>
      && error == Reset && Capacity(old(sock.quotas)) < m.bytes.Length
      && sock.written == old(sock.written) + m.bytes[..Capacity(old(sock.quotas))]
  {
    if !ValidMessage(m.bytes[..]) {
      return Fault;
    }
    error := WriteExactly(sock, m.bytes[..]);
  }

  // ---- Receiving ----

  /** The first message of a stream: its type and payload and what follows it, or nothing when the
      stream ends too early or does not begin with a message. */
  datatype Decoded = Got(kind: Byte, payload: seq<Byte>, rest: seq<Byte>) | Ended | Malformed

  function Decode(stream: seq<Byte>): Decoded {
    if |stream| < HEADER then Ended
    else if !ValidHeader(stream) then Malformed
    else
      var n := PayloadSize(stream);
      if |stream| < HEADER + n then Ended
      else if HEADER + n >= U32 then Malformed
      else Got(Kind(stream), stream[HEADER..HEADER + n], stream[HEADER + n..])
  }

  lemma SameHeader(a: seq<Byte>, b: seq<Byte>)
    requires HEADER <= |a| && HEADER <= |b| && a[..HEADER] == b[..HEADER]
    ensures ValidHeader(a) == ValidHeader(b) && Kind(a) == Kind(b) && PayloadSize(a) == PayloadSize(b)
    ensures MessageSize(a) == MessageSize(b)
  {
    assert forall i | 0 <= i < 8 :: a[i] == a[..8][i] == b[..8][i] == b[i];
  }

  /** A new message for a payload of n bytes; only type, size and payload are ever set. */
  lemma NewMessageHeader(raw: seq<Byte>, kind: Byte, n: nat, reserved: Reserved)
    requires |raw| == HEADER + n && n < U32 && raw[..HEADER] == Header(kind, n, reserved)
    ensures Kind(raw) == kind && PayloadSize(raw) == n
  {
    assert raw[4..8] == raw[..8][4..8] == Word(n);
    assert raw[0] == raw[..8][0];
    WordFound(raw, 4, n);
  }

  /** A new message of this type, and its payload from the socket. */
  method ReceivePayload(sock: Socket, kind: Byte, n: nat, reserved: Reserved) returns (error: Error, m: Message)
    requires sock.Valid() && 0 < n < U32
    modifies sock`incoming
    ensures sock.Valid() && fresh(m) && fresh(m.bytes)
    ensures var stream := Flat(old(sock.incoming));
            if n <= |stream| then
              && error == NoError && Flat(sock.incoming) == stream[n..] && m.bytes.Length == HEADER + n
              && Kind(m.bytes[..]) == kind && PayloadSize(m.bytes[..]) == n && m.bytes[HEADER..] == stream[..n]
            else error == sock.ending && sock.incoming == []
  {
    m := new Message(HEADER + n);
    m.PutBytes(0, Header(kind, n, reserved));
    error := ReadExactly(sock, m.bytes, HEADER, n);
    NewMessageHeader(m.bytes[..], kind, n, reserved);
    assert m.bytes[HEADER..] == m.bytes[HEADER..HEADER + n];
  }

  /** However the bytes arrive, what is received is the first message of the stream. */
  method ReceiveMessage(sock: Socket, reserved: Reserved) returns (error: Error, m: Message)
    requires sock.Valid()
    modifies sock`incoming
    ensures sock.Valid() && fresh(m) && fresh(m.bytes)
    ensures match Decode(Flat(old(sock.incoming)))
            case Got(kind, payload, rest) =>
              && error == NoError && Flat(sock.incoming) == rest && ValidMessage(m.bytes[..])
              && Kind(m.bytes[..]) == kind && m.bytes[HEADER..] == payload
            case Ended => error == sock.ending && sock.incoming == []
            case Malformed => error == Fault
  {
    ghost var stream := Flat(sock.incoming);
    var header := new Byte[HEADER](_ => 0);
    m := new Message(0);
    error := ReadExactly(sock, header, 0, HEADER);
    if error != NoError {
      return;
    }
    assert header[..] == header[0..0 + HEADER] == stream[..HEADER];
    SameHeader(header[..], stream);
    if !ValidHeader(header[..]) {
      error := Fault;
      return;
    }
    var n := PayloadSize(header[..]);
    error, m := ReceivePayload(sock, Kind(header[..]), n, reserved);
    if error != NoError {
      return;
    }
    Payload(stream, n);
    ValidWhenItFits(m.bytes[..]);
    if !ValidMessage(m.bytes[..]) {
      error := Fault;
    }
  }

  lemma Payload(stream: seq<Byte>, n: nat)
    requires HEADER + n <= |stream|
    ensures stream[HEADER..][..n] == stream[HEADER..HEADER + n] && stream[HEADER..][n..] == stream[HEADER + n..]
  {
  }

  // ---- Sequences of messages ----

  /** A message as its sender and its receiver know it. */
  datatype Content = Content(kind: Byte, payload: seq<Byte>)

  function ContentOf(raw: seq<Byte>): Content
    requires HEADER <= |raw|
  {
    Content(Kind(raw), raw[HEADER..])
  }

  predicate AllValid(raws: seq<seq<Byte>>) {
    raws == [] || (ValidMessage(raws[0]) && AllValid(raws[1..]))
  }

  function Contents(raws: seq<seq<Byte>>): seq<Content>
    requires AllValid(raws)
  {
    if raws == [] then [] else [ContentOf(raws[0])] + Contents(raws[1..])
  }

  /** Everything that can be received, and how it ends. */
  function DecodeAll(stream: seq<Byte>): (seq<Content>, Decoded)
    decreases |stream|
  {
    match Decode(stream)
    case Got(kind, payload, rest) =>
      var (later, end) := DecodeAll(rest);
      ([Content(kind, payload)] + later, end)
    case other => ([], other)
  }

  /** How many of the messages are complete in the first `cut` bytes. */
  function Complete(raws: seq<seq<Byte>>, cut: nat): nat {
    if raws == [] || cut < |raws[0]| then 0 else 1 + Complete(raws[1..], cut - |raws[0]|)
  }

  lemma {:induction false} CompleteBound(raws: seq<seq<Byte>>, cut: nat)
    ensures Complete(raws, cut) <= |raws|
    ensures cut == |Flat(raws)| ==> Complete(raws, cut) == |raws|
  {
    if raws != [] && |raws[0]| <= cut { CompleteBound(raws[1..], cut - |raws[0]|); }
  }

  lemma ValidMessageSize(raw: seq<Byte>)
    requires ValidMessage(raw)
    ensures |raw| == HEADER + PayloadSize(raw) < U32
  {
    SizeWraps(PayloadSize(raw));
  }

  /** The first message of a stream, complete or not. */
  lemma DecodeFirst(raw: seq<Byte>, rest: seq<Byte>)
    requires ValidMessage(raw)
    ensures Decode(raw + rest) == Got(Kind(raw), raw[HEADER..], rest)
  {
    var stream := raw + rest;
    ValidMessageSize(raw);
    assert stream[..HEADER] == raw[..HEADER];
    SameHeader(stream, raw);
    assert stream[HEADER..|raw|] == raw[HEADER..] && stream[|raw|..] == rest;
  }

  lemma DecodePart(raw: seq<Byte>, cut: nat)
    requires ValidMessage(raw) && cut < |raw|
    ensures Decode(raw[..cut]) == Ended
  {
    ValidMessageSize(raw);
    if HEADER <= cut {
      assert raw[..cut][..HEADER] == raw[..HEADER];
      SameHeader(raw[..cut], raw);
    }
  }

  /** Wherever the stream of a sequence of messages is cut off, what is received is the messages
      that are complete, with their types and payloads; then it ends, and there is no message of
      the rest. */
  lemma {:induction false} CutStream(raws: seq<seq<Byte>>, cut: nat)
    requires AllValid(raws) && cut <= |Flat(raws)|
    ensures Complete(raws, cut) <= |raws| && AllValid(raws[..Complete(raws, cut)])
    ensures DecodeAll(Flat(raws)[..cut]) == (Contents(raws[..Complete(raws, cut)]), Ended)
  {
    var stream := Flat(raws)[..cut];
    if raws == [] || cut < |raws[0]| {
      if raws != [] {
        assert stream == raws[0][..cut];
        DecodePart(raws[0], cut);
      }
    } else {
      var k := Complete(raws[1..], cut - |raws[0]|);
      CutStream(raws[1..], cut - |raws[0]|);
      var rest := Flat(raws[1..])[..cut - |raws[0]|];
      assert stream == raws[0] + rest;
      DecodeFirst(raws[0], rest);
      assert raws[..k + 1][1..] == raws[1..][..k];
    }
  }

  /** A sequence of valid messages is received as it was sent. */
  lemma StreamRoundTrip(raws: seq<seq<Byte>>)
    requires AllValid(raws)
    ensures DecodeAll(Flat(raws)) == (Contents(raws), Ended)
  {
    CutStream(raws, |Flat(raws)|);
    CompleteBound(raws, |Flat(raws)|);
    assert Flat(raws)[..|Flat(raws)|] == Flat(raws) && raws[..|raws|] == raws;
  }

  // ---- Sending and receiving them ----

  ghost predicate HoldRaws(messages: seq<Message>, raws: seq<seq<Byte>>)
    reads set m | m in messages :: m.bytes
  {
    |messages| == |raws| && forall i | 0 <= i < |messages| :: messages[i].bytes[..] == raws[i]
  }

  /** Sends the messages one after the other, until one cannot be sent.  What has then been written
      is the first `cut` bytes of all of them. */
  method SendAll(sock: Socket, messages: seq<Message>, ghost raws: seq<seq<Byte>>)
    returns (error: Error, ghost cut: nat)
    requires sock.Valid() && HoldRaws(messages, raws) && AllValid(raws)
    modifies sock`written, sock`quotas
    ensures sock.Valid() && cut <= |Flat(raws)| && sock.written == old(sock.written) + Flat(raws)[..cut]
    ensures if error == NoError then cut == |Flat(raws)| else error == Reset && cut < |Flat(raws)|
  {
    error, cut := NoError, 0;
    var i := 0;
    while i < |messages| && error == NoError
      invariant 0 <= i <= |messages| && sock.Valid() && cut <= |Flat(raws)|
      invariant sock.written == old(sock.written) + Flat(raws)[..cut]
      invariant if error == NoError then StillToSend(raws, i, cut) else error == Reset && cut < |Flat(raws)|
    {
      ghost var k := Capacity(sock.quotas);
      error := SendMessage(sock, messages[i]);
      if error == NoError {
        k := |raws[i]|;
      }
      NextSent(raws, i, cut, k, old(sock.written));
      cut, i := cut + k, i + 1;
    }
  }

  /** The messages from i on are what follows the first `cut` bytes. */
  ghost predicate StillToSend(raws: seq<seq<Byte>>, i: nat, cut: nat) {
    i <= |raws| && cut <= |Flat(raws)| && AllValid(raws[i..]) && Flat(raws)[cut..] == Flat(raws[i..])
  }

  lemma NextSent(raws: seq<seq<Byte>>, i: nat, cut: nat, k: nat, before: seq<Byte>)
    requires StillToSend(raws, i, cut) && i < |raws| && k <= |raws[i]|
    ensures ValidMessage(raws[i]) && cut + k <= |Flat(raws)|
    ensures before + Flat(raws)[..cut] + raws[i][..k] == before + Flat(raws)[..cut + k]
    ensures k < |raws[i]| ==> cut + k < |Flat(raws)|
    ensures k == |raws[i]| ==> StillToSend(raws, i + 1, cut + k) && raws[i][..k] == raws[i]
  {
    assert raws[i..][0] == raws[i] && raws[i..][1..] == raws[i + 1..];
    NextPart(Flat(raws), cut, raws[i], Flat(raws[i + 1..]), k);
    assert before + Flat(raws)[..cut] + raws[i][..k] == before + (Flat(raws)[..cut] + raws[i][..k]);
  }

  lemma NextPart(all: seq<Byte>, cut: nat, raw: seq<Byte>, rest: seq<Byte>, k: nat)
    requires cut <= |all| && all[cut..] == raw + rest && k <= |raw|
    ensures cut + k <= |all| && all[..cut] + raw[..k] == all[..cut + k]
    ensures k < |raw| ==> cut + k < |all|
    ensures k == |raw| ==> all[cut + k..] == rest && raw[..k] == raw
  {
    assert all == all[..cut] + (raw + rest);
  }

  /** Receives messages until there is an error. */
  method ReceiveAll(sock: Socket, reserved: Reserved) returns (contents: seq<Content>, error: Error)
    requires sock.Valid()
    modifies sock`incoming
    ensures sock.Valid() && contents == DecodeAll(Flat(old(sock.incoming))).0
    ensures error == if DecodeAll(Flat(old(sock.incoming))).1 == Ended then sock.ending else Fault
  {
    contents := [];
    ghost var all := DecodeAll(Flat(sock.incoming));
    while true
      invariant sock.Valid()
      invariant contents + DecodeAll(Flat(sock.incoming)).0 == all.0 && DecodeAll(Flat(sock.incoming)).1 == all.1
      decreases |Flat(sock.incoming)|
    {
      var m;
      ghost var stream := Flat(sock.incoming);
      error, m := ReceiveMessage(sock, reserved);
      DecodeEnds(stream);
      if error != NoError {
        return;
      }
      contents := contents + [Content(Kind(m.bytes[..]), m.bytes[HEADER..])];
    }
  }

  /** The first message, and the others. */
  lemma DecodeEnds(stream: seq<Byte>)
    ensures match Decode(stream)
            case Got(kind, payload, rest) =>
              |rest| < |stream| &&
                  DecodeAll(stream) == ([Content(kind, payload)] + DecodeAll(rest).0, DecodeAll(rest).1)
            case other => DecodeAll(stream) == ([], other)
    ensures !DecodeAll(stream).1.Got?
    decreases |stream|
  {
    if Decode(stream).Got? { DecodeEnds(Decode(stream).rest); }
  }

  /** What is received of the first `cut` bytes. */
  lemma Received(raws: seq<seq<Byte>>, cut: nat)
    requires AllValid(raws) && cut <= |Flat(raws)|
    ensures Complete(raws, cut) <= |raws| && AllValid(raws[..Complete(raws, cut)])
    ensures DecodeAll(Flat(raws)[..cut]) == (Contents(raws[..Complete(raws, cut)]), Ended)
    ensures cut == |Flat(raws)| ==> raws[..Complete(raws, cut)] == raws
  {
    CutStream(raws, cut);
    CompleteBound(raws, cut);
  }

  /** Messages sent over one socket and received from another, with a network between them that
      may cut the bytes into any pieces: what is received is the messages that were written
      completely, in order, and all of them when no send failed. */
  method Exchange(
    sender: Socket, receiver: Socket, messages: seq<Message>, ghost raws: seq<seq<Byte>>, reserved: Reserved,
    network: seq<Byte> -> seq<seq<Byte>>)
    returns (contents: seq<Content>, sent: Error, received: Error, ghost count: nat)
    requires sender.Valid() && receiver.Valid() && sender != receiver && sender.written == []
    requires HoldRaws(messages, raws) && AllValid(raws)
    requires forall bytes :: NonEmpty(network(bytes)) && Flat(network(bytes)) == bytes
    modifies sender`written, sender`quotas, receiver`incoming
    ensures received == receiver.ending && count <= |raws| && AllValid(raws[..count]) &&
            contents == Contents(raws[..count])
    ensures sent == NoError ==> contents == Contents(raws)
  {
    ghost var cut;
    sent, cut := SendAll(sender, messages, raws);
    Received(raws, cut);
    count := Complete(raws, cut);
    assert sender.written == Flat(raws)[..cut];
    receiver.incoming := network(sender.written);
    assert Flat(receiver.incoming) == Flat(raws)[..cut];
    contents, received := ReceiveAll(receiver, reserved);
  }
}
