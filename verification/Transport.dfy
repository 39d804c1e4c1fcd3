// Request and reply over a byte stream: the delimiter framing, the two endpoints as
// objects, and every interleaving of them with every fragmentation of the streams.

module Framing {
  import opened Options

  const END_OF_MESSAGE: string := "\r\n\r\n"
  const END_OF_SESSION: string := "EndSession"
  const HANDSHAKE: string := "HandShakeGazeboCoSim"

  /** The delimiter stands at position i of s. */
  predicate DelimiterAt(s: string, i: nat) {
    i + 4 <= |s| && s[i] == '\r' && s[i + 1] == '\n' && s[i + 2] == '\r' && s[i + 3] == '\n'
  }

  predicate Delimited(s: string) {
    exists i: nat :: i + 4 <= |s| && DelimiterAt(s, i)
  }

  /** The end of the first delimiter: the number of bytes a read-until reports. */
  function FirstEnd(s: string): (n: nat)
    requires Delimited(s)
    ensures 4 <= n <= |s| && DelimiterAt(s, n - 4) && forall i: nat :: DelimiterAt(s, i) ==> n - 4 <= i
    decreases |s|
  {
    if DelimiterAt(s, 0) then 4
    else
      Shifted(s);
      FirstEnd(s[1..]) + 1
  }

  lemma Shifted(s: string)
    requires s != "" && !DelimiterAt(s, 0)
    ensures forall i: nat :: DelimiterAt(s, i) ==> i > 0 && DelimiterAt(s[1..], i - 1)
    ensures forall i: nat :: DelimiterAt(s[1..], i) ==> DelimiterAt(s, i + 1)
    ensures Delimited(s) ==> Delimited(s[1..])
  {
    forall i: nat | DelimiterAt(s, i) ensures i > 0 && DelimiterAt(s[1..], i - 1) {
      assert i != 0;
    }
    if Delimited(s) {
      var i: nat :| DelimiterAt(s, i);
      assert DelimiterAt(s[1..], i - 1);
    }
  }

  /** A read-until: whole fragments are added to the buffer until it holds a delimiter. */
  function ReadUntil(buffer: string, fragments: seq<string>): string
    decreases |fragments|
  {
    if Delimited(buffer) || fragments == [] then buffer
    else ReadUntil(buffer + fragments[0], fragments[1..])
  }

  function Joined(fragments: seq<string>): string {
    if fragments == [] then "" else fragments[0] + Joined(fragments[1..])
  }

  /** What both endpoints take as the payload: the whole buffer but its last four bytes. */
  function Payload(buffer: string): string
    requires Delimited(buffer)
  {
    buffer[..|buffer| - 4]
  }

  predicate Framable(p: string) {
    !Delimited(p) && !(|p| >= 2 && p[|p| - 2] == '\r' && p[|p| - 1] == '\n')
  }

  lemma DelimiterAtEnd(p: string)
    ensures DelimiterAt(p + END_OF_MESSAGE, |p|) && Delimited(p + END_OF_MESSAGE)
  {
    assert DelimiterAt(p + END_OF_MESSAGE, |p|);
  }

  /** In a framable payload with its delimiter, no delimiter stands earlier. */
  lemma OnlyDelimiter(p: string, i: nat)
    requires Framable(p) && DelimiterAt(p + END_OF_MESSAGE, i)
    ensures i == |p|
  {
    var s := p + END_OF_MESSAGE;
    assert forall k :: 0 <= k < |p| ==> s[k] == p[k];
    assert forall k :: |p| <= k < |s| ==> s[k] == END_OF_MESSAGE[k - |p|];
    if i + 4 <= |p| {
      assert DelimiterAt(p, i);
    }
  }

  /** A prefix of a framed payload that holds a delimiter is all of it. */
  lemma PrefixWithDelimiter(p: string, b: string, rest: string)
    requires Framable(p) && b + rest == p + END_OF_MESSAGE && Delimited(b)
    ensures rest == "" && b == p + END_OF_MESSAGE && Payload(b) == p && FirstEnd(b) == |b|
  {
    var i: nat :| i + 4 <= |b| && DelimiterAt(b, i);
    assert DelimiterAt(b + rest, i);
    OnlyDelimiter(p, i);
    assert |b| == |b + rest|;
    assert b + rest == b;
    OnlyDelimiter(p, FirstEnd(b) - 4);
    assert b[..|b| - 4] == p;
  }

  lemma {:induction false} ReadUntilFramed(p: string, buffer: string, fragments: seq<string>)
    requires Framable(p) && buffer + Joined(fragments) == p + END_OF_MESSAGE
    ensures ReadUntil(buffer, fragments) == p + END_OF_MESSAGE
    decreases |fragments|
  {
    if Delimited(buffer) {
      PrefixWithDelimiter(p, buffer, Joined(fragments));
    } else if fragments == [] {
      assert buffer + "" == buffer;
    } else {
      assert (buffer + fragments[0]) + Joined(fragments[1..]) == buffer + Joined(fragments);
      ReadUntilFramed(p, buffer + fragments[0], fragments[1..]);
    }
  }

  /** Framing: a payload is recovered under every fragmentation of itself and its
      delimiter if and only if it holds no delimiter and does not end in CR LF. */
  lemma RecoveredIffFramable(p: string)
    ensures Framable(p) <==>
      forall fragments: seq<string> :: Joined(fragments) == p + END_OF_MESSAGE ==>
        Delimited(ReadUntil("", fragments)) && Payload(ReadUntil("", fragments)) == p
  {
    if Framable(p) {
      forall fragments: seq<string> | Joined(fragments) == p + END_OF_MESSAGE
        ensures Delimited(ReadUntil("", fragments)) && Payload(ReadUntil("", fragments)) == p
      {
        assert "" + Joined(fragments) == Joined(fragments);
        ReadUntilFramed(p, "", fragments);
        DelimiterAtEnd(p);
        assert (p + END_OF_MESSAGE)[..|p|] == p;
      }
    } else {
      var fragments := BadFragments(p);
      assert !(Payload(ReadUntil("", fragments)) == p);
    }
  }

  /** The client's read: fragments are taken as they arrive until there is a delimiter,
      which is cut off; running out of fragments is the timeout. */
  method ReadWithTimeout(fragments: seq<string>) returns (reply: Option<string>)
    ensures var whole := ReadUntil("", fragments);
      reply == if Delimited(whole) then Some(Payload(whole)) else None
    ensures forall p: string :: Framable(p) && Joined(fragments) == p + END_OF_MESSAGE ==> reply == Some(p)
  {
    hide Delimited, Framable;
    var buffer, i := "", 0;
    while i < |fragments| && !Delimited(buffer)
      invariant 0 <= i <= |fragments|
      invariant ReadUntil(buffer, fragments[i..]) == ReadUntil("", fragments)
    {
      assert fragments[i..][0] == fragments[i] && fragments[i..][1..] == fragments[i + 1..];
      buffer := buffer + fragments[i];
      i := i + 1;
    }
    reply := if Delimited(buffer) then Some(Payload(buffer)) else None;
    forall p: string | Framable(p) && Joined(fragments) == p + END_OF_MESSAGE ensures reply == Some(p) {
      assert "" + Joined(fragments) == Joined(fragments);
      ReadUntilFramed(p, "", fragments);
      DelimiterAtEnd(p);
      assert (p + END_OF_MESSAGE)[..|p|] == p;
    }
  }

  /** For any other payload, the fragmentation under which it is not recovered: the
      first delimiter arrives on its own. */
  lemma BadFragments(p: string) returns (fragments: seq<string>)
    requires !Framable(p)
    ensures Joined(fragments) == p + END_OF_MESSAGE
    ensures Delimited(ReadUntil("", fragments)) && Payload(ReadUntil("", fragments)) != p
  {
    var s := p + END_OF_MESSAGE;
    DelimiterAtEnd(p);
    var n := FirstEnd(s);
    assert n < |s| by {
      if Delimited(p) {
        var i: nat :| i + 4 <= |p| && DelimiterAt(p, i);
        assert DelimiterAt(s, i);
      } else {
        assert DelimiterAt(s, |p| - 2);
      }
    }
    fragments := [s[..n], s[n..]];
    assert DelimiterAt(s[..n], n - 4);
    assert !Delimited("");
    assert fragments[1..] == [s[n..]] && fragments[1..][1..] == [];
    assert s[n..] + "" == s[n..];
    assert Joined([s[n..]]) == s[n..];
    assert Joined(fragments) == s[..n] + Joined([s[n..]]);
    assert s[..n] + s[n..] == s;
    assert "" + s[..n] == s[..n];
    assert ReadUntil("", fragments) == s[..n];
  }
}

module Transport {
  import opened Framing

  // ---------- The server endpoint ----------

  /** Whom the connection waits for: the handshake, the end of a write, a request, nobody. */
  datatype ServerPc = Handshaking | Writing | Reading | Stopped

  /** The connection after its pending read has completed with this buffer; reply is
      what the callback answers, if it is asked. */
  datatype Handled = Handled(pc: ServerPc, reply: string, called: bool)

  function HandleHandshake(buffer: string): Handled {
    if buffer == HANDSHAKE + END_OF_MESSAGE then Handled(Writing, buffer, false)
    else Handled(Stopped, buffer, false)
  }

  function HandleRequest(buffer: string, reply: string): Handled
    requires Delimited(buffer)
  {
    if FirstEnd(buffer) == |END_OF_SESSION| + |END_OF_MESSAGE| && buffer[..|END_OF_SESSION|] == END_OF_SESSION then
      Handled(Stopped, "", false)
    else
      Handled(Writing, reply + END_OF_MESSAGE, true)
  }

  /** One server-side connection: its read buffer, its reply, and its place in the
      chain of asynchronous operations. */
  class Connection {
    var buffer: string
    var reply: string
    var pc: ServerPc
    var requests: seq<string>  // the payloads that the callback has been given

    constructor ()
      ensures buffer == "" && reply == "" && pc == Handshaking && requests == []
    {
      buffer, reply, pc, requests := "", "", Handshaking, [];
    }

    method Receive(fragment: string)
      modifies this`buffer
      ensures buffer == old(buffer) + fragment
    {
      buffer := buffer + fragment;
    }

    /** The completion of the handshake read. */
    method OnHandshake()
      requires pc == Handshaking && Delimited(buffer)
      modifies this
      ensures pc == HandleHandshake(old(buffer)).pc && reply == HandleHandshake(old(buffer)).reply
      ensures buffer == "" && requests == old(requests)
    {
      reply := buffer;
      if reply == HANDSHAKE + END_OF_MESSAGE {
        pc := Writing;
      } else {
        pc := Stopped;
      }
      buffer := "";
    }

    /** The completion of a request read; answer is the callback's reply to it. */
    method OnRequest(answer: string)
      requires pc == Reading && Delimited(buffer)
      modifies this
      ensures var h := HandleRequest(old(buffer), answer);
        && pc == h.pc && buffer == ""
        && requests == (if h.called then old(requests) + [Payload(old(buffer))] else old(requests))
        && reply == (if h.called then h.reply else old(reply))
    {
      var transferred := FirstEnd(buffer);
      var closing := false;
      if transferred == |END_OF_SESSION| + |END_OF_MESSAGE| {
        var message := buffer[..|END_OF_SESSION|];
        closing := message == END_OF_SESSION;
      }
      if !closing {
        requests := requests + [Payload(buffer)];
        reply := answer + END_OF_MESSAGE;
      }
      buffer := "";
      if closing {
        pc := Stopped;
      } else {
        pc := Writing;
      }
    }

    /** The completion of a write: the next request is read. */
    method OnWritten()
      requires pc == Writing
      modifies this`pc
      ensures pc == Reading
    {
      pc := Reading;
    }
  }

  // ---------- The client endpoint ----------

  class Client {
    var open: bool
    var incoming: string   // bytes that have reached the socket
    var outgoing: string   // bytes given to the socket
    var buffer: string     // of the read in progress
    var awaiting: bool

    /** Connects and sends the handshake; its reply is awaited like any other. */
    constructor ()
      ensures open && incoming == "" && buffer == "" && awaiting
      ensures outgoing == HANDSHAKE + END_OF_MESSAGE
    {
      open, incoming, outgoing, buffer, awaiting := true, "", HANDSHAKE + END_OF_MESSAGE, "", true;
    }

    /** The completion of the handshake read: any other reply is an error. */
    method OnHandshakeReply() returns (connected: bool)
      requires awaiting && Delimited(buffer)
      modifies this`awaiting
      ensures connected == (Payload(buffer) == HANDSHAKE) && !awaiting
    {
      connected := Payload(buffer) == HANDSHAKE;
      awaiting := false;
    }

    /** Tells the server that the session ends, once. */
    method Shutdown()
      modifies this`open, this`outgoing
      ensures !open
      ensures outgoing == old(outgoing) + if old(open) then END_OF_SESSION + END_OF_MESSAGE else ""
    {
      if open {
        outgoing := outgoing + (END_OF_SESSION + END_OF_MESSAGE);
        open := false;
      }
    }

    /** Throws away whatever is still in the socket, then writes the message and starts
        to read the reply into a new buffer. */
    method Write(message: string)
      requires !awaiting
      modifies this`incoming, this`outgoing, this`buffer, this`awaiting
      ensures incoming == "" && buffer == "" && awaiting
      ensures outgoing == old(outgoing) + message + END_OF_MESSAGE
    {
      while incoming != ""
        modifies this`incoming
        decreases |incoming|
      {
        var n: nat :| 0 < n <= |incoming|;
        incoming := incoming[n..];
      }
      outgoing := outgoing + message + END_OF_MESSAGE;
      buffer, awaiting := "", true;
    }

    /** The completion of the reply read: the delimiter is cut off. */
    method OnReply() returns (reply: string)
      requires awaiting && Delimited(buffer)
      modifies this`awaiting
      ensures reply == Payload(old(buffer)) && !awaiting
    {
      reply := Payload(buffer);
      awaiting := false;
    }
  }

  // ---------- Both endpoints and the two streams ----------

  datatype ClientPc = NotConnected | AwaitingHandshake | Ready | AwaitingReply | Refused | Closed

  datatype Call = Call(request: string, reply: string)

  datatype System = System(
    client: ClientPc, clientBuffer: string,
    server: ServerPc, serverBuffer: string, reply: string,
    toServer: string, toClient: string,   // bytes on their way
    sent: seq<string>,                    // messages written by the client
    got: seq<string>,                     // what those writes returned
    calls: seq<Call>,                     // requests given to the callback, and its replies
    lost: nat,                            // bytes of a later message that were dropped
    drained: nat)                         // bytes dropped by the client before a write

  const START: System :=
    System(NotConnected, "", Handshaking, "", "", "", "", [], [], [], 0, 0)

  datatype Event =
    | Connect | ClientWrites(message: string) | ClientDrains(n: nat) | ClientCloses
    | ServerReceives(n: nat) | ServerCompletes(answer: string) | ServerWrites
    | ClientReceives(n: nat) | ClientCompletes

  /** The client waits for the answer to its handshake or to a message. */
  predicate Waiting(s: System) { s.client == AwaitingHandshake || s.client == AwaitingReply }

  /** One step; a step that is not enabled changes nothing. */
  function Next(s: System, e: Event): System {
    match e
    case Connect =>
      if s.client == NotConnected then
        s.(client := AwaitingHandshake, toServer := s.toServer + HANDSHAKE + END_OF_MESSAGE)
      else s
    case ClientDrains(n) =>
      if s.client == Ready && 0 < n <= |s.toClient| then
        s.(toClient := s.toClient[n..], drained := s.drained + n)
      else s
    case ClientWrites(m) =>
      if s.client == Ready then
        s.(client := AwaitingReply, clientBuffer := "",
           toServer := s.toServer + m + END_OF_MESSAGE, sent := s.sent + [m])
      else s
    case ClientCloses =>
      if s.client == Ready then
        s.(client := Closed, toServer := s.toServer + END_OF_SESSION + END_OF_MESSAGE)
      else s
    case ServerReceives(n) =>
      if (s.server == Handshaking || s.server == Reading) && !Delimited(s.serverBuffer) && 0 < n <= |s.toServer| then
        s.(serverBuffer := s.serverBuffer + s.toServer[..n], toServer := s.toServer[n..])
      else s
    case ServerCompletes(answer) =>
      if !Delimited(s.serverBuffer) then s
      else
        var extra := |s.serverBuffer| - FirstEnd(s.serverBuffer);
        if s.server == Handshaking then
          var h := HandleHandshake(s.serverBuffer);
          s.(server := h.pc, reply := h.reply, serverBuffer := "", lost := s.lost + extra)
        else if s.server == Reading then
          var h := HandleRequest(s.serverBuffer, answer);
          s.(server := h.pc, reply := h.reply, serverBuffer := "", lost := s.lost + extra,
             calls := if h.called then s.calls + [Call(Payload(s.serverBuffer), answer)] else s.calls)
        else s
    case ServerWrites =>
      if s.server == Writing then s.(server := Reading, toClient := s.toClient + s.reply) else s
    case ClientReceives(n) =>
      if Waiting(s) && !Delimited(s.clientBuffer) && 0 < n <= |s.toClient| then
        s.(clientBuffer := s.clientBuffer + s.toClient[..n], toClient := s.toClient[n..])
      else s
    case ClientCompletes =>
      if !Delimited(s.clientBuffer) then s
      else if s.client == AwaitingHandshake then
        s.(client := if Payload(s.clientBuffer) == HANDSHAKE then Ready else Refused, clientBuffer := "")
      else if s.client == AwaitingReply then
        s.(client := Ready, clientBuffer := "", got := s.got + [Payload(s.clientBuffer)],
           lost := s.lost + |s.clientBuffer| - FirstEnd(s.clientBuffer))
      else s
  }

  function Run(s: System, es: seq<Event>): System
    decreases |es|
  {
    if es == [] then s else Run(Next(s, es[0]), es[1..])
  }

  /** Messages and replies can be framed, and no message is the end of session. */
  predicate WellBehaved(e: Event) {
    match e
    case ClientWrites(m) => Framable(m) && m != END_OF_SESSION
    case ServerCompletes(answer) => Framable(answer)
    case _ => true
  }

  // ---------- The phases of a session ----------

  ghost predicate Quiet(s: System) {
    s.toServer == "" && s.toClient == "" && s.serverBuffer == "" && s.clientBuffer == ""
  }

  /** Part of the message m with its delimiter has arrived, the rest is on its way. */
  ghost predicate OnItsWay(buffer: string, stream: string, m: string) {
    buffer + stream == m + END_OF_MESSAGE
  }

  ghost predicate Toward(s: System, m: string) {
    OnItsWay(s.serverBuffer, s.toServer, m) && s.clientBuffer == "" && s.toClient == ""
  }

  ghost predicate Back(s: System, m: string) {
    OnItsWay(s.clientBuffer, s.toClient, m) && s.serverBuffer == "" && s.toServer == ""
  }

  ghost predicate Phase(s: System) {
    match s.client
    case NotConnected => s.server == Handshaking && Quiet(s)
    case AwaitingHandshake =>
      || (s.server == Handshaking && Toward(s, HANDSHAKE))
      || (s.server == Writing && Quiet(s) && s.reply == HANDSHAKE + END_OF_MESSAGE)
      || (s.server == Reading && Back(s, HANDSHAKE))
    case Ready => s.server == Reading && Quiet(s)
    case AwaitingReply =>
      && |s.sent| == |s.got| + 1
      && (|| (s.server == Reading && |s.calls| == |s.got| && Toward(s, s.sent[|s.got|]))
          || (&& s.server == Writing && |s.calls| == |s.sent| && Quiet(s)
              && s.reply == s.calls[|s.got|].reply + END_OF_MESSAGE)
          || (s.server == Reading && |s.calls| == |s.sent| && Back(s, s.calls[|s.got|].reply)))
    case Refused => false
    case Closed =>
      || (s.server == Reading && Toward(s, END_OF_SESSION))
      || (s.server == Stopped && Quiet(s))
  }

  /** Every call answered a message in order, every write returned the answer to its own
      message, and nothing has been dropped. */
  ghost predicate Faithful(s: System) {
    && |s.got| <= |s.calls| <= |s.sent|
    && (s.client != AwaitingReply ==> |s.got| == |s.sent|)
    && (forall k :: 0 <= k < |s.calls| ==> s.calls[k].request == s.sent[k])
    && (forall k :: 0 <= k < |s.got| ==> s.got[k] == s.calls[k].reply)
    && (forall m <- s.sent :: Framable(m) && m != END_OF_SESSION)
    && (forall c <- s.calls :: Framable(c.reply))
    && s.lost == 0 && s.drained == 0
    && ((s.client == NotConnected || s.client == AwaitingHandshake) ==> s.sent == [])
  }

  ghost predicate Inv(s: System) { Phase(s) && Faithful(s) }

  lemma FixedMessages()
    ensures Framable(HANDSHAKE) && Framable(END_OF_SESSION)
  {
  }

  lemma Moves(buffer: string, stream: string, n: nat)
    requires n <= |stream|
    ensures (buffer + stream[..n]) + stream[n..] == buffer + stream
  {
  }

  /** The read that completes has exactly one whole message in its buffer. */
  lemma Arrived(buffer: string, stream: string, m: string)
    requires Framable(m) && OnItsWay(buffer, stream, m) && Delimited(buffer)
    ensures stream == "" && buffer == m + END_OF_MESSAGE && Payload(buffer) == m && FirstEnd(buffer) == |buffer|
  {
    PrefixWithDelimiter(m, buffer, stream);
  }

  lemma NotDelimited()
    ensures !Delimited("")
  {
  }

  lemma WholeBuffer(m: string)
    requires Framable(m)
    ensures var buffer := m + END_OF_MESSAGE;
      Delimited(buffer) && FirstEnd(buffer) == |buffer| && Payload(buffer) == m && buffer[..|m|] == m
  {
    hide Framable, Delimited, FirstEnd, Payload;
    DelimiterAtEnd(m);
    assert (m + END_OF_MESSAGE) + "" == m + END_OF_MESSAGE;
    PrefixWithDelimiter(m, m + END_OF_MESSAGE, "");
  }

  lemma SameMessage(a: string, b: string)
    ensures a + END_OF_MESSAGE == b + END_OF_MESSAGE <==> a == b
  {
    hide END_OF_MESSAGE;
    if a + END_OF_MESSAGE == b + END_OF_MESSAGE {
      assert (a + END_OF_MESSAGE)[..|a|] == a && (b + END_OF_MESSAGE)[..|b|] == b;
    }
  }

  /** What the server does with one whole framed message. */
  lemma WholeMessageHandled(m: string, answer: string)
    requires Framable(m)
    ensures var buffer := m + END_OF_MESSAGE;
      && Delimited(buffer) && FirstEnd(buffer) == |buffer| && Payload(buffer) == m
      && HandleHandshake(buffer).pc == (if m == HANDSHAKE then Writing else Stopped)
      && HandleHandshake(buffer).reply == buffer
      && HandleRequest(buffer, answer) ==
         if m == END_OF_SESSION then Handled(Stopped, "", false) else Handled(Writing, answer + END_OF_MESSAGE, true)
  {
    hide Framable, Delimited, FirstEnd, Payload, HANDSHAKE, END_OF_SESSION, END_OF_MESSAGE;
    WholeBuffer(m);
    SameMessage(m, HANDSHAKE);
    assert |m + END_OF_MESSAGE| == |m| + |END_OF_MESSAGE|;
  }

  lemma HandshakeCompletes(s: System, answer: string)
    requires Inv(s) && Delimited(s.serverBuffer) && s.client == AwaitingHandshake
    ensures Inv(Next(s, ServerCompletes(answer)))
  {
    hide Framable, Delimited, FirstEnd, Payload, HandleRequest, HandleHandshake;
    NotDelimited();
    FixedMessages();
    Arrived(s.serverBuffer, s.toServer, HANDSHAKE);
    WholeMessageHandled(HANDSHAKE, answer);
  }

  lemma SessionEnds(s: System, answer: string)
    requires Inv(s) && Delimited(s.serverBuffer) && s.client == Closed
    ensures Inv(Next(s, ServerCompletes(answer))) && Next(s, ServerCompletes(answer)).calls == s.calls
  {
    hide Framable, Delimited, FirstEnd, Payload, HandleRequest, HandleHandshake;
    NotDelimited();
    FixedMessages();
    Arrived(s.serverBuffer, s.toServer, END_OF_SESSION);
    WholeMessageHandled(END_OF_SESSION, answer);
  }

  lemma RequestCompletes(s: System, answer: string)
    requires Inv(s) && Delimited(s.serverBuffer) && s.client == AwaitingReply && Framable(answer)
    ensures Inv(Next(s, ServerCompletes(answer)))
  {
    hide Framable, Delimited, FirstEnd, Payload, HandleRequest, HandleHandshake;
    NotDelimited();
    var m := s.sent[|s.got|];
    assert m in s.sent;
    Arrived(s.serverBuffer, s.toServer, m);
    WholeMessageHandled(m, answer);
    assert Next(s, ServerCompletes(answer)).calls == s.calls + [Call(m, answer)];
  }

  lemma ServerCompletesKeeps(s: System, answer: string)
    requires Inv(s) && Framable(answer)
    ensures Inv(Next(s, ServerCompletes(answer)))
  {
    hide Framable, Delimited, FirstEnd, Payload, HandleRequest, HandleHandshake;
    NotDelimited();
    if Delimited(s.serverBuffer) {
      match s.client
      case AwaitingHandshake => HandshakeCompletes(s, answer);
      case Closed => SessionEnds(s, answer);
      case AwaitingReply => RequestCompletes(s, answer);
      case _ =>
    }
  }

  lemma ReplyCompletes(s: System)
    requires Inv(s) && Delimited(s.clientBuffer) && s.client == AwaitingReply
    ensures Inv(Next(s, ClientCompletes))
  {
    hide Framable, Delimited, FirstEnd, Payload, HandleRequest, HandleHandshake;
    NotDelimited();
    var c := s.calls[|s.got|];
    assert c in s.calls;
    Arrived(s.clientBuffer, s.toClient, c.reply);
    assert Next(s, ClientCompletes).got == s.got + [c.reply];
  }

  lemma ClientCompletesKeeps(s: System)
    requires Inv(s)
    ensures Inv(Next(s, ClientCompletes))
  {
    hide Framable, Delimited, FirstEnd, Payload, HandleRequest, HandleHandshake;
    NotDelimited();
    if Delimited(s.clientBuffer) {
      if s.client == AwaitingHandshake {
        FixedMessages();
        Arrived(s.clientBuffer, s.toClient, HANDSHAKE);
      } else {
        ReplyCompletes(s);
      }
    }
  }

  lemma ReceivesKeeps(s: System, e: Event)
    requires Inv(s) && (e.ServerReceives? || e.ClientReceives?)
    ensures Inv(Next(s, e))
  {
    hide Delimited, Framable;
    if e.ServerReceives? && e.n <= |s.toServer| {
      Moves(s.serverBuffer, s.toServer, e.n);
    }
    if e.ClientReceives? && e.n <= |s.toClient| {
      Moves(s.clientBuffer, s.toClient, e.n);
    }
  }

  lemma StepKeeps(s: System, e: Event)
    requires Inv(s) && WellBehaved(e)
    ensures Inv(Next(s, e))
  {
    hide Delimited, Framable, FirstEnd;
    match e
    case ServerCompletes(answer) => ServerCompletesKeeps(s, answer);
    case ClientCompletes => ClientCompletesKeeps(s);
    case ServerReceives(_) => ReceivesKeeps(s, e);
    case ClientReceives(_) => ReceivesKeeps(s, e);
    case _ =>
  }

  lemma {:induction false} RunKeeps(s: System, es: seq<Event>)
    requires Inv(s) && forall e <- es :: WellBehaved(e)
    ensures Inv(Run(s, es))
    decreases |es|
  {
    hide Inv, Next, WellBehaved;
    if es != [] {
      StepKeeps(s, es[0]);
      RunKeeps(Next(s, es[0]), es[1..]);
    }
  }

  /** Main theorem: for every interleaving and every fragmentation, the k-th write
      returns the callback's reply to the k-th message, and no byte is ever dropped,
      neither of a later request nor of a reply. */
  lemma RepliesMatchRequests(es: seq<Event>, k: nat)
    requires forall e <- es :: WellBehaved(e)
    requires k < |Run(START, es).got|
    ensures var s := Run(START, es);
      && k < |s.calls| && k < |s.sent|
      && s.calls[k].request == s.sent[k] && s.got[k] == s.calls[k].reply
      && s.lost == 0 && s.drained == 0
  {
    RunKeeps(START, es);
  }

  /** No callback runs before the handshake has been answered. */
  lemma NoCallBeforeHandshake(es: seq<Event>)
    requires forall e <- es :: WellBehaved(e)
    requires var c := Run(START, es).client; c == NotConnected || c == AwaitingHandshake
    ensures Run(START, es).calls == []
  {
    RunKeeps(START, es);
  }

  /** No callback runs for the end of session nor after it. */
  lemma {:induction false} NoCallAfterEnd(s: System, es: seq<Event>)
    requires Inv(s) && s.client == Closed && forall e <- es :: WellBehaved(e)
    ensures Run(s, es).calls == s.calls && Run(s, es).client == Closed
    decreases |es|
  {
    if es != [] {
      var s' := Next(s, es[0]);
      StepKeeps(s, es[0]);
      EndIsNoCall(s, es[0]);
      NoCallAfterEnd(s', es[1..]);
    }
  }

  lemma EndIsNoCall(s: System, e: Event)
    requires Inv(s) && s.client == Closed
    ensures Next(s, e).client == Closed && Next(s, e).calls == s.calls
  {
    hide Framable, Delimited, FirstEnd, Payload, HandleRequest, HandleHandshake;
    NotDelimited();
    if e.ServerCompletes? && Delimited(s.serverBuffer) {
      SessionEnds(s, e.answer);
    }
  }

  /** A client that waits is never stuck: some step that changes something is enabled. */
  lemma NeverStuck(s: System)
    requires Inv(s) && Waiting(s)
    ensures exists e :: WellBehaved(e) && Next(s, e) != s
  {
    hide Framable, Delimited, FirstEnd, Payload, HandleRequest, HandleHandshake;
    NotDelimited();
    EmptyIsFramable();
    if s.server == Writing {
      assert Next(s, ServerWrites).server != s.server;
    } else if Delimited(s.serverBuffer) {
      assert WellBehaved(ServerCompletes("")) && Next(s, ServerCompletes("")).serverBuffer != s.serverBuffer;
    } else if Delimited(s.clientBuffer) {
      assert Next(s, ClientCompletes).clientBuffer != s.clientBuffer;
    } else {
      BytesLeft(s);
      if s.toServer != "" {
        assert Next(s, ServerReceives(1)).toServer != s.toServer;
      } else {
        assert Next(s, ClientReceives(1)).toClient != s.toClient;
      }
    }
  }

  lemma BytesLeft(s: System)
    requires Inv(s) && Waiting(s) && s.server != Writing
    requires !Delimited(s.serverBuffer) && !Delimited(s.clientBuffer)
    ensures s.server == Handshaking || s.server == Reading
    ensures s.toServer != "" || s.toClient != ""
  {
    hide Framable, Delimited;
    forall m ensures !OnItsWay(s.serverBuffer, "", m) && !OnItsWay(s.clientBuffer, "", m) {
      SomethingLeft(s.serverBuffer, m);
      SomethingLeft(s.clientBuffer, m);
    }
  }

  lemma SomethingLeft(buffer: string, m: string)
    requires !Delimited(buffer)
    ensures !OnItsWay(buffer, "", m)
  {
    DelimiterAtEnd(m);
    assert buffer + "" == buffer;
  }

  lemma EmptyIsFramable()
    ensures Framable("")
  {
  }

  // ---------- Every wait ends ----------

  /** How far the client is from its answer: the request is on its way (3), the reply is
      about to be written (2), the reply is on its way (1), nothing is awaited (0). */
  function Stage(s: System): nat {
    if !Waiting(s) then 0
    else if s.server == Writing then 2
    else if s.clientBuffer == "" && s.toClient == "" then 3
    else 1
  }

  /** The bytes that have not been taken from the streams yet. */
  function Underway(s: System): nat { |s.toServer| + |s.toClient| }

  predicate Nearer(s': System, s: System) {
    Stage(s') < Stage(s) || (Stage(s') == Stage(s) && Underway(s') < Underway(s))
  }

  lemma ReceivingIsNearer(s: System, e: Event)
    requires Inv(s) && Waiting(s) && (e.ServerReceives? || e.ClientReceives?) && Next(s, e) != s
    ensures Nearer(Next(s, e), s)
  {
    hide Delimited, Framable;
  }

  lemma ServerCompletingIsNearer(s: System, answer: string)
    requires Inv(s) && Waiting(s) && Delimited(s.serverBuffer)
    ensures Nearer(Next(s, ServerCompletes(answer)), s)
  {
    hide Framable, Delimited, FirstEnd, Payload, HandleRequest, HandleHandshake;
    NotDelimited();
    FixedMessages();
    var m := if s.client == AwaitingHandshake then HANDSHAKE else s.sent[|s.got|];
    assert s.client == AwaitingReply ==> s.sent[|s.got|] in s.sent;
    Arrived(s.serverBuffer, s.toServer, m);
    WholeMessageHandled(m, answer);
  }

  lemma ClientCompletingIsNearer(s: System)
    requires Inv(s) && Waiting(s) && Delimited(s.clientBuffer)
    ensures Nearer(Next(s, ClientCompletes), s)
  {
    hide Framable, Delimited, FirstEnd, Payload, HandleRequest, HandleHandshake;
    NotDelimited();
  }

  /** While the client waits, every step that changes anything brings its answer nearer. */
  lemma StepIsNearer(s: System, e: Event)
    requires Inv(s) && Waiting(s) && WellBehaved(e) && Next(s, e) != s
    ensures Nearer(Next(s, e), s)
  {
    hide Framable, Delimited, FirstEnd, Payload, HandleRequest, HandleHandshake;
    NotDelimited();
    match e
    case ServerCompletes(answer) => ServerCompletingIsNearer(s, answer);
    case ClientCompletes => ClientCompletingIsNearer(s);
    case ServerReceives(_) => ReceivingIsNearer(s, e);
    case ClientReceives(_) => ReceivingIsNearer(s, e);
    case _ =>
  }

  /** An endless session: each state comes from the one before by some well-behaved step. */
  ghost predicate Session(states: nat -> System, events: nat -> Event) {
    forall i: nat :: WellBehaved(events(i)) && states(i + 1) == Next(states(i), events(i))
  }

  /** Nobody stops for good while the client waits. */
  ghost predicate Fair(states: nat -> System) {
    forall i: nat :: Waiting(states(i)) ==> exists j: nat :: i <= j && states(j + 1) != states(j)
  }

  lemma {:induction false} FirstChange(states: nat -> System, i: nat, j: nat) returns (k: nat)
    requires i <= j && states(j + 1) != states(j)
    ensures i <= k && states(k) == states(i) && states(k + 1) != states(k)
    decreases j - i
  {
    if states(i + 1) != states(i) {
      k := i;
    } else {
      k := FirstChange(states, i + 1, j);
    }
  }

  /** Every handshake and every write completes, whatever the interleaving, the
      fragmentation and the lengths of messages and replies. */
  lemma {:induction false} EveryWaitEnds(states: nat -> System, events: nat -> Event, i: nat) returns (k: nat)
    requires Session(states, events) && Fair(states) && Inv(states(i))
    ensures i <= k && Inv(states(k)) && !Waiting(states(k))
    decreases Stage(states(i)), Underway(states(i))
  {
    hide Inv, Next, WellBehaved, Waiting, Stage, Underway;
    if !Waiting(states(i)) {
      k := i;
    } else {
      var j: nat :| i <= j && states(j + 1) != states(j);
      var c := FirstChange(states, i, j);
      assert states(c + 1) == Next(states(c), events(c));
      StepIsNearer(states(c), events(c));
      StepKeeps(states(c), events(c));
      k := EveryWaitEnds(states, events, c + 1);
    }
  }

  // ---------- Strangers ----------

  /** At some point of the run the server completes its first read with the handshake. */
  predicate Admits(s: System, es: seq<Event>)
    decreases |es|
  {
    es != [] &&
    (|| (s.server == Handshaking && es[0].ServerCompletes? && s.serverBuffer == "HandShakeGazeboCoSim\r\n\r\n")
     || Admits(Next(s, es[0]), es[1..]))
  }

  /** Whatever bytes arrive, in whatever fragments: without that handshake the callback is
      never asked and nothing is ever sent to the other side. */
  lemma {:induction false} StrangersAreNotServed(s: System, es: seq<Event>)
    requires (s.server == Handshaking || s.server == Stopped) && !Admits(s, es)
    ensures Run(s, es).calls == s.calls
    ensures exists n: nat :: n <= |s.toClient| && Run(s, es).toClient == s.toClient[n..]
    decreases |es|
  {
    hide Delimited, FirstEnd;
    if es == [] {
      assert s.toClient[0..] == s.toClient;
    } else {
      var s' := Next(s, es[0]);
      NotAdmittedStep(s, es[0]);
      StrangersAreNotServed(s', es[1..]);
      var m: nat :| m <= |s'.toClient| && Run(s', es[1..]).toClient == s'.toClient[m..];
      var k := |s.toClient| - |s'.toClient|;
      assert s.toClient[k..][m..] == s.toClient[k + m..];
    }
  }

  lemma NotAdmittedStep(s: System, e: Event)
    requires s.server == Handshaking || s.server == Stopped
    requires !(s.server == Handshaking && e.ServerCompletes? && s.serverBuffer == "HandShakeGazeboCoSim\r\n\r\n")
    ensures var s' := Next(s, e);
      && (s'.server == Handshaking || s'.server == Stopped) && s'.calls == s.calls
      && |s'.toClient| <= |s.toClient| && s'.toClient == s.toClient[|s.toClient| - |s'.toClient|..]
  {
    hide Delimited, FirstEnd;
    assert HANDSHAKE + END_OF_MESSAGE == "HandShakeGazeboCoSim\r\n\r\n";
    assert s.toClient[0..] == s.toClient;
  }

  /** A client that gets any other answer to its handshake never sends a message. */
  lemma OtherAnswerIsRefused(s: System, es: seq<Event>)
    requires s.client == AwaitingHandshake && Delimited(s.clientBuffer)
    requires Payload(s.clientBuffer) != "HandShakeGazeboCoSim"
    ensures var s' := Run(Next(s, ClientCompletes), es); s'.client == Refused && s'.sent == s.sent
  {
    RefusedStays(Next(s, ClientCompletes), es);
  }

  lemma {:induction false} RefusedStays(s: System, es: seq<Event>)
    requires s.client == Refused
    ensures Run(s, es).client == Refused && Run(s, es).sent == s.sent
    decreases |es|
  {
    hide Delimited, FirstEnd, Payload, HandleHandshake, HandleRequest;
    if es != [] {
      RefusedStays(Next(s, es[0]), es[1..]);
    }
  }
}
