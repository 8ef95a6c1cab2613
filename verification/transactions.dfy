/** The text transaction layer of CommunicationPort: `readString`, `writeString` and the three
    pattern-checked write-then-read exchanges, over the three concrete ports. Strings are
    modelled as their UTF-8 bytes. Regular expressions are foreign: a pattern is a function
    from the reply to its match groups, or None when `re.search` finds nothing. */
module Transactions {
  import opened Errors
  import opened Bytes
  import DebugEcho
  import SerialPort
  import SocketPort
  import Cobolt

  /** A port: the in-memory echo port, a serial port driving the Cobolt simulator, or a
      socket whose peer echoes what it receives. */
  datatype Channel =
    | Echo(echo: DebugEcho.EchoPort)
    | Serial(serial: SerialPort.SerialPort)
    | Socket(socket: SocketPort.SocketPort<SocketPort.EchoPeer>)

  /** The bytes a port would hand out next, in order. */
  function Inbound(ch: Channel): seq<byte>
  {
    match ch
    case Echo(p) => p.buffer
    case Serial(p) => p.port.outputBuffer
    case Socket(p) => if p.sock.Some? then p.sock.value.pending else []
  }

  /** Ports whose reads return exactly what was written to them. */
  predicate Echoes(ch: Channel)
  {
    ch.Echo? || (ch.Socket? && ch.socket.sock.Some?)
  }

  /** `b` is `a` with only its unread bytes possibly changed. */
  predicate SamePort(a: Channel, b: Channel)
  {
    match a
    case Echo(p) => b.Echo? && b.echo == p.(buffer := b.echo.buffer)
    case Serial(p) => b.Serial? && b.serial == p.(port := p.port.(outputBuffer := b.serial.port.outputBuffer))
    case Socket(p) =>
      b.Socket? && b.socket.host == p.host && b.socket.port == p.port && b.socket.sock.Some? == p.sock.Some?
      && (p.sock.Some? ==> b.socket.sock.value.window == p.sock.value.window)
  }

  /** `readData(length, endpoint)` of whichever port `ch` is. The echo port's `readData` takes no
      endpoint; the endpoint is ignored everywhere. A socket that was never opened has no
      `recv` (AttributeError) once there is something to receive. */
  function ReadData(ch: Channel, length: nat, endpoint: int): (r: (Result<seq<byte>>, Channel))
    ensures r.0.Ok? <==> length <= |Inbound(ch)| && (length > 0 && ch.Socket? ==> ch.socket.sock.Some?)
    ensures r.0.Ok? ==> r.0.value == Inbound(ch)[..length] && Inbound(r.1) == Inbound(ch)[length..]
    ensures r.0.Err? ==> Inbound(r.1) == []
    ensures r.0.Err? && !ch.Socket? ==> r.0.error == ReadTimeout
    ensures r.0.Err? && ch.Socket? ==>
              r.0.error == (if ch.socket.sock.Some? then RuntimeError(BrokenOnRead) else AttributeError)
    ensures SamePort(ch, r.1)
  {
    match ch
    case Echo(p) =>
      var (res, q) := DebugEcho.ReadData(p, length);
      (res, Echo(q))
    case Serial(p) =>
      var (res, q) := SerialPort.ReadData(p, length);
      (res, Serial(q))
    case Socket(p) =>
      if length == 0 then (Ok([]), ch)
      else if p.sock.None? then (Err(AttributeError), ch)
      else
        SocketPort.RecvAllFromEcho(p.sock.value, length);
        var (res, peer) := SocketPort.RecvAll(p.sock.value, length, SocketPort.EchoRecv);
        (res, Socket(p.(sock := Some(peer))))
  }

  /** `writeData(data, endpoint)` of whichever port `ch` is; the endpoint is ignored. */
  function WriteData(ch: Channel, data: seq<byte>, endpoint: int): (r: (Result<nat>, Channel))
    ensures Echoes(ch) ==> r.0 == Ok(|data|) && Inbound(r.1) == Inbound(ch) + data && SamePort(ch, r.1)
    ensures ch.Serial? ==> r.1.Serial? && (r.0.Ok? <==> IsAscii(data))
    ensures ch.Socket? && ch.socket.sock.None? ==> r.1 == ch && (r.0.Ok? <==> data == [])
    ensures r.0.Ok? ==> r.0.value == |data|
  {
    match ch
    case Echo(p) =>
      var (n, q) := DebugEcho.WriteData(p, data);
      (Ok(n), Echo(q))
    case Serial(p) =>
      var (res, q) := SerialPort.WriteData(p, data);
      (res, Serial(q))
    case Socket(p) =>
      if data == [] then (Ok(0), ch)
      else if p.sock.None? then (Err(AttributeError), ch)
      else
        SocketPort.SendAllToEcho(p.sock.value, data, 0);
        var (res, peer) := SocketPort.SendAll(p.sock.value, data, 0, SocketPort.EchoSend);
        (res, Socket(p.(sock := Some(peer))))
  }

  /** The byte-at-a-time loop of `readString`, with `acc` the bytes read so far: it stops right
      after the first LF, or at an empty read, and an exception from `readData` propagates. */
  function ReadLine(ch: Channel, acc: seq<byte>, endpoint: int): (r: (Result<seq<byte>>, Channel))
    ensures var k := FirstIndex(Inbound(ch), LF);
            && (r.0.Ok? <==> k < |Inbound(ch)|)
            && (r.0.Ok? ==> r.0.value == acc + Inbound(ch)[..k + 1] && Inbound(r.1) == Inbound(ch)[k + 1..])
    ensures r.0.Err? ==> Inbound(r.1) == []
    ensures r.0.Err? && !ch.Socket? ==> r.0.error == ReadTimeout
    ensures SamePort(ch, r.1)
    decreases |Inbound(ch)|
  {
    var (res, ch1) := ReadData(ch, 1, endpoint);
    match res
    case Err(e) => (Err(e), ch1)
    case Ok(b) =>
      if b == [] then (Ok(acc), ch1)
      else if b == [LF] then (Ok(acc + b), ch1)
      else
        var r := ReadLine(ch1, acc + b, endpoint);
        ReadLineStep(Inbound(ch), acc, r.0.Ok?);
        r
  }

  /** One step of `ReadLine`: consuming a first byte that is not LF shifts the first LF by one. */
  lemma ReadLineStep(s: seq<byte>, acc: seq<byte>, found: bool)
    requires |s| > 0 && s[0] != LF
    requires found ==> FirstIndex(s[1..], LF) < |s[1..]|
    ensures FirstIndex(s, LF) == 1 + FirstIndex(s[1..], LF)
    ensures found ==>
              var k := FirstIndex(s[1..], LF);
              (acc + s[..1]) + s[1..][..k + 1] == acc + s[..k + 2] && s[1..][k + 1..] == s[k + 2..]
  {
    if found {
      ShiftedLine(s, acc, FirstIndex(s[1..], LF));
    }
  }

  lemma ShiftedLine(s: seq<byte>, acc: seq<byte>, k: nat)
    requires k + 2 <= |s|
    ensures (acc + s[..1]) + s[1..][..k + 1] == acc + s[..k + 2] && s[1..][k + 1..] == s[k + 2..]
  {
    assert s[1..][..k + 1] == s[1..k + 2];
    assert s[..1] + s[1..k + 2] == s[..k + 2];
  }

  /** `readString(endpoint)`: one line, LF included, decoded. A byte outside ASCII counts as a
      decoding failure. */
  function ReadString(ch: Channel, endpoint: int): (r: (Result<seq<byte>>, Channel))
    ensures var k := FirstIndex(Inbound(ch), LF);
            && (r.0.Ok? <==> k < |Inbound(ch)| && IsAscii(Inbound(ch)[..k + 1]))
            && (r.0.Ok? ==> r.0.value == Inbound(ch)[..k + 1] && Inbound(r.1) == Inbound(ch)[k + 1..])
    ensures r.0.Ok? ==> IsTextLine(r.0.value) && Inbound(ch) == r.0.value + Inbound(r.1)
    ensures r.0.Err? && !ch.Socket? ==> r.0.error in {ReadTimeout, UnicodeDecodeError}
    ensures LF !in Inbound(ch) ==> r.0.Err? && Inbound(r.1) == []
    ensures SamePort(ch, r.1)
  {
    var (res, ch1) := ReadLine(ch, [], endpoint);
    LineFromStart(ch, endpoint);
    if res.Err? then (Err(res.error), ch1)
    else if IsAscii(res.value) then (Ok(res.value), ch1)
    else (Err(UnicodeDecodeError), ch1)
  }

  /** The byte loop started with nothing read returns the bytes up to the first LF, which
      form a line, and fails without an LF. */
  lemma LineFromStart(ch: Channel, endpoint: int)
    ensures var s := Inbound(ch);
            var k := FirstIndex(s, LF);
            var r := ReadLine(ch, [], endpoint);
            && (r.0.Ok? <==> k < |s|)
            && (r.0.Ok? ==> && r.0.value == s[..k + 1] && Inbound(r.1) == s[k + 1..]
                            && |r.0.value| > 0 && r.0.value[|r.0.value| - 1] == LF
                            && (forall i :: 0 <= i < |r.0.value| - 1 ==> r.0.value[i] != LF)
                            && s == r.0.value + Inbound(r.1))
            && (LF !in s ==> r.0.Err?)
  {
    var s := Inbound(ch);
    var k := FirstIndex(s, LF);
    if k < |s| {
      FirstLine(s);
      assert [] + s[..k + 1] == s[..k + 1];
    }
  }

  /** The bytes up to and including the first LF form a line ending at that LF, and the
      rest follows them. */
  lemma FirstLine(s: seq<byte>)
    requires FirstIndex(s, LF) < |s|
    ensures var k := FirstIndex(s, LF);
            var line := s[..k + 1];
            && |line| > 0 && line[|line| - 1] == LF
            && (forall i :: 0 <= i < |line| - 1 ==> line[i] != LF)
            && s == line + s[k + 1..]
  {
    var k := FirstIndex(s, LF);
    assert s == s[..k + 1] + s[k + 1..];
  }

  /** `writeString(string, endpoint)`: the encoded string goes to `writeData`. */
  function WriteString(ch: Channel, text: seq<byte>, endpoint: int): (r: (Result<nat>, Channel))
    ensures Echoes(ch) ==> r.0 == Ok(|text|) && Inbound(r.1) == Inbound(ch) + text && SamePort(ch, r.1)
    ensures r.0.Ok? ==> r.0.value == |text|
  {
    WriteData(ch, text, endpoint)
  }

  /** A line of text: ASCII, ending in LF, with no LF before the end. */
  predicate IsTextLine(s: seq<byte>)
  {
    |s| > 0 && s[|s| - 1] == LF && IsAscii(s) && forall i :: 0 <= i < |s| - 1 ==> s[i] != LF
  }

  /** Over an echoing port with nothing unread, `writeString(s)` then `readString()` returns a
      line `s` whole and leaves nothing unread. */
  lemma EchoLineRoundTrip(ch: Channel, s: seq<byte>, e0: int, e1: int)
    requires Echoes(ch) && Inbound(ch) == []
    requires IsTextLine(s)
    ensures var ch1 := WriteString(ch, s, e0).1;
            ReadString(ch1, e1).0 == Ok(s) && Inbound(ReadString(ch1, e1).1) == []
  {
    assert Inbound(ch) + s == s;
    TextLineWhole(s);
    EchoReadAfterWrite(ch, s, e0, e1);
  }

  /** A text line's first LF is its last byte, so the line up to it is the whole line. */
  lemma TextLineWhole(s: seq<byte>)
    requires IsTextLine(s)
    ensures LF in s && FirstIndex(s, LF) == |s| - 1
    ensures s[..FirstIndex(s, LF) + 1] == s && s[FirstIndex(s, LF) + 1..] == []
  {
    assert s[|s| - 1] == LF;
  }

  /** More generally, `readString` after `writeString(s)` returns the unread bytes and `s` up to
      the first LF, keeping the rest unread. */
  lemma EchoReadAfterWrite(ch: Channel, s: seq<byte>, e0: int, e1: int)
    requires Echoes(ch)
    requires LF in Inbound(ch) + s && IsAscii(Inbound(ch) + s)
    ensures var ch1 := WriteString(ch, s, e0).1;
            var k := FirstIndex(Inbound(ch) + s, LF);
            ReadString(ch1, e1).0 == Ok((Inbound(ch) + s)[..k + 1])
            && Inbound(ReadString(ch1, e1).1) == (Inbound(ch) + s)[k + 1..]
  {
    var ch1 := WriteString(ch, s, e0).1;
    assert Inbound(ch1) == Inbound(ch) + s;
    ReadStringLine(ch1, e1);
  }

  /** `readString` on ASCII bytes holding an LF returns them up to the first LF. */
  lemma ReadStringLine(ch: Channel, endpoint: int)
    requires LF in Inbound(ch) && IsAscii(Inbound(ch))
    ensures var k := FirstIndex(Inbound(ch), LF);
            ReadString(ch, endpoint).0 == Ok(Inbound(ch)[..k + 1])
            && Inbound(ReadString(ch, endpoint).1) == Inbound(ch)[k + 1..]
  {
    var s := Inbound(ch);
    var k := FirstIndex(s, LF);
    assert k < |s| by {
      var j :| 0 <= j < |s| && s[j] == LF;
      assert !(k > j);
    }
    assert IsAscii(s[..k + 1]);
  }

  // ---- pattern-checked exchanges ----

  /** The groups of a match; a group that did not take part in the match is None. */
  type Groups = seq<Option<seq<byte>>>

  /** `re.search(pattern, reply)`: None when nothing matches, otherwise the match's groups. */
  type Pattern = seq<byte> -> Option<Groups>

  /** The write and the read every exchange starts with. */
  function Exchange(ch: Channel, text: seq<byte>, endpoints: (int, int)): (r: (Result<seq<byte>>, Channel))
    ensures var (w, ch1) := WriteString(ch, text, endpoints.0);
            && (w.Err? ==> r == (Err(w.error), ch1))
            && (w.Ok? ==> r == ReadString(ch1, endpoints.1))
  {
    var (w, ch1) := WriteString(ch, text, endpoints.0);
    if w.Err? then (Err(w.error), ch1) else ReadString(ch1, endpoints.1)
  }

  /** `writeStringExpectMatchingString`: the whole reply when `replyPattern` matches it;
      otherwise AlternateMatch when an alternate pattern is given and does not match either,
      and NoMatch in every other case, including an alternate that does match. */
  function ExpectMatchingString(ch: Channel, text: seq<byte>, replyPattern: Pattern,
                                alternatePattern: Option<Pattern>, endpoints: (int, int))
    : (r: (Result<seq<byte>>, Channel))
    ensures var (reply, ch2) := Exchange(ch, text, endpoints);
            && r.1 == ch2
            && (reply.Err? ==> r.0 == reply)
            && (reply.Ok? ==>
                  && (r.0.Ok? <==> replyPattern(reply.value).Some?)
                  && (r.0.Ok? ==> r.0.value == reply.value)
                  && (r.0 == Err(AlternateMatch) <==>
                        replyPattern(reply.value).None? && alternatePattern.Some?
                        && alternatePattern.value(reply.value).None?)
                  && (r.0 == Err(NoMatch) <==>
                        replyPattern(reply.value).None?
                        && (alternatePattern.None? || alternatePattern.value(reply.value).Some?)))
  {
    var (reply, ch2) := Exchange(ch, text, endpoints);
    match reply
    case Err(e) => (Err(e), ch2)
    case Ok(line) =>
      if replyPattern(line).Some? then (Ok(line), ch2)
      else if alternatePattern.Some? && alternatePattern.value(line).None? then (Err(AlternateMatch), ch2)
      else (Err(NoMatch), ch2)
  }

  /** `writeStringReadMatchingGroups`: the groups of `replyPattern` in the reply, or NoMatch.
      The alternate pattern is accepted and never consulted. */
  function ReadMatchingGroups(ch: Channel, text: seq<byte>, replyPattern: Pattern,
                              alternatePattern: Option<Pattern>, endpoints: (int, int))
    : (r: (Result<Groups>, Channel))
    ensures var (reply, ch2) := Exchange(ch, text, endpoints);
            && r.1 == ch2
            && (r.0.Ok? <==> reply.Ok? && replyPattern(reply.value).Some?)
            && (r.0.Ok? ==> replyPattern(reply.value) == Some(r.0.value) && IsTextLine(reply.value))
            && (r.0.Err? ==> r.0.error == (if reply.Err? then reply.error else NoMatch))
  {
    var (reply, ch2) := Exchange(ch, text, endpoints);
    match reply
    case Err(e) => (Err(e), ch2)
    case Ok(line) =>
      match replyPattern(line)
      case Some(groups) => (Ok(groups), ch2)
      case None => (Err(NoMatch), ch2)
  }

  /** The alternate pattern has no effect on `writeStringReadMatchingGroups`. */
  lemma AlternateIgnored(ch: Channel, text: seq<byte>, replyPattern: Pattern,
                         a: Option<Pattern>, b: Option<Pattern>, endpoints: (int, int))
    ensures ReadMatchingGroups(ch, text, replyPattern, a, endpoints)
         == ReadMatchingGroups(ch, text, replyPattern, b, endpoints)
  {
  }

  /** `writeStringReadFirstMatchingGroup`: the first group, or NoMatch when the pattern matched
      without groups. */
  function ReadFirstMatchingGroup(ch: Channel, text: seq<byte>, replyPattern: Pattern,
                                  alternatePattern: Option<Pattern>, endpoints: (int, int))
    : (r: (Result<Option<seq<byte>>>, Channel))
    ensures var (reply, ch2) := Exchange(ch, text, endpoints);
            && r.1 == ch2
            && (r.0.Ok? <==> reply.Ok? && replyPattern(reply.value).Some? && |replyPattern(reply.value).value| >= 1)
            && (r.0.Ok? ==> r.0.value == replyPattern(reply.value).value[0])
            && (r.0.Err? ==> r.0.error == (if reply.Err? then reply.error else NoMatch))
  {
    var (groups, ch2) := ReadMatchingGroups(ch, text, replyPattern, alternatePattern, endpoints);
    match groups
    case Err(e) => (Err(e), ch2)
    case Ok(gs) => if |gs| >= 1 then (Ok(gs[0]), ch2) else (Err(NoMatch), ch2)
  }

  /** On an echoing port the reply is the command itself, so the exchange succeeds exactly
      when the reply pattern matches the command line. */
  lemma EchoExpectMatchingString(ch: Channel, text: seq<byte>, replyPattern: Pattern,
                                 alternatePattern: Option<Pattern>, endpoints: (int, int))
    requires Echoes(ch) && Inbound(ch) == []
    requires IsTextLine(text)
    ensures var r := ExpectMatchingString(ch, text, replyPattern, alternatePattern, endpoints).0;
            (r == Ok(text) <==> replyPattern(text).Some?)
            && (r == Err(AlternateMatch) <==>
                  replyPattern(text).None? && alternatePattern.Some? && alternatePattern.value(text).None?)
  {
    EchoLineRoundTrip(ch, text, endpoints.0, endpoints.1);
  }

  /** On an echoing port `writeStringReadMatchingGroups` matches the pattern against the
      command line itself: it returns the groups exactly when the pattern matches the
      command, NoMatch otherwise, and leaves nothing unread. */
  lemma EchoReadMatchingGroups(ch: Channel, text: seq<byte>, replyPattern: Pattern,
                               alternatePattern: Option<Pattern>, endpoints: (int, int))
    requires Echoes(ch) && Inbound(ch) == []
    requires IsTextLine(text)
    ensures var (r, ch') := ReadMatchingGroups(ch, text, replyPattern, alternatePattern, endpoints);
            && (r.Ok? <==> replyPattern(text).Some?)
            && (r.Ok? ==> r.value == replyPattern(text).value)
            && (r.Err? ==> r.error == NoMatch)
            && Inbound(ch') == []
  {
    EchoLineRoundTrip(ch, text, endpoints.0, endpoints.1);
  }

  /** On an echoing port `writeStringReadFirstMatchingGroup` returns the pattern's first group
      in the command line exactly when the pattern matches it with at least one group. */
  lemma EchoReadFirstMatchingGroup(ch: Channel, text: seq<byte>, replyPattern: Pattern,
                                   alternatePattern: Option<Pattern>, endpoints: (int, int))
    requires Echoes(ch) && Inbound(ch) == []
    requires IsTextLine(text)
    ensures var (r, ch') := ReadFirstMatchingGroup(ch, text, replyPattern, alternatePattern, endpoints);
            && (r.Ok? <==> replyPattern(text).Some? && |replyPattern(text).value| >= 1)
            && (r.Ok? ==> r.value == replyPattern(text).value[0])
            && (r.Err? ==> r.error == NoMatch)
            && Inbound(ch') == []
  {
    EchoLineRoundTrip(ch, text, endpoints.0, endpoints.1);
  }
}
