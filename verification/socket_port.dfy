/** SocketPort: a CommunicationPort over a TCP stream socket. Reads and writes loop over
    `recv` and `send`, which may move fewer bytes than asked. The socket itself is foreign:
    the loops take `recv` and `send` as functions of an abstract peer state `S`, and an
    echoing peer (the test server that sends back what it receives) is given concretely. */
module SocketPort {
  import opened Errors
  import opened Bytes
  import opened Seqs

  /** The largest request passed to `recv`. */
  const CHUNK: nat := 2048

  datatype SocketPort<S> = SocketPort(host: string, port: int, sock: Option<S>)

  function New<S>(host: string, port: int): (p: SocketPort<S>)
    ensures p.sock.None?
  {
    SocketPort(host, port, None)
  }

  /** `open` creates and connects a socket only when there is none. The socket is stored
      before `connect` runs, so after a failed connect a second `open` does nothing. */
  function Open<S>(p: SocketPort<S>, newSocket: S, connects: bool): (r: (Result<()>, SocketPort<S>))
    ensures p.sock.Some? ==> r == (Ok(()), p)
    ensures p.sock.None? ==> r.1.sock == Some(newSocket) && (r.0.Ok? <==> connects)
    ensures r.0.Err? ==> r.0.error == ConnectionError
    ensures r.1.sock.Some?
  {
    if p.sock.Some? then (Ok(()), p)
    else (if connects then Ok(()) else Err(ConnectionError), p.(sock := Some(newSocket)))
  }

  /** `close` drops the socket; closing a closed port does nothing. */
  function Close<S>(p: SocketPort<S>): (q: SocketPort<S>)
    ensures q.sock.None? && q.host == p.host && q.port == p.port
  {
    p.(sock := None)
  }

  /** `recv(k)` never returns more than `k` bytes. */
  ghost predicate RecvBounded<S(!new)>(recv: (S, nat) -> (seq<byte>, S))
  {
    forall s, k :: |recv(s, k).0| <= k
  }

  /** `send(d)` never reports more than `|d|` bytes sent. */
  ghost predicate SendBounded<S(!new)>(send: (S, seq<byte>) -> (nat, S))
  {
    forall s, d :: send(s, d).0 <= |d|
  }

  /** Puts `prefix` in front of a successful read. */
  function Prefixed<S>(prefix: seq<byte>, r: (Result<seq<byte>>, S)): (Result<seq<byte>>, S)
  {
    (if r.0.Ok? then Ok(prefix + r.0.value) else r.0, r.1)
  }

  lemma PrefixedNothing<S>(r: (Result<seq<byte>>, S))
    ensures Prefixed([], r) == r
  {
    if r.0.Ok? { assert [] + r.0.value == r.0.value; }
  }

  lemma PrefixedTwice<S>(a: seq<byte>, b: seq<byte>, r: (Result<seq<byte>>, S))
    ensures Prefixed(a, Prefixed(b, r)) == Prefixed(a + b, r)
  {
    if r.0.Ok? { assert a + (b + r.0.value) == (a + b) + r.0.value; }
  }

  /** Every size in `sizes` is between 1 and `most`. */
  predicate Within(sizes: seq<nat>, most: nat)
  {
    forall k | k in sizes :: 1 <= k <= most
  }

  lemma WithinAppend(sizes: seq<nat>, k: nat, most: nat)
    requires Within(sizes, most) && 1 <= k <= most
    ensures Within(sizes + [k], most)
  {
  }

  /** Reference definition of `readData`: receive until at least `owed` bytes have arrived,
      asking for at most CHUNK at a time; an empty chunk means the connection broke. */
  function RecvAll<S(!new)>(s: S, owed: nat, recv: (S, nat) -> (seq<byte>, S)): (r: (Result<seq<byte>>, S))
    ensures r.0.Ok? ==> |r.0.value| >= owed
    ensures RecvBounded(recv) && r.0.Ok? ==> |r.0.value| == owed
    ensures r.0.Err? ==> r.0.error == RuntimeError(BrokenOnRead)
    decreases owed
  {
    if owed == 0 then (Ok([]), s)
    else
      var (chunk, s1) := recv(s, Min(owed, CHUNK));
      if chunk == [] then (Err(RuntimeError(BrokenOnRead)), s1)
      else if |chunk| >= owed then (Ok(chunk), s1)
      else Prefixed(chunk, RecvAll(s1, owed - |chunk|, recv))
  }

  /** `readData(length)`: the chunk loop. `requests` lists the sizes passed to `recv`. */
  method ReadData<S(!new)>(s: S, length: nat, recv: (S, nat) -> (seq<byte>, S))
    returns (r: Result<seq<byte>>, s': S, requests: seq<nat>)
    ensures (r, s') == RecvAll(s, length, recv)
    ensures RecvBounded(recv) && r.Ok? ==> |r.value| == length
    ensures Within(requests, Min(length, CHUNK))
    ensures length == 0 ==> requests == []
  {
    var chunks: seq<seq<byte>> := [];
    var received: nat := 0;
    var st := s;
    requests := [];
    PrefixedNothing(RecvAll(s, length, recv));
    while received < length
      invariant received == |Flatten(chunks)|
      invariant RecvAll(s, length, recv) ==
                Prefixed(Flatten(chunks), RecvAll(st, if received >= length then 0 else length - received, recv))
      invariant Within(requests, Min(length, CHUNK))
      invariant length == 0 ==> requests == []
      decreases length - received
    {
      var request := Min(length - received, CHUNK);
      var (chunk, st1) := recv(st, request);
      WithinAppend(requests, request, Min(length, CHUNK));
      requests := requests + [request];
      if chunk == [] {
        return Err(RuntimeError(BrokenOnRead)), st1, requests;
      }
      ReadStep(s, length, recv, chunks, received, st, chunk, st1);
      chunks := chunks + [chunk];
      received := received + |chunk|;
      st := st1;
    }
    assert Flatten(chunks) + [] == Flatten(chunks);
    return Ok(Flatten(chunks)), st, requests;
  }

  /** One pass of the `readData` loop: a non-empty chunk joins the received bytes and the
      rest of the reference read continues from the new peer state. */
  lemma ReadStep<S(!new)>(s: S, length: nat, recv: (S, nat) -> (seq<byte>, S), chunks: seq<seq<byte>>,
                          received: nat, st: S, chunk: seq<byte>, st1: S)
    requires received == |Flatten(chunks)| < length
    requires RecvAll(s, length, recv) == Prefixed(Flatten(chunks), RecvAll(st, length - received, recv))
    requires (chunk, st1) == recv(st, Min(length - received, CHUNK)) && chunk != []
    ensures received + |chunk| == |Flatten(chunks + [chunk])|
    ensures RecvAll(s, length, recv) ==
            Prefixed(Flatten(chunks + [chunk]),
                     RecvAll(st1, if received + |chunk| >= length then 0 else length - (received + |chunk|), recv))
  {
    var owed := length - received;
    var later := if |chunk| >= owed then 0 else owed - |chunk|;
    assert RecvAll(st, owed, recv) == Prefixed(chunk, RecvAll(st1, later, recv)) by {
      if |chunk| >= owed { assert chunk + [] == chunk; }
    }
    PrefixedTwice(Flatten(chunks), chunk, RecvAll(st1, later, recv));
    FlattenAppend(chunks, chunk);
  }

  /** Reference definition of `writeData`: send the unsent suffix until everything is out;
      a send of zero bytes means the connection broke. The result is the total reported sent. */
  function SendAll<S(!new)>(s: S, data: seq<byte>, sent: nat, send: (S, seq<byte>) -> (nat, S)): (r: (Result<nat>, S))
    requires sent <= |data|
    ensures r.0.Ok? ==> r.0.value >= |data|
    ensures SendBounded(send) && r.0.Ok? ==> r.0.value == |data|
    ensures r.0.Err? ==> r.0.error == RuntimeError(BrokenOnWrite)
    decreases |data| - sent
  {
    if sent == |data| then (Ok(sent), s)
    else
      var (n, s1) := send(s, data[sent..]);
      if n == 0 then (Err(RuntimeError(BrokenOnWrite)), s1)
      else if sent + n >= |data| then (Ok(sent + n), s1)
      else SendAll(s1, data, sent + n, send)
  }

  /** `writeData(data)`: the send loop. `passed` lists what was handed to `send`: each is a
      non-empty suffix of `data`, the first one all of it. */
  method WriteData<S(!new)>(s: S, data: seq<byte>, send: (S, seq<byte>) -> (nat, S))
    returns (r: Result<nat>, s': S, passed: seq<seq<byte>>)
    ensures (r, s') == SendAll(s, data, 0, send)
    ensures SendBounded(send) && r.Ok? ==> r.value == |data|
    ensures forall i :: 0 <= i < |passed| ==> 0 < |passed[i]| <= |data| && passed[i] == data[|data| - |passed[i]|..]
    ensures |data| > 0 ==> |passed| > 0 && passed[0] == data
  {
    var total: nat := 0;
    var st := s;
    passed := [];
    while total < |data|
      invariant SendAll(s, data, 0, send) ==
                (if total >= |data| then (Ok(total), st) else SendAll(st, data, total, send))
      invariant forall i :: 0 <= i < |passed| ==> 0 < |passed[i]| <= |data| && passed[i] == data[|data| - |passed[i]|..]
      invariant total == 0 ==> passed == []
      invariant |data| > 0 && total > 0 ==> |passed| > 0 && passed[0] == data
      decreases |data| - total
    {
      var (n, st1) := send(st, data[total..]);
      passed := passed + [data[total..]];
      if n == 0 {
        return Err(RuntimeError(BrokenOnWrite)), st1, passed;
      }
      total := total + n;
      st := st1;
    }
    return Ok(total), st, passed;
  }

  // ---- an echoing peer ----

  type Window = w: nat | w >= 1 witness 1

  /** The test server: bytes sent to it come back in order. `window` caps how many bytes one
      `send` accepts and one `recv` delivers, so transfers may be split arbitrarily. */
  datatype EchoPeer = EchoPeer(pending: seq<byte>, window: Window)

  function EchoRecv(p: EchoPeer, k: nat): (r: (seq<byte>, EchoPeer))
  {
    var n := Min(k, Min(|p.pending|, p.window));
    (p.pending[..n], p.(pending := p.pending[n..]))
  }

  function EchoSend(p: EchoPeer, d: seq<byte>): (r: (nat, EchoPeer))
  {
    var n := Min(|d|, p.window);
    (n, p.(pending := p.pending + d[..n]))
  }

  lemma EchoBounded()
    ensures RecvBounded(EchoRecv) && SendBounded(EchoSend)
  {
  }

  /** Everything written reaches the peer, whatever the window. */
  lemma {:induction false} SendAllToEcho(p: EchoPeer, data: seq<byte>, sent: nat)
    requires sent <= |data|
    ensures SendAll(p, data, sent, EchoSend).0 == Ok(|data|)
    ensures SendAll(p, data, sent, EchoSend).1 == p.(pending := p.pending + data[sent..])
    decreases |data| - sent
  {
    EchoBounded();
    if sent < |data| {
      var (n, p1) := EchoSend(p, data[sent..]);
      SendAllToEcho(p1, data, sent + n);
      assert p1.pending + data[sent + n..] == p.pending + data[sent..] by {
        assert data[sent..] == data[sent..][..n] + data[sent + n..];
      }
    }
  }

  /** The first `recv` of a read from the echoing peer takes `m` bytes: the read breaks when
      `m` is 0, ends when `m` covers what is owed, and goes on for the rest otherwise. */
  lemma RecvEchoFirst(p: EchoPeer, n: nat)
    requires n > 0
    ensures var m := Min(Min(n, CHUNK), Min(|p.pending|, p.window));
            var p1 := p.(pending := p.pending[m..]);
            RecvAll(p, n, EchoRecv) == (if m == 0 then (Err(RuntimeError(BrokenOnRead)), p1)
                                        else if m >= n then (Ok(p.pending[..m]), p1)
                                        else Prefixed(p.pending[..m], RecvAll(p1, n - m, EchoRecv)))
  {
    var m := Min(Min(n, CHUNK), Min(|p.pending|, p.window));
    assert EchoRecv(p, Min(n, CHUNK)) == (p.pending[..m], p.(pending := p.pending[m..]));
    assert m == 0 <==> p.pending[..m] == [];
  }

  /** Reading `n` buffered bytes returns the oldest `n`; asking for more breaks the
      connection after the peer has drained. */
  lemma {:induction false} RecvAllFromEcho(p: EchoPeer, n: nat)
    ensures n <= |p.pending| ==> RecvAll(p, n, EchoRecv) == (Ok(p.pending[..n]), p.(pending := p.pending[n..]))
    ensures n > |p.pending| ==> RecvAll(p, n, EchoRecv) == (Err(RuntimeError(BrokenOnRead)), p.(pending := []))
    decreases n
  {
    if n > 0 {
      var m := Min(Min(n, CHUNK), Min(|p.pending|, p.window));
      var p1 := p.(pending := p.pending[m..]);
      RecvEchoFirst(p, n);
      if m == 0 {
        assert p.pending == [];
      } else if m >= n {
        assert m == n;
      } else {
        RecvAllFromEcho(p1, n - m);
        if n <= |p.pending| {
          SplitPrefix(p.pending, m, n);
        }
      }
    }
  }

  lemma SplitPrefix(s: seq<byte>, m: nat, n: nat)
    requires m <= n <= |s|
    ensures s[..n] == s[..m] + s[m..][..n - m] && s[m..][n - m..] == s[n..]
  {
    assert s[m..][..n - m] == s[m..n];
  }

  /** Against the echoing peer, `writeData(x)` followed by `readData(len(x))` yields `x`. */
  lemma EchoRoundTrip(p: EchoPeer, x: seq<byte>)
    requires p.pending == []
    ensures SendAll(p, x, 0, EchoSend).0 == Ok(|x|)
    ensures var p1 := SendAll(p, x, 0, EchoSend).1;
            RecvAll(p1, |x|, EchoRecv).0 == Ok(x) && RecvAll(p1, |x|, EchoRecv).1.pending == []
  {
    SendAllToEcho(p, x, 0);
    var p1 := p.(pending := x);
    assert p1.pending == p.pending + x[0..];
    RecvAllFromEcho(p1, |x|);
    assert x[..|x|] == x;
  }

  /** A message framed by its length as a little-endian 16-bit prefix: the reader takes two
      bytes, decodes the length, reads that many more, and recovers the exact frame. */
  lemma LengthPrefixedRoundTrip(p: EchoPeer, text: seq<byte>)
    requires p.pending == []
    requires |text| < 0x1_0000
    ensures var frame := U16LE(|text|) + text;
            var p1 := SendAll(p, frame, 0, EchoSend).1;
            var (header, p2) := RecvAll(p1, 2, EchoRecv);
            header.Ok? && DecodeLE(header.value) == |text| &&
            RecvAll(p2, DecodeLE(header.value), EchoRecv).0 == Ok(text) &&
            RecvAll(p2, DecodeLE(header.value), EchoRecv).1.pending == []
  {
    var frame := U16LE(|text|) + text;
    SendAllToEcho(p, frame, 0);
    var p1 := p.(pending := frame);
    assert p1.pending == p.pending + frame[0..];
    RecvAllFromEcho(p1, 2);
    var p2 := p1.(pending := frame[2..]);
    assert frame[..2] == U16LE(|text|);
    U16LERoundTrip(|text|);
    assert frame[2..] == text;
    RecvAllFromEcho(p2, |text|);
    assert text[..|text|] == text;
  }
}
