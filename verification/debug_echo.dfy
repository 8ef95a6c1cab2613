/** DebugEchoCommunicationPort: an in-memory channel whose reads return, in order, the bytes
    written to it. The optional random delay before each read is not modelled. */
module DebugEcho {
  import opened Errors
  import opened Bytes
  import Fifo

  datatype EchoPort = EchoPort(buffer: seq<byte>, isOpen: bool)

  /** A new port is closed and holds no bytes. */
  function New(): (p: EchoPort)
    ensures p.buffer == [] && !p.isOpen
  {
    EchoPort([], false)
  }

  /** Opening an open port raises a bare Exception; otherwise the port becomes open. */
  function Open(p: EchoPort): (r: (Result<()>, EchoPort))
    ensures r.0.Ok? <==> !p.isOpen
    ensures r.0.Err? ==> r.0.error == PlainException && r.1 == p
    ensures r.1.isOpen && r.1.buffer == p.buffer
  {
    if p.isOpen then (Err(PlainException), p) else (Ok(()), p.(isOpen := true))
  }

  /** Closing always succeeds, whatever the state. */
  function Close(p: EchoPort): (q: EchoPort)
    ensures !q.isOpen && q.buffer == p.buffer
  {
    p.(isOpen := false)
  }

  function BytesAvailable(p: EchoPort): nat
  {
    |p.buffer|
  }

  /** Discards every buffered byte. */
  function Flush(p: EchoPort): (q: EchoPort)
    ensures BytesAvailable(q) == 0 && q.isOpen == p.isOpen
  {
    p.(buffer := [])
  }

  /** Pops the `length` oldest bytes. Neither read nor write checks `isOpen`. */
  function ReadData(p: EchoPort, length: nat): (r: (Result<seq<byte>>, EchoPort))
    ensures r.1.isOpen == p.isOpen
    ensures r.0.Ok? <==> length <= BytesAvailable(p)
    ensures r.0.Ok? ==> r.0.value == p.buffer[..length] && r.1.buffer == p.buffer[length..]
    ensures r.0.Err? ==> r.0.error == ReadTimeout && BytesAvailable(r.1) == 0
  {
    var (res, rest) := Fifo.PopFront(p.buffer, length);
    (res, p.(buffer := rest))
  }

  /** Appends `data` and reports how many bytes were written. */
  function WriteData(p: EchoPort, data: seq<byte>): (r: (nat, EchoPort))
    ensures r.0 == |data|
    ensures r.1.buffer == p.buffer + data && r.1.isOpen == p.isOpen
    ensures BytesAvailable(r.1) == BytesAvailable(p) + r.0
  {
    (|data|, p.(buffer := p.buffer + data))
  }

  /** The port is first in, first out: after a write, reading everything buffered returns the
      older bytes followed by the new ones and leaves the port empty. */
  lemma WriteThenReadAll(p: EchoPort, data: seq<byte>)
    ensures var q := WriteData(p, data).1;
            ReadData(q, |p.buffer| + |data|) == (Ok(p.buffer + data), q.(buffer := []))
  {
    var q := WriteData(p, data).1;
    assert q.buffer[..|p.buffer| + |data|] == p.buffer + data;
    assert q.buffer[|p.buffer| + |data|..] == [];
  }

  /** Open/close life cycle: a new port opens once, refuses a second open, and can be
      reopened after a close. */
  lemma OpenCloseCycle()
    ensures Open(New()).0.Ok?
    ensures Open(Open(New()).1).0 == Err(PlainException)
    ensures Open(Close(Open(New()).1)).0.Ok?
  {
  }
}
