/** The FIFO byte buffer shared by the two in-memory devices (the debug echo port and the
    Cobolt laser simulator): reading pops bytes from the front one at a time. */
module Fifo {
  import opened Errors
  import opened Bytes

  /** `length` successive `buffer.pop(0)` calls. When the buffer runs dry the read raises
      CommunicationReadTimeout, and the bytes popped before that are lost. */
  function PopFront(buffer: seq<byte>, length: nat): (r: (Result<seq<byte>>, seq<byte>))
    ensures length <= |buffer| ==> r == (Ok(buffer[..length]), buffer[length..])
    ensures length > |buffer| ==> r == (Err(ReadTimeout), [])
    decreases length
  {
    if length == 0 then (Ok([]), buffer)
    else if |buffer| == 0 then (Err(ReadTimeout), [])
    else
      var (rest, remaining) := PopFront(buffer[1..], length - 1);
      assert length <= |buffer| ==> buffer[..length] == [buffer[0]] + buffer[1..][..length - 1];
      assert length <= |buffer| ==> buffer[length..] == buffer[1..][length - 1..];
      (if rest.Ok? then Ok([buffer[0]] + rest.value) else rest, remaining)
  }
}
