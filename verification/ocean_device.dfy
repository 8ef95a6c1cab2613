/** The command/reply layer of the Ocean Insight driver (OISpectrometer and its USB2000 and
    USB4000 subclasses). The USB device is foreign: each input endpoint is a queue of the
    transfers it will deliver (None for a transfer that fails or times out), and every write
    that reaches the command endpoint is logged. `flushEndpoints` is counted, not simulated. */
module OceanDevice {
  import opened Errors
  import opened Bytes
  import opened Seqs
  import opened OceanEndpoints
  import opened OceanStatus

  /** The driver subclass, which fixes the status layout and the integration-time encoding. */
  datatype Model = USB2000 | USB4000

  /** The USB side: pending transfers per input endpoint address, the log of command writes,
      and the number of `flushEndpoints` calls. */
  datatype Usb = Usb(replies: map<byte, seq<Option<seq<byte>>>>, written: seq<seq<byte>>, flushes: nat)

  datatype Spectrometer = Spectrometer(
    model: Model,
    inputs: seq<Endpoint>,
    outputs: seq<Endpoint>,
    ep: Assignment,
    discardLeading: nat,
    discardTrailing: nat,
    lastStatus: Option<Status>,
    wavelength: Option<seq<real>>,
    usb: Usb)

  /** The transfers still to come on endpoint `e`. */
  function Queue(u: Usb, e: Endpoint): seq<Option<seq<byte>>>
  {
    if e.address in u.replies then u.replies[e.address] else []
  }

  /** `s` cut to at most `n` elements. */
  function Take<T>(s: seq<T>, n: nat): (r: seq<T>)
    ensures |r| == Min(n, |s|) && r == s[..|r|]
  {
    if |s| <= n then s else s[..n]
  }

  /** One transfer of at most `size` bytes from endpoint `e`; None when it fails or nothing
      is pending. Only that endpoint's queue moves. */
  function ReadEndpoint(u: Usb, e: Endpoint, size: nat): (r: (Option<seq<byte>>, Usb))
    ensures Queue(u, e) == [] ==> r == (None, u)
    ensures Queue(u, e) != [] ==>
              && r.0 == (if Queue(u, e)[0].Some? then Some(Take(Queue(u, e)[0].value, size)) else None)
              && Queue(r.1, e) == Queue(u, e)[1..]
    ensures r.0.Some? ==> |r.0.value| <= size
    ensures r.1.written == u.written && r.1.flushes == u.flushes
    ensures forall f: Endpoint :: f.address != e.address ==> Queue(r.1, f) == Queue(u, f)
  {
    var q := Queue(u, e);
    if q == [] then (None, u)
    else
      (if q[0].Some? then Some(Take(q[0].value, size)) else None,
       u.(replies := u.replies[e.address := q[1..]]))
  }

  /** `flushEndpoints`, as an effect. */
  function Flush(sp: Spectrometer): (sp': Spectrometer)
    ensures sp'.usb.flushes == sp.usb.flushes + 1
    ensures sp' == sp.(usb := sp'.usb) && sp'.usb.written == sp.usb.written && sp'.usb.replies == sp.usb.replies
  {
    sp.(usb := sp.usb.(flushes := sp.usb.flushes + 1))
  }

  /** `sendCommand(cmdBytes, payloadBytes)`: the command followed by the payload goes to the
      command endpoint; a failing write is reported and swallowed, so nothing is raised. */
  function SendCommand(sp: Spectrometer, cmd: seq<byte>, payload: Option<seq<byte>>): (sp': Spectrometer)
    ensures sp'.usb.written == sp.usb.written + (if sp.ep.commandOut.Some? then [cmd + payload.GetOr([])] else [])
    ensures sp' == sp.(usb := sp.usb.(written := sp'.usb.written))
  {
    if sp.ep.commandOut.None? then sp
    else sp.(usb := sp.usb.(written := sp.usb.written + [cmd + payload.GetOr([])]))
  }

  // ---- integration time ----

  /** The base class's `setIntegrationTime`: writes `[0x02, t % 256, t // 256]` directly to the
      command endpoint, so a missing endpoint raises and a byte outside 0..255 is refused. */
  function SetIntegrationTimeBase(sp: Spectrometer, t: int): (r: (Result<()>, Spectrometer))
    ensures r.0.Ok? <==> sp.ep.commandOut.Some? && 0 <= t < 0x1_0000
    ensures r.0.Ok? ==> exists lo: byte, hi: byte :: lo + 0x100 * hi == t
                          && r.1.usb.written == sp.usb.written + [[0x02, lo, hi]]
    ensures r.0.Err? ==> r.1 == sp && r.0.error == (if sp.ep.commandOut.None? then AttributeError else OverflowError)
  {
    if sp.ep.commandOut.None? then (Err(AttributeError), sp)
    else if t < 0 || t >= 0x1_0000 then (Err(OverflowError), sp)
    else
      var lo: byte, hi: byte := t % 0x100, t / 0x100;
      (Ok(()), sp.(usb := sp.usb.(written := sp.usb.written + [[0x02, lo, hi]])))
  }

  /** USB2000 `setIntegrationTime`: `pack('<H', t)` after the command byte. */
  function SetIntegrationTime2000(sp: Spectrometer, t: int): (r: (Result<()>, Spectrometer))
    ensures r.0.Ok? <==> 0 <= t < 0x1_0000
    ensures r.0.Err? ==> r == (Err(StructError), sp)
    ensures r.0.Ok? ==> r.1 == SendCommand(sp, [0x02], Some(U16LE(t)))
  {
    if t < 0 || t >= 0x1_0000 then (Err(StructError), sp)
    else (Ok(()), SendCommand(sp, [0x02], Some(U16LE(t))))
  }

  /** USB4000 `setIntegrationTime`: the time goes out in microseconds, `pack('<L', t * 1000)`. */
  function SetIntegrationTime4000(sp: Spectrometer, t: int): (r: (Result<()>, Spectrometer))
    ensures r.0.Ok? <==> 0 <= t * 1000 < 0x1_0000_0000
    ensures r.0.Err? ==> r == (Err(StructError), sp)
    ensures r.0.Ok? ==> r.1 == SendCommand(sp, [0x02], Some(U32LE(t * 1000)))
  {
    if t * 1000 < 0 || t * 1000 >= 0x1_0000_0000 then (Err(StructError), sp)
    else (Ok(()), SendCommand(sp, [0x02], Some(U32LE(t * 1000))))
  }

  /** Each encoding carries the time: the device reads back the value the caller asked for
      (in microseconds on the USB4000). */
  lemma IntegrationTimeRoundTrip(sp: Spectrometer, t: int)
    requires sp.ep.commandOut.Some?
    ensures var w := SetIntegrationTimeBase(sp, t).1.usb.written;
            0 <= t < 0x1_0000 ==> |w| == |sp.usb.written| + 1 && w[|w| - 1][0] == 0x02
                                  && w[|w| - 1][1] as int + 0x100 * w[|w| - 1][2] as int == t
    ensures var w := SetIntegrationTime2000(sp, t).1.usb.written;
            0 <= t < 0x1_0000 ==> |w| == |sp.usb.written| + 1 && w[|w| - 1][0] == 0x02
                                  && DecodeLE(w[|w| - 1][1..]) == t
    ensures var w := SetIntegrationTime4000(sp, t).1.usb.written;
            0 <= t * 1000 < 0x1_0000_0000 ==> |w| == |sp.usb.written| + 1 && w[|w| - 1][0] == 0x02
                                              && DecodeLE(w[|w| - 1][1..]) == t * 1000
  {
    if 0 <= t < 0x1_0000 {
      U16LERoundTrip(t);
      assert ([0x02] + U16LE(t))[1..] == U16LE(t);
    }
    if 0 <= t * 1000 < 0x1_0000_0000 {
      U32LERoundTrip(t * 1000);
      assert ([0x02] + U32LE(t * 1000))[1..] == U32LE(t * 1000);
    }
  }

  // ---- status ----

  /** `unpack(statusPackingFormat, reply)` for the model's layout. */
  function UnpackStatus(m: Model, b: seq<byte>): (r: Option<Status>)
    ensures r.Some? <==> |b| == STATUS_SIZE
    ensures r.Some? ==> (m.USB2000? <==> r.value.S2000?)
  {
    match m
    case USB2000 => (match Unpack2000(b) case Some(s) => Some(S2000(s)) case None => None)
    case USB4000 => (match Unpack4000(b) case Some(s) => Some(S4000(s)) case None => None)
  }

  /** `getStatus`: sends 0xFE, reads 16 bytes from the status endpoint and records the decoded
      status in `lastStatus`. A missing endpoint, a failed transfer or a short reply leaves
      `readReply` returning None, and building the record from None raises TypeError. */
  function GetStatus(sp: Spectrometer): (r: (Result<Status>, Spectrometer))
    ensures var sent := SendCommand(sp, [0xFE], None);
            && r.1.usb.written == sent.usb.written && r.1.usb.flushes == sp.usb.flushes
            && r.1 == sent.(usb := r.1.usb, lastStatus := r.1.lastStatus)
    ensures r.0.Ok? <==> sp.ep.status.Some? && Queue(sp.usb, sp.ep.status.value) != []
                         && Queue(sp.usb, sp.ep.status.value)[0].Some?
                         && |Queue(sp.usb, sp.ep.status.value)[0].value| >= STATUS_SIZE
    ensures r.0.Ok? ==> r.1.lastStatus == Some(r.0.value)
                        && Some(r.0.value) == UnpackStatus(sp.model, Queue(sp.usb, sp.ep.status.value)[0].value[..STATUS_SIZE])
    ensures r.0.Err? ==> r.0.error == TypeError && r.1.lastStatus == sp.lastStatus
    ensures sp.ep.status.Some? && Queue(sp.usb, sp.ep.status.value) != [] ==>
              Queue(r.1.usb, sp.ep.status.value) == Queue(sp.usb, sp.ep.status.value)[1..]
    ensures sp.ep.status.None? ==> r.1.usb == SendCommand(sp, [0xFE], None).usb
  {
    var sent := SendCommand(sp, [0xFE], None);
    if sp.ep.status.None? then (Err(TypeError), sent)
    else
      var (reply, u) := ReadEndpoint(sent.usb, sp.ep.status.value, STATUS_SIZE);
      var status := if reply.Some? then UnpackStatus(sp.model, reply.value) else None;
      if status.None? then (Err(TypeError), sent.(usb := u))
      else (Ok(status.value), sent.(usb := u, lastStatus := status))
  }

  /** The base `isSpectrumRequested` / `isSpectrumReady` (the USB2000's): one status read,
      then the record's flag. */
  function IsSpectrumRequestedBase(sp: Spectrometer): (r: (Result<bool>, Spectrometer))
    ensures r.1 == GetStatus(sp).1
    ensures GetStatus(sp).0.Ok? && GetStatus(sp).0.value.S2000? ==>
              r.0 == Ok(GetStatus(sp).0.value.s2.isSpectrumRequested)
    ensures GetStatus(sp).0.Err? ==> r.0 == Err(TypeError)
  {
    var (st, sp1) := GetStatus(sp);
    match st
    case Err(e) => (Err(e), sp1)
    case Ok(S2000(s)) => (Ok(s.isSpectrumRequested), sp1)
    case Ok(S4000(_)) => (Err(AttributeError), sp1)
  }

  function IsSpectrumReadyBase(sp: Spectrometer): (r: (Result<bool>, Spectrometer))
    ensures r.1 == GetStatus(sp).1
    ensures GetStatus(sp).0.Ok? && GetStatus(sp).0.value.S2000? ==>
              r.0 == Ok(GetStatus(sp).0.value.s2.isSpectralDataReady)
    ensures GetStatus(sp).0.Err? ==> r.0 == Err(TypeError)
  {
    var (st, sp1) := GetStatus(sp);
    match st
    case Err(e) => (Err(e), sp1)
    case Ok(S2000(s)) => (Ok(s.isSpectralDataReady), sp1)
    case Ok(S4000(_)) => (Err(AttributeError), sp1)
  }

  /** How many status transfers are still to come; each successful `getStatus` uses one. */
  function StatusBacklog(sp: Spectrometer): nat
  {
    if sp.ep.status.Some? then |Queue(sp.usb, sp.ep.status.value)| else 0
  }

  /** USB4000 `isSpectrumRequested` as a recursive definition: poll the status until bit 1
      of acquisitionStatus is set; an exception from `getStatus` propagates. It terminates
      because every successful poll consumes a transfer. */
  function RequestedPoll(sp: Spectrometer): (r: (Result<bool>, Spectrometer))
    ensures r.0.Ok? ==> r.0.value && r.1.lastStatus.Some? && r.1.lastStatus.value.S4000?
                        && IsRequested(r.1.lastStatus.value.s4)
    ensures r.0.Err? ==> r.0.error in {TypeError, AttributeError}
    ensures r.1.ep == sp.ep && r.1.model == sp.model
    decreases StatusBacklog(sp)
  {
    var (st, sp1) := GetStatus(sp);
    match st
    case Err(e) => (Err(e), sp1)
    case Ok(S2000(_)) => (Err(AttributeError), sp1)
    case Ok(S4000(s)) =>
      if IsRequested(s) then (Ok(true), sp1)
      else RequestedPoll(sp1)
  }

  /** USB4000 `isSpectrumRequested`: the `while True` loop, counting its polls. */
  method IsSpectrumRequested4000(sp: Spectrometer) returns (r: Result<bool>, sp': Spectrometer, polls: nat)
    ensures (r, sp') == RequestedPoll(sp)
    ensures r.Ok? ==> r.value && IsRequested(sp'.lastStatus.value.s4)
    ensures polls >= 1 && |sp'.usb.written| == |sp.usb.written| + (if sp.ep.commandOut.Some? then polls else 0)
  {
    var cur := sp;
    polls := 0;
    while true
      invariant RequestedPoll(cur) == RequestedPoll(sp)
      invariant cur.ep == sp.ep && cur.model == sp.model
      invariant |cur.usb.written| == |sp.usb.written| + (if sp.ep.commandOut.Some? then polls else 0)
      decreases StatusBacklog(cur)
    {
      var (st, next) := GetStatus(cur);
      polls := polls + 1;
      match st {
        case Err(e) => return Err(e), next, polls;
        case Ok(S2000(_)) => return Err(AttributeError), next, polls;
        case Ok(S4000(s)) =>
          if IsRequested(s) {
            return Ok(true), next, polls;
          }
      }
      cur := next;
    }
  }

  /** USB4000 `isSpectrumReady` as a recursive definition: poll until bit 2 of
      acquisitionStatus is set; any exception makes the answer False. */
  function ReadyPoll(sp: Spectrometer): (r: (bool, Spectrometer))
    ensures r.0 ==> r.1.lastStatus.Some? && r.1.lastStatus.value.S4000? && IsReady(r.1.lastStatus.value.s4)
    ensures r.1.ep == sp.ep && r.1.model == sp.model
    decreases StatusBacklog(sp)
  {
    var (st, sp1) := GetStatus(sp);
    match st
    case Err(_) => (false, sp1)
    case Ok(S2000(_)) => (false, sp1)
    case Ok(S4000(s)) =>
      if IsReady(s) then (true, sp1)
      else ReadyPoll(sp1)
  }

  /** USB4000 `isSpectrumReady`: the `while True` loop inside `try`. */
  method IsSpectrumReady4000(sp: Spectrometer) returns (ready: bool, sp': Spectrometer)
    ensures (ready, sp') == ReadyPoll(sp)
    ensures ready ==> IsReady(sp'.lastStatus.value.s4)
    ensures sp.ep.status.None? ==> !ready
  {
    var cur := sp;
    while true
      invariant ReadyPoll(cur) == ReadyPoll(sp)
      invariant cur.ep == sp.ep && cur.model == sp.model
      decreases StatusBacklog(cur)
    {
      var (st, next) := GetStatus(cur);
      match st {
        case Err(_) => return false, next;
        case Ok(S2000(_)) => return false, next;
        case Ok(S4000(s)) =>
          if IsReady(s) {
            return true, next;
          }
      }
      cur := next;
    }
  }

  /** A full first record on the USB4000 status queue: `getStatus` decodes it and moves the
      queue on by one. */
  lemma FirstStatus(sp: Spectrometer)
    requires sp.model == USB4000 && sp.ep.status.Some?
    requires var q := Queue(sp.usb, sp.ep.status.value);
             q != [] && q[0].Some? && |q[0].value| >= STATUS_SIZE
    ensures var q := Queue(sp.usb, sp.ep.status.value);
            var (st, sp1) := GetStatus(sp);
            && Unpack4000(q[0].value[..STATUS_SIZE]).Some?
            && st == Ok(S4000(Unpack4000(q[0].value[..STATUS_SIZE]).value))
            && Queue(sp1.usb, sp.ep.status.value) == q[1..]
            && sp1.ep == sp.ep && sp1.model == sp.model
  {
  }

  /** A status queue whose first `n` records lack the requested bit and whose next has it:
      the loop answers True after exactly `n + 1` polls. */
  lemma {:induction false} RequestedAfterPolls(sp: Spectrometer, n: nat)
    requires sp.model == USB4000 && sp.ep.status.Some?
    requires var q := Queue(sp.usb, sp.ep.status.value);
             n < |q| && forall i :: 0 <= i <= n ==> q[i].Some? && |q[i].value| >= STATUS_SIZE
    requires var q := Queue(sp.usb, sp.ep.status.value);
             forall i :: 0 <= i < n ==> !IsRequested(Unpack4000(q[i].value[..STATUS_SIZE]).value)
    requires var q := Queue(sp.usb, sp.ep.status.value);
             IsRequested(Unpack4000(q[n].value[..STATUS_SIZE]).value)
    ensures RequestedPoll(sp).0 == Ok(true)
    ensures Queue(RequestedPoll(sp).1.usb, sp.ep.status.value) == Queue(sp.usb, sp.ep.status.value)[n + 1..]
    decreases n
  {
    var e := sp.ep.status.value;
    var q := Queue(sp.usb, e);
    var (st, sp1) := GetStatus(sp);
    FirstStatus(sp);
    if n > 0 {
      var q1 := Queue(sp1.usb, e);
      assert q1 == q[1..];
      assert forall i :: 0 <= i < n - 1 ==> q1[i] == q[i + 1];
      RequestedAfterPolls(sp1, n - 1);
      assert q1[n..] == q[n + 1..];
    }
  }

  /** A status queue whose first `n` records lack the ready bit and whose next has it: the
      loop answers True after exactly `n + 1` polls. */
  lemma {:induction false} ReadyAfterPolls(sp: Spectrometer, n: nat)
    requires sp.model == USB4000 && sp.ep.status.Some?
    requires var q := Queue(sp.usb, sp.ep.status.value);
             n < |q| && forall i :: 0 <= i <= n ==> q[i].Some? && |q[i].value| >= STATUS_SIZE
    requires var q := Queue(sp.usb, sp.ep.status.value);
             forall i :: 0 <= i < n ==> !IsReady(Unpack4000(q[i].value[..STATUS_SIZE]).value)
    requires var q := Queue(sp.usb, sp.ep.status.value);
             IsReady(Unpack4000(q[n].value[..STATUS_SIZE]).value)
    ensures ReadyPoll(sp).0
    ensures Queue(ReadyPoll(sp).1.usb, sp.ep.status.value) == Queue(sp.usb, sp.ep.status.value)[n + 1..]
    decreases n
  {
    var e := sp.ep.status.value;
    var q := Queue(sp.usb, e);
    var (st, sp1) := GetStatus(sp);
    FirstStatus(sp);
    if n > 0 {
      var q1 := Queue(sp1.usb, e);
      assert q1 == q[1..];
      assert forall i :: 0 <= i < n - 1 ==> q1[i] == q[i + 1];
      ReadyAfterPolls(sp1, n - 1);
      assert q1[n..] == q[n + 1..];
    }
  }

  /** When every pending status is a full record without the ready bit, the loop reads them
      all, then the failed read of the empty queue makes the answer False. */
  lemma {:induction false} ReadyExhausted(sp: Spectrometer)
    requires sp.model == USB4000 && sp.ep.status.Some?
    requires var q := Queue(sp.usb, sp.ep.status.value);
             forall i :: 0 <= i < |q| ==> q[i].Some? && |q[i].value| >= STATUS_SIZE
                                          && !IsReady(Unpack4000(q[i].value[..STATUS_SIZE]).value)
    ensures !ReadyPoll(sp).0
    ensures Queue(ReadyPoll(sp).1.usb, sp.ep.status.value) == []
    decreases |Queue(sp.usb, sp.ep.status.value)|
  {
    var e := sp.ep.status.value;
    var q := Queue(sp.usb, e);
    var (st, sp1) := GetStatus(sp);
    if q != [] {
      FirstStatus(sp);
      var q1 := Queue(sp1.usb, e);
      assert q1 == q[1..];
      assert forall i :: 0 <= i < |q1| ==> q1[i] == q[i + 1];
      ReadyExhausted(sp1);
    }
  }

  // ---- parameters ----

  /** `s` padded with zero bytes up to length `n`: the zero-filled buffer a transfer is read
      into. */
  function PadZeros(s: seq<byte>, n: nat): (r: seq<byte>)
    requires |s| <= n
    ensures |r| == n && r[..|s|] == s && forall i :: |s| <= i < n ==> r[i] == 0
  {
    s + seq(n - |s|, _ => 0)
  }

  /** `s` up to its first zero byte. */
  function UpToZero(s: seq<byte>): (t: seq<byte>)
    ensures 0 !in t && t == s[..FirstIndex(s, 0)]
  {
    s[..FirstIndex(s, 0)]
  }

  /** The text of a parameter reply as the source extracts it: cut at the first zero byte of
      the whole buffer, then drop the two header bytes. The header's second byte echoes the
      parameter index, so for index 0 (the serial number) the cut happens inside the header. */
  function ParameterTextAsWritten(buffer: seq<byte>): (t: seq<byte>)
    ensures 0 !in t
    ensures var k := FirstIndex(buffer, 0); t == if k >= 2 then buffer[2..k] else []
  {
    var cut := UpToZero(buffer);
    if |cut| >= 2 then cut[2..] else []
  }

  /** The text of a parameter reply: the bytes after the two header bytes, up to the first
      zero byte. */
  function ParameterText(buffer: seq<byte>): (t: seq<byte>)
    ensures 0 !in t
    ensures |buffer| >= 2 ==> t == buffer[2..][..FirstIndex(buffer[2..], 0)]
    ensures |buffer| < 2 ==> t == []
  {
    if |buffer| < 2 then [] else UpToZero(buffer[2..])
  }

  /** The serial number is lost: for the reply to parameter 0 the source's extraction is empty
      whatever the text, while the header-skipping extraction returns the text. */
  lemma SerialNumberLost(text: seq<byte>, tail: seq<byte>)
    requires 0 !in text
    ensures ParameterTextAsWritten([0x05, 0x00] + text + [0x00] + tail) == []
    ensures ParameterText([0x05, 0x00] + text + [0x00] + tail) == text
  {
    var b := [0x05, 0x00] + text + [0x00] + tail;
    assert b[1] == 0;
    assert FirstIndex(b, 0) <= 1;
    var body := b[2..];
    assert body == text + [0x00] + tail;
    assert body[|text|] == 0;
    var k := FirstIndex(body, 0);
    assert k == |text| by {
      assert forall j :: 0 <= j < |text| ==> body[j] == text[j];
      assert !(k < |text|);
    }
    assert body[..k] == text;
  }

  /** When neither header byte is zero the two extractions agree, so the discrepancy is
      confined to the index-0 request. */
  lemma ExtractionsAgree(buffer: seq<byte>)
    requires |buffer| >= 2 && buffer[0] != 0 && buffer[1] != 0
    ensures ParameterTextAsWritten(buffer) == ParameterText(buffer)
  {
    var k := FirstIndex(buffer, 0);
    var body := buffer[2..];
    var kb := FirstIndex(body, 0);
    assert k >= 2;
    assert k == kb + 2 by {
      assert k < |buffer| ==> body[k - 2] == 0;
      assert forall j :: 0 <= j < kb ==> buffer[j + 2] == body[j];
      assert !(k < kb + 2);
      assert !(kb + 2 < k);
    }
    assert buffer[2..k] == body[..kb];
  }

  /** The two readings of a parameter reply: the source's, which cuts before dropping the
      header, and the header-skipping one it evidently means. */
  datatype Extraction = AsWritten | HeaderFirst

  function Extract(x: Extraction, buffer: seq<byte>): (t: seq<byte>)
    ensures 0 !in t
  {
    match x
    case AsWritten => ParameterTextAsWritten(buffer)
    case HeaderFirst => ParameterText(buffer)
  }

  /** `getParameter(index)` with the text extraction as a parameter: sends 0x05 and the index,
      reads a full packet into a zeroed buffer and extracts its text. Every failure (an index
      that is not a byte, no parameter endpoint, a failed transfer, text that does not
      decode) flushes the endpoints and raises UnableToCommunicate. */
  function GetParameterWith(sp: Spectrometer, index: int, x: Extraction): (r: (Result<seq<byte>>, Spectrometer))
    ensures r.0.Err? ==> r.0.error == UnableToCommunicate && r.1.usb.flushes == sp.usb.flushes + 1
    ensures r.0.Ok? ==> r.1.usb.flushes == sp.usb.flushes
    ensures !(0 <= index < 0x100) ==> r.0.Err? && r.1.usb.written == sp.usb.written
    ensures 0 <= index < 0x100 ==> r.1.usb.written == SendCommand(sp, [0x05], Some([index])).usb.written
    ensures r.0.Ok? <==> 0 <= index < 0x100 && sp.ep.parameters.Some?
                         && Queue(sp.usb, sp.ep.parameters.value) != []
                         && Queue(sp.usb, sp.ep.parameters.value)[0].Some?
                         && IsAscii(Extract(x, Take(Queue(sp.usb, sp.ep.parameters.value)[0].value,
                                                    sp.ep.parameters.value.maxPacketSize)))
    ensures r.0.Ok? ==> 0 !in r.0.value && IsAscii(r.0.value)
                        && exists received :: received == Queue(sp.usb, sp.ep.parameters.value)[0]
                                              && received.Some?
                                              && r.0.value == Extract(x, Take(received.value, sp.ep.parameters.value.maxPacketSize))
    ensures r.0.Ok? ==> Queue(r.1.usb, sp.ep.parameters.value) == Queue(sp.usb, sp.ep.parameters.value)[1..]
    ensures r.1 == sp.(usb := r.1.usb)
  {
    if !(0 <= index < 0x100) then (Err(UnableToCommunicate), Flush(sp))
    else
      var sent := SendCommand(sp, [0x05], Some([index]));
      if sp.ep.parameters.None? then (Err(UnableToCommunicate), Flush(sent))
      else
        var e := sp.ep.parameters.value;
        var (reply, u) := ReadEndpoint(sent.usb, e, e.maxPacketSize);
        var sp1 := sent.(usb := u);
        if reply.None? then (Err(UnableToCommunicate), Flush(sp1))
        else
          var text := Extract(x, PadZeros(reply.value, e.maxPacketSize));
          PaddingKeepsText(reply.value, e.maxPacketSize, x);
          if !IsAscii(text) then (Err(UnableToCommunicate), Flush(sp1))
          else (Ok(text), sp1)
  }

  /** `getParameter(index)` as the source extracts the text: the reply is cut at its first
      zero byte, header included, and the two header bytes are dropped from what is left. */
  function GetParameter(sp: Spectrometer, index: int): (r: (Result<seq<byte>>, Spectrometer))
    ensures r.0.Err? ==> r.0.error == UnableToCommunicate && r.1.usb.flushes == sp.usb.flushes + 1
    ensures 0 <= index < 0x100 ==> r.1.usb.written == SendCommand(sp, [0x05], Some([index])).usb.written
    ensures r.0.Ok? <==> 0 <= index < 0x100 && sp.ep.parameters.Some?
                         && Queue(sp.usb, sp.ep.parameters.value) != []
                         && Queue(sp.usb, sp.ep.parameters.value)[0].Some?
                         && IsAscii(ParameterTextAsWritten(Take(Queue(sp.usb, sp.ep.parameters.value)[0].value,
                                                                sp.ep.parameters.value.maxPacketSize)))
    ensures r.0.Ok? ==> r.0.value == ParameterTextAsWritten(Take(Queue(sp.usb, sp.ep.parameters.value)[0].value,
                                                                 sp.ep.parameters.value.maxPacketSize))
                        && Queue(r.1.usb, sp.ep.parameters.value) == Queue(sp.usb, sp.ep.parameters.value)[1..]
                        && r.1.usb.flushes == sp.usb.flushes
    ensures r.1 == sp.(usb := r.1.usb)
  {
    GetParameterWith(sp, index, AsWritten)
  }

  /** `getParameter(index)` with the header dropped before the cut. */
  function GetParameterCorrected(sp: Spectrometer, index: int): (r: (Result<seq<byte>>, Spectrometer))
    ensures r.0.Ok? <==> 0 <= index < 0x100 && sp.ep.parameters.Some?
                         && Queue(sp.usb, sp.ep.parameters.value) != []
                         && Queue(sp.usb, sp.ep.parameters.value)[0].Some?
                         && IsAscii(ParameterText(Take(Queue(sp.usb, sp.ep.parameters.value)[0].value,
                                                       sp.ep.parameters.value.maxPacketSize)))
    ensures r.0.Ok? ==> r.0.value == ParameterText(Take(Queue(sp.usb, sp.ep.parameters.value)[0].value,
                                                        sp.ep.parameters.value.maxPacketSize))
  {
    GetParameterWith(sp, index, HeaderFirst)
  }

  /** The two extractions give the same `getParameter` whenever the pending reply's header
      bytes are both nonzero, as they are for every index but 0. */
  lemma GetParameterAgrees(sp: Spectrometer, index: int)
    requires sp.ep.parameters.Some?
    requires var q := Queue(sp.usb, sp.ep.parameters.value);
             q != [] && q[0].Some? ==>
               var b := Take(q[0].value, sp.ep.parameters.value.maxPacketSize);
               |b| >= 2 && b[0] != 0 && b[1] != 0
    ensures GetParameter(sp, index) == GetParameterCorrected(sp, index)
  {
    var q := Queue(sp.usb, sp.ep.parameters.value);
    if q != [] && q[0].Some? {
      ExtractionsAgree(Take(q[0].value, sp.ep.parameters.value.maxPacketSize));
    }
  }

  /** End to end: when the serial-number reply `05 00 <text> 00 ...` fits in a packet,
      `getParameter(0)` returns "" while the corrected reading returns the text. */
  lemma SerialNumberQueryLost(sp: Spectrometer, text: seq<byte>, tail: seq<byte>)
    requires sp.ep.parameters.Some? && 0 !in text && IsAscii(text)
    requires var reply := [0x05, 0x00] + text + [0x00] + tail;
             |reply| <= sp.ep.parameters.value.maxPacketSize
             && Queue(sp.usb, sp.ep.parameters.value) != []
             && Queue(sp.usb, sp.ep.parameters.value)[0] == Some(reply)
    ensures GetParameter(sp, 0).0 == Ok([])
    ensures GetParameterCorrected(sp, 0).0 == Ok(text)
  {
    var reply := [0x05, 0x00] + text + [0x00] + tail;
    SerialNumberLost(text, tail);
    assert Take(reply, sp.ep.parameters.value.maxPacketSize) == reply;
  }

  /** Zero padding never changes the text: the cut happens at or before the padding. */
  lemma PaddingKeepsText(s: seq<byte>, n: nat, x: Extraction)
    requires |s| <= n
    ensures Extract(x, PadZeros(s, n)) == Extract(x, s)
  {
    if x.AsWritten? {
      PaddingKeepsCut(s, n);
    } else {
      PaddingKeepsHeaderFirst(s, n);
    }
  }

  /** The first zero of the padded buffer is the first zero of `s`, or where the padding
      starts. */
  lemma PaddingKeepsCut(s: seq<byte>, n: nat)
    requires |s| <= n
    ensures ParameterTextAsWritten(PadZeros(s, n)) == ParameterTextAsWritten(s)
  {
    var p := PadZeros(s, n);
    var k, kp := FirstIndex(s, 0), FirstIndex(p, 0);
    assert p[..|s|] == s;
    if k < |s| {
      assert p[k] == 0;
      assert kp == k by {
        assert forall j :: 0 <= j < k ==> p[j] == s[j];
        assert !(kp < k);
      }
    } else if |s| < n {
      assert p[|s|] == 0;
      assert kp == |s| by {
        assert forall j :: 0 <= j < |s| ==> p[j] == s[j];
        assert !(kp < |s|);
      }
    }
    if kp >= 2 {
      assert p[2..kp] == s[2..k];
    }
  }

  /** Padding after the header-skipping cut changes nothing either. */
  lemma PaddingKeepsHeaderFirst(s: seq<byte>, n: nat)
    requires |s| <= n
    ensures ParameterText(PadZeros(s, n)) == ParameterText(s)
  {
    var p := PadZeros(s, n);
    if |s| < 2 {
      if n >= 2 {
        assert p[2..] == [] || p[2..][0] == 0;
      }
    } else {
      var bs, bp := s[2..], p[2..];
      assert bp[..|bs|] == bs;
      assert forall i :: |bs| <= i < |bp| ==> bp[i] == 0;
      var k, kp := FirstIndex(bs, 0), FirstIndex(bp, 0);
      if k < |bs| {
        assert bp[k] == 0;
        assert kp == k by {
          assert forall j :: 0 <= j < k ==> bp[j] == bs[j];
          assert !(kp < k);
        }
      } else if |bs| < |bp| {
        assert bp[|bs|] == 0;
        assert kp == |bs| by {
          assert forall j :: 0 <= j < |bs| ==> bp[j] == bs[j];
          assert !(kp < |bs|);
        }
      }
      assert bp[..kp] == bs[..k];
    }
  }
}
