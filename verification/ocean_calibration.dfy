/** Wavelength calibration, device initialization and construction of the Ocean Insight
    spectrometers. The four calibration coefficients are parameters 1 to 4, read as text and
    converted by Python's `float`, which is a parameter of the model (None when the text is
    not a number). Polynomial values are exact reals. */
module OceanCalibration {
  import opened Errors
  import opened Bytes
  import opened Seqs
  import opened OceanEndpoints
  import opened OceanStatus
  import opened OceanDevice

  /** Python's `float(text)`: the number the text denotes, None when it raises ValueError. */
  type ParseReal = seq<byte> -> Option<real>

  /** The number of calibration coefficients: a third-order polynomial. */
  const COEFFICIENTS: nat := 4

  /** The wavelength of pixel `x`: a0 + a1 x + a2 x² + a3 x³. */
  function Poly(c: seq<real>, x: int): real
    requires |c| == COEFFICIENTS
  {
    var r := x as real;
    c[0] + c[1] * r + c[2] * r * r + c[3] * r * r * r
  }

  /** One wavelength per pixel (`range(pixels)` is empty for a negative count), then the same
      trim as the spectra: trailing samples first, then leading ones. */
  function Wavelengths(c: seq<real>, pixels: int, leading: nat, trailing: nat): (w: seq<real>)
    requires |c| == COEFFICIENTS
    ensures |w| == Max(0, Max(0, pixels) - trailing - leading)
    ensures forall i :: 0 <= i < |w| ==> w[i] == Poly(c, i + leading)
  {
    var n := Max(0, pixels);
    Trim(seq(n, x requires 0 <= x < n => Poly(c, x)), leading, trailing)
  }

  /** The parameter requests of `getCalibration`: 0x05 followed by the index, for 1 to 4. */
  const CALIBRATION_REQUESTS: seq<seq<byte>> := [[0x05, 1], [0x05, 2], [0x05, 3], [0x05, 4]]

  /** The text the `i`-th pending transfer on endpoint `e` yields as a parameter reply, as
      `getParameter` extracts it. */
  function ReplyText(q: seq<Option<seq<byte>>>, i: nat, e: Endpoint): seq<byte>
    requires i < |q| && q[i].Some?
  {
    ParameterTextAsWritten(Take(q[i].value, e.maxPacketSize))
  }

  /** The calibration is untouched by the extraction defect: a reply to parameter
      `index` in 1..4 starts `05 index`, so neither header byte is zero and its text is the
      header-skipping one. */
  lemma CalibrationTextAgrees(q: seq<Option<seq<byte>>>, i: nat, e: Endpoint, index: byte)
    requires i < |q| && q[i].Some? && 1 <= index <= 4
    requires var b := Take(q[i].value, e.maxPacketSize); |b| >= 2 && b[..2] == [0x05, index]
    ensures ReplyText(q, i, e) == ParameterText(Take(q[i].value, e.maxPacketSize))
  {
    var b := Take(q[i].value, e.maxPacketSize);
    assert b[0] == b[..2][0] && b[1] == b[..2][1];
    ExtractionsAgree(b);
  }

  /** Pending transfer `i` carries ASCII parameter text that `float` accepts. */
  predicate Parsable(q: seq<Option<seq<byte>>>, i: nat, e: Endpoint, parse: ParseReal)
  {
    i < |q| && q[i].Some? && IsAscii(ReplyText(q, i, e)) && parse(ReplyText(q, i, e)).Some?
  }

  /** So do the first `n` pending transfers. */
  predicate ParsableReplies(q: seq<Option<seq<byte>>>, n: nat, e: Endpoint, parse: ParseReal)
  {
    n <= |q| && forall i :: 0 <= i < n ==> Parsable(q, i, e, parse)
  }

  /** The coefficients a0 .. a3 those four replies denote. */
  function Coefficients(q: seq<Option<seq<byte>>>, e: Endpoint, parse: ParseReal): (c: seq<real>)
    requires ParsableReplies(q, COEFFICIENTS, e, parse)
    ensures |c| == COEFFICIENTS
    ensures forall i :: 0 <= i < COEFFICIENTS ==> Parsable(q, i, e, parse) && parse(ReplyText(q, i, e)) == Some(c[i])
  {
    assert Parsable(q, 0, e, parse) && Parsable(q, 1, e, parse) && Parsable(q, 2, e, parse) && Parsable(q, 3, e, parse);
    [parse(ReplyText(q, 0, e)).value, parse(ReplyText(q, 1, e)).value,
     parse(ReplyText(q, 2, e)).value, parse(ReplyText(q, 3, e)).value]
  }

  /** `float(getParameter(index))`: UnableToCommunicate from `getParameter` (which flushes),
      ValueError from `float`. A success consumes one parameter transfer and logs one request. */
  function Coefficient(sp: Spectrometer, parse: ParseReal, index: int): (r: (Result<real>, Spectrometer))
    ensures r.1 == sp.(usb := r.1.usb)
    ensures r.0.Err? ==> r.0.error in {UnableToCommunicate, ValueError}
    ensures r.0.Ok? ==>
              && 0 <= index < 0x100 && sp.ep.parameters.Some?
              && var e := sp.ep.parameters.value;
              && var q := Queue(sp.usb, e);
              && Parsable(q, 0, e, parse) && parse(ReplyText(q, 0, e)) == Some(r.0.value)
              && Queue(r.1.usb, e) == q[1..]
              && r.1.usb.written == sp.usb.written + (if sp.ep.commandOut.Some? then [[0x05, index]] else [])
              && r.1.usb.flushes == sp.usb.flushes
  {
    var (text, sp1) := GetParameter(sp, index);
    match text
    case Err(x) => (Err(x), sp1)
    case Ok(t) =>
      assert [0x05] + Some([index]).GetOr([]) == [0x05, index];
      match parse(t)
      case None => (Err(ValueError), sp1)
      case Some(a) => (Ok(a), sp1)
  }

  /** `getCalibration`: the four coefficients (parameters 1 to 4), then a status read for the
      pixel count, then the wavelength of every pixel, trimmed like the spectra. A failure
      leaves the stored wavelengths as they were. */
  function GetCalibration(sp: Spectrometer, parse: ParseReal): (r: (Result<()>, Spectrometer))
    ensures r.0.Err? ==> r.0.error in {UnableToCommunicate, ValueError, TypeError}
                         && r.1.wavelength == sp.wavelength
    ensures r.0.Ok? ==> r.1.lastStatus.Some? && r.1.wavelength.Some?
    ensures r.1.ep == sp.ep && r.1.model == sp.model && r.1.inputs == sp.inputs && r.1.outputs == sp.outputs
            && r.1.discardLeading == sp.discardLeading && r.1.discardTrailing == sp.discardTrailing
  {
    var (cs, sp4) := ReadCalibration(sp, parse);
    if cs.Err? then (Err(cs.error), sp4) else
    var (status, sp5) := GetStatus(sp4);
    if status.Err? then (Err(status.error), sp5) else
    (Ok(()), sp5.(wavelength := Some(Wavelengths(cs.value, status.value.Pixels(), sp.discardLeading, sp.discardTrailing))))
  }

  /** After a successful `getCalibration` the four parameter replies parsed, and the stored
      wavelengths are the calibration polynomial at every pixel the status reports, trimmed
      like the spectra. */
  lemma CalibrationWavelengths(sp: Spectrometer, parse: ParseReal)
    requires GetCalibration(sp, parse).0.Ok?
    ensures sp.ep.parameters.Some? && sp.ep.status.Some?
    ensures var e := sp.ep.parameters.value;
            var cal := GetCalibration(sp, parse).1;
            && ParsableReplies(Queue(sp.usb, e), COEFFICIENTS, e, parse)
            && cal.wavelength == Some(Wavelengths(Coefficients(Queue(sp.usb, e), e, parse),
                                                  cal.lastStatus.value.Pixels(),
                                                  sp.discardLeading, sp.discardTrailing))
  {
    var (cs, sp4) := ReadCalibration(sp, parse);
    CalibrationReplies(sp, parse);
    assert sp4.ep == sp.ep;
  }

  /** A successful `getCalibration` wrote the four parameter requests and the status request,
      in order. */
  lemma CalibrationRequests(sp: Spectrometer, parse: ParseReal)
    requires GetCalibration(sp, parse).0.Ok?
    ensures var cal := GetCalibration(sp, parse).1;
            && cal.usb.flushes == sp.usb.flushes
            && cal.usb.written == sp.usb.written + (if sp.ep.commandOut.Some? then CALIBRATION_REQUESTS + [[0xFE]] else [])
  {
    var (cs, sp4) := ReadCalibration(sp, parse);
    CalibrationLog(sp, parse);
    assert sp4.ep == sp.ep;
    assert [0xFE] + None.GetOr([]) == [0xFE];
    var w := sp.usb.written;
    AppendAssoc(w, CALIBRATION_REQUESTS, [[0xFE]]);
  }

  /** `a0` .. `a3` of `getCalibration`: parameters 1 to 4 in order, stopping at the first
      failure. */
  function ReadCalibration(sp: Spectrometer, parse: ParseReal): (r: (Result<seq<real>>, Spectrometer))
    ensures r.1 == sp.(usb := r.1.usb)
    ensures r.0.Err? ==> r.0.error in {UnableToCommunicate, ValueError}
    ensures r.0.Ok? ==> |r.0.value| == COEFFICIENTS
  {
    var (a0, sp1) := Coefficient(sp, parse, 1);
    if a0.Err? then (Err(a0.error), sp1) else
    var (a1, sp2) := Coefficient(sp1, parse, 2);
    if a1.Err? then (Err(a1.error), sp2) else
    var (a2, sp3) := Coefficient(sp2, parse, 3);
    if a2.Err? then (Err(a2.error), sp3) else
    var (a3, sp4) := Coefficient(sp3, parse, 4);
    if a3.Err? then (Err(a3.error), sp4) else
    (Ok([a0.value, a1.value, a2.value, a3.value]), sp4)
  }

  /** A successful calibration read consumed the first four parameter transfers, in order,
      and its coefficients are what their texts denote. */
  lemma CalibrationReplies(sp: Spectrometer, parse: ParseReal)
    requires ReadCalibration(sp, parse).0.Ok?
    ensures sp.ep.parameters.Some?
    ensures var e := sp.ep.parameters.value;
            && ParsableReplies(Queue(sp.usb, e), COEFFICIENTS, e, parse)
            && ReadCalibration(sp, parse).0.value == Coefficients(Queue(sp.usb, e), e, parse)
  {
    var (a0, sp1) := Coefficient(sp, parse, 1);
    var (a1, sp2) := Coefficient(sp1, parse, 2);
    var (a2, sp3) := Coefficient(sp2, parse, 3);
    var (a3, sp4) := Coefficient(sp3, parse, 4);
    var c := ReadCalibration(sp, parse).0.value;
    assert c == [a0.value, a1.value, a2.value, a3.value];
    var e := sp.ep.parameters.value;
    var q := Queue(sp.usb, e);
    CoefficientReply(sp, sp, parse, 1, 0);
    CoefficientReply(sp, sp1, parse, 2, 1);
    CoefficientReply(sp, sp2, parse, 3, 2);
    CoefficientReply(sp, sp3, parse, 4, 3);
    RepliesCoefficients(q, e, parse, a0.value, a1.value, a2.value, a3.value);
  }

  /** Values the four replies parse to are the coefficients. */
  lemma RepliesCoefficients(q: seq<Option<seq<byte>>>, e: Endpoint, parse: ParseReal, a0: real, a1: real, a2: real, a3: real)
    requires Parsable(q, 0, e, parse) && parse(ReplyText(q, 0, e)) == Some(a0)
    requires Parsable(q, 1, e, parse) && parse(ReplyText(q, 1, e)) == Some(a1)
    requires Parsable(q, 2, e, parse) && parse(ReplyText(q, 2, e)) == Some(a2)
    requires Parsable(q, 3, e, parse) && parse(ReplyText(q, 3, e)) == Some(a3)
    ensures ParsableReplies(q, COEFFICIENTS, e, parse) && [a0, a1, a2, a3] == Coefficients(q, e, parse)
  {
    assert ParsableReplies(q, COEFFICIENTS, e, parse);
  }

  /** A successful calibration read logged the four parameter requests and flushed nothing. */
  lemma CalibrationLog(sp: Spectrometer, parse: ParseReal)
    requires ReadCalibration(sp, parse).0.Ok?
    ensures var after := ReadCalibration(sp, parse).1;
            && after.usb.flushes == sp.usb.flushes
            && after.usb.written == sp.usb.written + (if sp.ep.commandOut.Some? then CALIBRATION_REQUESTS else [])
  {
    var (a0, sp1) := Coefficient(sp, parse, 1);
    var (a1, sp2) := Coefficient(sp1, parse, 2);
    var (a2, sp3) := Coefficient(sp2, parse, 3);
    var (a3, sp4) := Coefficient(sp3, parse, 4);
    var w := sp.usb.written;
    if sp.ep.commandOut.Some? {
      assert w == w + CALIBRATION_REQUESTS[..0];
      RequestLogged(sp, parse, 1, w);
      RequestLogged(sp1, parse, 2, w);
      RequestLogged(sp2, parse, 3, w);
      RequestLogged(sp3, parse, 4, w);
      assert CALIBRATION_REQUESTS[..4] == CALIBRATION_REQUESTS;
    }
  }

  /** Reading coefficient `index` logs the `index`-th calibration request after the earlier ones. */
  lemma RequestLogged(s: Spectrometer, parse: ParseReal, index: nat, w: seq<seq<byte>>)
    requires 1 <= index <= COEFFICIENTS && s.ep.commandOut.Some?
    requires s.usb.written == w + CALIBRATION_REQUESTS[..index - 1]
    requires Coefficient(s, parse, index).0.Ok?
    ensures Coefficient(s, parse, index).1.usb.written == w + CALIBRATION_REQUESTS[..index]
  {
    assert CALIBRATION_REQUESTS[..index] == CALIBRATION_REQUESTS[..index - 1] + [[0x05, index]];
    AppendAssoc(w, CALIBRATION_REQUESTS[..index - 1], [[0x05, index]]);
  }

  /** A successful read of one coefficient, `k` transfers into the parameter queue of `sp`,
      consumes transfer `k`, whose text parses to the coefficient. */
  lemma CoefficientReply(sp: Spectrometer, s: Spectrometer, parse: ParseReal, index: int, k: nat)
    requires s.ep == sp.ep && Coefficient(s, parse, index).0.Ok?
    requires sp.ep.parameters.Some? ==> k <= |Queue(sp.usb, sp.ep.parameters.value)|
                                        && Queue(s.usb, sp.ep.parameters.value) == Queue(sp.usb, sp.ep.parameters.value)[k..]
    ensures var (a, s') := Coefficient(s, parse, index);
            && sp.ep.parameters.Some? && s'.ep == sp.ep
            && var e := sp.ep.parameters.value;
            && var q := Queue(sp.usb, e);
            && Parsable(q, k, e, parse) && parse(ReplyText(q, k, e)) == Some(a.value)
            && Queue(s'.usb, e) == q[k + 1..]
  {
    var (a, s') := Coefficient(s, parse, index);
    var e := sp.ep.parameters.value;
    var q := Queue(sp.usb, e);
    assert Queue(s.usb, e)[0] == q[k];
    assert ReplyText(Queue(s.usb, e), 0, e) == ReplyText(q, k, e);
    assert Queue(s'.usb, e) == q[k..][1..] == q[k + 1..];
  }

  /** After a successful calibration, a raw spectrum of one sample per pixel trimmed by the
      device's rule has exactly one wavelength per kept sample, and kept sample `i` is raw
      sample `i + leading`, measured at the wavelength of pixel `i + leading`. */
  lemma CalibratedSpectrumAligned(sp: Spectrometer, parse: ParseReal, raw: seq<int>)
    requires GetCalibration(sp, parse).0.Ok?
    requires |raw| == GetCalibration(sp, parse).1.lastStatus.value.Pixels()
    ensures sp.ep.parameters.Some?
            && ParsableReplies(Queue(sp.usb, sp.ep.parameters.value), COEFFICIENTS, sp.ep.parameters.value, parse)
    ensures var cal := GetCalibration(sp, parse).1;
            var kept := Trim(raw, cal.discardLeading, cal.discardTrailing);
            var e := sp.ep.parameters.value;
            var c := Coefficients(Queue(sp.usb, e), e, parse);
            && |kept| == |cal.wavelength.value|
            && forall i :: 0 <= i < |kept| ==>
                 kept[i] == raw[i + sp.discardLeading]
                 && cal.wavelength.value[i] == Poly(c, i + sp.discardLeading)
  {
    CalibrationWavelengths(sp, parse);
  }

  /** The bytes `initializeDevice` passes as its command, written `b'0x01'` in the source: the
      four ASCII characters '0', 'x', '0', '1'. */
  const INIT_AS_WRITTEN: seq<byte> := [0x30, 0x78, 0x30, 0x31]

  /** The device's initialize command, the single byte 0x01. */
  const INIT: seq<byte> := [0x01]

  /** `initializeDevice` with the command bytes as a parameter: flush, send, calibrate; any
      failure becomes UnableToInitialize. */
  function InitializeWith(sp: Spectrometer, parse: ParseReal, command: seq<byte>): (r: (Result<()>, Spectrometer))
    ensures var sent := SendCommand(Flush(sp), command, None);
            && r.1 == GetCalibration(sent, parse).1
            && r.0 == (if GetCalibration(sent, parse).0.Ok? then Ok(()) else Err(UnableToInitialize))
    ensures r.0.Ok? ==> r.1.usb.flushes == sp.usb.flushes + 1
                        && r.1.usb.written == sp.usb.written + (if sp.ep.commandOut.Some?
                                                                then [command] + CALIBRATION_REQUESTS + [[0xFE]] else [])
  {
    var sent := SendCommand(Flush(sp), command, None);
    var (cal, sp1) := GetCalibration(sent, parse);
    if cal.Ok? then
      CalibrationRequests(sent, parse);
      assert command + None.GetOr([]) == command;
      var w := sp.usb.written;
      AppendAssoc(w, [command], CALIBRATION_REQUESTS + [[0xFE]]);
      AppendAssoc([command], CALIBRATION_REQUESTS, [[0xFE]]);
      (Ok(()), sp1)
    else (Err(UnableToInitialize), sp1)
  }

  /** `initializeDevice` as written: it sends the text "0x01". */
  function InitializeDeviceAsWritten(sp: Spectrometer, parse: ParseReal): (r: (Result<()>, Spectrometer))
    ensures r == InitializeWith(sp, parse, INIT_AS_WRITTEN)
  {
    InitializeWith(sp, parse, INIT_AS_WRITTEN)
  }

  /** `initializeDevice` with the single command byte 0x01 it evidently means to send. */
  function InitializeDevice(sp: Spectrometer, parse: ParseReal): (r: (Result<()>, Spectrometer))
    ensures r == InitializeWith(sp, parse, INIT)
  {
    InitializeWith(sp, parse, INIT)
  }

  /** After a successful initialization the command endpoint has received, in order, the
      initialize command, the four parameter requests and the status request. */
  lemma InitializeLog(sp: Spectrometer, parse: ParseReal, command: seq<byte>)
    requires sp.ep.commandOut.Some?
    ensures var (ok, after) := InitializeWith(sp, parse, command);
            ok.Ok? ==> after.usb.written[|sp.usb.written|..] == [command] + CALIBRATION_REQUESTS + [[0xFE]]
  {
    var (ok, after) := InitializeWith(sp, parse, command);
    if ok.Ok? {
      AfterPrefix(sp.usb.written, [command] + CALIBRATION_REQUESTS + [[0xFE]]);
    }
  }

  /** As written, a device that initializes has received the four bytes '0', 'x', '0', '1'
      as its first command and never the initialize command 0x01; the corrected version
      sends exactly 0x01 first. */
  lemma InitializeCommandMismatch(sp: Spectrometer, parse: ParseReal)
    requires sp.ep.commandOut.Some?
    ensures var (ok, after) := InitializeDeviceAsWritten(sp, parse);
            ok.Ok? ==> var sent := after.usb.written[|sp.usb.written|..];
                       |sent| == 6 && sent[0] == INIT_AS_WRITTEN && INIT !in sent
    ensures var (ok, after) := InitializeDevice(sp, parse);
            ok.Ok? ==> var sent := after.usb.written[|sp.usb.written|..];
                       |sent| == 6 && sent[0] == INIT
  {
    InitializeLog(sp, parse, INIT_AS_WRITTEN);
    InitializeLog(sp, parse, INIT);
    InitLogShape(INIT_AS_WRITTEN);
    InitLogShape(INIT);
  }

  /** The initialization log for a command of more than one byte: six writes, the command
      first, and no write is the one-byte initialize command. */
  lemma InitLogShape(command: seq<byte>)
    ensures var log := [command] + CALIBRATION_REQUESTS + [[0xFE]];
            |log| == 6 && log[0] == command
            && (|command| != 1 ==> INIT !in log)
  {
    var log := [command] + CALIBRATION_REQUESTS + [[0xFE]];
    assert log[1..] == CALIBRATION_REQUESTS + [[0xFE]];
    if |command| != 1 {
      forall i | 0 <= i < |log| ensures log[i] != INIT {
        if i == 0 {} else {
          assert log[i] == (CALIBRATION_REQUESTS + [[0xFE]])[i - 1];
          assert log[i][0] != 0x01 || |log[i]| != 1;
        }
      }
    }
  }

  /** The interface layout of the constructors: partition, assignment (IndexError when an
      expected endpoint is missing), discard counts, then `initializeDevice`. The object is
      lost when a step raises. */
  function Construct(model: Model, endpoints: seq<Endpoint>, usb: Usb, parse: ParseReal): (r: Result<Spectrometer>)
    ensures var (inputs, outputs) := Partition(endpoints);
            var a := if model.USB2000? then Usb2000Assignment(inputs, outputs) else Usb4000Assignment(inputs, outputs);
            && (a.Err? ==> r == Err(IndexError))
            && (a.Ok? && r.Ok? ==> r.value.ep == a.value && r.value.inputs == inputs && r.value.outputs == outputs)
    ensures r.Err? ==> r.error in {IndexError, UnableToInitialize}
    ensures r.Ok? ==> r.value.model == model && r.value.wavelength.Some?
                      && r.value.ep.parameters.Some? && r.value.ep.status.Some? && r.value.lastStatus.Some?
    ensures r.Ok? && model.USB4000? ==>
              r.value.discardLeading == USB4000_LEADING && r.value.discardTrailing == USB4000_TRAILING
    ensures r.Ok? && model.USB2000? ==> r.value.discardLeading == 0 && r.value.discardTrailing == 0
    ensures r.Ok? && r.value.ep.commandOut.Some? ==>
              |r.value.usb.written| > |usb.written| && r.value.usb.written[|usb.written|] == INIT_AS_WRITTEN
  {
    var (inputs, outputs) := Partition(endpoints);
    var a := if model.USB2000? then Usb2000Assignment(inputs, outputs) else Usb4000Assignment(inputs, outputs);
    match a
    case Err(x) => Err(x)
    case Ok(ep) =>
      var leading := if model.USB4000? then USB4000_LEADING else 0;
      var trailing := if model.USB4000? then USB4000_TRAILING else 0;
      var sp := Spectrometer(model, inputs, outputs, ep, leading, trailing, None, None, usb);
      var (init, sp1) := InitializeDeviceAsWritten(sp, parse);
      if init.Err? then Err(UnableToInitialize)
      else
        InitializedWith(sp, parse, INIT_AS_WRITTEN);
        Ok(sp1)
  }

  /** What a successful initialization leaves behind: the same interface and assignment, a
      status, the wavelengths, and the command first in the log. */
  lemma InitializedWith(sp: Spectrometer, parse: ParseReal, command: seq<byte>)
    requires InitializeWith(sp, parse, command).0.Ok?
    ensures var after := InitializeWith(sp, parse, command).1;
            && after.model == sp.model && after.ep == sp.ep
            && after.inputs == sp.inputs && after.outputs == sp.outputs
            && after.discardLeading == sp.discardLeading && after.discardTrailing == sp.discardTrailing
            && after.wavelength.Some? && after.lastStatus.Some?
            && sp.ep.parameters.Some? && sp.ep.status.Some?
            && (sp.ep.commandOut.Some? ==>
                  |after.usb.written| > |sp.usb.written| && after.usb.written[|sp.usb.written|] == command)
  {
    if sp.ep.commandOut.Some? {
      InitializeLog(sp, parse, command);
    }
  }

  /** The corrected initialization leaves the same and sends 0x01 first. */
  lemma Initialized(sp: Spectrometer, parse: ParseReal)
    requires InitializeDevice(sp, parse).0.Ok?
    ensures var after := InitializeDevice(sp, parse).1;
            && after.model == sp.model && after.ep == sp.ep
            && after.wavelength.Some? && after.lastStatus.Some?
            && (sp.ep.commandOut.Some? ==>
                  |after.usb.written| > |sp.usb.written| && after.usb.written[|sp.usb.written|] == INIT)
  {
    InitializedWith(sp, parse, INIT);
  }
}
