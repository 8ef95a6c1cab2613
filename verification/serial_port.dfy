/** SerialPort: a CommunicationPort over a pyserial-like device. The device is the Cobolt
    simulator, which offers the pyserial calls this port makes (`is_open`, `open`, `close`,
    `read`, `write`, `flush`) but not `reset_input_buffer`. A port created from a path opens a
    real pyserial device and is not part of this model. */
module SerialPort {
  import opened Errors
  import opened Bytes
  import Cobolt

  datatype SerialPort = SerialPort(portPath: Option<string>, port: Cobolt.Laser)

  /** Construction around an existing device closes that device if it is open. */
  function Wrap(device: Cobolt.Laser, portPath: Option<string>): (p: SerialPort)
    ensures !p.port.isOpen
    ensures p.port.(isOpen := device.isOpen) == device
  {
    SerialPort(portPath, if device.isOpen then Cobolt.Close(device) else device)
  }

  function IsOpen(p: SerialPort): bool
  {
    p.port.isOpen
  }

  /** Opening delegates to the device, which refuses a second open. */
  function Open(p: SerialPort): (r: (Result<()>, SerialPort))
    ensures r.0.Ok? <==> !IsOpen(p)
    ensures IsOpen(r.1)
  {
    var (res, dev) := Cobolt.Open(p.port);
    (res, p.(port := dev))
  }

  function Close(p: SerialPort): (q: SerialPort)
    ensures !IsOpen(q)
  {
    p.(port := Cobolt.Close(p.port))
  }

  /** `flush` resets the device's buffers when open; the simulator has no
      `reset_input_buffer`, so flushing an open port raises AttributeError. */
  function Flush(p: SerialPort): (r: Result<()>)
    ensures r.Ok? <==> !IsOpen(p)
    ensures r.Err? ==> r.error == AttributeError
  {
    if IsOpen(p) then Err(AttributeError) else Ok(())
  }

  /** The exact-length check of `readData`: anything other than `length` bytes is a timeout. */
  function CheckRead(length: nat, got: seq<byte>): (r: Result<seq<byte>>)
    ensures r.Ok? <==> |got| == length
    ensures r.Ok? ==> |r.value| == length && r.value == got
    ensures r.Err? ==> r.error == ReadTimeout
  {
    if |got| != length then Err(ReadTimeout) else Ok(got)
  }

  /** The check of `writeData`: a short write raises IOError. */
  function CheckWrite(data: seq<byte>, written: int): (r: Result<nat>)
    ensures r.Ok? <==> written == |data|
    ensures r.Ok? ==> r.value == |data|
    ensures r.Err? ==> r.error == IOError
  {
    if written != |data| then Err(IOError) else Ok(|data|)
  }

  /** `readData(length)`: exactly `length` bytes from the device, or CommunicationReadTimeout. */
  function ReadData(p: SerialPort, length: nat): (r: (Result<seq<byte>>, SerialPort))
    ensures r.0.Ok? <==> length <= |p.port.outputBuffer|
    ensures r.0.Ok? ==> r.0.value == p.port.outputBuffer[..length]
                        && r.1.port.outputBuffer == p.port.outputBuffer[length..]
    ensures r.0.Err? ==> r.0.error == ReadTimeout
    ensures r.1.port == p.port.(outputBuffer := r.1.port.outputBuffer) && r.1.portPath == p.portPath
  {
    var (res, dev) := Cobolt.Read(p.port, length);
    (match res
     case Err(e) => Err(e)
     case Ok(got) => CheckRead(length, got), p.(port := dev))
  }

  /** `writeData(data)`: hands the bytes to the device, checks the count, flushes. */
  function WriteData(p: SerialPort, data: seq<byte>): (r: (Result<nat>, SerialPort))
    ensures r.0.Ok? <==> IsAscii(data)
    ensures r.0.Ok? ==> r.0.value == |data|
    ensures r.1 == p.(port := Cobolt.Write(p.port, data).1)
  {
    var (res, dev) := Cobolt.Write(p.port, data);
    (match res
     case Err(e) => Err(e)
     case Ok(n) => CheckWrite(data, n), p.(port := Cobolt.Flush(dev)))
  }
}
