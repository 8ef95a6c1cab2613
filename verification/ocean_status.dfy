/** The 16-byte status records of the Ocean Insight spectrometers, in Python `struct` notation:
    USB2000 `>hh?B???` followed by seven pad bytes, USB4000 `<hL?BBB?Bxx?x`. A `?` byte reads
    as true exactly when it is nonzero; pad bytes are skipped. */
module OceanStatus {
  import opened Errors
  import opened Bytes

  /** `struct.calcsize` of both status formats. */
  const STATUS_SIZE: nat := 16

  datatype Usb2000Status = Usb2000Status(
    pixels: int,
    integrationTime: int,
    isLampEnabled: bool,
    triggerMode: byte,
    isSpectrumRequested: bool,
    timerSwap: bool,
    isSpectralDataReady: bool)

  datatype Usb4000Status = Usb4000Status(
    pixels: int,
    integrationTime: nat,
    isLampEnabled: bool,
    triggerMode: byte,
    acquisitionStatus: byte,
    packetCount: byte,
    powerDown: bool,
    packetsTransferred: byte,
    isHighSpeed: bool)

  /** The `lastStatus` record of either model. */
  datatype Status = S2000(s2: Usb2000Status) | S4000(s4: Usb4000Status)
  {
    function Pixels(): int
    {
      match this
      case S2000(s) => s.pixels
      case S4000(s) => s.pixels
    }
  }

  predicate IsInt16(v: int) { -0x8000 <= v < 0x8000 }

  /** Values `struct.pack` accepts for each field. */
  predicate Usb2000InRange(s: Usb2000Status)
  {
    IsInt16(s.pixels) && IsInt16(s.integrationTime)
  }

  predicate Usb4000InRange(s: Usb4000Status)
  {
    IsInt16(s.pixels) && s.integrationTime < 0x1_0000_0000
  }

  /** `?` decoding. */
  function Flag(b: byte): bool { b != 0 }

  /** `?` encoding. */
  function FlagByte(f: bool): (b: byte)
    ensures Flag(b) == f
  {
    if f then 1 else 0
  }

  /** Code `>h` at offset `i`. */
  function Int16BE(b: seq<byte>, i: nat): (v: int)
    requires i + 2 <= |b|
    ensures IsInt16(v)
  {
    Signed16(b[i] as int * 0x100 + b[i + 1] as int)
  }

  /** Code `<h` at offset `i`. */
  function Int16LE(b: seq<byte>, i: nat): (v: int)
    requires i + 2 <= |b|
    ensures IsInt16(v)
  {
    Signed16(b[i] as int + 0x100 * b[i + 1] as int)
  }

  /** Code `<L` at offset `i`. */
  function UInt32LE(b: seq<byte>, i: nat): (v: nat)
    requires i + 4 <= |b|
    ensures v < 0x1_0000_0000
  {
    b[i] as int + 0x100 * b[i + 1] as int + 0x1_0000 * b[i + 2] as int + 0x100_0000 * b[i + 3] as int
  }

  /** `struct.pack('>h', v)`. */
  function PackInt16BE(v: int): (r: seq<byte>)
    requires IsInt16(v)
    ensures |r| == 2 && Int16BE(r, 0) == v
  {
    var u := v % 0x1_0000;
    [u / 0x100, u % 0x100]
  }

  /** `struct.pack('<h', v)`. */
  function PackInt16LE(v: int): (r: seq<byte>)
    requires IsInt16(v)
    ensures |r| == 2 && Int16LE(r, 0) == v
  {
    var u := v % 0x1_0000;
    [u % 0x100, u / 0x100]
  }

  /** `struct.unpack('>hh?B???xxxxxxx', b)`; None (struct.error) unless `b` has 16 bytes. */
  function Unpack2000(b: seq<byte>): (r: Option<Usb2000Status>)
    ensures r.Some? <==> |b| == STATUS_SIZE
    ensures r.Some? ==> r.value.isSpectralDataReady == (b[8] != 0) && r.value.isSpectrumRequested == (b[6] != 0)
    ensures r.Some? ==> Usb2000InRange(r.value)
  {
    if |b| != STATUS_SIZE then None
    else Some(Usb2000Status(Int16BE(b, 0), Int16BE(b, 2), Flag(b[4]), b[5], Flag(b[6]), Flag(b[7]), Flag(b[8])))
  }

  /** `struct.pack('>hh?B???xxxxxxx', *s)`. */
  function Pack2000(s: Usb2000Status): (b: seq<byte>)
    requires Usb2000InRange(s)
    ensures |b| == STATUS_SIZE
    ensures forall i :: 9 <= i < STATUS_SIZE ==> b[i] == 0
  {
    PackInt16BE(s.pixels) + PackInt16BE(s.integrationTime)
    + [FlagByte(s.isLampEnabled), s.triggerMode, FlagByte(s.isSpectrumRequested),
       FlagByte(s.timerSwap), FlagByte(s.isSpectralDataReady)]
    + [0, 0, 0, 0, 0, 0, 0]
  }

  /** `struct.unpack('<hL?BBB?Bxx?x', b)`; None (struct.error) unless `b` has 16 bytes. */
  function Unpack4000(b: seq<byte>): (r: Option<Usb4000Status>)
    ensures r.Some? <==> |b| == STATUS_SIZE
    ensures r.Some? ==> r.value.acquisitionStatus == b[8] && r.value.packetCount == b[9]
                        && r.value.isHighSpeed == (b[14] != 0)
    ensures r.Some? ==> Usb4000InRange(r.value)
  {
    if |b| != STATUS_SIZE then None
    else Some(Usb4000Status(Int16LE(b, 0), UInt32LE(b, 2), Flag(b[6]), b[7], b[8], b[9], Flag(b[10]), b[11],
                            Flag(b[14])))
  }

  /** `struct.pack('<hL?BBB?Bxx?x', *s)`. */
  function Pack4000(s: Usb4000Status): (b: seq<byte>)
    requires Usb4000InRange(s)
    ensures |b| == STATUS_SIZE
    ensures b[12] == 0 && b[13] == 0 && b[15] == 0
  {
    PackInt16LE(s.pixels) + U32LE(s.integrationTime)
    + [FlagByte(s.isLampEnabled), s.triggerMode, s.acquisitionStatus, s.packetCount,
       FlagByte(s.powerDown), s.packetsTransferred, 0, 0, FlagByte(s.isHighSpeed), 0]
  }

  /** Every in-range USB2000 record survives packing and unpacking. */
  lemma Usb2000RoundTrip(s: Usb2000Status)
    requires Usb2000InRange(s)
    ensures Unpack2000(Pack2000(s)) == Some(s)
  {
    var b := Pack2000(s);
    assert b[..2] == PackInt16BE(s.pixels) && b[2..4] == PackInt16BE(s.integrationTime);
    assert Int16BE(b, 0) == Int16BE(b[..2], 0);
    assert Int16BE(b, 2) == Int16BE(b[2..4], 0);
  }

  /** A 16-byte reply whose flag bytes are 0 or 1 and whose pad bytes are zero is exactly the
      packing of what it unpacks to. */
  lemma Usb2000Canonical(b: seq<byte>)
    requires |b| == STATUS_SIZE
    requires forall i :: 6 <= i < 9 ==> b[i] <= 1
    requires b[4] <= 1
    requires forall i :: 9 <= i < STATUS_SIZE ==> b[i] == 0
    ensures Pack2000(Unpack2000(b).value) == b
  {
    var b' := Pack2000(Unpack2000(b).value);
    PackInt16BEOfBytes(b[0], b[1]);
    PackInt16BEOfBytes(b[2], b[3]);
    assert b'[0] == b[0] && b'[1] == b[1] && b'[2] == b[2] && b'[3] == b[3];
    assert forall i :: 0 <= i < STATUS_SIZE ==> b'[i] == b[i];
  }

  /** Splitting a number built from byte digits gives back the digits. */
  lemma DigitSplit(lo: byte, k: nat)
    ensures (lo + 0x100 * k) % 0x100 == lo && (lo + 0x100 * k) / 0x100 == k
  {
  }

  lemma U32LEOfBytes(a: byte, b: byte, c: byte, d: byte)
    ensures a as int + 0x100 * b as int + 0x1_0000 * c as int + 0x100_0000 * d as int < 0x1_0000_0000
    ensures U32LE(a as int + 0x100 * b as int + 0x1_0000 * c as int + 0x100_0000 * d as int) == [a, b, c, d]
  {
    var n := a as int + 0x100 * b as int + 0x1_0000 * c as int + 0x100_0000 * d as int;
    var k := b as int + 0x100 * c as int + 0x1_0000 * d as int;
    assert n == a + 0x100 * k;
    DigitSplit(a, k);
    var m := c as int + 0x100 * d as int;
    assert k == b + 0x100 * m;
    DigitSplit(b, m);
    DigitSplit(c, d);
    assert n / 0x1_0000 == m;
    assert n / 0x100_0000 == d;
  }

  lemma PackInt16LEOfBytes(lo: byte, hi: byte)
    ensures PackInt16LE(Signed16(lo as int + 0x100 * hi as int)) == [lo, hi]
  {
    DigitSplit(lo, hi);
  }

  lemma PackInt16BEOfBytes(hi: byte, lo: byte)
    ensures PackInt16BE(Signed16(hi as int * 0x100 + lo as int)) == [hi, lo]
  {
    DigitSplit(lo, hi);
  }

  /** Every in-range USB4000 record survives packing and unpacking. */
  lemma Usb4000RoundTrip(s: Usb4000Status)
    requires Usb4000InRange(s)
    ensures Unpack4000(Pack4000(s)) == Some(s)
  {
    var b := Pack4000(s);
    assert b[2..6] == U32LE(s.integrationTime);
    assert UInt32LE(b, 2) == s.integrationTime;
  }

  /** A 16-byte USB4000 reply with 0/1 flag bytes and zero pad bytes is the packing of what it
      unpacks to. */
  lemma Usb4000Canonical(b: seq<byte>)
    requires |b| == STATUS_SIZE
    requires b[6] <= 1 && b[10] <= 1 && b[14] <= 1
    requires b[12] == 0 && b[13] == 0 && b[15] == 0
    ensures Pack4000(Unpack4000(b).value) == b
  {
    var b' := Pack4000(Unpack4000(b).value);
    PackInt16LEOfBytes(b[0], b[1]);
    U32LEOfBytes(b[2], b[3], b[4], b[5]);
    assert b'[0] == b[0] && b'[1] == b[1];
    assert b'[2] == b[2] && b'[3] == b[3] && b'[4] == b[4] && b'[5] == b[5];
    assert forall i :: 0 <= i < STATUS_SIZE ==> b'[i] == b[i];
  }

  /** The USB4000 "spectrum requested" flag: bit 1 of acquisitionStatus. */
  predicate IsRequested(s: Usb4000Status)
  {
    (s.acquisitionStatus as bv8) & 2 != 0
  }

  /** The USB4000 "spectral data ready" flag: bit 2 of acquisitionStatus. */
  predicate IsReady(s: Usb4000Status)
  {
    (s.acquisitionStatus as bv8) & 4 != 0
  }

  /** The bit tests agree with the arithmetic reading of the same bits. */
  lemma AcquisitionBits(s: Usb4000Status)
    ensures IsRequested(s) <==> (s.acquisitionStatus / 2) % 2 == 1
    ensures IsReady(s) <==> (s.acquisitionStatus / 4) % 2 == 1
  {
    var a := s.acquisitionStatus as bv8;
    assert (a & 2 != 0) <==> ((a >> 1) & 1 == 1);
    assert (a & 4 != 0) <==> ((a >> 2) & 1 == 1);
    assert ((a >> 1) & 1) as int == (s.acquisitionStatus / 2) % 2;
    assert ((a >> 2) & 1) as int == (s.acquisitionStatus / 4) % 2;
  }

  /** The acquisition states seen on the device: 2 and 3 mean requested, 4 means ready, 0
      neither. */
  lemma AcquisitionStates(s: Usb4000Status)
    ensures s.acquisitionStatus == 0 ==> !IsRequested(s) && !IsReady(s)
    ensures s.acquisitionStatus in {2, 3} ==> IsRequested(s) && !IsReady(s)
    ensures s.acquisitionStatus == 4 ==> !IsRequested(s) && IsReady(s)
  {
  }
}
