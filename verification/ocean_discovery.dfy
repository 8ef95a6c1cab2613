/** Selection of the USB device an Ocean Insight driver opens. The bus is the list
    `usb.core.find` enumerates, in its order; reading a device's serial-number string can
    fail, which raises a USB error. */
module OceanDiscovery {
  import opened Errors
  import opened Seqs

  /** A connected device: vendor, product and its serial-number string, None when reading
      the string raises. */
  datatype UsbDevice = UsbDevice(idVendor: nat, idProduct: nat, serial: Option<string>)

  /** The USB vendor id of Ocean Insight. */
  const OCEAN_VENDOR: nat := 0x2457

  /** What `usb.core.find(find_all=True, idVendor=0x2457[, idProduct=p])` keeps. */
  predicate Selected(d: UsbDevice, idProduct: Option<nat>)
  {
    d.idVendor == OCEAN_VENDOR && (idProduct.None? || d.idProduct == idProduct.value)
  }

  /** The Ocean Insight devices on the bus, of product `idProduct` when one is given, in bus
      order. */
  function Find(bus: seq<UsbDevice>, idProduct: Option<nat>): (r: seq<UsbDevice>)
    ensures |r| <= |bus|
    ensures forall d | d in r :: d in bus && Selected(d, idProduct)
    ensures forall d | d in bus :: d in r <==> Selected(d, idProduct)
  {
    var keep := d => Selected(d, idProduct);
    FilterMembers(bus, keep);
    Filter(bus, keep)
  }

  /** Every device of a product is an Ocean Insight device: narrowing by product never finds
      more. */
  lemma FindNarrows(bus: seq<UsbDevice>, idProduct: nat)
    ensures forall d | d in Find(bus, Some(idProduct)) :: d in Find(bus, None)
    ensures Find(bus, None) == [] ==> Find(bus, Some(idProduct)) == []
  {
    var narrow := Find(bus, Some(idProduct));
    if narrow != [] {
      var d := narrow[0];
      assert d in narrow;
      assert d in bus && Selected(d, None);
    }
  }

  /** The serial-number scan stops at a device whose string cannot be read or equals `s`. */
  predicate Stops(d: UsbDevice, s: string)
  {
    d.serial.None? || d.serial.value == s
  }

  /** Index of the first device where the scan stops, `|devices|` when there is none. */
  function FirstStop(devices: seq<UsbDevice>, s: string): (k: nat)
    ensures k <= |devices|
    ensures forall j :: 0 <= j < k ==> !Stops(devices[j], s)
    ensures k < |devices| ==> Stops(devices[k], s)
  {
    if devices == [] then 0
    else if Stops(devices[0], s) then 0
    else 1 + FirstStop(devices[1..], s)
  }

  /** The loop of `connectedUSBDevices` when a serial number is given: the first device
      carrying it, alone; nothing when none does; the lookup error when a string that must be
      read cannot be. */
  function SerialSearch(devices: seq<UsbDevice>, s: string): (r: Result<seq<UsbDevice>>)
    ensures var k := FirstStop(devices, s);
            r == if k == |devices| then Ok([])
                 else if devices[k].serial.None? then Err(UsbError)
                 else Ok([devices[k]])
  {
    if devices == [] then Ok([])
    else
      match devices[0].serial
      case None => Err(UsbError)
      case Some(x) => if x == s then Ok([devices[0]]) else SerialSearch(devices[1..], s)
  }

  /** `connectedUSBDevices(idProduct, serialNumber)`. */
  function ConnectedUSBDevices(bus: seq<UsbDevice>, idProduct: Option<nat>, serial: Option<string>): (r: Result<seq<UsbDevice>>)
    ensures r.Err? ==> serial.Some? && r.error == UsbError
    ensures r.Ok? ==> forall d | d in r.value :: d in bus && Selected(d, idProduct)
                                                 && (serial.Some? ==> d.serial == serial)
    ensures serial.None? ==> r == Ok(Find(bus, idProduct))
    ensures serial.Some? && r.Ok? ==> |r.value| <= 1
    ensures serial.Some? ==> (r == Ok([]) <==> forall d | d in Find(bus, idProduct) :: !Stops(d, serial.value))
  {
    var devices := Find(bus, idProduct);
    if serial.None? then Ok(devices) else
    var r := SerialSearch(devices, serial.value);
    var k := FirstStop(devices, serial.value);
    assert k < |devices| ==> devices[k] in devices;
    r
  }

  /** `matchUniqueUSBDevice(idProduct, serialNumber)`. With no match the source builds its
      message with `{1}` from a single argument, so when other Ocean Insight devices are
      connected the formatting raises IndexError before NoSpectrometerConnected can be. */
  function MatchUniqueUSBDevice(bus: seq<UsbDevice>, idProduct: Option<nat>, serial: Option<string>): (r: Result<UsbDevice>)
    ensures r.Ok? ==> r.value in bus && Selected(r.value, idProduct) && (serial.Some? ==> r.value.serial == serial)
    ensures serial.None? ==> (r.Ok? <==> Find(bus, idProduct) != [])
                             && (r.Ok? ==> r.value == Find(bus, idProduct)[0])
    ensures r.Err? ==> r.error in {UsbError, NoSpectrometerConnected, IndexError}
    ensures r == Err(IndexError) <==> ConnectedUSBDevices(bus, idProduct, serial) == Ok([]) && Find(bus, None) != []
    ensures r == Err(NoSpectrometerConnected) <==> ConnectedUSBDevices(bus, idProduct, serial) == Ok([]) && Find(bus, None) == []
  {
    match ConnectedUSBDevices(bus, idProduct, serial)
    case Err(x) => Err(x)
    case Ok(devices) =>
      if |devices| == 1 then Ok(devices[0])
      else if |devices| > 1 then
        if serial.Some? then Err(NoSpectrometerConnected) else Ok(devices[0])
      else
        var any := ConnectedUSBDevices(bus, None, None).value;
        if |any| == 0 then Err(NoSpectrometerConnected) else Err(IndexError)
  }

  /** With a serial number, the device returned is the first one of the product carrying
      that number, provided every string before it can be read. */
  lemma SerialSelectsFirst(bus: seq<UsbDevice>, idProduct: Option<nat>, s: string, k: nat)
    requires var devices := Find(bus, idProduct);
             k < |devices| && devices[k].serial == Some(s)
             && forall j :: 0 <= j < k ==> devices[j].serial.Some? && devices[j].serial.value != s
    ensures MatchUniqueUSBDevice(bus, idProduct, Some(s)) == Ok(Find(bus, idProduct)[k])
  {
  }
}
