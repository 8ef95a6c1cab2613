/** The DeviceManager registry: the set of registered physical devices, the monitoring guard,
    the diff of connected USB devices and the notifications it posts, kept as a trace in
    posting order. The monitoring thread, its clock and the locks are not part of this
    model; one poll of the loop is. */
module DeviceManager {
  import opened Errors
  import opened Seqs
  import opened OceanDiscovery

  /** A registered device: an identity, the classes its type is a subclass of, and its serial
      number. */
  datatype PhysicalDevice = PhysicalDevice(id: nat, classes: set<string>, serialNumber: string)

  /** `(idVendor, idProduct, serialNumber)` as posted with a USB connect or disconnect. */
  datatype Descriptor = Descriptor(idVendor: nat, idProduct: nat, serialNumber: string)

  datatype Notification =
    | WillStartMonitoring
    | WillStopMonitoring
    | WillAddDevice(device: PhysicalDevice)
    | DidAddDevice(device: PhysicalDevice)
    | WillRemoveDevice(device: PhysicalDevice)
    | DidRemoveDevice(device: PhysicalDevice)
    | UsbDeviceDidConnect(descriptor: Descriptor)
    | UsbDeviceDidDisconnect(descriptor: Descriptor)

  /** The singleton's state. `monitoring` stands for the monitor thread object being set. */
  datatype Manager = Manager(
    devices: set<PhysicalDevice>,
    quitMonitoring: bool,
    monitoring: bool,
    usbDevices: seq<UsbDevice>,
    trace: seq<Notification>)

  /** `DeviceManager()`: the first call creates the instance with its initial state; every
      later call returns the same instance, and `__init__` keeps each attribute it already
      has. */
  function Instantiate(instance: Option<Manager>): (m: Manager)
    ensures instance.Some? ==> m == instance.value
    ensures instance.None? ==> m.devices == {} && !m.quitMonitoring && !m.monitoring
                               && m.usbDevices == [] && m.trace == []
  {
    match instance
    case Some(existing) => existing
    case None => Manager({}, false, false, [], [])
  }

  /** Constructing again changes nothing. */
  lemma InstantiateIsSingleton(instance: Option<Manager>)
    ensures Instantiate(Some(Instantiate(instance))) == Instantiate(instance)
  {
  }

  /** `isMonitoring`: a monitor exists. */
  predicate IsMonitoring(m: Manager)
  {
    m.monitoring
  }

  /** `startMonitoring`: refused while monitoring; otherwise clears the quit flag, creates the
      monitor and posts willStartMonitoring. */
  function StartMonitoring(m: Manager): (r: Result<Manager>)
    ensures r.Ok? <==> !IsMonitoring(m)
    ensures r.Err? ==> r.error == RuntimeError(MonitoringAlreadyRunning)
    ensures r.Ok? ==> IsMonitoring(r.value) && !r.value.quitMonitoring
                      && r.value.trace == m.trace + [WillStartMonitoring]
                      && r.value.devices == m.devices && r.value.usbDevices == m.usbDevices
  {
    if IsMonitoring(m) then Err(RuntimeError(MonitoringAlreadyRunning))
    else Ok(m.(quitMonitoring := false, monitoring := true, trace := m.trace + [WillStartMonitoring]))
  }

  /** `stopMonitoring`: refused when idle; otherwise posts willStopMonitoring, sets the quit
      flag, and (after joining the thread) drops the monitor. */
  function StopMonitoring(m: Manager): (r: Result<Manager>)
    ensures r.Ok? <==> IsMonitoring(m)
    ensures r.Err? ==> r.error == RuntimeError(NoMonitoringLoop)
    ensures r.Ok? ==> !IsMonitoring(r.value) && r.value.quitMonitoring
                      && r.value.trace == m.trace + [WillStopMonitoring]
                      && r.value.devices == m.devices && r.value.usbDevices == m.usbDevices
  {
    if !IsMonitoring(m) then Err(RuntimeError(NoMonitoringLoop))
    else Ok(m.(quitMonitoring := true, monitoring := false, trace := m.trace + [WillStopMonitoring]))
  }

  /** Start then stop returns to an idle manager with the same devices; starting twice or
      stopping twice is refused. */
  lemma MonitoringCycle(m: Manager)
    requires !IsMonitoring(m)
    ensures var started := StartMonitoring(m);
            && started.Ok?
            && StartMonitoring(started.value).Err?
            && var stopped := StopMonitoring(started.value);
            && stopped.Ok? && !IsMonitoring(stopped.value) && stopped.value.devices == m.devices
            && StopMonitoring(stopped.value).Err?
            && stopped.value.trace == m.trace + [WillStartMonitoring, WillStopMonitoring]
  {
    var started := StartMonitoring(m).value;
    var stopped := StopMonitoring(started).value;
    assert stopped.trace == (m.trace + [WillStartMonitoring]) + [WillStopMonitoring];
  }

  /** `newlyConnectedAndDisconnectedUSBDevices`: the connected devices the manager does not
      know, in connection order, and the known devices no longer connected, in known order. */
  function Diff(current: seq<UsbDevice>, known: seq<UsbDevice>): (r: (seq<UsbDevice>, seq<UsbDevice>))
    ensures forall d | d in r.0 :: d in current && d !in known
    ensures forall d | d in current :: d in r.0 <==> d !in known
    ensures forall d | d in r.1 :: d in known && d !in current
    ensures forall d | d in known :: d in r.1 <==> d !in current
  {
    var isNew := (d: UsbDevice) => d !in known;
    var isGone := (d: UsbDevice) => d !in current;
    FilterMembers(current, isNew);
    FilterMembers(known, isGone);
    (Filter(current, isNew), Filter(known, isGone))
  }

  /** No device is reported both newly connected and newly disconnected. */
  lemma DiffDisjoint(current: seq<UsbDevice>, known: seq<UsbDevice>)
    ensures forall d | d in Diff(current, known).0 :: d !in Diff(current, known).1
  {
  }

  /** The diff keeps order: devices connected later are reported later. */
  lemma DiffKeepsOrder(a: seq<UsbDevice>, b: seq<UsbDevice>, known: seq<UsbDevice>)
    ensures Diff(a + b, known).0 == Diff(a, known).0 + Diff(b, known).0
  {
    FilterAppend(a, b, d => d !in known);
  }

  /** Nothing known: every connected device is new and none has gone. */
  lemma {:induction false} DiffFromNothing(current: seq<UsbDevice>)
    ensures Diff(current, []) == (current, [])
  {
    if current != [] {
      DiffFromNothing(current[1..]);
      FilterCons(current[0], current[1..], (d: UsbDevice) => d !in []);
      assert current == [current[0]] + current[1..];
    }
  }

  /** The descriptor posted for a USB device; an unreadable serial number becomes "". */
  function DescriptorOf(d: UsbDevice): (r: Descriptor)
    ensures r.idVendor == d.idVendor && r.idProduct == d.idProduct
    ensures d.serial.Some? ==> r.serialNumber == d.serial.value
    ensures d.serial.None? ==> r.serialNumber == ""
  {
    Descriptor(d.idVendor, d.idProduct, d.serial.GetOr(""))
  }

  function ConnectNotes(ds: seq<UsbDevice>): (r: seq<Notification>)
    ensures |r| == |ds| && forall i :: 0 <= i < |ds| ==> r[i] == UsbDeviceDidConnect(DescriptorOf(ds[i]))
  {
    seq(|ds|, i requires 0 <= i < |ds| => UsbDeviceDidConnect(DescriptorOf(ds[i])))
  }

  function DisconnectNotes(ds: seq<UsbDevice>): (r: seq<Notification>)
    ensures |r| == |ds| && forall i :: 0 <= i < |ds| ==> r[i] == UsbDeviceDidDisconnect(DescriptorOf(ds[i]))
  {
    seq(|ds|, i requires 0 <= i < |ds| => UsbDeviceDidDisconnect(DescriptorOf(ds[i])))
  }

  /** One pass of the monitoring loop over the devices `current` now connected: a connect
      notification per new device, then a disconnect notification per vanished one. The
      known list itself is never updated. */
  function Poll(m: Manager, current: seq<UsbDevice>): (r: Manager)
    ensures r == m.(trace := r.trace)
    ensures var (newly, gone) := Diff(current, m.usbDevices);
            r.trace == m.trace + ConnectNotes(newly) + DisconnectNotes(gone)
  {
    var (newly, gone) := Diff(current, m.usbDevices);
    m.(trace := m.trace + ConnectNotes(newly) + DisconnectNotes(gone))
  }

  /** Because the known list starts empty and is never assigned, every poll of a manager
      reports every connected device as newly connected and none as disconnected. */
  lemma PollsReportEverything(instance: Option<Manager>, polls: seq<seq<UsbDevice>>, current: seq<UsbDevice>)
    requires instance.None?
    ensures var m := PollAll(Instantiate(instance), polls);
            Poll(m, current).trace == m.trace + ConnectNotes(current)
  {
    var m := PollAll(Instantiate(instance), polls);
    PollAllKeepsKnown(Instantiate(instance), polls);
    DiffFromNothing(current);
    assert DisconnectNotes([]) == [];
  }

  /** Successive polls. */
  function PollAll(m: Manager, polls: seq<seq<UsbDevice>>): (r: Manager)
    decreases |polls|
  {
    if polls == [] then m else PollAll(Poll(m, polls[0]), polls[1..])
  }

  /** Polling leaves the registry, the monitoring flags and the known list alone. */
  lemma {:induction false} PollAllKeepsKnown(m: Manager, polls: seq<seq<UsbDevice>>)
    ensures PollAll(m, polls) == m.(trace := PollAll(m, polls).trace)
    decreases |polls|
  {
    if polls != [] {
      PollAllKeepsKnown(Poll(m, polls[0]), polls[1..]);
    }
  }

  /** `addDevice`: willAddDevice, set insertion, didAddDevice. */
  function AddDevice(m: Manager, d: PhysicalDevice): (r: Manager)
    ensures r.devices == m.devices + {d}
    ensures r.trace == m.trace + [WillAddDevice(d), DidAddDevice(d)]
    ensures r == m.(devices := r.devices, trace := r.trace)
  {
    m.(devices := m.devices + {d}, trace := m.trace + [WillAddDevice(d), DidAddDevice(d)])
  }

  /** `removeDevice`: willRemoveDevice, then set removal; removing an absent device raises
      KeyError and didRemoveDevice is never posted. */
  function RemoveDevice(m: Manager, d: PhysicalDevice): (r: (Result<()>, Manager))
    ensures r.0.Ok? <==> d in m.devices
    ensures r.0.Err? ==> r.0.error == KeyError
    ensures r.1.devices == m.devices - {d}
    ensures r.1.trace == m.trace + [WillRemoveDevice(d)] + (if d in m.devices then [DidRemoveDevice(d)] else [])
    ensures r.1 == m.(devices := r.1.devices, trace := r.1.trace)
  {
    var posted := m.(trace := m.trace + [WillRemoveDevice(d)]);
    if d !in m.devices then (Err(KeyError), posted)
    else (Ok(()), posted.(devices := m.devices - {d}, trace := posted.trace + [DidRemoveDevice(d)]))
  }

  /** Adding a device that was not registered and removing it restores the registry; adding
      twice registers it once. */
  lemma AddThenRemove(m: Manager, d: PhysicalDevice)
    ensures d !in m.devices ==> RemoveDevice(AddDevice(m, d), d).1.devices == m.devices
    ensures RemoveDevice(AddDevice(m, d), d).0.Ok?
    ensures AddDevice(AddDevice(m, d), d).devices == AddDevice(m, d).devices
  {
  }

  /** The filter of `matchPhysicalDevicesOfType`: a subclass of `deviceClass`, and when a
      serial pattern is given, one `matches` at the start of the serial number. */
  predicate OfType(d: PhysicalDevice, deviceClass: string, serial: Option<string>, matches: (string, string) -> bool)
  {
    deviceClass in d.classes && (serial.None? || matches(serial.value, d.serialNumber))
  }

  /** `matchPhysicalDevicesOfType`: a walk over the registered set in some order, keeping the
      matching devices. `matches(pattern, s)` is `re.match(pattern, s) is not None`. */
  method MatchPhysicalDevicesOfType(m: Manager, deviceClass: string, serial: Option<string>,
                                    matches: (string, string) -> bool) returns (r: seq<PhysicalDevice>)
    ensures forall d :: d in r <==> d in m.devices && OfType(d, deviceClass, serial, matches)
    ensures forall i, j :: 0 <= i < j < |r| ==> r[i] != r[j]
  {
    r := [];
    var remaining := m.devices;
    while remaining != {}
      invariant remaining <= m.devices
      invariant forall d :: d in r <==> d in m.devices - remaining && OfType(d, deviceClass, serial, matches)
      invariant forall i, j :: 0 <= i < j < |r| ==> r[i] != r[j]
      decreases remaining
    {
      var d :| d in remaining;
      if OfType(d, deviceClass, serial, matches) {
        r := r + [d];
      }
      remaining := remaining - {d};
    }
  }
}
