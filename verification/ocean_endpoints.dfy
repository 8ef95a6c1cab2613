/** Endpoint bookkeeping of the Ocean Insight spectrometers: the split of an interface's
    endpoints by direction (bit 7 of bEndpointAddress, section 9.6.6 of the USB 2.0
    specification) and the assignment of the command, data, parameter and status endpoints. */
module OceanEndpoints {
  import opened Errors
  import opened Bytes
  import opened Seqs

  /** An endpoint descriptor: its address and its largest packet. */
  datatype Endpoint = Endpoint(address: byte, maxPacketSize: nat)

  /** The direction bit: set for IN (device-to-host) endpoints. */
  predicate IsInput(e: Endpoint)
  {
    (e.address as bv8) & 0x80 != 0
  }

  predicate IsOutput(e: Endpoint)
  {
    !IsInput(e)
  }

  /** The interface's endpoints, split by direction with their order kept. */
  function Partition(endpoints: seq<Endpoint>): (r: (seq<Endpoint>, seq<Endpoint>))
    ensures forall i :: 0 <= i < |r.0| ==> IsInput(r.0[i]) && r.0[i] in endpoints
    ensures forall i :: 0 <= i < |r.1| ==> !IsInput(r.1[i]) && r.1[i] in endpoints
    ensures forall e :: e in endpoints ==> (e in r.0 <==> IsInput(e)) && (e in r.1 <==> !IsInput(e))
  {
    FilterMembers(endpoints, IsInput);
    FilterMembers(endpoints, IsOutput);
    (Filter(endpoints, IsInput), Filter(endpoints, IsOutput))
  }

  /** The two lists together hold every endpoint exactly as often as the interface does. */
  lemma PartitionIsExact(endpoints: seq<Endpoint>)
    ensures var (inputs, outputs) := Partition(endpoints);
            multiset(inputs) + multiset(outputs) == multiset(endpoints)
            && |inputs| + |outputs| == |endpoints|
  {
    FilterPartition(endpoints, IsInput, IsOutput);
    var (inputs, outputs) := Partition(endpoints);
    assert |multiset(inputs) + multiset(outputs)| == |multiset(endpoints)|;
  }

  /** The split keeps order: endpoints appended to the interface land at the end of their list. */
  lemma PartitionKeepsOrder(a: seq<Endpoint>, b: seq<Endpoint>)
    ensures Partition(a + b).0 == Partition(a).0 + Partition(b).0
    ensures Partition(a + b).1 == Partition(a).1 + Partition(b).1
  {
    FilterAppend(a, b, IsInput);
    FilterAppend(a, b, IsOutput);
  }

  /** Address 0x81 is an input, 0x02 an output. */
  lemma DirectionExamples()
    ensures IsInput(Endpoint(0x81, 64)) && IsInput(Endpoint(0x82, 512))
    ensures !IsInput(Endpoint(0x02, 64)) && !IsInput(Endpoint(0x01, 512))
  {
  }

  /** The endpoint attributes the driver talks through; None where unassigned. */
  datatype Assignment = Assignment(
    commandOut: Option<Endpoint>,
    mainIn: Option<Endpoint>,
    secondaryIn: Option<Endpoint>,
    parameters: Option<Endpoint>,
    status: Option<Endpoint>)

  const Unassigned := Assignment(None, None, None, None, None)

  /** The base constructor's assignment. The guard is `len(inputs) >= 2 or len(outputs) > 0`,
      so an interface with an output but fewer than two inputs, or with two inputs and no
      output, enters the branch and fails on the missing index. */
  function DefaultAssignment(inputs: seq<Endpoint>, outputs: seq<Endpoint>): (r: Result<Assignment>)
    ensures r.Ok? <==> (|inputs| >= 2 && |outputs| >= 1) || (|inputs| < 2 && |outputs| == 0)
    ensures r.Err? ==> r.error == IndexError
    ensures r.Ok? && |outputs| >= 1 ==>
              r.value == Assignment(Some(outputs[0]), Some(inputs[0]), Some(inputs[1]), None, None)
    ensures r.Ok? && |outputs| == 0 ==> r.value == Unassigned
  {
    if |inputs| >= 2 || |outputs| > 0 then
      if |outputs| == 0 || |inputs| < 2 then Err(IndexError)
      else Ok(Assignment(Some(outputs[0]), Some(inputs[0]), Some(inputs[1]), None, None))
    else Ok(Unassigned)
  }

  /** The guard the comment above the branch describes (both at least two inputs and an output)
      differs from the code's exactly on the interfaces that make the code fail. */
  lemma DefaultGuardDiscrepancy(inputs: seq<Endpoint>, outputs: seq<Endpoint>)
    ensures DefaultAssignment(inputs, outputs).Err? <==>
              ((|inputs| >= 2 || |outputs| > 0) != (|inputs| >= 2 && |outputs| > 0))
  {
  }

  /** The USB2000 constructor: the default assignment, then parameters on the secondary input
      and status on the main input. */
  function Usb2000Assignment(inputs: seq<Endpoint>, outputs: seq<Endpoint>): (r: Result<Assignment>)
    ensures r.Ok? <==> DefaultAssignment(inputs, outputs).Ok?
    ensures r.Ok? ==> r.value.parameters == r.value.secondaryIn && r.value.status == r.value.mainIn
    ensures r.Ok? && |outputs| >= 1 ==>
              r.value.commandOut == Some(outputs[0]) && r.value.status == Some(inputs[0])
              && r.value.parameters == Some(inputs[1])
    ensures r.Err? ==> r.error == IndexError
  {
    match DefaultAssignment(inputs, outputs)
    case Err(e) => Err(e)
    case Ok(a) => Ok(a.(parameters := a.secondaryIn, status := a.mainIn))
  }

  /** The USB4000 constructor: command out on the first output, the third input serves main,
      parameter and status replies, the second input is secondary. */
  function Usb4000Assignment(inputs: seq<Endpoint>, outputs: seq<Endpoint>): (r: Result<Assignment>)
    ensures r.Ok? <==> |inputs| >= 3 && |outputs| >= 1
    ensures r.Ok? ==> r.value == Assignment(Some(outputs[0]), Some(inputs[2]), Some(inputs[1]),
                                            Some(inputs[2]), Some(inputs[2]))
    ensures r.Err? ==> r.error == IndexError
  {
    match DefaultAssignment(inputs, outputs)
    case Err(e) => Err(e)
    case Ok(_) =>
      if |outputs| == 0 || |inputs| < 3 then Err(IndexError)
      else Ok(Assignment(Some(outputs[0]), Some(inputs[2]), Some(inputs[1]), Some(inputs[2]), Some(inputs[2])))
  }

  /** The samples the USB4000 discards before and after the meaningful ones. */
  const USB4000_LEADING: nat := 5
  const USB4000_TRAILING: nat := 173
}
