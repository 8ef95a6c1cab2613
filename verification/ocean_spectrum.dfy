/** Spectrum reassembly. The USB2000 sends 32 rounds of a 64-byte packet of low bytes followed
    by a 64-byte packet of high bytes, then a confirmation byte. The USB4000 sends
    `packetCount` packets of 256 little-endian 16-bit samples, the first four from its second
    input endpoint and the rest from its first, then a confirmation byte. Sample arithmetic
    is on unbounded integers. */
module OceanSpectrum {
  import opened Errors
  import opened Bytes
  import opened Seqs
  import opened OceanEndpoints
  import opened OceanStatus
  import opened OceanDevice

  /** The byte that ends every spectrum transfer. */
  const CONFIRMATION: byte := 0x69

  const USB2000_ROUNDS: nat := 32
  const USB2000_PACKET: nat := 64
  const USB4000_PACKET: nat := 512
  /** The 16-bit samples in a USB4000 packet. */
  const USB4000_WORDS: nat := 256

  /** `s[0]` when `s` has one element (numpy broadcasting), else `s[j]`. */
  function Broadcast(s: seq<byte>, j: nat): byte
    requires |s| == 1 || j < |s|
  {
    if |s| == 1 then s[0] else s[j]
  }

  lemma DecodePair(lo: byte, hi: byte)
    ensures DecodeLE([lo, hi]) == lo as int + 0x100 * hi as int
  {
    assert [hi][1..] == [];
    assert DecodeLE([hi]) == hi as int + 0x100 * DecodeLE([]);
    assert [lo, hi][1..] == [hi];
  }

  /** `np.array(low) + 256 * np.array(high)`: element by element when the lengths agree, a
      single element broadcast against the other array, ValueError otherwise. */
  function Combine(low: seq<byte>, high: seq<byte>): (r: Result<seq<int>>)
    ensures r.Ok? <==> |low| == |high| || |low| == 1 || |high| == 1
    ensures r.Err? ==> r.error == ValueError
    ensures r.Ok? ==> |r.value| == (if |low| == 1 then |high| else |low|)
    ensures r.Ok? ==> forall j :: 0 <= j < |r.value| ==>
                        0 <= r.value[j] < 0x1_0000
                        && r.value[j] == DecodeLE([Broadcast(low, j), Broadcast(high, j)])
  {
    if !(|low| == |high| || |low| == 1 || |high| == 1) then Err(ValueError)
    else
      var n := if |low| == 1 then |high| else |low|;
      assert forall j :: 0 <= j < n ==> DecodeLE([Broadcast(low, j), Broadcast(high, j)])
                                        == Broadcast(low, j) as int + 0x100 * Broadcast(high, j) as int by {
        forall j | 0 <= j < n { DecodePair(Broadcast(low, j), Broadcast(high, j)); }
      }
      Ok(seq(n, j requires 0 <= j < n => Broadcast(low, j) as int + 0x100 * Broadcast(high, j) as int))
  }

  /** The samples of a round when both packets are full. */
  function CleanRound(low: seq<byte>, high: seq<byte>): (s: seq<int>)
    requires |low| == USB2000_PACKET && |high| == USB2000_PACKET
  {
    seq(USB2000_PACKET, j requires 0 <= j < USB2000_PACKET => low[j] as int + 0x100 * high[j] as int)
  }

  /** The first `count` transfers of `q` all succeed with `size` bytes. */
  predicate Full(q: seq<Option<seq<byte>>>, i: nat, size: nat)
  {
    i < |q| && q[i].Some? && |q[i].value| == size
  }

  predicate FullPackets(q: seq<Option<seq<byte>>>, count: nat, size: nat)
  {
    count <= |q| && forall i :: 0 <= i < count ==> Full(q, i, size)
  }

  /** Sample `k` of round `b` read from a queue of full packets: the low byte of transfer
      `2b` plus 256 times the high byte of transfer `2b + 1`; 0 off the full packets. */
  function PacketSample(q: seq<Option<seq<byte>>>, b: nat, k: nat): int
  {
    if Full(q, 2 * b, USB2000_PACKET) && Full(q, 2 * b + 1, USB2000_PACKET) && k < USB2000_PACKET
    then q[2 * b].value[k] as int + 0x100 * q[2 * b + 1].value[k] as int
    else 0
  }

  lemma CombineFull(low: seq<byte>, high: seq<byte>)
    requires |low| == USB2000_PACKET && |high| == USB2000_PACKET
    ensures Combine(low, high) == Ok(CleanRound(low, high))
  {
    var r := Combine(low, high).value;
    var c := CleanRound(low, high);
    assert |r| == |c| == USB2000_PACKET;
    forall j | 0 <= j < USB2000_PACKET
      ensures r[j] == c[j]
    {
      assert Broadcast(low, j) == low[j] && Broadcast(high, j) == high[j];
      DecodePair(low[j], high[j]);
    }
    assert r == c;
  }

  /** One USB2000 round: a low packet, a high packet, combined. A failed transfer raises. */
  function Round2000(u: Usb, e: Endpoint): (r: (Result<seq<int>>, Usb))
    ensures !(|Queue(u, e)| >= 2 && Queue(u, e)[0].Some? && Queue(u, e)[1].Some?) ==> r.0 == Err(UsbError)
    ensures Full(Queue(u, e), 0, USB2000_PACKET) && Full(Queue(u, e), 1, USB2000_PACKET) ==>
              r.0 == Ok(CleanRound(Queue(u, e)[0].value, Queue(u, e)[1].value))
              && Queue(r.1, e) == Queue(u, e)[2..]
    ensures r.1.written == u.written && r.1.flushes == u.flushes
  {
    var (low, u1) := ReadEndpoint(u, e, USB2000_PACKET);
    if low.None? then (Err(UsbError), u1)
    else
      var (high, u2) := ReadEndpoint(u1, e, USB2000_PACKET);
      if high.None? then (Err(UsbError), u2)
      else
        assert Full(Queue(u, e), 0, USB2000_PACKET) && Full(Queue(u, e), 1, USB2000_PACKET) ==>
                 low.value == Queue(u, e)[0].value && high.value == Queue(u, e)[1].value;
        if |low.value| == USB2000_PACKET && |high.value| == USB2000_PACKET then
          CombineFull(low.value, high.value);
          (Combine(low.value, high.value), u2)
        else (Combine(low.value, high.value), u2)
  }

  /** The first `n` rounds, as blocks of samples. */
  function Rounds2000(u: Usb, e: Endpoint, n: nat): (r: (Result<seq<seq<int>>>, Usb))
    ensures r.0.Ok? ==> |r.0.value| == n
    ensures r.1.written == u.written && r.1.flushes == u.flushes
    decreases n
  {
    if n == 0 then (Ok([]), u)
    else
      var (prev, u1) := Rounds2000(u, e, n - 1);
      match prev
      case Err(x) => (Err(x), u1)
      case Ok(blocks) =>
        var (block, u2) := Round2000(u1, e);
        match block
        case Err(x) => (Err(x), u2)
        case Ok(b) => (Ok(blocks + [b]), u2)
  }

  /** Once a round fails, later rounds are never read. */
  lemma {:induction false} RoundsErrorSticks(u: Usb, e: Endpoint, m: nat, n: nat)
    requires m <= n && Rounds2000(u, e, m).0.Err?
    ensures Rounds2000(u, e, n) == Rounds2000(u, e, m)
    decreases n - m
  {
    if m < n {
      RoundsErrorSticks(u, e, m, n - 1);
    }
  }

  /** After the rounds: read the confirmation, copy sample 1 over sample 0 (IndexError with
      fewer than two samples), then assert the confirmation is 0x69. */
  function Finish2000(spectrum: seq<int>, confirmation: Option<seq<byte>>): (r: Result<seq<int>>)
    ensures r.Ok? <==> confirmation.Some? && |spectrum| >= 2 && |confirmation.value| >= 1
                       && confirmation.value[0] == CONFIRMATION
    ensures r.Ok? ==> r.value == spectrum[0 := spectrum[1]]
    ensures r.Err? && confirmation.Some? && |spectrum| >= 2 && |confirmation.value| >= 1 ==>
              r.error == AssertionError
  {
    if confirmation.None? then Err(UsbError)
    else if |spectrum| < 2 then Err(IndexError)
    else if |confirmation.value| == 0 then Err(IndexError)
    else if confirmation.value[0] != CONFIRMATION then Err(AssertionError)
    else Ok(spectrum[0 := spectrum[1]])
  }

  /** USB2000 `getSpectrumData` as a definition. */
  function Spectrum2000(sp: Spectrometer): (r: (Result<seq<int>>, Spectrometer))
  {
    if sp.ep.mainIn.None? then (Err(AttributeError), sp)
    else
      var e := sp.ep.mainIn.value;
      var (blocks, u1) := Rounds2000(sp.usb, e, USB2000_ROUNDS);
      match blocks
      case Err(x) => (Err(x), sp.(usb := u1))
      case Ok(bs) =>
        var (confirmation, u2) := ReadEndpoint(u1, e, 1);
        (Finish2000(Flatten(bs), confirmation), sp.(usb := u2))
  }

  /** The round loop: `n` rounds read in order, stopping at the first failure. */
  method ReadRounds2000(u: Usb, e: Endpoint, n: nat) returns (r: Result<seq<seq<int>>>, u': Usb)
    ensures (r, u') == Rounds2000(u, e, n)
  {
    var blocks: seq<seq<int>> := [];
    u' := u;
    var k := 0;
    while k < n
      invariant k <= n
      invariant Rounds2000(u, e, k) == (Ok(blocks), u')
    {
      var (block, u2) := Round2000(u', e);
      if block.Err? {
        RoundsErrorSticks(u, e, k + 1, n);
        return Err(block.error), u2;
      }
      blocks := blocks + [block.value];
      u' := u2;
      k := k + 1;
    }
    r := Ok(blocks);
  }

  /** USB2000 `getSpectrumData`: 32 rounds, then the confirmation. */
  method GetSpectrumData2000(sp: Spectrometer) returns (r: Result<seq<int>>, sp': Spectrometer)
    ensures (r, sp') == Spectrum2000(sp)
    ensures r.Ok? ==> |r.value| >= 2 && r.value[0] == r.value[1]
    ensures sp'.ep == sp.ep && sp'.usb.written == sp.usb.written
  {
    if sp.ep.mainIn.None? {
      return Err(AttributeError), sp;
    }
    var e := sp.ep.mainIn.value;
    var blocks, u := ReadRounds2000(sp.usb, e, USB2000_ROUNDS);
    if blocks.Err? {
      return Err(blocks.error), sp.(usb := u);
    }
    var (confirmation, u3) := ReadEndpoint(u, e, 1);
    r := Finish2000(Flatten(blocks.value), confirmation);
    sp' := sp.(usb := u3);
  }

  /** The round that starts `k` transfers into a queue of full packets combines transfers
      `k` and `k + 1` and leaves the rest pending. */
  lemma RoundStep(u: Usb, e: Endpoint, q: seq<Option<seq<byte>>>, k: nat)
    requires Full(q, k, USB2000_PACKET) && Full(q, k + 1, USB2000_PACKET) && Queue(u, e) == q[k..]
    ensures Round2000(u, e).0 == Ok(CleanRound(q[k].value, q[k + 1].value))
    ensures Queue(Round2000(u, e).1, e) == q[k + 2..]
  {
    var q1 := Queue(u, e);
    assert q1[0] == q[k] && q1[1] == q[k + 1];
    assert Full(q1, 0, USB2000_PACKET) && Full(q1, 1, USB2000_PACKET);
    assert q1[2..] == q[k + 2..];
  }

  /** The rounds `n` pairs of full packets combine into, in order. */
  function CleanBlocks(q: seq<Option<seq<byte>>>, n: nat): (bs: seq<seq<int>>)
    requires FullPackets(q, 2 * n, USB2000_PACKET)
    ensures |bs| == n
  {
    if n == 0 then []
    else
      assert Full(q, 2 * n - 2, USB2000_PACKET) && Full(q, 2 * n - 1, USB2000_PACKET);
      CleanBlocks(q, n - 1) + [CleanRound(q[2 * n - 2].value, q[2 * n - 1].value)]
  }

  /** Round `b` of those combines packets `2b` and `2b + 1`. */
  lemma {:induction false} CleanBlocksAt(q: seq<Option<seq<byte>>>, n: nat)
    requires FullPackets(q, 2 * n, USB2000_PACKET)
    ensures forall b :: 0 <= b < n ==> Full(q, 2 * b, USB2000_PACKET) && Full(q, 2 * b + 1, USB2000_PACKET)
                                       && CleanBlocks(q, n)[b] == CleanRound(q[2 * b].value, q[2 * b + 1].value)
  {
    if n > 0 {
      assert FullPackets(q, 2 * (n - 1), USB2000_PACKET);
      CleanBlocksAt(q, n - 1);
      var prev := CleanBlocks(q, n - 1);
      var bs := CleanBlocks(q, n);
      assert Full(q, 2 * n - 2, USB2000_PACKET) && Full(q, 2 * n - 1, USB2000_PACKET);
      assert bs == prev + [CleanRound(q[2 * n - 2].value, q[2 * n - 1].value)];
      forall b | 0 <= b < n
        ensures Full(q, 2 * b, USB2000_PACKET) && Full(q, 2 * b + 1, USB2000_PACKET)
                && bs[b] == CleanRound(q[2 * b].value, q[2 * b + 1].value)
      {
        if b < n - 1 {
          assert bs[b] == prev[b];
        }
      }
    }
  }

  /** One more successful round appends its block. */
  lemma RoundsSnoc(u: Usb, e: Endpoint, n: nat)
    requires n > 0 && Rounds2000(u, e, n - 1).0.Ok? && Round2000(Rounds2000(u, e, n - 1).1, e).0.Ok?
    ensures var (prev, u1) := Rounds2000(u, e, n - 1);
            var (block, u2) := Round2000(u1, e);
            Rounds2000(u, e, n) == (Ok(prev.value + [block.value]), u2)
  {
  }

  /** One more pair of full packets appends its clean round. */
  lemma CleanBlocksSnoc(q: seq<Option<seq<byte>>>, n: nat)
    requires n > 0 && FullPackets(q, 2 * n, USB2000_PACKET)
    ensures FullPackets(q, 2 * (n - 1), USB2000_PACKET)
    ensures Full(q, 2 * n - 2, USB2000_PACKET) && Full(q, 2 * n - 1, USB2000_PACKET)
    ensures CleanBlocks(q, n) == CleanBlocks(q, n - 1) + [CleanRound(q[2 * n - 2].value, q[2 * n - 1].value)]
  {
    assert Full(q, 2 * n - 2, USB2000_PACKET) && Full(q, 2 * n - 1, USB2000_PACKET);
  }

  /** The rounds after `n - 1` clean rounds: one more round over the next two full packets
      appends their clean round. */
  lemma CleanRoundsStep(u: Usb, e: Endpoint, n: nat)
    requires n > 0 && FullPackets(Queue(u, e), 2 * n, USB2000_PACKET)
    requires FullPackets(Queue(u, e), 2 * (n - 1), USB2000_PACKET)
    requires Rounds2000(u, e, n - 1).0 == Ok(CleanBlocks(Queue(u, e), n - 1))
    requires Queue(Rounds2000(u, e, n - 1).1, e) == Queue(u, e)[2 * (n - 1)..]
    ensures Rounds2000(u, e, n).0 == Ok(CleanBlocks(Queue(u, e), n))
    ensures Queue(Rounds2000(u, e, n).1, e) == Queue(u, e)[2 * n..]
  {
    var q := Queue(u, e);
    CleanBlocksSnoc(q, n);
    var u1 := Rounds2000(u, e, n - 1).1;
    RoundStep(u1, e, q, 2 * n - 2);
    RoundsSnoc(u, e, n);
  }

  /** Over full packets, `n` rounds all succeed, give the clean rounds and consume `2n`
      transfers. */
  lemma {:induction false} CleanRounds(u: Usb, e: Endpoint, n: nat)
    requires FullPackets(Queue(u, e), 2 * n, USB2000_PACKET)
    ensures Rounds2000(u, e, n).0 == Ok(CleanBlocks(Queue(u, e), n))
    ensures Queue(Rounds2000(u, e, n).1, e) == Queue(u, e)[2 * n..]
    decreases n
  {
    if n > 0 {
      assert FullPackets(Queue(u, e), 2 * (n - 1), USB2000_PACKET);
      CleanRounds(u, e, n - 1);
      CleanRoundsStep(u, e, n);
    }
  }

  /** `n` clean rounds concatenated: sample `k` of round `b` sits at `64 * b + k`. */
  lemma CleanBlocksFlat(q: seq<Option<seq<byte>>>, n: nat)
    requires FullPackets(q, 2 * n, USB2000_PACKET)
    ensures |Flatten(CleanBlocks(q, n))| == USB2000_PACKET * n
    ensures forall b, k :: 0 <= b < n && 0 <= k < USB2000_PACKET ==>
              Full(q, 2 * b, USB2000_PACKET) && Full(q, 2 * b + 1, USB2000_PACKET)
              && Flatten(CleanBlocks(q, n))[USB2000_PACKET * b + k]
                 == q[2 * b].value[k] as int + 0x100 * q[2 * b + 1].value[k] as int
  {
    CleanBlocksAt(q, n);
    var bs := CleanBlocks(q, n);
    forall b | 0 <= b < |bs|
      ensures |bs[b]| == USB2000_PACKET
    {
      assert bs[b] == CleanRound(q[2 * b].value, q[2 * b + 1].value);
    }
    FlattenUniformLength(bs, USB2000_PACKET);
    var f := Flatten(bs);
    forall b, k | 0 <= b < n && 0 <= k < USB2000_PACKET
      ensures Full(q, 2 * b, USB2000_PACKET) && Full(q, 2 * b + 1, USB2000_PACKET)
              && f[USB2000_PACKET * b + k] == q[2 * b].value[k] as int + 0x100 * q[2 * b + 1].value[k] as int
    {
      FlattenUniformAt(bs, USB2000_PACKET, b, k);
      assert bs[b] == CleanRound(q[2 * b].value, q[2 * b + 1].value);
    }
  }

  /** When the rounds succeed and the confirmation byte is right, the spectrum is the
      concatenated rounds with sample 0 replaced by sample 1. */
  lemma ConfirmedSpectrum2000(sp: Spectrometer)
    requires sp.ep.mainIn.Some?
    requires var (blocks, u1) := Rounds2000(sp.usb, sp.ep.mainIn.value, USB2000_ROUNDS);
             var q1 := Queue(u1, sp.ep.mainIn.value);
             && blocks.Ok? && |Flatten(blocks.value)| >= 2
             && q1 != [] && q1[0].Some? && |q1[0].value| >= 1 && q1[0].value[0] == CONFIRMATION
    ensures var f := Flatten(Rounds2000(sp.usb, sp.ep.mainIn.value, USB2000_ROUNDS).0.value);
            Spectrum2000(sp).0 == Ok(f[0 := f[1]])
  {
  }

  /** `n` clean rounds concatenated hold `64 * n` samples. */
  lemma CleanBlocksLength(q: seq<Option<seq<byte>>>, n: nat)
    requires FullPackets(q, 2 * n, USB2000_PACKET)
    ensures |Flatten(CleanBlocks(q, n))| == USB2000_PACKET * n
  {
    CleanBlocksAt(q, n);
    var bs := CleanBlocks(q, n);
    forall b | 0 <= b < |bs|
      ensures |bs[b]| == USB2000_PACKET
    {
      assert bs[b] == CleanRound(q[2 * b].value, q[2 * b + 1].value);
    }
    FlattenUniformLength(bs, USB2000_PACKET);
  }

  /** Over full packets and a 0x69 confirmation, the USB2000 spectrum is the clean rounds
      concatenated, with sample 0 replaced by sample 1. */
  lemma CleanSpectrumValue2000(sp: Spectrometer)
    requires sp.ep.mainIn.Some?
    requires var q := Queue(sp.usb, sp.ep.mainIn.value);
             FullPackets(q, 2 * USB2000_ROUNDS, USB2000_PACKET) && |q| > 2 * USB2000_ROUNDS
             && q[2 * USB2000_ROUNDS].Some? && |q[2 * USB2000_ROUNDS].value| >= 1
             && q[2 * USB2000_ROUNDS].value[0] == CONFIRMATION
    ensures var f := Flatten(CleanBlocks(Queue(sp.usb, sp.ep.mainIn.value), USB2000_ROUNDS));
            |f| == USB2000_ROUNDS * USB2000_PACKET && Spectrum2000(sp).0 == Ok(f[0 := f[1]])
  {
    var e := sp.ep.mainIn.value;
    CleanRounds(sp.usb, e, USB2000_ROUNDS);
    CleanBlocksLength(Queue(sp.usb, e), USB2000_ROUNDS);
    var u1 := Rounds2000(sp.usb, e, USB2000_ROUNDS).1;
    assert Queue(u1, e)[0] == Queue(sp.usb, e)[2 * USB2000_ROUNDS];
    ConfirmedSpectrum2000(sp);
  }

  /** The clean rounds with sample 0 replaced by sample 1: every other sample is low + 256 *
      high of its round's packets. */
  lemma CleanSamples(q: seq<Option<seq<byte>>>, r: seq<int>)
    requires FullPackets(q, 2 * USB2000_ROUNDS, USB2000_PACKET)
    requires var f := Flatten(CleanBlocks(q, USB2000_ROUNDS));
             |f| == USB2000_ROUNDS * USB2000_PACKET && r == f[0 := f[1]]
    ensures |r| == USB2000_ROUNDS * USB2000_PACKET && r[0] == r[1]
    ensures forall b, k :: 0 <= b < USB2000_ROUNDS && 0 <= k < USB2000_PACKET && 0 < USB2000_PACKET * b + k ==>
              r[USB2000_PACKET * b + k] == PacketSample(q, b, k)
  {
    CleanBlocksFlat(q, USB2000_ROUNDS);
  }

  /** A clean USB2000 transfer: 64 full packets and a 0x69 confirmation give 2048 samples,
      sample k of round r being low + 256 * high of that round's packets, except that sample 0
      repeats sample 1. */
  lemma CleanSpectrum2000(sp: Spectrometer)
    requires sp.ep.mainIn.Some?
    requires var q := Queue(sp.usb, sp.ep.mainIn.value);
             FullPackets(q, 2 * USB2000_ROUNDS, USB2000_PACKET) && |q| > 2 * USB2000_ROUNDS
             && q[2 * USB2000_ROUNDS].Some? && |q[2 * USB2000_ROUNDS].value| >= 1
             && q[2 * USB2000_ROUNDS].value[0] == CONFIRMATION
    ensures var q := Queue(sp.usb, sp.ep.mainIn.value);
            var r := Spectrum2000(sp).0;
            && r.Ok? && |r.value| == USB2000_ROUNDS * USB2000_PACKET && r.value[0] == r.value[1]
            && forall b, k :: 0 <= b < USB2000_ROUNDS && 0 <= k < USB2000_PACKET && 0 < USB2000_PACKET * b + k ==>
                 r.value[USB2000_PACKET * b + k] == PacketSample(q, b, k)
  {
    CleanSpectrumValue2000(sp);
    CleanSamples(Queue(sp.usb, sp.ep.mainIn.value), Spectrum2000(sp).0.value);
  }

  // ---- USB4000 ----

  lemma PairsDecode(packet: seq<byte>)
    requires |packet| == USB4000_PACKET
    ensures forall j :: 0 <= j < 256 ==>
              DecodeLE(packet[2 * j..2 * j + 2]) == packet[2 * j] as int + 0x100 * packet[2 * j + 1] as int
  {
    forall j | 0 <= j < 256
      ensures DecodeLE(packet[2 * j..2 * j + 2]) == packet[2 * j] as int + 0x100 * packet[2 * j + 1] as int
    {
      DecodePair(packet[2 * j], packet[2 * j + 1]);
      assert packet[2 * j..2 * j + 2] == [packet[2 * j], packet[2 * j + 1]];
    }
  }

  /** The 256 samples of a 512-byte packet, `unpack('<' + 'H' * 256, packet)`. */
  function Words(packet: seq<byte>): (w: seq<int>)
    requires |packet| == USB4000_PACKET
    ensures |w| == 256
    ensures forall j :: 0 <= j < 256 ==> 0 <= w[j] < 0x1_0000 && w[j] == DecodeLE(packet[2 * j..2 * j + 2])
  {
    PairsDecode(packet);
    seq(256, j requires 0 <= j < 256 => packet[2 * j] as int + 0x100 * packet[2 * j + 1] as int)
  }

  /** The endpoint packet `p` is read from: `inputEndpoints[0]`, replaced by
      `inputEndpoints[1]` for packets 0 to 3. */
  function PacketSource(inputs: seq<Endpoint>, p: nat): (r: Result<Endpoint>)
    ensures r.Ok? <==> |inputs| >= 2 || (|inputs| == 1 && p > 3)
    ensures r.Ok? ==> r.value == (if p <= 3 then inputs[1] else inputs[0])
    ensures r.Err? ==> r.error == IndexError
  {
    if |inputs| == 0 then Err(IndexError)
    else if p <= 3 then (if |inputs| < 2 then Err(IndexError) else Ok(inputs[1]))
    else Ok(inputs[0])
  }

  /** Packet `p`: a 512-byte transfer from its endpoint. `readReply` turns a failed or short
      transfer into None, and extending the spectrum with it raises TypeError. */
  function Packet4000(u: Usb, inputs: seq<Endpoint>, p: nat): (r: (Result<seq<int>>, Usb))
    ensures r.0.Ok? ==> |r.0.value| == 256
    ensures r.1.written == u.written && r.1.flushes == u.flushes
  {
    match PacketSource(inputs, p)
    case Err(x) => (Err(x), u)
    case Ok(e) =>
      var (raw, u1) := ReadEndpoint(u, e, USB4000_PACKET);
      if raw.None? || |raw.value| != USB4000_PACKET then (Err(TypeError), u1)
      else (Ok(Words(raw.value)), u1)
  }

  /** The first `n` packets. */
  function Packets4000(u: Usb, inputs: seq<Endpoint>, n: nat): (r: (Result<seq<seq<int>>>, Usb))
    ensures r.0.Ok? ==> |r.0.value| == n && forall b :: 0 <= b < n ==> |r.0.value[b]| == 256
    ensures r.1.written == u.written && r.1.flushes == u.flushes
    decreases n
  {
    if n == 0 then (Ok([]), u)
    else
      var (prev, u1) := Packets4000(u, inputs, n - 1);
      match prev
      case Err(x) => (Err(x), u1)
      case Ok(blocks) =>
        var (packet, u2) := Packet4000(u1, inputs, n - 1);
        match packet
        case Err(x) => (Err(x), u2)
        case Ok(w) => (Ok(blocks + [w]), u2)
  }

  /** Once a packet fails, later packets are never read. */
  lemma {:induction false} PacketsErrorSticks(u: Usb, inputs: seq<Endpoint>, m: nat, n: nat)
    requires m <= n && Packets4000(u, inputs, m).0.Err?
    ensures Packets4000(u, inputs, n) == Packets4000(u, inputs, m)
    decreases n - m
  {
    if m < n {
      PacketsErrorSticks(u, inputs, m, n - 1);
    }
  }

  /** After the packets: the confirmation comes from the endpoint of the last packet (there is
      none when no packet was read), and a wrong byte flushes and raises. */
  function Finish4000(sp: Spectrometer, raw: seq<int>, n: nat): (r: (Result<seq<int>>, Spectrometer))
    ensures r.0.Ok? ==> r.0.value == Trim(raw, sp.discardLeading, sp.discardTrailing)
    ensures n == 0 ==> r == (Err(UnboundLocalError), sp)
    ensures r.0 == Err(RuntimeError(Desynchronized)) ==> r.1.usb.flushes == sp.usb.flushes + 1
    ensures r.1.ep == sp.ep && r.1.usb.written == sp.usb.written
  {
    if n == 0 then (Err(UnboundLocalError), sp)
    else
      match PacketSource(sp.inputs, n - 1)
      case Err(x) => (Err(x), sp)
      case Ok(e) =>
        var (confirmation, u) := ReadEndpoint(sp.usb, e, 1);
        var sp1 := sp.(usb := u);
        if confirmation.None? then (Err(TypeError), sp1)
        else if |confirmation.value| == 0 then (Err(IndexError), sp1)
        else if confirmation.value[0] != CONFIRMATION then (Err(RuntimeError(Desynchronized)), Flush(sp1))
        else (Ok(Trim(raw, sp.discardLeading, sp.discardTrailing)), sp1)
  }

  /** USB4000 `getSpectrumData` as a definition. */
  function Spectrum4000(sp: Spectrometer): (r: (Result<seq<int>>, Spectrometer))
  {
    match sp.lastStatus
    case None => (Err(AttributeError), sp)
    case Some(S2000(_)) => (Err(AttributeError), sp)
    case Some(S4000(st)) =>
      if !st.isHighSpeed then (Err(NotImplementedError), sp)
      else
        var (blocks, u) := Packets4000(sp.usb, sp.inputs, st.packetCount);
        match blocks
        case Err(x) => (Err(x), sp.(usb := u))
        case Ok(bs) => Finish4000(sp.(usb := u), Flatten(bs), st.packetCount)
  }

  /** Two input endpoints at different addresses, as a device's interface has them: the
      first four packets and the later ones then come from separate queues. */
  predicate DistinctInputs(inputs: seq<Endpoint>)
  {
    |inputs| >= 2 && inputs[0].address != inputs[1].address
  }

  /** The endpoint packet `p` is read from when there are two inputs. */
  function Source(inputs: seq<Endpoint>, p: nat): Endpoint
    requires |inputs| >= 2
  {
    if p <= 3 then inputs[1] else inputs[0]
  }

  /** The position of packet `p` in its endpoint's queue: packets 0 to 3 are the first four
      transfers of `inputs[1]`, and packet `p > 3` is transfer `p - 4` of `inputs[0]`. */
  function Slot(p: nat): nat
  {
    if p <= 3 then p else p - 4
  }

  /** The transfer packet `p` takes succeeds with at least 512 bytes. */
  predicate FullPacket(u: Usb, inputs: seq<Endpoint>, p: nat)
    requires |inputs| >= 2
  {
    var q := Queue(u, Source(inputs, p));
    Slot(p) < |q| && q[Slot(p)].Some? && |q[Slot(p)].value| >= USB4000_PACKET
  }

  /** So do the transfers of the first `n` packets. */
  predicate FullPackets4000(u: Usb, inputs: seq<Endpoint>, n: nat)
    requires |inputs| >= 2
  {
    forall p :: 0 <= p < n ==> FullPacket(u, inputs, p)
  }

  /** The 512 bytes packet `p` unpacks (zeros off the full packets). */
  function PacketBytes(u: Usb, inputs: seq<Endpoint>, p: nat): (b: seq<byte>)
    requires |inputs| >= 2
    ensures |b| == USB4000_PACKET
  {
    if FullPacket(u, inputs, p) then Queue(u, Source(inputs, p))[Slot(p)].value[..USB4000_PACKET]
    else seq(USB4000_PACKET, _ => 0)
  }

  /** The samples of the first `n` packets, packet by packet. */
  function PacketWords(u: Usb, inputs: seq<Endpoint>, n: nat): (ws: seq<seq<int>>)
    requires |inputs| >= 2
    ensures |ws| == n && forall p :: 0 <= p < n ==> |ws[p]| == USB4000_WORDS
  {
    seq(n, p requires 0 <= p < n => Words(PacketBytes(u, inputs, p)))
  }

  /** Sample `j` of packet `p`: the little-endian word at bytes `2j` and `2j + 1` of the
      packet (0 past the 256 words). */
  function PacketSample4000(u: Usb, inputs: seq<Endpoint>, p: nat, j: nat): int
    requires |inputs| >= 2
  {
    if j < USB4000_WORDS then DecodeLE(PacketBytes(u, inputs, p)[2 * j..2 * j + 2]) else 0
  }

  /** The untrimmed USB4000 spectrum: sample `j` of packet `p` sits at index `256p + j`. */
  function Samples4000(u: Usb, inputs: seq<Endpoint>, n: nat): (raw: seq<int>)
    requires |inputs| >= 2
    ensures |raw| == USB4000_WORDS * n
    ensures forall p, j :: 0 <= p < n && 0 <= j < USB4000_WORDS ==>
              raw[USB4000_WORDS * p + j] == PacketSample4000(u, inputs, p, j)
  {
    var ws := PacketWords(u, inputs, n);
    FlattenUniformLength(ws, USB4000_WORDS);
    forall p, j | 0 <= p < n && 0 <= j < USB4000_WORDS
      ensures Flatten(ws)[USB4000_WORDS * p + j] == PacketSample4000(u, inputs, p, j)
    {
      FlattenUniformAt(ws, USB4000_WORDS, p, j);
    }
    Flatten(ws)
  }

  /** One more packet appends its words. */
  lemma PacketWordsSnoc(u: Usb, inputs: seq<Endpoint>, n: nat)
    requires |inputs| >= 2 && n >= 1
    ensures PacketWords(u, inputs, n) == PacketWords(u, inputs, n - 1) + [Words(PacketBytes(u, inputs, n - 1))]
  {
    var a, b := PacketWords(u, inputs, n), PacketWords(u, inputs, n - 1) + [Words(PacketBytes(u, inputs, n - 1))];
    forall p | 0 <= p < n
      ensures a[p] == b[p]
    {
      if p < n - 1 {
        assert b[p] == PacketWords(u, inputs, n - 1)[p];
      }
    }
  }

  /** After the first `k` packets, `inputs[1]` has given up its first min(k, 4) transfers and
      `inputs[0]` the rest. */
  predicate AfterPackets(u: Usb, u': Usb, inputs: seq<Endpoint>, k: nat)
    requires |inputs| >= 2
  {
    var q1, q0 := Queue(u, inputs[1]), Queue(u, inputs[0]);
    && Min(k, 4) <= |q1| && Queue(u', inputs[1]) == q1[Min(k, 4)..]
    && k - Min(k, 4) <= |q0| && Queue(u', inputs[0]) == q0[k - Min(k, 4)..]
  }

  /** Packet `k` read from endpoint `e`, whose queue is `q` past its first `s` transfers: it
      succeeds exactly when transfer `s` of `q` is full, holds that transfer's words, and
      moves only the queue of `e`. */
  lemma PacketFrom(u1: Usb, inputs: seq<Endpoint>, k: nat, e: Endpoint, q: seq<Option<seq<byte>>>, s: nat, f: Endpoint)
    requires PacketSource(inputs, k) == Ok(e) && s <= |q| && Queue(u1, e) == q[s..]
    ensures var (r, u2) := Packet4000(u1, inputs, k);
            && (r.Ok? <==> s < |q| && q[s].Some? && |q[s].value| >= USB4000_PACKET)
            && (r.Ok? ==> r.value == Words(q[s].value[..USB4000_PACKET]) && Queue(u2, e) == q[s + 1..])
            && (f.address != e.address ==> Queue(u2, f) == Queue(u1, f))
  {
    if s < |q| {
      assert Queue(u1, e)[0] == q[s];
      assert q[s..][1..] == q[s + 1..];
    }
  }

  /** Packet `k`, read after the first `k` packets, is the next transfer of its endpoint: it
      succeeds exactly when that transfer is full, and then holds its words. */
  lemma PacketStep(u: Usb, u1: Usb, inputs: seq<Endpoint>, k: nat)
    requires DistinctInputs(inputs) && AfterPackets(u, u1, inputs, k)
    ensures Packet4000(u1, inputs, k).0.Ok? <==> FullPacket(u, inputs, k)
    ensures FullPacket(u, inputs, k) ==>
              Packet4000(u1, inputs, k).0.value == Words(PacketBytes(u, inputs, k))
              && AfterPackets(u, Packet4000(u1, inputs, k).1, inputs, k + 1)
  {
    var q1, q0 := Queue(u, inputs[1]), Queue(u, inputs[0]);
    if k <= 3 {
      PacketFrom(u1, inputs, k, inputs[1], q1, k, inputs[0]);
    } else {
      PacketFrom(u1, inputs, k, inputs[0], q0, k - 4, inputs[1]);
    }
  }

  /** The first `n` packets are full exactly when the first `n - 1` are and packet `n - 1` is. */
  lemma FullPacketsSnoc(u: Usb, inputs: seq<Endpoint>, n: nat)
    requires |inputs| >= 2 && n >= 1
    ensures FullPackets4000(u, inputs, n) <==> FullPackets4000(u, inputs, n - 1) && FullPacket(u, inputs, n - 1)
  {
  }

  /** The loop's step once the first `n - 1` packets are known to be the full ones. */
  lemma PacketsStepClean(u: Usb, inputs: seq<Endpoint>, n: nat)
    requires DistinctInputs(inputs) && n >= 1 && FullPackets4000(u, inputs, n - 1)
    requires Packets4000(u, inputs, n - 1).0 == Ok(PacketWords(u, inputs, n - 1))
    requires AfterPackets(u, Packets4000(u, inputs, n - 1).1, inputs, n - 1)
    ensures Packets4000(u, inputs, n).0.Ok? <==> FullPackets4000(u, inputs, n)
    ensures FullPackets4000(u, inputs, n) ==>
              Packets4000(u, inputs, n).0.value == PacketWords(u, inputs, n)
              && AfterPackets(u, Packets4000(u, inputs, n).1, inputs, n)
  {
    var u1 := Packets4000(u, inputs, n - 1).1;
    PacketStep(u, u1, inputs, n - 1);
    FullPacketsSnoc(u, inputs, n);
    if FullPacket(u, inputs, n - 1) {
      PacketWordsSnoc(u, inputs, n);
    }
  }

  /** The packet loop over two distinct inputs: it succeeds exactly when every packet's
      transfer is full, and then returns their words and leaves each endpoint's queue past
      the packets taken from it. */
  lemma {:induction false} PacketsFromQueues(u: Usb, inputs: seq<Endpoint>, n: nat)
    requires DistinctInputs(inputs)
    ensures Packets4000(u, inputs, n).0.Ok? <==> FullPackets4000(u, inputs, n)
    ensures FullPackets4000(u, inputs, n) ==>
              Packets4000(u, inputs, n).0.value == PacketWords(u, inputs, n)
              && AfterPackets(u, Packets4000(u, inputs, n).1, inputs, n)
    decreases n
  {
    if n == 0 {
      NoPackets(u, inputs);
    } else {
      PacketsFromQueues(u, inputs, n - 1);
      if FullPackets4000(u, inputs, n - 1) {
        PacketsStepClean(u, inputs, n);
      } else {
        PacketsStepFailed(u, inputs, n);
      }
    }
  }

  /** Before any packet nothing is read and every queue is whole. */
  lemma NoPackets(u: Usb, inputs: seq<Endpoint>)
    requires |inputs| >= 2
    ensures Packets4000(u, inputs, 0) == (Ok(PacketWords(u, inputs, 0)), u)
    ensures FullPackets4000(u, inputs, 0) && AfterPackets(u, u, inputs, 0)
  {
    assert Queue(u, inputs[1])[0..] == Queue(u, inputs[1]);
    assert Queue(u, inputs[0])[0..] == Queue(u, inputs[0]);
  }

  /** A failure among the first `n - 1` packets fails the loop, and they are not all full. */
  lemma PacketsStepFailed(u: Usb, inputs: seq<Endpoint>, n: nat)
    requires |inputs| >= 2 && n >= 1 && !FullPackets4000(u, inputs, n - 1)
    requires Packets4000(u, inputs, n - 1).0.Err?
    ensures Packets4000(u, inputs, n).0.Err? && !FullPackets4000(u, inputs, n)
  {
    FullPacketsSnoc(u, inputs, n);
  }

  /** The transfer after the last packet on that packet's endpoint starts with 0x69. */
  predicate Confirmed4000(u: Usb, inputs: seq<Endpoint>, n: nat)
    requires |inputs| >= 2 && n >= 1
  {
    var q := Queue(u, Source(inputs, n - 1));
    var c := Slot(n - 1) + 1;
    c < |q| && q[c].Some? && |q[c].value| >= 1 && q[c].value[0] == CONFIRMATION
  }

  /** After `n >= 1` full packets the endpoint of the last one is just past its transfer. */
  lemma AfterAllPackets(u: Usb, inputs: seq<Endpoint>, n: nat)
    requires DistinctInputs(inputs) && n >= 1 && FullPackets4000(u, inputs, n)
    ensures var (r, u') := Packets4000(u, inputs, n);
            var e := Source(inputs, n - 1);
            && r == Ok(PacketWords(u, inputs, n))
            && Slot(n - 1) < |Queue(u, e)| && Queue(u', e) == Queue(u, e)[Slot(n - 1) + 1..]
  {
    PacketsFromQueues(u, inputs, n);
    assert FullPacket(u, inputs, n - 1);
  }

  /** The confirmation step reads the next transfer of the last packet's endpoint: it
      succeeds exactly when that transfer starts with 0x69, and then trims the samples. */
  lemma FinishFrom(sp: Spectrometer, raw: seq<int>, n: nat)
    requires n >= 1 && |sp.inputs| >= 2
    ensures var q := Queue(sp.usb, Source(sp.inputs, n - 1));
            Finish4000(sp, raw, n).0.Ok? <==> q != [] && q[0].Some? && |q[0].value| >= 1 && q[0].value[0] == CONFIRMATION
  {
  }

  /** A clean USB4000 transfer: with a high-speed status announcing `n >= 1` packets, full
      transfers for every packet on its endpoint and a 0x69 confirmation after the last one,
      the spectrum is the packets' little-endian words in order, trimmed. */
  lemma CleanSpectrum4000(sp: Spectrometer)
    requires sp.lastStatus.Some? && sp.lastStatus.value.S4000? && sp.lastStatus.value.s4.isHighSpeed
    requires sp.lastStatus.value.s4.packetCount >= 1 && DistinctInputs(sp.inputs)
    requires FullPackets4000(sp.usb, sp.inputs, sp.lastStatus.value.s4.packetCount)
    requires Confirmed4000(sp.usb, sp.inputs, sp.lastStatus.value.s4.packetCount)
    ensures var n := sp.lastStatus.value.s4.packetCount;
            var raw := Samples4000(sp.usb, sp.inputs, n);
            && |raw| == USB4000_WORDS * n
            && (forall p, j :: 0 <= p < n && 0 <= j < USB4000_WORDS ==>
                  raw[USB4000_WORDS * p + j] == PacketSample4000(sp.usb, sp.inputs, p, j))
            && Spectrum4000(sp).0 == Ok(Trim(raw, sp.discardLeading, sp.discardTrailing))
  {
    var n := sp.lastStatus.value.s4.packetCount;
    AfterAllPackets(sp.usb, sp.inputs, n);
    var u := Packets4000(sp.usb, sp.inputs, n).1;
    var e := Source(sp.inputs, n - 1);
    assert Queue(u, e)[0] == Queue(sp.usb, e)[Slot(n - 1) + 1];
    FinishFrom(sp.(usb := u), Samples4000(sp.usb, sp.inputs, n), n);
  }

  /** Conversely, a USB4000 spectrum read from two distinct inputs came from full packet
      transfers and a 0x69 confirmation, and is their words in order, trimmed. */
  lemma Spectrum4000Read(sp: Spectrometer)
    requires Spectrum4000(sp).0.Ok? && DistinctInputs(sp.inputs)
    ensures sp.lastStatus.Some? && sp.lastStatus.value.S4000? && sp.lastStatus.value.s4.isHighSpeed
            && sp.lastStatus.value.s4.packetCount >= 1
    ensures var n := sp.lastStatus.value.s4.packetCount;
            && FullPackets4000(sp.usb, sp.inputs, n) && Confirmed4000(sp.usb, sp.inputs, n)
            && Spectrum4000(sp).0.value == Trim(Samples4000(sp.usb, sp.inputs, n), sp.discardLeading, sp.discardTrailing)
  {
    var n := sp.lastStatus.value.s4.packetCount;
    PacketsFromQueues(sp.usb, sp.inputs, n);
    AfterAllPackets(sp.usb, sp.inputs, n);
    var u := Packets4000(sp.usb, sp.inputs, n).1;
    var e := Source(sp.inputs, n - 1);
    FinishFrom(sp.(usb := u), Samples4000(sp.usb, sp.inputs, n), n);
    assert Queue(u, e)[0] == Queue(sp.usb, e)[Slot(n - 1) + 1];
  }

  /** The packet loop: `n` packets read in order, stopping at the first failure. Over two
      distinct inputs, packet `p` is the next transfer of its endpoint's queue. */
  method ReadPackets4000(u: Usb, inputs: seq<Endpoint>, n: nat) returns (r: Result<seq<seq<int>>>, u': Usb)
    ensures (r, u') == Packets4000(u, inputs, n)
    ensures DistinctInputs(inputs) ==>
              && (r.Ok? <==> FullPackets4000(u, inputs, n))
              && (r.Ok? ==> r.value == PacketWords(u, inputs, n) && AfterPackets(u, u', inputs, n))
  {
    if DistinctInputs(inputs) {
      PacketsFromQueues(u, inputs, n);
    }
    var blocks: seq<seq<int>> := [];
    u' := u;
    var p := 0;
    while p < n
      invariant p <= n
      invariant Packets4000(u, inputs, p) == (Ok(blocks), u')
    {
      var (packet, u2) := Packet4000(u', inputs, p);
      if packet.Err? {
        PacketsErrorSticks(u, inputs, p + 1, n);
        return Err(packet.error), u2;
      }
      blocks := blocks + [packet.value];
      u' := u2;
      p := p + 1;
    }
    r := Ok(blocks);
  }

  /** USB4000 `getSpectrumData`: `packetCount` packets, then the confirmation. */
  method GetSpectrumData4000(sp: Spectrometer) returns (r: Result<seq<int>>, sp': Spectrometer)
    ensures (r, sp') == Spectrum4000(sp)
    ensures r.Ok? ==> sp.lastStatus.Some? && sp.lastStatus.value.S4000? && sp.lastStatus.value.s4.isHighSpeed
                      && sp.lastStatus.value.s4.packetCount >= 1
                      && |r.value| == Max(0, 256 * sp.lastStatus.value.s4.packetCount - sp.discardTrailing - sp.discardLeading)
    ensures r.Ok? && DistinctInputs(sp.inputs) ==>
              var n := sp.lastStatus.value.s4.packetCount;
              && FullPackets4000(sp.usb, sp.inputs, n) && Confirmed4000(sp.usb, sp.inputs, n)
              && r.value == Trim(Samples4000(sp.usb, sp.inputs, n), sp.discardLeading, sp.discardTrailing)
    ensures sp'.usb.written == sp.usb.written
  {
    if sp.lastStatus.None? || sp.lastStatus.value.S2000? {
      return Err(AttributeError), sp;
    }
    var st := sp.lastStatus.value.s4;
    if !st.isHighSpeed {
      return Err(NotImplementedError), sp;
    }
    var blocks, u := ReadPackets4000(sp.usb, sp.inputs, st.packetCount);
    if blocks.Err? {
      return Err(blocks.error), sp.(usb := u);
    }
    var fin := Finish4000(sp.(usb := u), Flatten(blocks.value), st.packetCount);
    r, sp' := fin.0, fin.1;
    if r.Ok? {
      Spectrum4000Length(sp);
      if DistinctInputs(sp.inputs) {
        Spectrum4000Read(sp);
      }
    }
  }

  /** A USB4000 spectrum holds 256 samples per packet, less the trimmed ones. */
  lemma Spectrum4000Length(sp: Spectrometer)
    requires Spectrum4000(sp).0.Ok?
    ensures sp.lastStatus.Some? && sp.lastStatus.value.S4000? && sp.lastStatus.value.s4.isHighSpeed
            && sp.lastStatus.value.s4.packetCount >= 1
    ensures |Spectrum4000(sp).0.value|
            == Max(0, 256 * sp.lastStatus.value.s4.packetCount - sp.discardTrailing - sp.discardLeading)
  {
    var blocks := Packets4000(sp.usb, sp.inputs, sp.lastStatus.value.s4.packetCount).0.value;
    FlattenUniformLength(blocks, 256);
  }

  /** Wavelengths and samples are trimmed alike, so the i-th kept sample still belongs to the
      i-th kept wavelength: both come from raw index i + leading. */
  lemma TrimKeepsAlignment<A, B>(samples: seq<A>, wavelengths: seq<B>, leading: nat, trailing: nat)
    requires |samples| == |wavelengths|
    ensures |Trim(samples, leading, trailing)| == |Trim(wavelengths, leading, trailing)|
    ensures forall i :: 0 <= i < |Trim(samples, leading, trailing)| ==>
              Trim(samples, leading, trailing)[i] == samples[i + leading]
              && Trim(wavelengths, leading, trailing)[i] == wavelengths[i + leading]
  {
  }

  /** The USB4000's trim on a full-length array keeps the samples from index 5 to index
      n - 174, that is n - 178 of them. */
  lemma Usb4000TrimLength<A>(s: seq<A>)
    requires |s| >= USB4000_LEADING + USB4000_TRAILING
    ensures |Trim(s, USB4000_LEADING, USB4000_TRAILING)| == |s| - 178
    ensures Trim(s, USB4000_LEADING, USB4000_TRAILING) == s[5..|s| - 173]
  {
  }
}
