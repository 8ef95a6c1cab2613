/** CoboltDebugSerial: a pyserial stand-in that simulates a Cobolt laser. Every `write` is
    decoded, matched against the command patterns in a fixed order, and exactly one reply
    line is queued in a FIFO output buffer that `read` drains. */
module Cobolt {
  import opened Errors
  import opened Bytes
  import Fifo

  /** The 0/1 integers the simulator keeps for `isOn` and `autostart`. */
  type Flag = x: int | 0 <= x <= 1

  /** A laser power in watts; Python keeps it as a float, the model as an exact real. */
  type Power = r: real | r >= 0.0

  datatype Laser = Laser(
    outputBuffer: seq<byte>,
    power: Power,
    isOn: Flag,
    requestedPower: Power,
    autostart: Flag,
    isOpen: bool)

  /** The state right after construction: open, nothing queued, 0.1 W, laser off,
      requested power 0, autostart on. */
  function Initial(): (c: Laser)
    ensures c.isOpen && c.outputBuffer == []
    ensures c.power == 0.1 && c.isOn == 0 && c.requestedPower == 0.0 && c.autostart == 1
  {
    Laser([], 0.1, 0, 0.0, 1, true)
  }

  /** `open` on an open simulator raises IOError. */
  function Open(c: Laser): (r: (Result<()>, Laser))
    ensures r.0.Err? <==> c.isOpen
    ensures r.0.Err? ==> r.0.error == IOError && r.1 == c
    ensures r.1 == c.(isOpen := true)
  {
    if c.isOpen then (Err(IOError), c) else (Ok(()), c.(isOpen := true))
  }

  function Close(c: Laser): (d: Laser)
    ensures !d.isOpen && d.(isOpen := c.isOpen) == c
  {
    c.(isOpen := false)
  }

  /** `flush` does nothing: queued replies stay queued. */
  function Flush(c: Laser): (d: Laser)
    ensures d.outputBuffer == c.outputBuffer
  {
    c
  }

  /** Pops `length` reply bytes, raising CommunicationReadTimeout when the buffer runs out. */
  function Read(c: Laser, length: nat): (r: (Result<seq<byte>>, Laser))
    ensures r.1 == c.(outputBuffer := r.1.outputBuffer)
    ensures r.0.Ok? <==> length <= |c.outputBuffer|
    ensures r.0.Ok? ==> r.0.value == c.outputBuffer[..length] && r.1.outputBuffer == c.outputBuffer[length..]
    ensures r.0.Err? ==> r.0.error == ReadTimeout && r.1.outputBuffer == []
  {
    var (res, rest) := Fifo.PopFront(c.outputBuffer, length);
    (res, c.(outputBuffer := rest))
  }

  // ---- the command patterns ----

  const DOT: byte := 0x2E

  /** The text matched by `\d+\.?\d+`: at least two digits, or digits, a dot, digits. */
  predicate IsNumberText(t: seq<byte>)
  {
    || (|t| >= 2 && AllDigits(t))
    || (exists k | 0 < k < |t| - 1 :: t[k] == DOT && AllDigits(t[..k]) && AllDigits(t[k + 1..]))
  }

  /** End (exclusive) of the candidate number that starts at `i + 2`: the first CR after it. */
  function NumberEnd(s: seq<byte>, i: nat): (j: nat)
    requires i + 2 <= |s|
    ensures i + 2 <= j <= |s|
  {
    i + 2 + FirstIndex(s[i + 2..], CR)
  }

  /** `p (\d+\.?\d+)\r` matches at position `i`. The number cannot contain CR, so the CR the
      pattern ends with is the first one after "p ". */
  predicate PowerMatchAt(s: seq<byte>, i: nat)
  {
    && OccursAt(s, Ascii("p "), i)
    && NumberEnd(s, i) < |s|
    && IsNumberText(s[i + 2..NumberEnd(s, i)])
  }

  /** The leftmost match of the set-power pattern at or after `from`, as its capture group. */
  function SearchPowerFrom(s: seq<byte>, from: nat): (r: Option<seq<byte>>)
    ensures r.None? ==> forall i :: from <= i < |s| ==> !PowerMatchAt(s, i)
    ensures r.Some? ==> exists i :: from <= i < |s| && PowerMatchAt(s, i)
                                    && r.value == s[i + 2..NumberEnd(s, i)]
                                    && forall j :: from <= j < i ==> !PowerMatchAt(s, j)
    decreases |s| - from
  {
    if from >= |s| then None
    else if PowerMatchAt(s, from) then Some(s[from + 2..NumberEnd(s, from)])
    else SearchPowerFrom(s, from + 1)
  }

  /** What the simulator understood a write to be. */
  datatype Command =
    | ActualPowerQuery       // "pa?"
    | PowerQuery             // "p?"
    | SetPower(text: seq<byte>) // "p <number>\r"
    | LaserStateQuery        // "l?\r"
    | LaserOn                // "l1\r"
    | LaserOff               // "l0\r"
    | SerialNumberQuery      // "sn?\r"
    | AutostartOn            // "@cobas 1\r"
    | AutostartOff           // "@cobas 0\r"
    | AutostartQuery         // "@cobas?\r"
    | InterlockQuery         // "ilk?\r"
    | Unrecognized

  /** The patterns in the order `write` tries them; index 2 is the set-power regex and has
      no literal (its entry is unused). */
  const PATTERNS: seq<seq<byte>> := [
    Ascii("pa?"), Ascii("p?"), [], Ascii("l?\r"), Ascii("l1\r"), Ascii("l0\r"), Ascii("sn?\r"),
    Ascii("@cobas 1\r"), Ascii("@cobas 0\r"), Ascii("@cobas?\r"), Ascii("ilk?\r")]

  /** Pattern `k` of the dispatch table matches somewhere in `s`. */
  predicate MatchesPattern(s: seq<byte>, k: nat)
    requires k < |PATTERNS|
  {
    if k == 2 then SearchPowerFrom(s, 0).Some? else Contains(s, PATTERNS[k])
  }

  /** The command that pattern `k` stands for. */
  function CommandOf(s: seq<byte>, k: nat): Command
    requires k < |PATTERNS|
    requires MatchesPattern(s, k)
  {
    match k
    case 0 => ActualPowerQuery
    case 1 => PowerQuery
    case 2 => SetPower(SearchPowerFrom(s, 0).value)
    case 3 => LaserStateQuery
    case 4 => LaserOn
    case 5 => LaserOff
    case 6 => SerialNumberQuery
    case 7 => AutostartOn
    case 8 => AutostartOff
    case 9 => AutostartQuery
    case _ => InterlockQuery
  }

  /** The if-chain of `write`: the first pattern that matches decides. */
  function Classify(s: seq<byte>): Command
  {
    if Contains(s, Ascii("pa?")) then ActualPowerQuery
    else if Contains(s, Ascii("p?")) then PowerQuery
    else if SearchPowerFrom(s, 0).Some? then SetPower(SearchPowerFrom(s, 0).value)
    else if Contains(s, Ascii("l?\r")) then LaserStateQuery
    else if Contains(s, Ascii("l1\r")) then LaserOn
    else if Contains(s, Ascii("l0\r")) then LaserOff
    else if Contains(s, Ascii("sn?\r")) then SerialNumberQuery
    else if Contains(s, Ascii("@cobas 1\r")) then AutostartOn
    else if Contains(s, Ascii("@cobas 0\r")) then AutostartOff
    else if Contains(s, Ascii("@cobas?\r")) then AutostartQuery
    else if Contains(s, Ascii("ilk?\r")) then InterlockQuery
    else Unrecognized
  }

  /** Dispatch is first match: `write` acts on pattern `k` exactly when pattern `k` matches
      and no earlier pattern does, and falls back to the syntax error when none matches. */
  lemma {:induction false} ClassifyIsFirstMatch(s: seq<byte>)
    ensures forall k :: (0 <= k < |PATTERNS| && MatchesPattern(s, k) &&
                         (forall j :: 0 <= j < k ==> !MatchesPattern(s, j))) ==> Classify(s) == CommandOf(s, k)
    ensures Classify(s) == Unrecognized <==> forall k :: 0 <= k < |PATTERNS| ==> !MatchesPattern(s, k)
  {
    forall k | 0 <= k < |PATTERNS| && MatchesPattern(s, k) && (forall j :: 0 <= j < k ==> !MatchesPattern(s, j))
      ensures Classify(s) == CommandOf(s, k)
    {
      if k > 0 { assert !MatchesPattern(s, 0); }
      if k > 1 { assert !MatchesPattern(s, 1); }
      if k > 2 { assert !MatchesPattern(s, 2); }
      if k > 3 { assert !MatchesPattern(s, 3); }
      if k > 4 { assert !MatchesPattern(s, 4); }
      if k > 5 { assert !MatchesPattern(s, 5); }
      if k > 6 { assert !MatchesPattern(s, 6); }
      if k > 7 { assert !MatchesPattern(s, 7); }
      if k > 8 { assert !MatchesPattern(s, 8); }
      if k > 9 { assert !MatchesPattern(s, 9); }
    }
    if Classify(s) == Unrecognized {
      forall k | 0 <= k < |PATTERNS| ensures !MatchesPattern(s, k) {
      }
    } else {
      if !MatchesPattern(s, 0) && !MatchesPattern(s, 1) && !MatchesPattern(s, 2) && !MatchesPattern(s, 3)
         && !MatchesPattern(s, 4) && !MatchesPattern(s, 5) && !MatchesPattern(s, 6) && !MatchesPattern(s, 7)
         && !MatchesPattern(s, 8) && !MatchesPattern(s, 9) && !MatchesPattern(s, 10) {
        assert false;
      }
    }
  }

  // ---- numbers in replies and commands ----

  /** `float(t)` for text matched by the set-power pattern, exactly: digits alone are their
      integer value, and a point divides by ten once per digit after it (`ParsePowerPoint`). */
  function ParsePower(t: seq<byte>): (r: Power)
    requires IsNumberText(t)
    ensures AllDigits(t) ==> r == DigitsValue(t) as real
  {
    var k := FirstIndex(t, DOT);
    if k == |t| then DigitsValue(t) as real
    else
      assert AllDigits(t[..k]) && AllDigits(t[k + 1..]);
      DigitsValue(t[..k]) as real + Decimals(DigitsValue(t[k + 1..]), |t| - k - 1)
  }

  /** The digits after the point, `places` of them, as a fraction: divided by ten once per
      place. */
  function Decimals(digits: nat, places: nat): (r: real)
    ensures r >= 0.0
  {
    if places == 0 then digits as real else Decimals(digits, places - 1) / 10.0
  }

  /** `x` times ten to the `n`, one decimal place at a time. */
  function Shift10(x: real, n: nat): real
    decreases n
  {
    if n == 0 then x else Shift10(10.0 * x, n - 1)
  }

  /** Digits, a point and digits read as the digits without the point once the value is
      shifted left by the number of decimals: "12.5" is 125 shifted right once. */
  lemma ParsePowerPoint(a: seq<byte>, b: seq<byte>)
    requires |a| >= 1 && |b| >= 1 && AllDigits(a) && AllDigits(b)
    ensures IsNumberText(a + [DOT] + b)
    ensures AllDigits(a + b)
    ensures Shift10(ParsePower(a + [DOT] + b), |b|) == DigitsValue(a + b) as real
  {
    PointAt(a, b);
    DigitsConcat(a, b);
    var whole, fraction := DigitsValue(a) as real, Decimals(DigitsValue(b), |b|);
    assert ParsePower(a + [DOT] + b) == whole + fraction;
    ShiftAdd(whole, fraction, |b|);
    ShiftDecimals(DigitsValue(b), |b|);
    DigitsAppend(a, b);
  }

  /** In digits, a point and digits, the point is the first one and splits the text back into
      its two digit runs. */
  lemma PointAt(a: seq<byte>, b: seq<byte>)
    requires |a| >= 1 && |b| >= 1 && AllDigits(a) && AllDigits(b)
    ensures var t := a + [DOT] + b;
            && FirstIndex(t, DOT) == |a| && t[..|a|] == a && t[|a| + 1..] == b
            && IsNumberText(t)
  {
    var t := a + [DOT] + b;
    assert t[..|a|] == a && t[|a| + 1..] == b;
    assert t[|a|] == DOT;
    assert 0 < |a| < |t| - 1 && t[|a|] == DOT && AllDigits(t[..|a|]) && AllDigits(t[|a| + 1..]);
  }

  /** Two digit runs together are a digit run. */
  lemma DigitsConcat(a: seq<byte>, b: seq<byte>)
    requires AllDigits(a) && AllDigits(b)
    ensures AllDigits(a + b)
  {
    forall i | 0 <= i < |a + b|
      ensures IsDigit((a + b)[i])
    {
      if i < |a| { assert (a + b)[i] == a[i]; } else { assert (a + b)[i] == b[i - |a|]; }
    }
  }

  /** Shifting distributes over a sum. */
  lemma {:induction false} ShiftAdd(x: real, y: real, n: nat)
    ensures Shift10(x + y, n) == Shift10(x, n) + Shift10(y, n)
    decreases n
  {
    if n > 0 {
      ShiftAdd(10.0 * x, 10.0 * y, n - 1);
    }
  }

  /** One more place is ten times the shift. */
  lemma {:induction false} ShiftOnce(x: real, n: nat)
    ensures Shift10(x, n + 1) == 10.0 * Shift10(x, n)
    decreases n
  {
    if n > 0 {
      ShiftOnce(10.0 * x, n - 1);
    }
  }

  /** Shifting `places` decimals back by as many places gives the digits. */
  lemma {:induction false} ShiftDecimals(digits: nat, places: nat)
    ensures Shift10(Decimals(digits, places), places) == digits as real
  {
    if places > 0 {
      ShiftDecimals(digits, places - 1);
    }
  }

  /** Appending digits shifts the value left by one decimal place per digit. */
  lemma {:induction false} DigitsAppend(a: seq<byte>, b: seq<byte>)
    requires AllDigits(a) && AllDigits(b) && AllDigits(a + b)
    ensures DigitsValue(a + b) as real == Shift10(DigitsValue(a) as real, |b|) + DigitsValue(b) as real
    decreases |b|
  {
    if b == [] {
      assert a + b == a;
    } else {
      var b' := b[..|b| - 1];
      var last := b[|b| - 1];
      assert (a + b)[..|a + b| - 1] == a + b' && (a + b)[|a + b| - 1] == last;
      assert AllDigits(a + b') by {
        forall i | 0 <= i < |a + b'|
          ensures IsDigit((a + b')[i])
        {
          assert (a + b')[i] == (a + b)[i];
        }
      }
      DigitsAppend(a, b');
      ShiftOnce(DigitsValue(a) as real, |b'|);
      assert DigitsValue(a + b) == 10 * DigitsValue(a + b') + (last - 0x30);
      assert DigitsValue(b) == 10 * DigitsValue(b') + (last - 0x30);
    }
  }

  /** Round to the nearest integer, ties to even. */
  function RoundHalfEven(x: real): (n: nat)
    requires x >= 0.0
    ensures (n as real - x) <= 0.5 && (x - n as real) <= 0.5
  {
    var f := x.Floor;
    var frac := x - f as real;
    if frac > 0.5 then f + 1
    else if frac < 0.5 then f
    else if f % 2 == 0 then f else f + 1
  }

  /** Four decimal digits, zero padded. */
  function Pad4(m: nat): (t: seq<byte>)
    requires m < 10000
    ensures |t| == 4 && AllDigits(t)
  {
    [0x30 + m / 1000, 0x30 + (m / 100) % 10, 0x30 + (m / 10) % 10, 0x30 + m % 10]
  }

  /** `"{0:0.4f}".format(x)`: the integer part, a dot, four decimals. */
  function Fixed4(x: Power): (t: seq<byte>)
    ensures |t| >= 6 && t[|t| - 5] == DOT
    ensures AbsentBefore(t, LF, |t|)
  {
    var n := RoundHalfEven(x * 10000.0);
    var whole, frac := NatText(n / 10000), Pad4(n % 10000);
    var t := whole + [DOT] + frac;
    assert forall i :: 0 <= i < |t| ==> t[i] == DOT || IsDigit(t[i]) by {
      forall i | 0 <= i < |t|
        ensures t[i] == DOT || IsDigit(t[i])
      {
        if i < |whole| {
          assert t[i] == whole[i];
        } else if |whole| < i {
          assert t[i] == frac[i - |whole| - 1];
        }
      }
    }
    t
  }

  const CRLF: seq<byte> := [CR, LF]
  const OK_REPLY: seq<byte> := Ascii("OK\r\n")
  const AUTOSTART_REFUSAL: seq<byte> := Ascii("Syntax error: ") + Ascii("not allowed in ") + Ascii("autostart mode") + CRLF

  /** A reply line: it ends in LF and holds no other LF. */
  predicate IsLine(r: seq<byte>)
  {
    |r| >= 1 && r[|r| - 1] == LF && AbsentBefore(r, LF, |r| - 1)
  }

  /** Text without LF, terminated by CR LF, is a line. */
  lemma CrlfLine(t: seq<byte>)
    requires AbsentBefore(t, LF, |t|)
    ensures IsLine(t + CRLF)
  {
    var r := t + CRLF;
    assert r[|r| - 1] == LF;
    forall j | 0 <= j < |r| - 1
      ensures r[j] != LF
    {
      if j < |t| { assert r[j] == t[j]; } else { assert r[j] == CR; }
    }
  }

  /** The fixed replies are lines. */
  lemma FixedReplies()
    ensures IsLine(OK_REPLY) && IsLine(Ascii("123456\r\n")) && IsLine(Ascii("1\r\n"))
    ensures IsLine(AUTOSTART_REFUSAL)
  {
    RefusalLine();
    assert OK_REPLY == Ascii("OK") + CRLF;
    CrlfLine(Ascii("OK"));
    assert Ascii("123456\r\n") == Ascii("123456") + CRLF;
    CrlfLine(Ascii("123456"));
    assert Ascii("1\r\n") == Ascii("1") + CRLF;
    CrlfLine(Ascii("1"));
  }

  lemma RefusalLine()
    ensures IsLine(AUTOSTART_REFUSAL)
  {
    var a, b, c := Ascii("Syntax error: "), Ascii("not allowed in "), Ascii("autostart mode");
    assert AbsentBefore(a, LF, |a|) && AbsentBefore(b, LF, |b|) && AbsentBefore(c, LF, |c|);
    var text := a + b + c;
    forall j | 0 <= j < |text|
      ensures text[j] != LF
    {
      if j < |a| { assert text[j] == a[j]; }
      else if j < |a| + |b| { assert text[j] == b[j - |a|]; }
      else { assert text[j] == c[j - |a| - |b|]; }
    }
    CrlfLine(text);
  }

  /** The state change and the reply of one recognised command, or the syntax error. */
  function Respond(c: Laser, cmd: Command, input: seq<byte>): (r: (Laser, seq<byte>))
    requires cmd.SetPower? ==> IsNumberText(cmd.text)
    ensures r.0.outputBuffer == c.outputBuffer && r.0.isOpen == c.isOpen
    ensures r.0.requestedPower == c.requestedPower
    ensures |r.1| >= 1 && r.1[|r.1| - 1] == LF
    ensures cmd != Unrecognized ==> IsLine(r.1)
  {
    FixedReplies();
    match cmd
    case ActualPowerQuery => CrlfLine(Fixed4(c.power)); (c, Fixed4(c.power) + CRLF)
    case PowerQuery => CrlfLine(Fixed4(c.requestedPower)); (c, Fixed4(c.requestedPower) + CRLF)
    case SetPower(text) => (c.(power := ParsePower(text)), OK_REPLY)
    case LaserStateQuery => CrlfLine(NatText(c.isOn)); (c, NatText(c.isOn) + CRLF)
    case LaserOn =>
      if c.autostart == 1 then (c, AUTOSTART_REFUSAL) else (c.(isOn := 1), OK_REPLY)
    case LaserOff => (c.(isOn := 0), OK_REPLY)
    case SerialNumberQuery => (c, Ascii("123456\r\n"))
    case AutostartOn => (c.(autostart := 1), OK_REPLY)
    case AutostartOff => (c.(autostart := 0), OK_REPLY)
    case AutostartQuery => CrlfLine(NatText(c.autostart)); (c, NatText(c.autostart) + CRLF)
    case InterlockQuery => (c, Ascii("1\r\n"))
    case Unrecognized => (c, Ascii("Syntax error: ") + input + [LF])
  }

  /** `after` is `before` followed by a reply ending in LF, a whole line when `line` holds. */
  predicate Queued(before: seq<byte>, after: seq<byte>, line: bool)
  {
    |after| > |before| && after[..|before|] == before && after[|after| - 1] == LF
    && (line ==> IsLine(after[|before|..]))
  }

  /** `write(data)`: decodes the bytes, runs the first matching command and queues its
      reply behind the replies already waiting. Non-ASCII input fails to decode. */
  function Write(c: Laser, data: seq<byte>): (r: (Result<nat>, Laser))
    ensures r.0.Ok? <==> IsAscii(data)
    ensures r.0.Err? ==> r.0.error == UnicodeDecodeError && r.1 == c
    ensures r.0.Ok? ==> r.0.value == |data|
    ensures r.0.Ok? ==> Queued(c.outputBuffer, r.1.outputBuffer, Classify(data) != Unrecognized)
    ensures r.1.requestedPower == c.requestedPower && r.1.isOpen == c.isOpen
    ensures Classify(data) == Unrecognized ==> r.1 == c.(outputBuffer := r.1.outputBuffer)
  {
    if !IsAscii(data) then (Err(UnicodeDecodeError), c)
    else
      var cmd := Classify(data);
      assert cmd.SetPower? ==> IsNumberText(cmd.text) by {
        if cmd.SetPower? { SetPowerText(data); }
      }
      (Ok(|data|), Deliver(c, cmd, data))
  }

  /** Runs command `cmd` and queues its reply. */
  function Deliver(c: Laser, cmd: Command, data: seq<byte>): (r: Laser)
    requires cmd.SetPower? ==> IsNumberText(cmd.text)
    ensures Queued(c.outputBuffer, r.outputBuffer, cmd != Unrecognized)
    ensures r.requestedPower == c.requestedPower && r.isOpen == c.isOpen
    ensures cmd == Unrecognized ==> r == c.(outputBuffer := r.outputBuffer)
  {
    var (next, reply) := Respond(c, cmd, data);
    var out := c.outputBuffer + reply;
    assert out[..|c.outputBuffer|] == c.outputBuffer;
    assert out[|c.outputBuffer|..] == reply;
    next.(outputBuffer := out)
  }

  /** The text a set-power command captures is a number. */
  lemma SetPowerText(data: seq<byte>)
    requires Classify(data).SetPower?
    ensures IsNumberText(Classify(data).text)
  {
    var i :| 0 <= i < |data| && PowerMatchAt(data, i) && Classify(data).text == data[i + 2..NumberEnd(data, i)];
  }

  // ---- what each command does ----

  /** A decodable write that is not a set-power command applies `Respond` to its command
      and queues the reply. */
  lemma WriteResponds(c: Laser, data: seq<byte>)
    requires IsAscii(data) && !Classify(data).SetPower?
    ensures var (next, reply) := Respond(c, Classify(data), data);
            Write(c, data).1 == next.(outputBuffer := c.outputBuffer + reply)
  {
  }

  /** `l1\r` is refused in autostart mode and turns the laser on otherwise; `l0\r` always
      turns it off. */
  lemma LaserSwitching(c: Laser, data: seq<byte>)
    requires IsAscii(data)
    ensures Classify(data) == LaserOn && c.autostart == 1 ==>
              Write(c, data).1 == c.(outputBuffer := c.outputBuffer + AUTOSTART_REFUSAL)
    ensures Classify(data) == LaserOn && c.autostart == 0 ==>
              Write(c, data).1 == c.(isOn := 1, outputBuffer := c.outputBuffer + OK_REPLY)
    ensures Classify(data) == LaserOff ==>
              Write(c, data).1 == c.(isOn := 0, outputBuffer := c.outputBuffer + OK_REPLY)
  {
    if !Classify(data).SetPower? {
      WriteResponds(c, data);
    }
  }

  /** `@cobas 1\r` / `@cobas 0\r` set autostart and answer OK; `@cobas?\r` and `l?\r`
      report autostart and the laser state and change nothing else. */
  lemma AutostartAndQueries(c: Laser, data: seq<byte>)
    requires IsAscii(data)
    ensures Classify(data) == AutostartOn ==>
              Write(c, data).1 == c.(autostart := 1, outputBuffer := c.outputBuffer + OK_REPLY)
    ensures Classify(data) == AutostartOff ==>
              Write(c, data).1 == c.(autostart := 0, outputBuffer := c.outputBuffer + OK_REPLY)
    ensures Classify(data) == AutostartQuery ==>
              Write(c, data).1 == c.(outputBuffer := c.outputBuffer + NatText(c.autostart) + CRLF)
    ensures Classify(data) == LaserStateQuery ==>
              Write(c, data).1 == c.(outputBuffer := c.outputBuffer + NatText(c.isOn) + CRLF)
  {
    if !Classify(data).SetPower? {
      WriteResponds(c, data);
    }
  }

  /** Setting the power stores the number the command captures, read as `float` does, and
      changes nothing else; the requested power is never assigned, so `p?` always reports
      the value it started with. */
  lemma PowerCommands(c: Laser, data: seq<byte>)
    requires IsAscii(data)
    ensures Classify(data).SetPower? ==>
              IsNumberText(Classify(data).text)
              && Write(c, data).1 == c.(power := ParsePower(Classify(data).text), outputBuffer := c.outputBuffer + OK_REPLY)
    ensures Classify(data) == PowerQuery ==>
              Write(c, data).1 == c.(outputBuffer := c.outputBuffer + Fixed4(c.requestedPower) + CRLF)
  {
    if Classify(data).SetPower? {
      SetPowerText(data);
    }
  }

  /** Unmatched input is echoed back in a syntax error and changes no state. */
  lemma UnrecognizedInput(c: Laser, data: seq<byte>)
    requires IsAscii(data)
    requires Classify(data) == Unrecognized
    ensures Write(c, data).1 == c.(outputBuffer := c.outputBuffer + Ascii("Syntax error: ") + data + [LF])
  {
    if !Classify(data).SetPower? {
      WriteResponds(c, data);
    }
  }

  /** From any reachable state the requested power is still the initial 0, so a `p?` query
      answers "0.0000\r\n". */
  lemma {:induction false} RequestedPowerStaysZero(inputs: seq<seq<byte>>)
    ensures WriteAll(Initial(), inputs).requestedPower == 0.0
  {
    if inputs != [] {
      RequestedPowerStaysZero(inputs[..|inputs| - 1]);
    }
  }

  /** The simulator after a sequence of writes. */
  function WriteAll(c: Laser, inputs: seq<seq<byte>>): Laser
  {
    if inputs == [] then c else Write(WriteAll(c, inputs[..|inputs| - 1]), inputs[|inputs| - 1]).1
  }

  /** The power reply is four-decimal text: 0.05 W prints as "0.0500". */
  lemma Fixed4Example()
    ensures Fixed4(0.05) == Ascii("0.0500")
  {
    assert RoundHalfEven(0.05 * 10000.0) == 500;
  }

  /** "p 0.05\r" is understood as setting the power to 0.05 W. */
  lemma SetPowerExample()
    ensures Classify(Ascii("p 0.05\r")) == SetPower(Ascii("0.05"))
  {
    var cmd := Ascii("p 0.05\r");
    MissingByteExcludes(cmd, Ascii("pa?"), 2);
    MissingByteExcludes(cmd, Ascii("p?"), 1);
    PowerMatchExample();
    assert SearchPowerFrom(cmd, 0) == Some(Ascii("0.05"));
  }

  /** The set-power pattern matches "p 0.05\r" at its start, capturing "0.05". */
  lemma PowerMatchExample()
    ensures PowerMatchAt(Ascii("p 0.05\r"), 0)
    ensures Ascii("p 0.05\r")[2..NumberEnd(Ascii("p 0.05\r"), 0)] == Ascii("0.05")
  {
    var cmd := Ascii("p 0.05\r");
    assert OccursAt(cmd, Ascii("p "), 0);
    assert cmd[2..][4] == CR;
    assert NumberEnd(cmd, 0) == 6;
    assert cmd[2..6] == Ascii("0.05");
    var t := Ascii("0.05");
    assert t[1] == DOT && AllDigits(t[..1]) && AllDigits(t[2..]);
  }

  /** The captured text "0.05" is read as 0.05 W. */
  lemma ParsePowerExample()
    ensures ParsePower(Ascii("0.05")) == 0.05
  {
    var t := Ascii("0.05");
    assert t[1] == DOT && AllDigits(t[..1]) && AllDigits(t[2..]);
    assert FirstIndex(t, DOT) == 1;
    assert DigitsValue(t[2..]) == 5 by {
      var u := t[2..];
      assert u == [0x30, 0x35];
      assert u[..1] == [0x30];
      assert u[..1][..0] == [];
      assert DigitsValue(u[..1]) == 0;
      assert DigitsValue(u) == 10 * DigitsValue(u[..1]) + (u[1] - 0x30);
    }
    assert DigitsValue(t[..1]) == 0 by {
      assert t[..1][..0] == [];
    }
  }

  /** "pa?\r" queues the current power in four-decimal text. */
  lemma ActualPowerQueryReply(c: Laser)
    ensures Write(c, Ascii("pa?\r")).1 == c.(outputBuffer := c.outputBuffer + Fixed4(c.power) + CRLF)
  {
    var data := Ascii("pa?\r");
    assert Classify(data) == ActualPowerQuery by {
      assert OccursAt(data, Ascii("pa?"), 0);
    }
    WriteResponds(c, data);
  }

  /** Writing "p 0.05\r" to a fresh simulator sets 0.05 W and queues "OK". */
  lemma SetPowerOnFreshLaser()
    ensures Write(Initial(), Ascii("p 0.05\r")).1 == Initial().(power := 0.05, outputBuffer := OK_REPLY)
  {
    SetPowerExample();
    ParsePowerExample();
  }
}
