/**
 * The serial port as the loader sees it: reads come from a script of bytes,
 * timeouts and I/O faults, and every operation that talks to the line is
 * appended to a log.
 */
module Port {
  import opened Results
  import opened Bytes

  /** What one `readByteWithTimeout` yields: a byte, a timeout (-1), or an I/O exception. */
  datatype Rx = Got(b: Byte) | Timeout | Fault

  /** What the port was asked to do, in order. */
  datatype PortEvent =
    | Opened
    | Closed
    | Params(baud: int)
    | HwReset(delay: int)
    | WroteString(s: string)
    | WroteBytes(bytes: seq<Byte>)

  /** The message of the exception a port I/O failure raises. */
  const PortFault := "port I/O error"
  /** The message of closing a port that was never opened. */
  const NotOpened := "Port not opened"

  /** The next read; once the script has run dry the line is silent. */
  function Next(rx: seq<Rx>): Rx
  {
    if rx == [] then Timeout else rx[0]
  }

  /** The script after one read. */
  function Rest(rx: seq<Rx>): (r: seq<Rx>)
    ensures rx != [] ==> |r| < |rx|
  {
    if rx == [] then [] else rx[1..]
  }

  /** The value Java's `readByteWithTimeout` returns for a read that did not fault. */
  function Code(r: Rx): int
    requires !r.Fault?
  {
    if r.Got? then r.b else -1
  }

  /** The reads that deliver `bytes`, one by one. */
  function Gots(bytes: seq<Byte>): (r: seq<Rx>)
    ensures |r| == |bytes| && forall i :: 0 <= i < |bytes| ==> r[i] == Got(bytes[i])
  {
    seq(|bytes|, i requires 0 <= i < |bytes| => Got(bytes[i]))
  }

  /** The characters `(char) b` makes of bytes. */
  function Chars(bytes: seq<Byte>): (r: string)
    ensures |r| == |bytes| && forall i :: 0 <= i < |bytes| ==> r[i] as int == bytes[i]
  {
    seq(|bytes|, i requires 0 <= i < |bytes| => bytes[i] as char)
  }

  class ComPort {
    /** The operating system's name for the port. */
    const portName: string
    /** Whether `openPort` succeeds. */
    const available: bool
    /** The reads still to come. */
    var rx: seq<Rx>
    /** Everything the port was asked to do. */
    var log: seq<PortEvent>
    var isOpen: bool

    constructor (portName: string, available: bool, script: seq<Rx>)
      ensures this.portName == portName && this.available == available
      ensures rx == script && log == [] && !isOpen
    {
      this.portName := portName;
      this.available := available;
      rx := script;
      log := [];
      isOpen := false;
    }

    method OpenPort() returns (r: Outcome)
      modifies this
      ensures r == if available then Pass else Fail("Port not available: " + portName)
      ensures isOpen == (old(isOpen) || available)
      ensures log == old(log) + (if available then [Opened] else [])
      ensures rx == old(rx)
    {
      if available {
        isOpen := true;
        log := log + [Opened];
        r := Pass;
      } else {
        r := Fail("Port not available: " + portName);
      }
    }

    /** Closing a port that is not open raises, as the serial library does. */
    method ClosePort() returns (r: Outcome)
      modifies this
      ensures r == if old(isOpen) then Pass else Fail(NotOpened)
      ensures !isOpen && rx == old(rx)
      ensures log == old(log) + (if old(isOpen) then [Closed] else [])
    {
      if isOpen {
        isOpen := false;
        log := log + [Closed];
        r := Pass;
      } else {
        r := Fail(NotOpened);
      }
    }

    method SetParams(baud: int)
      modifies this
      ensures log == old(log) + [Params(baud)]
      ensures rx == old(rx) && isOpen == old(isOpen)
    {
      log := log + [Params(baud)];
    }

    /** Pulses DTR and RTS, waits `delay` ms and purges; failures are swallowed. */
    method HwReset(delay: int)
      modifies this
      ensures log == old(log) + [PortEvent.HwReset(delay)]
      ensures rx == old(rx) && isOpen == old(isOpen)
    {
      log := log + [PortEvent.HwReset(delay)];
    }

    method WriteString(s: string)
      modifies this
      ensures log == old(log) + [WroteString(s)]
      ensures rx == old(rx) && isOpen == old(isOpen)
    {
      log := log + [WroteString(s)];
    }

    method WriteBytes(bytes: seq<Byte>)
      modifies this
      ensures log == old(log) + [WroteBytes(bytes)]
      ensures rx == old(rx) && isOpen == old(isOpen)
    {
      log := log + [WroteBytes(bytes)];
    }

    /** Sends the low eight bits of `value` as one byte. */
    method WriteInt(value: int)
      modifies this
      ensures log == old(log) + [WroteBytes([value % 256])]
      ensures rx == old(rx) && isOpen == old(isOpen)
    {
      log := log + [WroteBytes([value % 256])];
    }

    /** One read; the wait itself (`timeout` ms) is not modelled. */
    method ReadByteWithTimeout(timeout: int) returns (r: Rx)
      modifies this
      ensures r == Next(old(rx)) && rx == Rest(old(rx))
      ensures log == old(log) && isOpen == old(isOpen)
    {
      r := Next(rx);
      rx := Rest(rx);
    }
  }

  /** The result of reading one line, and the reads left afterwards. */
  datatype Scan = Scan(line: Result<string>, rest: seq<Rx>)

  predicate NoCR(s: string)
  {
    forall i :: 0 <= i < |s| ==> s[i] != '\r'
  }

  /**
   * Reading a line after `acc` has been collected: bytes are appended until a
   * timeout, or until a CR, after which exactly one more byte is read and
   * dropped. An I/O fault ends the read with an exception.
   */
  function ScanLine(rx: seq<Rx>, acc: string): (s: Scan)
    requires NoCR(acc)
    ensures s.line.Ok? ==> NoCR(s.line.value) && |acc| <= |s.line.value|
    ensures s.line.Err? ==> s.line == Err(PortFault)
    ensures |s.rest| <= |rx|
    decreases |rx|
  {
    match Next(rx)
    case Fault => Scan(Err(PortFault), Rest(rx))
    case Timeout => Scan(Ok(acc), Rest(rx))
    case Got(b) =>
      if b == 13 then
        var after := Rest(rx);
        Scan(if Next(after).Fault? then Err(PortFault) else Ok(acc), Rest(after))
      else
        ScanLine(Rest(rx), acc + [b as char])
  }

  /** The line `readStringWithTimeout` returns from a fresh start. */
  function ReadLine(rx: seq<Rx>): Scan
  {
    ScanLine(rx, "")
  }

  /** The second of two lines read one after the other (the first is discarded). */
  function SecondLine(rx: seq<Rx>): Scan
  {
    var first := ReadLine(rx);
    if first.line.Err? then first else ReadLine(first.rest)
  }

  /**
   * `readStringWithTimeout`: collects characters up to a CR or a timeout; after
   * a CR it reads and drops one more byte (the LF of a CRLF).
   */
  method ReadStringWithTimeout(port: ComPort, timeout: int) returns (r: Result<string>)
    modifies port
    ensures Scan(r, port.rx) == ReadLine(old(port.rx))
    ensures port.log == old(port.log) && port.isOpen == old(port.isOpen)
  {
    var sb := "";
    while true
      invariant NoCR(sb)
      invariant ScanLine(port.rx, sb) == ReadLine(old(port.rx))
      invariant port.log == old(port.log) && port.isOpen == old(port.isOpen)
      decreases |port.rx|
    {
      var b := port.ReadByteWithTimeout(timeout);
      if b.Fault? {
        return Err(PortFault);
      }
      if b.Timeout? {
        return Ok(sb);
      }
      if b.b == 13 {
        var b2 := port.ReadByteWithTimeout(timeout);
        if b2.Fault? {
          return Err(PortFault);
        }
        return Ok(sb);
      }
      sb := sb + [b.b as char];
    }
  }

  /** Reading through a run of bytes that holds no CR just collects them. */
  lemma {:induction false} ScanThrough(bytes: seq<Byte>, tail: seq<Rx>, acc: string)
    requires NoCR(acc) && forall i :: 0 <= i < |bytes| ==> bytes[i] != 13
    ensures NoCR(acc + Chars(bytes))
    ensures ScanLine(Gots(bytes) + tail, acc) == ScanLine(tail, acc + Chars(bytes))
    decreases |bytes|
  {
    if bytes != [] {
      var rx := Gots(bytes) + tail;
      assert Next(rx) == Got(bytes[0]);
      assert Rest(rx) == Gots(bytes[1..]) + tail;
      assert acc + Chars(bytes) == (acc + [bytes[0] as char]) + Chars(bytes[1..]);
      ScanThrough(bytes[1..], tail, acc + [bytes[0] as char]);
    } else {
      assert Gots(bytes) + tail == tail;
      assert acc + Chars(bytes) == acc;
    }
  }

  /**
   * A CR-terminated line followed by any non-fault byte reads back as the line,
   * and both terminator bytes are consumed.
   */
  lemma ReadLineOfText(bytes: seq<Byte>, after: Rx, tail: seq<Rx>)
    requires forall i :: 0 <= i < |bytes| ==> bytes[i] != 13
    requires !after.Fault?
    ensures ReadLine(Gots(bytes) + [Got(13), after] + tail) == Scan(Ok(Chars(bytes)), tail)
  {
    ScanThrough(bytes, [Got(13), after] + tail, "");
    assert Gots(bytes) + [Got(13), after] + tail == Gots(bytes) + ([Got(13), after] + tail);
    assert "" + Chars(bytes) == Chars(bytes);
  }
}
