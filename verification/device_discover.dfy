/**
 * Finding Propeller chips on serial ports. A port is first probed for a
 * Propeller 2 (the `Prop_Chk` text probe); when nothing answers, for a
 * Propeller 1, whose boot ROM echoes the bits of an 8-bit linear feedback
 * shift register and then clocks out its version byte.
 */
module Discovery {
  import opened Results
  import opened Bytes
  import opened Text
  import opened Port
  import opened P2Image
  import opened Devices

  const P1Baud := 115200
  const P1ResetDelay := 90
  const P2Baud := 2000000
  const P2ResetDelay := 15
  const BitTimeout := 110
  const DrainTimeout := 50
  const LineTimeout := 50
  /** The calibration pulse sent ahead of the challenge. */
  const Calibration: Byte := 0xF9
  /** The register's seed: the character 'P'. */
  const Seed: bv8 := 80
  /** Bytes in the challenge. */
  const ChallengeLength := 250
  /** Bytes sent to clock the echo and the version back. */
  const ClockLength := 258
  /** Rounds of the echo comparison: bits 1 to 249. */
  const EchoRounds := 250
  /** Reads `getBit` is retried for while it faults. */
  const MaxRetries := 100
  /** Bytes drained after a mismatch. */
  const DrainLimit := 300

  // ---------------------------------------------------------------------------
  // The shift register

  /**
   * One step of the register: shift left by one, dropping bit 7, and feed in
   * the exclusive or of bits 7, 5, 4 and 1. Java holds the register in a
   * signed `byte`; its sign extension only reaches bits above 7, which the
   * mask and the narrowing cast drop, so eight bits model it exactly.
   */
  function LfsrStep(u: bv8): bv8
  {
    (u << 1) | (((u >> 7) ^ (u >> 5) ^ (u >> 4) ^ (u >> 1)) & 1)
  }

  /** The bit the register outputs before a step: its low bit. */
  function OutBit(u: bv8): (b: int)
    ensures b == 0 || b == 1
  {
    (u & 1) as int
  }

  /**
   * The step undone: bits 0 to 6 are shifted back down, and bit 7 is the fed-in
   * bit exclusive-or bits 5, 4 and 1, which now sit one place higher.
   */
  function LfsrBack(w: bv8): bv8
  {
    ((w ^ (w >> 6) ^ (w >> 5) ^ (w >> 2)) << 7) | (w >> 1)
  }

  /** Stepping back undoes a step. */
  lemma LfsrBackStep(u: bv8)
    ensures LfsrBack(LfsrStep(u)) == u
  {
  }

  /** No two register states step to the same state. */
  lemma LfsrStepInjective(u: bv8, v: bv8)
    requires LfsrStep(u) == LfsrStep(v)
    ensures u == v
  {
    LfsrBackStep(u);
    LfsrBackStep(v);
  }

  /** The register after `n` steps from `s`. */
  function LfsrState(s: bv8, n: nat): bv8
    decreases n
  {
    if n == 0 then s else LfsrState(LfsrStep(s), n - 1)
  }

  lemma {:induction false} LfsrStateNext(s: bv8, n: nat)
    ensures LfsrState(s, n + 1) == LfsrStep(LfsrState(s, n))
    decreases n
  {
    if n > 0 {
      LfsrStateNext(LfsrStep(s), n - 1);
    }
  }

  /**
   * The bytes that carry `m` successive output bits of the register started
   * at `s`: 0xFE for a 0 bit, 0xFF for a 1 (Java's `iterate() | 0xFE`).
   */
  function Pattern(s: bv8, m: nat): (p: seq<Byte>)
    ensures |p| == m
    decreases m
  {
    if m == 0 then [] else [0xFE + OutBit(s)] + Pattern(LfsrStep(s), m - 1)
  }

  lemma {:induction false} PatternAt(s: bv8, m: nat, i: nat)
    requires i < m
    ensures Pattern(s, m)[i] == 0xFE + OutBit(LfsrState(s, i))
    decreases i
  {
    if i > 0 {
      PatternAt(LfsrStep(s), m - 1, i - 1);
    }
  }

  /** The challenge: 250 bits of the register seeded with 'P'. */
  function Challenge(): seq<Byte>
  {
    Pattern(Seed, ChallengeLength)
  }

  /** Peeling the next byte off a pattern that follows `done`. */
  lemma PatternNext(done: seq<Byte>, u: bv8, m: nat)
    requires m > 0
    ensures done + Pattern(u, m) == (done + [0xFE + OutBit(u)]) + Pattern(LfsrStep(u), m - 1)
  {
    AppendAssoc(done, [0xFE + OutBit(u)], Pattern(LfsrStep(u), m - 1));
  }

  /** `n` copies of `b`. */
  function Repeat(n: nat, b: Byte): (r: seq<Byte>)
    ensures |r| == n && forall i :: 0 <= i < n ==> r[i] == b
  {
    seq(n, _ => b)
  }

  /** Everything the Propeller 1 probe sends, in order. */
  function P1Writes(): seq<PortEvent>
  {
    [Params(P1Baud), PortEvent.HwReset(P1ResetDelay), WroteBytes([Calibration]),
     WroteBytes(Challenge()), WroteBytes(Repeat(ClockLength, Calibration))]
  }

  // ---------------------------------------------------------------------------
  // The Propeller 1 reply, read by read

  /**
   * Java `getBit`: the low bit of the byte read; a timeout reads as -1, whose
   * low bit is 1; only an I/O exception gives -1.
   */
  function BitOf(r: Rx): (b: int)
    ensures -1 <= b <= 1
    ensures b == -1 <==> r.Fault?
    ensures r.Got? ==> b == r.b % 2
    ensures r.Timeout? ==> b == 1
  {
    match r
    case Fault => -1
    case Timeout => 1
    case Got(x) => x % 2
  }

  /** A bit, or -1 when none could be read, and the reads that remain. */
  datatype Read = Read(bit: int, rest: seq<Rx>)

  /**
   * The `do ... while (to++ < 100)` retry: reads until one does not fault,
   * 101 reads at most; `to` counts the faulted reads so far.
   */
  function AwaitBit(rx: seq<Rx>, to: nat): (r: Read)
    requires to <= MaxRetries
    ensures r.bit == -1 || r.bit == 0 || r.bit == 1
    decreases MaxRetries - to
  {
    var b := BitOf(Next(rx));
    if b != -1 then Read(b, Rest(rx))
    else if to < MaxRetries then AwaitBit(Rest(rx), to + 1)
    else Read(-1, Rest(rx))
  }

  /**
   * Reads after a mismatch: at most `count` bytes, stopping at the first
   * timeout; a fault stops it too (it raises, and the probe answers 0).
   */
  function Drain(rx: seq<Rx>, count: nat): seq<Rx>
    decreases count
  {
    if count == 0 then rx
    else if Next(rx).Got? then Drain(Rest(rx), count - 1)
    else Rest(rx)
  }

  /** Draining consumes at most `count` reads, from the front. */
  lemma {:induction false} DrainBound(rx: seq<Rx>, count: nat)
    ensures |Drain(rx, count)| <= |rx| && Drain(rx, count) == rx[|rx| - |Drain(rx, count)|..]
    ensures |rx| - |Drain(rx, count)| <= count
    decreases count
  {
    if count > 0 && Next(rx).Got? {
      DrainBound(Rest(rx), count - 1);
      assert Rest(rx) == rx[1..];
    }
  }

  /** How the echo comparison ends, and the reads left. */
  datatype Echo = Matched(rest: seq<Rx>) | Rejected(rest: seq<Rx>)

  /**
   * The echo comparison from round `n`, with `ii` the bit last received and
   * `lfsr` the register: a bit that differs from the register's output is a
   * mismatch (drain, not a Propeller); otherwise the next bit is awaited.
   */
  function EchoFrom(rx: seq<Rx>, ii: int, n: nat, lfsr: bv8): Echo
    requires 1 <= n <= EchoRounds
    decreases EchoRounds - n
  {
    if n == EchoRounds then Matched(rx)
    else if ii != OutBit(lfsr) then Rejected(Drain(rx, DrainLimit))
    else
      var r := AwaitBit(rx, 0);
      if r.bit == -1 then Rejected(r.rest)
      else EchoFrom(r.rest, r.bit, n + 1, LfsrStep(lfsr))
  }

  /** A probe's answer and the reads left. */
  datatype Probe = Probe(rc: int, rest: seq<Rx>)

  /**
   * The version byte, least significant bit first, from the `k`-th bit on: each
   * step shifts `rc` right and puts a 1 bit in at the top; a faulted read adds
   * nothing.
   */
  function VersionFrom(rx: seq<Rx>, rc: int, k: nat): (p: Probe)
    requires k <= 8 && 0 <= rc < 256
    ensures 0 <= p.rc < 256
    decreases 8 - k
  {
    if k == 8 then Probe(rc, rx)
    else VersionFrom(Rest(rx), rc / 2 + (if BitOf(Next(rx)) == 1 then 0x80 else 0), k + 1)
  }

  /**
   * What `probeP1` returns, given the reads that follow its writes: 0 when
   * there is no first bit or the echo does not match, else the version byte.
   */
  function P1Reply(rx: seq<Rx>): (p: Probe)
    ensures 0 <= p.rc < 256
  {
    var first := BitOf(Next(rx));
    if first == -1 then Probe(0, Rest(rx))
    else match EchoFrom(Rest(rx), first, 1, LfsrState(Seed, ChallengeLength))
      case Rejected(rest) => Probe(0, rest)
      case Matched(rest) => VersionFrom(rest, 0, 0)
  }

  /**
   * Everything a Propeller 1 sends back: the register's output continued past
   * the challenge (249 bits are compared), one more bit the probe reads but
   * does not check, and the eight bytes that clock out its version.
   */
  function ChipAnswer(version: seq<Byte>, unchecked: Byte): seq<Byte>
  {
    Pattern(LfsrState(Seed, ChallengeLength), EchoRounds - 1) + [unchecked] + version
  }

  lemma GotsAppend(a: seq<Byte>, b: seq<Byte>)
    ensures Gots(a + b) == Gots(a) + Gots(b)
  {
  }

  /** A round whose bit matches and whose next read delivers byte `b`. */
  lemma EchoStep(rx: seq<Rx>, n: nat, lfsr: bv8, b: Byte)
    requires 1 <= n < EchoRounds && Next(rx) == Got(b)
    ensures EchoFrom(rx, OutBit(lfsr), n, lfsr) == EchoFrom(Rest(rx), b % 2, n + 1, LfsrStep(lfsr))
  {
    assert AwaitBit(rx, 0) == Read(b % 2, Rest(rx));
  }

  /** The bit a pattern byte carries. */
  lemma PatternBit(x: bv8)
    ensures (0xFE + OutBit(x)) % 2 == OutBit(x)
  {
  }

  /** The reads of a byte string, then more. */
  lemma GotsCons(b: Byte, bytes: seq<Byte>, tail: seq<Rx>)
    ensures Next(Gots([b] + bytes) + tail) == Got(b)
    ensures Rest(Gots([b] + bytes) + tail) == Gots(bytes) + tail
  {
    var rx := Gots([b] + bytes) + tail;
    assert rx[0] == Got(b);
    assert rx[1..] == Gots(bytes) + tail;
  }

  /** The echo loop accepts a reply that follows the register. */
  lemma {:induction false} EchoOfPattern(s: bv8, n: nat, unchecked: Byte, tail: seq<Rx>)
    requires 1 <= n < EchoRounds
    ensures EchoFrom(Gots(Pattern(LfsrStep(s), EchoRounds - 1 - n) + [unchecked]) + tail, OutBit(s), n, s) == Matched(tail)
    decreases EchoRounds - n
  {
    var p := Pattern(LfsrStep(s), EchoRounds - 1 - n);
    if n == EchoRounds - 1 {
      assert p + [unchecked] == [unchecked] + [];
      GotsCons(unchecked, [], tail);
      EchoStep(Gots(p + [unchecked]) + tail, n, s, unchecked);
      assert Gots([]) + tail == tail;
    } else {
      var s' := LfsrStep(s);
      var p' := Pattern(LfsrStep(s'), EchoRounds - 1 - (n + 1));
      assert p + [unchecked] == [0xFE + OutBit(s')] + (p' + [unchecked]);
      GotsCons(0xFE + OutBit(s'), p' + [unchecked], tail);
      EchoStep(Gots(p + [unchecked]) + tail, n, s, 0xFE + OutBit(s'));
      PatternBit(s');
      EchoOfPattern(s', n + 1, unchecked, tail);
    }
  }

  /** The bit a version read of byte `b` contributes. */
  function LowBit(b: Byte): (r: int)
    ensures r == 0 || r == 1
  {
    b % 2
  }

  /** The number the low bits of `a[i..]` spell, least significant first. */
  function LsbFirst(a: seq<Byte>, i: nat): int
    decreases |a| - i
  {
    if i >= |a| then 0 else LowBit(a[i]) + 2 * LsbFirst(a, i + 1)
  }

  /** What the version loop holds after the reads of `a[..k]`. */
  function AccBits(a: seq<Byte>, k: nat): (acc: int)
    requires k <= |a| && k <= 8
    ensures 0 <= acc < 256
  {
    if k == 0 then 0 else AccBits(a, k - 1) / 2 + 128 * LowBit(a[k - 1])
  }

  /**
   * Eight version reads that deliver bytes give the number their low bits
   * spell, least significant bit first.
   */
  lemma VersionOfAnswer(a: seq<Byte>, tail: seq<Rx>)
    requires |a| == 8
    ensures VersionFrom(Gots(a) + tail, 0, 0) == Probe(LsbFirst(a, 0), tail)
  {
    assert a[0..] == a;
    VersionSteps(a, 0, tail);
    AccBitsValue(a);
  }

  lemma {:induction false} VersionSteps(a: seq<Byte>, k: nat, tail: seq<Rx>)
    requires |a| == 8 && k <= 8
    ensures VersionFrom(Gots(a[k..]) + tail, AccBits(a, k), k) == Probe(AccBits(a, 8), tail)
    decreases 8 - k
  {
    if k == 8 {
      assert a[k..] == [];
      assert Gots([]) + tail == tail;
    } else {
      assert a[k..] == [a[k]] + a[k + 1..];
      GotsCons(a[k], a[k + 1..], tail);
      VersionStep(Gots(a[k..]) + tail, AccBits(a, k), k, a[k], Gots(a[k + 1..]) + tail, AccBits(a, k + 1));
      VersionSteps(a, k + 1, tail);
    }
  }

  /** One version read that delivers byte `b`. */
  lemma VersionStep(rx: seq<Rx>, rc: int, k: nat, b: Byte, rest: seq<Rx>, next: int)
    requires k < 8 && 0 <= rc < 256 && Next(rx) == Got(b) && Rest(rx) == rest
    requires next == rc / 2 + 128 * LowBit(b)
    ensures 0 <= next < 256 && VersionFrom(rx, rc, k) == VersionFrom(rest, next, k + 1)
  {
    assert BitOf(Got(b)) == LowBit(b);
    assert next == rc / 2 + (if BitOf(Next(rx)) == 1 then 0x80 else 0);
  }

  /** The loop's shifting and adding spells the bits least significant first. */
  lemma AccBitsValue(a: seq<Byte>)
    requires |a| == 8
    ensures AccBits(a, 8) == LsbFirst(a, 0)
  {
    var b0, b1, b2, b3, b4, b5, b6, b7 := LowBit(a[0]), LowBit(a[1]), LowBit(a[2]), LowBit(a[3]), LowBit(a[4]), LowBit(a[5]), LowBit(a[6]), LowBit(a[7]);
    assert AccBits(a, 1) == 128 * b0;
    assert AccBits(a, 2) == 64 * b0 + 128 * b1;
    assert AccBits(a, 3) == 32 * b0 + 64 * b1 + 128 * b2;
    assert AccBits(a, 4) == 16 * b0 + 32 * b1 + 64 * b2 + 128 * b3;
    assert AccBits(a, 5) == 8 * b0 + 16 * b1 + 32 * b2 + 64 * b3 + 128 * b4;
    assert AccBits(a, 6) == 4 * b0 + 8 * b1 + 16 * b2 + 32 * b3 + 64 * b4 + 128 * b5;
    assert AccBits(a, 7) == 2 * b0 + 4 * b1 + 8 * b2 + 16 * b3 + 32 * b4 + 64 * b5 + 128 * b6;
    assert AccBits(a, 8) == b0 + 2 * b1 + 4 * b2 + 8 * b3 + 16 * b4 + 32 * b5 + 64 * b6 + 128 * b7;
    assert LsbFirst(a, 7) == b7;
    assert LsbFirst(a, 6) == b6 + 2 * b7;
    assert LsbFirst(a, 5) == b5 + 2 * b6 + 4 * b7;
    assert LsbFirst(a, 4) == b4 + 2 * b5 + 4 * b6 + 8 * b7;
    assert LsbFirst(a, 3) == b3 + 2 * b4 + 4 * b5 + 8 * b6 + 16 * b7;
    assert LsbFirst(a, 2) == b2 + 2 * b3 + 4 * b4 + 8 * b5 + 16 * b6 + 32 * b7;
    assert LsbFirst(a, 1) == b1 + 2 * b2 + 4 * b3 + 8 * b4 + 16 * b5 + 32 * b6 + 64 * b7;
  }

  /**
   * A Propeller 1 is recognised: its answer to the challenge makes `probeP1`
   * return the version its last eight bits spell, least significant bit
   * first, and consume exactly that answer.
   */
  lemma ChipRecognised(version: seq<Byte>, unchecked: Byte, tail: seq<Rx>)
    requires |version| == 8
    ensures P1Reply(Gots(ChipAnswer(version, unchecked)) + tail) == Probe(LsbFirst(version, 0), tail)
  {
    var s := LfsrState(Seed, ChallengeLength);
    var echo := Pattern(LfsrStep(s), EchoRounds - 2) + [unchecked];
    var versionReads := Gots(version) + tail;
    PatternFirst(s, EchoRounds - 2, [unchecked], version);
    GotsCons(0xFE + OutBit(s), echo + version, tail);
    GotsAppend(echo, version);
    assert Gots(echo + version) + tail == Gots(echo) + versionReads;
    PatternBit(s);
    EchoOfPattern(s, 1, unchecked, versionReads);
    VersionOfAnswer(version, tail);
  }

  /** The first byte of a pattern, split off before what follows it. */
  lemma PatternFirst(s: bv8, m: nat, more: seq<Byte>, rest: seq<Byte>)
    ensures Pattern(s, m + 1) + more + rest == [0xFE + OutBit(s)] + ((Pattern(LfsrStep(s), m) + more) + rest)
  {
    var head, p := [0xFE + OutBit(s)], Pattern(LfsrStep(s), m);
    assert Pattern(s, m + 1) == head + p;
    AppendAssoc4(head, p, more, rest);
  }


  /** A mismatching bit ends the probe with 0. */
  lemma MismatchGivesZero(rx: seq<Rx>)
    requires BitOf(Next(rx)) != -1 && BitOf(Next(rx)) != OutBit(LfsrState(Seed, ChallengeLength))
    ensures P1Reply(rx).rc == 0
    ensures P1Reply(rx).rest == Drain(Rest(rx), DrainLimit)
  {
  }

  // ---------------------------------------------------------------------------
  // The Propeller 2 probe and the version text

  /**
   * What `probeP2` makes of the second reply line: the character after
   * "Prop_Ver " as a number, 0 for any other line; a line that is exactly
   * "Prop_Ver " has no such character, and `charAt` raises.
   */
  function P2Answer(line: string): (r: Result<int>)
    ensures r.Err? <==> line == VersionPrefix
    ensures r.Ok? && r.value != 0 ==> StartsWith(line, VersionPrefix) && r.value == line[9] as int
    ensures !StartsWith(line, VersionPrefix) ==> r == Ok(0)
    ensures StartsWith(line, VersionPrefix) && |line| > |VersionPrefix| ==> r == Ok(line[|VersionPrefix|] as int)
  {
    if StartsWith(line, VersionPrefix) then
      if |line| > |VersionPrefix| then Ok(line[|VersionPrefix|] as int)
      else Err("String index out of range: 9")
    else Ok(0)
  }

  /** `probeP2` over the reads that follow its writes. */
  function P2Reply(rx: seq<Rx>): Result<int>
  {
    var reply := SecondLine(rx);
    if reply.line.Err? then Err(reply.line.message) else P2Answer(reply.line.value)
  }

  function P2Writes(): seq<PortEvent>
  {
    [Params(P2Baud), PortEvent.HwReset(P2ResetDelay), WroteString(ProbeCommand)]
  }

  /** A Propeller 2 that answers "Prop_Ver <c>..." on its second line is reported as `c`. */
  lemma P2Recognised(first: seq<Byte>, version: seq<Byte>, tail: seq<Rx>)
    requires forall i :: 0 <= i < |first| ==> first[i] != 13
    requires forall i :: 0 <= i < |version| ==> version[i] != 13
    requires StartsWith(Chars(version), VersionPrefix) && |version| > 9
    ensures P2Reply(Gots(first) + [Got(13), Got(10)] + (Gots(version) + [Got(13), Got(10)] + tail)) == Ok(version[9])
  {
    var second := Gots(version) + [Got(13), Got(10)] + tail;
    ReadLineOfText(first, Got(10), second);
    ReadLineOfText(version, Got(10), tail);
  }

  /**
   * Java `getVersionText`: `None` for 0 (nothing found), the chip names for
   * 1 and 'G', otherwise "Unknown version" with the character in quotes when
   * it is a letter or digit, else the number.
   */
  function VersionText(version: int): (t: Option<string>)
    ensures t.None? <==> version == 0
  {
    if version == 0 then None
    else if version == 1 then Some("P8X32A")
    else if version == 'G' as int then Some("P2X8C4M64P Rev B/C")
    else Some("Unknown version " + UnknownSuffix(version))
  }

  /** What follows "Unknown version " for a version without a name. */
  function UnknownSuffix(version: int): (t: string)
    ensures |t| >= 1 && (t[0] == '\'' <==> IsLetterOrDigit(version))
  {
    DecimalNotQuote(version);
    if IsLetterOrDigit(version) then "'" + [version as char] + "'" else Decimal(version)
  }

  predicate Named(version: int)
  {
    version == 1 || version == 'G' as int
  }

  lemma UnknownSuffixInjective(a: int, b: int)
    requires UnknownSuffix(a) == UnknownSuffix(b)
    ensures a == b
  {
    if IsLetterOrDigit(a) {
      assert UnknownSuffix(a)[1] == a as char && UnknownSuffix(b)[1] == b as char;
    } else {
      DecimalInjective(a, b);
    }
  }

  /** Different versions are shown differently. */
  lemma VersionTextInjective(a: int, b: int)
    requires VersionText(a) == VersionText(b)
    ensures a == b
  {
    if a != 0 && !Named(a) {
      var ta, tb := VersionText(a).value, VersionText(b).value;
      assert ta[0] == 'U';
      assert b != 0 && !Named(b);
      assert ta[16..] == UnknownSuffix(a) && tb[16..] == UnknownSuffix(b);
      UnknownSuffixInjective(a, b);
    } else if a != 0 {
      assert VersionText(a).value[0] == 'P';
    }
  }

  lemma DecimalNotQuote(v: int)
    ensures Decimal(v)[0] != '\''
  {
    if v >= 0 {
      assert IsDigitIn(Digits(v, 10)[0], 10);
    }
  }

  // ---------------------------------------------------------------------------
  // Probing a port

  /** The version `find` settles on for a port, from the reads after it is opened. */
  function FoundVersion(rx: seq<Rx>): (rc: int)
  {
    match P2Reply(rx)
    case Err(_) => 0
    case Ok(v) => if v != 0 then v else P1Reply(SecondLine(rx).rest).rc
  }

  /** Whether `find` goes on to the Propeller 1 probe. */
  predicate TriesP1(rx: seq<Rx>)
  {
    P2Reply(rx) == Ok(0)
  }

  /** What `find` sends on an opened port. */
  function FindWrites(rx: seq<Rx>): seq<PortEvent>
  {
    [Opened] + P2Writes() + (if TriesP1(rx) then P1Writes() else []) + [Closed]
  }

  /** The reads `find` leaves unread. */
  function FindRest(rx: seq<Rx>): seq<Rx>
  {
    if TriesP1(rx) then P1Reply(SecondLine(rx).rest).rest else SecondLine(rx).rest
  }

  /** A port with a Propeller 2 is never probed for a Propeller 1. */
  lemma P2Preferred(rx: seq<Rx>)
    requires P2Reply(rx).Ok? && P2Reply(rx).value != 0
    ensures FoundVersion(rx) == P2Reply(rx).value && !TriesP1(rx)
  {
  }

  /** An exception in the Propeller 2 probe ends the search: the Propeller 1 probe is skipped. */
  lemma P2ErrorSkipsP1(rx: seq<Rx>)
    requires P2Reply(rx).Err?
    ensures FoundVersion(rx) == 0 && !TriesP1(rx)
  {
  }

  /** The device kind `find` reports: 1 for a Propeller 1, 2 for any other answer. */
  function KindOf(rc: int): (k: int)
    ensures k == 1 <==> rc == 1
    ensures k == 1 || k == 2
  {
    if rc == 1 then 1 else 2
  }

  class DeviceDiscover {
    /** The shift register. */
    var lfsr: bv8

    constructor ()
    {
      lfsr := 0;
    }

    /** Java `iterate`: outputs the register's low bit and steps it. */
    method Iterate() returns (bit: int)
      modifies this
      ensures bit == OutBit(old(lfsr)) && lfsr == LfsrStep(old(lfsr))
    {
      bit := (lfsr & 1) as int;
      lfsr := LfsrStep(lfsr);
    }

    /** Seeds the register and fills the 250-byte challenge from it. */
    method MakeChallenge() returns (buffer: array<Byte>)
      modifies this
      ensures fresh(buffer) && buffer[..] == Challenge()
      ensures lfsr == LfsrState(Seed, ChallengeLength)
    {
      lfsr := Seed;
      buffer := new Byte[ChallengeLength];
      FillPattern(buffer);
    }

    /** The loop of `makeChallenge`: each byte carries the next output bit of the register. */
    method FillPattern(buffer: array<Byte>)
      modifies this, buffer
      ensures buffer[..] == Pattern(old(lfsr), buffer.Length)
      ensures lfsr == LfsrState(old(lfsr), buffer.Length)
    {
      ghost var start := lfsr;
      var n := 0;
      while n < buffer.Length
        invariant 0 <= n <= buffer.Length
        invariant lfsr == LfsrState(start, n)
        invariant buffer[..n] + Pattern(lfsr, buffer.Length - n) == Pattern(start, buffer.Length)
        modifies this, buffer
      {
        ghost var done := buffer[..n];
        PatternNext(done, lfsr, buffer.Length - n);
        LfsrStateNext(start, n);
        var bit := Iterate();
        buffer[n] := 0xFE + bit;
        assert buffer[..n + 1] == done + [0xFE + bit];
        n := n + 1;
      }
      assert buffer[..] == buffer[..n];
    }

    /** The echo comparison loop (rounds 1 to 249), after the first bit `ii0`. */
    method EchoLoop(port: ComPort, ii0: int) returns (matched: bool)
      modifies this, port
      ensures EchoFrom(old(port.rx), ii0, 1, old(lfsr)) == (if matched then Matched(port.rx) else Rejected(port.rx))
      ensures port.log == old(port.log) && port.isOpen == old(port.isOpen)
    {
      var ii := ii0;
      var n := 1;
      while n < EchoRounds
        invariant 1 <= n <= EchoRounds
        invariant EchoFrom(port.rx, ii, n, lfsr) == EchoFrom(old(port.rx), ii0, 1, old(lfsr))
        invariant port.log == old(port.log) && port.isOpen == old(port.isOpen)
        decreases EchoRounds - n
      {
        var jj := Iterate();
        if ii != jj {
          DrainPort(port);
          return false;
        }
        ii := AwaitBitFrom(port);
        if ii == -1 {
          return false;
        }
        n := n + 1;
      }
      return true;
    }

    /** The eight version reads. */
    method ReadVersion(port: ComPort) returns (rc: int)
      modifies port
      ensures VersionFrom(old(port.rx), 0, 0) == Probe(rc, port.rx)
      ensures port.log == old(port.log) && port.isOpen == old(port.isOpen)
    {
      rc := 0;
      var n := 0;
      while n < 8
        invariant 0 <= n <= 8 && 0 <= rc < 256
        invariant VersionFrom(port.rx, rc, n) == VersionFrom(old(port.rx), 0, 0)
        invariant port.log == old(port.log) && port.isOpen == old(port.isOpen)
      {
        rc := VersionBit(port, rc, n);
        n := n + 1;
      }
    }

    /**
     * Java `probeP1`: resets the chip at 115200 baud, sends the calibration
     * pulse, the challenge and 258 clocking bytes, then checks the echo and
     * reads the version; 0 when no Propeller 1 answers.
     */
    method ProbeP1(port: ComPort) returns (rc: int)
      modifies this, port
      ensures P1Reply(old(port.rx)) == Probe(rc, port.rx)
      ensures port.log == old(port.log) + P1Writes()
      ensures port.isOpen == old(port.isOpen)
    {
      ghost var rx0 := port.rx;
      port.SetParams(P1Baud);
      port.HwReset(P1ResetDelay);
      port.WriteInt(Calibration);
      var challenge := MakeChallenge();
      port.WriteBytes(challenge[..]);
      var clock := new Byte[ClockLength](_ => Calibration);
      port.WriteBytes(clock[..]);
      assert clock[..] == Repeat(ClockLength, Calibration);
      assert port.rx == rx0;
      var ii := GetBit(port, BitTimeout);
      if ii == -1 {
        return 0;
      }
      var matched := EchoLoop(port, ii);
      if !matched {
        return 0;
      }
      rc := ReadVersion(port);
    }

    /**
     * Java `probeP2`: resets the chip at 2 Mbaud, sends `Prop_Chk`, drops the
     * first reply line and decodes the second.
     */
    method ProbeP2(port: ComPort) returns (r: Result<int>)
      modifies port
      ensures r == P2Reply(old(port.rx))
      ensures port.rx == SecondLine(old(port.rx)).rest
      ensures port.log == old(port.log) + P2Writes()
      ensures port.isOpen == old(port.isOpen)
    {
      port.SetParams(P2Baud);
      port.HwReset(P2ResetDelay);
      port.WriteString(ProbeCommand);
      var first := ReadStringWithTimeout(port, LineTimeout);
      if first.Err? {
        return Err(first.message);
      }
      var result := ReadStringWithTimeout(port, LineTimeout);
      if result.Err? {
        return Err(result.message);
      }
      if StartsWith(result.value, VersionPrefix) {
        if |result.value| <= |VersionPrefix| {
          return Err("String index out of range: 9");
        }
        return Ok(result.value[|VersionPrefix|] as int);
      }
      return Ok(0);
    }

    /**
     * Java `find(SerialComPort)`: opens the port (an open failure propagates),
     * probes for a Propeller 2 and then a Propeller 1, closes the port, and
     * reports the device found, if any.
     */
    method Find(port: ComPort) returns (r: Result<Option<Device>>)
      requires !port.isOpen
      modifies this, port
      ensures !port.available ==> r.Err? && port.log == old(port.log) && port.rx == old(port.rx)
      ensures port.available ==> r.Ok? && !port.isOpen
      ensures port.available ==> port.log == old(port.log) + FindWrites(old(port.rx))
      ensures port.available ==> port.rx == FindRest(old(port.rx))
      ensures r.Ok? ==> (r.value.None? <==> FoundVersion(old(port.rx)) == 0)
      ensures r.Ok? && r.value.Some? ==>
                var d, rc := r.value.value, FoundVersion(old(port.rx));
                fresh(d) && d.serialPort == Some(port.portName) && d.name == VersionText(rc).value
                && d.version == KindOf(rc) && !d.selected && d.status == None
    {
      var open := port.OpenPort();
      if open.Fail? {
        return Err(open.message);
      }
      ghost var rx0 := port.rx;
      ghost var log0 := port.log;
      var rc := 0;
      var p2 := ProbeP2(port);
      if p2.Ok? {
        rc := p2.value;
        if rc == 0 {
          rc := ProbeP1(port);
        }
      }
      assert port.log == log0 + P2Writes() + (if TriesP1(rx0) then P1Writes() else []);
      // The probes leave the port open, so closing it cannot fail.
      var closed := port.ClosePort();
      assert closed == Pass;
      if rc != 0 {
        var d := new Device.Serial(VersionText(rc).value, KindOf(rc), Some(port.portName));
        return Ok(Some(d));
      }
      return Ok(None);
    }
  }

  /** Java `getBit`: one read, reduced to its low bit; -1 only on an I/O exception. */
  method GetBit(port: ComPort, timeout: int) returns (bit: int)
    modifies port
    ensures bit == BitOf(Next(old(port.rx))) && port.rx == Rest(old(port.rx))
    ensures port.log == old(port.log) && port.isOpen == old(port.isOpen)
  {
    var rx := port.ReadByteWithTimeout(timeout);
    bit := BitOf(rx);
  }

  /** One round of the version loop: `rc >>= 1`, then a 1 bit read sets bit 7. */
  method VersionBit(port: ComPort, rc: int, ghost n: nat) returns (rc': int)
    requires n < 8 && 0 <= rc < 256
    modifies port
    ensures 0 <= rc' < 256
    ensures VersionFrom(port.rx, rc', n + 1) == VersionFrom(old(port.rx), rc, n)
    ensures port.log == old(port.log) && port.isOpen == old(port.isOpen)
  {
    rc' := rc / 2;
    var ii := GetBit(port, BitTimeout);
    if ii != -1 {
      rc' := rc' + if ii != 0 then 0x80 else 0;
    }
  }

  /** The retry loop around `getBit` in each echo round; -1 once 101 reads have faulted. */
  method AwaitBitFrom(port: ComPort) returns (bit: int)
    modifies port
    ensures AwaitBit(old(port.rx), 0) == Read(bit, port.rx)
    ensures port.log == old(port.log) && port.isOpen == old(port.isOpen)
  {
    var to := 0;
    while true
      invariant 0 <= to <= MaxRetries
      invariant AwaitBit(port.rx, to) == AwaitBit(old(port.rx), 0)
      invariant port.log == old(port.log) && port.isOpen == old(port.isOpen)
      decreases MaxRetries - to
    {
      bit := GetBit(port, BitTimeout);
      if bit != -1 || to == MaxRetries {
        return;
      }
      to := to + 1;
    }
  }

  /** Up to 300 reads after a mismatch, until the line goes quiet. */
  method DrainPort(port: ComPort)
    modifies port
    ensures port.rx == Drain(old(port.rx), DrainLimit)
    ensures port.log == old(port.log) && port.isOpen == old(port.isOpen)
  {
    var n := 0;
    while n < DrainLimit
      invariant 0 <= n <= DrainLimit
      invariant Drain(port.rx, DrainLimit - n) == Drain(old(port.rx), DrainLimit)
      invariant port.log == old(port.log) && port.isOpen == old(port.isOpen)
    {
      var r := port.ReadByteWithTimeout(DrainTimeout);
      if !r.Got? {
        return;
      }
      n := n + 1;
    }
  }

  // ---------------------------------------------------------------------------
  // Merging and sorting what was found

  /** Adjacent devices are in `compareTo` order. */
  predicate Sorted(s: seq<Device>)
  {
    forall i :: 0 < i < |s| ==> Order(s[i - 1], s[i]) <= 0
  }

  /** Inserts `x` after every device that does not sort after it (so equal devices keep their order). */
  function Insert(x: Device, s: seq<Device>): (r: seq<Device>)
    requires Sorted(s)
    ensures multiset(r) == multiset(s) + multiset{x}
    ensures Sorted(r)
    ensures |r| == |s| + 1
    ensures r[|r| - 1] == x || (s != [] && r[|r| - 1] == s[|s| - 1])
    decreases |s|
  {
    if s == [] then [x]
    else if Order(s[|s| - 1], x) <= 0 then
      s + [x]
    else
      SortedInit(s);
      var r0 := Insert(x, s[..|s| - 1]);
      InsertBeforeLast(x, s, r0);
      r0 + [s[|s| - 1]]
  }

  /** Dropping the last device keeps a list sorted. */
  lemma SortedInit(s: seq<Device>)
    requires Sorted(s) && s != []
    ensures Sorted(s[..|s| - 1])
  {
    var init := s[..|s| - 1];
    forall i | 0 < i < |init|
      ensures Order(init[i - 1], init[i]) <= 0
    {
      assert init[i - 1] == s[i - 1] && init[i] == s[i];
    }
  }

  /**
   * The recursive case of `Insert`: `x` sorts before the last device, so it
   * goes into the rest of the list, and the last device goes back at the end.
   */
  lemma InsertBeforeLast(x: Device, s: seq<Device>, r0: seq<Device>)
    requires Sorted(s) && s != [] && Order(s[|s| - 1], x) > 0
    requires multiset(r0) == multiset(s[..|s| - 1]) + multiset{x} && Sorted(r0) && r0 != []
    requires r0[|r0| - 1] == x || (|s| > 1 && r0[|r0| - 1] == s[|s| - 2])
    ensures multiset(r0 + [s[|s| - 1]]) == multiset(s) + multiset{x}
    ensures Sorted(r0 + [s[|s| - 1]])
  {
    var init, last := s[..|s| - 1], s[|s| - 1];
    OrderAntisymmetric(last, x);
    assert s == init + [last];
    if r0[|r0| - 1] != x {
      assert Order(s[|s| - 2], last) <= 0;
    }
    SortedSnoc(r0, last);
  }

  /** A sorted list stays sorted when a device that does not sort before its last one is appended. */
  lemma SortedSnoc(r: seq<Device>, last: Device)
    requires Sorted(r) && (r != [] ==> Order(r[|r| - 1], last) <= 0)
    ensures Sorted(r + [last])
  {
    var t := r + [last];
    forall i | 0 < i < |t|
      ensures Order(t[i - 1], t[i]) <= 0
    {
      if i < |r| {
        assert t[i - 1] == r[i - 1] && t[i] == r[i];
      }
    }
  }

  /** A stable insertion sort by `compareTo`, as `Collections.sort` orders the list. */
  function SortDevices(s: seq<Device>): (r: seq<Device>)
    ensures multiset(r) == multiset(s)
    ensures Sorted(r)
    decreases |s|
  {
    if s == [] then []
    else
      assert s == s[..|s| - 1] + [s[|s| - 1]];
      Insert(s[|s| - 1], SortDevices(s[..|s| - 1]))
  }

  /**
   * Java `find(local, network, listener)`: the local devices, then the network
   * devices, each list only when asked for, sorted; the listener receives this.
   */
  function Discovered(local: bool, network: bool, localDevices: seq<Device>, networkDevices: seq<Device>): (r: seq<Device>)
    ensures multiset(r) == multiset((if local then localDevices else []) + (if network then networkDevices else []))
    ensures Sorted(r)
  {
    SortDevices((if local then localDevices else []) + (if network then networkDevices else []))
  }

  /** When every device is located, the adjacent order is the order of every pair. */
  lemma {:induction false} SortedPairwise(s: seq<Device>)
    requires Sorted(s) && forall i :: 0 <= i < |s| ==> Located(s[i])
    ensures forall i, j :: 0 <= i < j < |s| ==> Order(s[i], s[j]) <= 0
    decreases |s|
  {
    if |s| > 1 {
      var t := s[..|s| - 1];
      assert forall i :: 0 <= i < |t| ==> t[i] == s[i];
      SortedPairwise(t);
      forall i | 0 <= i < |s| - 1
        ensures Order(s[i], s[|s| - 1]) <= 0
      {
        if i < |s| - 2 {
          assert Order(t[i], t[|s| - 2]) <= 0;
          OrderTransitive(s[i], s[|s| - 2], s[|s| - 1]);
        }
      }
    }
  }

  /** In a sorted list of located devices every serial device precedes every network device. */
  lemma SerialDevicesFirst(s: seq<Device>, i: nat, j: nat)
    requires Sorted(s) && forall k :: 0 <= k < |s| ==> Located(s[k])
    requires i < j < |s| && s[j].serialPort.Some?
    ensures s[i].serialPort.Some?
  {
    SortedPairwise(s);
    assert Order(s[i], s[j]) <= 0;
  }
}
