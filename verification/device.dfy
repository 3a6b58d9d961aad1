/**
 * A Propeller board found on a serial port or on the network: its identity
 * (where it is), what it is (name and chip version), and the selection and
 * status the update screen keeps for it.
 */
module Devices {
  import opened Results
  import opened Bytes
  import opened Text

  /** The four bytes `Inet4Address.getAddress()` returns, read unsigned. */
  type IPv4 = a: seq<Byte> | |a| == 4 witness [0, 0, 0, 0]

  /** The three fields that say where a device is; `equals` and `hashCode` use exactly these. */
  datatype Location = Location(inetAddr: Option<IPv4>, macAddr: Option<string>, serialPort: Option<string>)

  class Device {
    const name: string
    const version: int
    const serialPort: Option<string>
    const inetAddr: Option<IPv4>
    const macAddr: Option<string>
    const resetPin: Option<string>
    var selected: bool
    /** `null` until an update runs on the device, then 0 (done) or 1 (failed). */
    var status: Option<int>

    /** A device found on a serial port. */
    constructor Serial(name: string, version: int, serialPort: Option<string>)
      ensures this.name == name && this.version == version && this.serialPort == serialPort
      ensures inetAddr == None && macAddr == None && resetPin == None
      ensures !selected && status == None
    {
      this.name := name;
      this.version := version;
      this.serialPort := serialPort;
      inetAddr := None;
      macAddr := None;
      resetPin := None;
      selected := false;
      status := None;
    }

    /** A device that answered the network discovery. */
    constructor Network(name: string, version: int, inetAddr: Option<IPv4>, macAddr: Option<string>, resetPin: Option<string>)
      ensures this.name == name && this.version == version && serialPort == None
      ensures this.inetAddr == inetAddr && this.macAddr == macAddr && this.resetPin == resetPin
      ensures !selected && status == None
    {
      this.name := name;
      this.version := version;
      serialPort := None;
      this.inetAddr := inetAddr;
      this.macAddr := macAddr;
      this.resetPin := resetPin;
      selected := false;
      status := None;
    }

    function Where(): Location
    {
      Location(inetAddr, macAddr, serialPort)
    }

    /** Java `equals`: the same object, or the same address, MAC address and serial port. */
    predicate Equals(o: Device)
    {
      this == o || Where() == o.Where()
    }

    /** Java `hashCode`: `Objects.hash(inetAddr, macAddr, serialPort)`, as a 32-bit pattern. */
    function HashCode(): (h: int)
      ensures 0 <= h < U32
    {
      ObjectsHash3(OptionHash(inetAddr, AddressHash), OptionHash(macAddr, StringHash), OptionHash(serialPort, StringHash))
    }

    /**
     * The text shown for where the device is: the serial port name, otherwise
     * the dotted address (Java dereferences the address, so one of the two
     * must be present).
     */
    function PortDescription(): (d: string)
      requires serialPort.Some? || inetAddr.Some?
      ensures serialPort.Some? ==> d == serialPort.value
      ensures serialPort.None? ==> d == HostAddress(inetAddr.value)
    {
      if serialPort.Some? then serialPort.value else HostAddress(inetAddr.value)
    }

    /** Java `compareTo`; the address comparison is the loop over the address bytes. */
    method CompareTo(o: Device) returns (r: int)
      ensures r == Order(this, o)
    {
      if serialPort.Some? && o.serialPort.None? {
        return -1;
      }
      if serialPort.None? && o.serialPort.Some? {
        return 1;
      }
      if serialPort.Some? && o.serialPort.Some? {
        return CompareStrings(serialPort.value, o.serialPort.value);
      }
      if inetAddr.Some? && o.inetAddr.Some? {
        var our, other := inetAddr.value, o.inetAddr.value;
        var i := 0;
        while i < |our|
          invariant 0 <= i <= |our|
          invariant AddressOrder(our[i..], other[i..]) == AddressOrder(our, other)
        {
          if our[i] != other[i] {
            return Signed(our[i]) - Signed(other[i]);
          }
          i := i + 1;
        }
        return 0;
      }
      return 0;
    }

    method SetSelected(selected: bool)
      modifies this
      ensures this.selected == selected && status == old(status)
    {
      this.selected := selected;
    }

    method SetStatus(status: Option<int>)
      modifies this
      ensures this.status == status && selected == old(selected)
    {
      this.status := status;
    }

    method ClearStatus()
      modifies this
      ensures status == None && selected == old(selected)
    {
      status := None;
    }
  }

  /** Java `String.hashCode`: `s[0]*31^(n-1) + ... + s[n-1]` in 32-bit arithmetic. */
  function StringHash(s: string): (h: int)
    ensures 0 <= h < U32
    decreases |s|
  {
    if s == [] then 0 else (31 * StringHash(s[..|s| - 1]) + s[|s| - 1] as int) % U32
  }

  /** `Inet4Address.hashCode`: the address as a big-endian 32-bit number. */
  function AddressHash(a: IPv4): (h: int)
    ensures 0 <= h < U32
  {
    (a[0] as int) * 0x100_0000 + (a[1] as int) * 0x1_0000 + (a[2] as int) * 0x100 + a[3] as int
  }

  /** The hash `Objects.hash` takes of one argument: 0 for `null`. */
  function OptionHash<T>(x: Option<T>, hash: T -> int): int
  {
    if x.Some? then hash(x.value) else 0
  }

  /** `Objects.hash(a, b, c)`: `31 * (31 * (31 + a) + b) + c` in 32-bit arithmetic. */
  function ObjectsHash3(a: int, b: int, c: int): (h: int)
    ensures 0 <= h < U32
  {
    (31 * (31 * (31 + a) + b) + c) % U32
  }

  /** `InetAddress.getHostAddress()` for IPv4: the four bytes in decimal, separated by dots. */
  function HostAddress(a: IPv4): string
  {
    Decimal(a[0]) + "." + (Decimal(a[1]) + "." + (Decimal(a[2]) + "." + Decimal(a[3])))
  }

  /**
   * How Java's `compareTo` compares two addresses: by the first differing byte,
   * the difference taken between the bytes read signed.
   */
  function AddressOrder(a: seq<Byte>, b: seq<Byte>): int
    requires |a| == |b|
    decreases |a|
  {
    if a == [] then 0
    else if a[0] != b[0] then Signed(a[0]) - Signed(b[0])
    else AddressOrder(a[1..], b[1..])
  }

  /** The order `compareTo` defines: serial devices first, by port name; then by address. */
  function Order(a: Device, b: Device): int
  {
    if a.serialPort.Some? && b.serialPort.None? then -1
    else if a.serialPort.None? && b.serialPort.Some? then 1
    else if a.serialPort.Some? && b.serialPort.Some? then CompareStrings(a.serialPort.value, b.serialPort.value)
    else if a.inetAddr.Some? && b.inetAddr.Some? then AddressOrder(a.inetAddr.value, b.inetAddr.value)
    else 0
  }

  /** A device the discovery can report: it has a serial port or an address. */
  predicate Located(d: Device)
  {
    d.serialPort.Some? || d.inetAddr.Some?
  }

  /** `equals` is an equivalence relation. */
  lemma EqualsEquivalence(a: Device, b: Device, c: Device)
    ensures a.Equals(a)
    ensures a.Equals(b) ==> b.Equals(a)
    ensures a.Equals(b) && b.Equals(c) ==> a.Equals(c)
  {
  }

  /** Equal devices have equal hash codes, as the `hashCode` contract demands. */
  lemma EqualsHashCode(a: Device, b: Device)
    requires a.Equals(b)
    ensures a.HashCode() == b.HashCode()
  {
  }

  lemma {:induction false} AddressOrderAntisymmetric(a: seq<Byte>, b: seq<Byte>)
    requires |a| == |b|
    ensures AddressOrder(a, b) == -AddressOrder(b, a)
    decreases |a|
  {
    if a != [] && a[0] == b[0] {
      AddressOrderAntisymmetric(a[1..], b[1..]);
    }
  }

  lemma {:induction false} AddressOrderZero(a: seq<Byte>, b: seq<Byte>)
    requires |a| == |b|
    ensures AddressOrder(a, b) == 0 <==> a == b
    decreases |a|
  {
    if a != [] {
      if a[0] == b[0] {
        AddressOrderZero(a[1..], b[1..]);
        assert a == [a[0]] + a[1..] && b == [b[0]] + b[1..];
      } else {
        SignedInjective(a[0], b[0]);
      }
    }
  }

  lemma SignedInjective(x: Byte, y: Byte)
    requires x != y
    ensures Signed(x) != Signed(y)
  {
  }

  lemma {:induction false} AddressOrderTransitive(a: seq<Byte>, b: seq<Byte>, c: seq<Byte>)
    requires |a| == |b| == |c|
    requires AddressOrder(a, b) <= 0 && AddressOrder(b, c) <= 0
    ensures AddressOrder(a, c) <= 0
    decreases |a|
  {
    if a != [] {
      if a[0] == b[0] && b[0] == c[0] {
        AddressOrderTransitive(a[1..], b[1..], c[1..]);
      } else if a[0] == b[0] {
        SignedInjective(b[0], c[0]);
      } else if b[0] == c[0] {
        SignedInjective(a[0], b[0]);
      } else {
        SignedInjective(a[0], b[0]);
        SignedInjective(b[0], c[0]);
        SignedInjective(a[0], c[0]);
      }
    }
  }

  /** Swapping the operands of `compareTo` negates the result. */
  lemma OrderAntisymmetric(a: Device, b: Device)
    ensures Order(a, b) == -Order(b, a)
  {
    if a.serialPort.Some? && b.serialPort.Some? {
      LexCompareAntisymmetric(Codes(a.serialPort.value), Codes(b.serialPort.value));
    } else if a.serialPort.None? && b.serialPort.None? && a.inetAddr.Some? && b.inetAddr.Some? {
      AddressOrderAntisymmetric(a.inetAddr.value, b.inetAddr.value);
    }
  }

  /** A serial device sorts before every network device. */
  lemma SerialFirst(a: Device, b: Device)
    requires a.serialPort.Some? && b.serialPort.None?
    ensures Order(a, b) < 0 && Order(b, a) > 0
  {
  }

  /** Two located devices of the same kind compare equal exactly when they are at the same place. */
  lemma OrderZero(a: Device, b: Device)
    requires Located(a) && Located(b)
    ensures Order(a, b) == 0 <==> a.serialPort == b.serialPort && (a.serialPort.None? ==> a.inetAddr == b.inetAddr)
  {
    if a.serialPort.Some? && b.serialPort.Some? {
      LexCompareZero(Codes(a.serialPort.value), Codes(b.serialPort.value));
      CodesInjective(a.serialPort.value, b.serialPort.value);
    } else if a.serialPort.None? && b.serialPort.None? {
      AddressOrderZero(a.inetAddr.value, b.inetAddr.value);
    }
  }

  lemma CodesInjective(s: string, t: string)
    ensures Codes(s) == Codes(t) <==> s == t
  {
    if Codes(s) == Codes(t) {
      assert |s| == |t|;
      forall i | 0 <= i < |s|
        ensures s[i] == t[i]
      {
        assert Codes(s)[i] == Codes(t)[i];
      }
    }
  }

  /** Among located devices `compareTo` is a total preorder, which sorting relies on. */
  lemma OrderTransitive(a: Device, b: Device, c: Device)
    requires Located(a) && Located(b) && Located(c)
    requires Order(a, b) <= 0 && Order(b, c) <= 0
    ensures Order(a, c) <= 0
  {
    if a.serialPort.Some? && b.serialPort.Some? && c.serialPort.Some? {
      LexCompareTransitive(Codes(a.serialPort.value), Codes(b.serialPort.value), Codes(c.serialPort.value));
    } else if a.serialPort.None? && b.serialPort.None? && c.serialPort.None? {
      AddressOrderTransitive(a.inetAddr.value, b.inetAddr.value, c.inetAddr.value);
    }
  }

  predicate NoDot(s: string)
  {
    forall i :: 0 <= i < |s| ==> s[i] != '.'
  }

  lemma DecimalNoDot(v: Byte)
    ensures NoDot(Decimal(v))
  {
    var t := Digits(v, 10);
    forall i | 0 <= i < |t|
      ensures t[i] != '.'
    {
      assert IsDigitIn(t[i], 10);
    }
  }

  /** The first dot of `x + "." + r` is the one after `x`. */
  lemma FirstDot(x: string, r: string)
    requires NoDot(x)
    ensures forall i :: 0 <= i < |x| ==> (x + "." + r)[i] != '.'
    ensures (x + "." + r)[|x|] == '.'
  {
  }

  /** A field without dots followed by a dot splits only one way. */
  lemma SplitAtDot(x: string, y: string, r1: string, r2: string)
    requires NoDot(x) && NoDot(y)
    requires x + "." + r1 == y + "." + r2
    ensures x == y && r1 == r2
  {
    FirstDot(x, r1);
    FirstDot(y, r2);
    var l := x + "." + r1;
    assert |x| == |y|;
    assert x == l[..|x|] && r1 == l[|x| + 1..];
  }

  /** One decimal field and its dot. */
  lemma SplitField(x: Byte, y: Byte, r1: string, r2: string)
    requires Decimal(x) + "." + r1 == Decimal(y) + "." + r2
    ensures x == y && r1 == r2
  {
    DecimalNoDot(x);
    DecimalNoDot(y);
    SplitAtDot(Decimal(x), Decimal(y), r1, r2);
    DecimalInjective(x, y);
  }

  /** Distinct addresses are described differently: the dotted text determines the address. */
  lemma HostAddressInjective(a: IPv4, b: IPv4)
    requires HostAddress(a) == HostAddress(b)
    ensures a == b
  {
    SplitField(a[0], b[0], Decimal(a[1]) + "." + (Decimal(a[2]) + "." + Decimal(a[3])), Decimal(b[1]) + "." + (Decimal(b[2]) + "." + Decimal(b[3])));
    SplitField(a[1], b[1], Decimal(a[2]) + "." + Decimal(a[3]), Decimal(b[2]) + "." + Decimal(b[3]));
    SplitField(a[2], b[2], Decimal(a[3]), Decimal(b[3]));
    DecimalInjective(a[3], b[3]);
    assert a == [a[0], a[1], a[2], a[3]] && b == [b[0], b[1], b[2], b[3]];
  }

  /** Two network devices with the same description are at the same address. */
  lemma PortDescriptionIdentifies(a: Device, b: Device)
    requires a.serialPort.None? && b.serialPort.None? && a.inetAddr.Some? && b.inetAddr.Some?
    requires a.PortDescription() == b.PortDescription()
    ensures a.inetAddr == b.inetAddr
  {
    HostAddressInjective(a.inetAddr.value, b.inetAddr.value);
  }
}
