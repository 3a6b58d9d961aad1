/**
 * A firmware pack: a list of firmware images with the discovery flags that
 * go with it. The list holds references; Java's `List.remove(Object)` finds
 * a firmware with `equals`, which `Firmware` does not override, so it is
 * found by identity.
 */
module FirmwarePacks {
  import opened Firmwares

  /** `s` with the first occurrence of `x` taken out; `s` itself when `x` is absent. */
  function RemoveFirst<T(==)>(s: seq<T>, x: T): (r: seq<T>)
    decreases |s|
  {
    if s == [] then []
    else if s[0] == x then s[1..]
    else [s[0]] + RemoveFirst(s[1..], x)
  }

  /** Removing an element that is not there changes nothing. */
  lemma {:induction false} RemoveAbsent<T>(s: seq<T>, x: T)
    requires x !in s
    ensures RemoveFirst(s, x) == s
    decreases |s|
  {
    if s != [] {
      assert s[1..] + [] == s[1..];
      assert x !in s[1..] by {
        forall i | 0 <= i < |s| - 1
          ensures s[1..][i] != x
        {
          assert s[1..][i] == s[i + 1];
        }
      }
      RemoveAbsent(s[1..], x);
      assert [s[0]] + s[1..] == s;
    }
  }

  /** Removing the first occurrence, at index `i`, closes the gap it leaves. */
  lemma {:induction false} RemoveAt<T>(s: seq<T>, x: T, i: nat)
    requires i < |s| && s[i] == x && x !in s[..i]
    ensures RemoveFirst(s, x) == s[..i] + s[i + 1..]
    decreases i
  {
    if i > 0 {
      assert s[0] in s[..i];
      assert s[1..][..i - 1] == s[1..i];
      var u := s[1..][..i - 1];
      assert x !in u by {
        forall k | 0 <= k < |u|
          ensures u[k] != x
        {
          assert u[k] == s[..i][k + 1];
        }
      }
      RemoveAt(s[1..], x, i - 1);
      assert s[1..][i - 1 + 1..] == s[i + 1..];
      assert [s[0]] + s[1..i] == s[..i];
    }
  }

  /** Removing what was just added at the end gives back the list, when it was not there before. */
  lemma RemoveAfterAdd<T>(s: seq<T>, x: T)
    requires x !in s
    ensures RemoveFirst(s + [x], x) == s
  {
    var t := s + [x];
    assert t[..|s|] == s;
    RemoveAt(t, x, |s|);
    assert t[|s| + 1..] == [];
  }

  /** Removal takes out exactly one copy, or none when there is none. */
  lemma {:induction false} RemoveCount<T>(s: seq<T>, x: T)
    ensures x in s ==> multiset(RemoveFirst(s, x)) == multiset(s) - multiset{x}
    ensures x !in s ==> RemoveFirst(s, x) == s
    decreases |s|
  {
    if x !in s {
      RemoveAbsent(s, x);
    } else if s[0] != x {
      assert x in s[1..] by {
        var i :| 0 <= i < |s| && s[i] == x;
        assert s[1..][i - 1] == x;
      }
      RemoveCount(s[1..], x);
      assert s == [s[0]] + s[1..];
    } else {
      assert s == [s[0]] + s[1..];
    }
  }

  class FirmwarePack {
    var firmwareList: seq<Firmware>
    var enableLocal: bool
    var enableNetwork: bool

    /** A new pack: no firmware, local discovery on, network discovery off. */
    constructor ()
      ensures firmwareList == [] && enableLocal && !enableNetwork
    {
      firmwareList := [];
      enableLocal := true;
      enableNetwork := false;
    }

    method SetEnableLocal(enableLocal: bool)
      modifies this
      ensures this.enableLocal == enableLocal
      ensures enableNetwork == old(enableNetwork) && firmwareList == old(firmwareList)
    {
      this.enableLocal := enableLocal;
    }

    method SetEnableNetwork(enableNetwork: bool)
      modifies this
      ensures this.enableNetwork == enableNetwork
      ensures enableLocal == old(enableLocal) && firmwareList == old(firmwareList)
    {
      this.enableNetwork := enableNetwork;
    }

    /** Appends at the end. */
    method AddFirmware(firmware: Firmware)
      modifies this
      ensures firmwareList == old(firmwareList) + [firmware]
      ensures enableLocal == old(enableLocal) && enableNetwork == old(enableNetwork)
    {
      firmwareList := firmwareList + [firmware];
    }

    /** Removes the first occurrence of this very firmware, if any. */
    method RemoveFirmware(firmware: Firmware)
      modifies this
      ensures firmwareList == RemoveFirst(old(firmwareList), firmware)
      ensures enableLocal == old(enableLocal) && enableNetwork == old(enableNetwork)
    {
      var i := 0;
      while i < |firmwareList| && firmwareList[i] != firmware
        invariant 0 <= i <= |firmwareList|
        invariant firmware !in firmwareList[..i]
      {
        assert firmwareList[..i + 1] == firmwareList[..i] + [firmwareList[i]];
        i := i + 1;
      }
      if i < |firmwareList| {
        RemoveAt(firmwareList, firmware, i);
        firmwareList := firmwareList[..i] + firmwareList[i + 1..];
      } else {
        assert firmwareList[..i] == firmwareList;
        RemoveAbsent(firmwareList, firmware);
      }
    }
  }
}
