/**
 * The loader's parameter state: the chosen file, the firmware list and the
 * selected firmware, the known devices and whether all or only the selected
 * ones are updated, and the discovery flags. Every setter fires a
 * property-change event the way `java.beans.PropertyChangeSupport` does; the
 * model records the names of the events fired, in order, in `changes`.
 */
module Parameters {
  import opened Results
  import opened Devices
  import opened Firmwares
  import opened FirmwarePacks

  const PropFile := "file"
  const PropFirmwareList := "firmwareList"
  const PropFirmware := "firmware"
  const PropUpdateAll := "updateAll"
  const PropDevices := "devices"
  const PropEnableLocal := "enableLocal"
  const PropEnableNetwork := "enableNetwork"
  const PropDeviceSelection := "deviceSelection"

  /** The event `firePropertyChange` sends, if it sends one. */
  function Fired(name: string, fires: bool): seq<string>
  {
    if fires then [name] else []
  }

  /**
   * Whether `firePropertyChange(name, before, after)` sends an event for
   * objects compared with `equals`: always when either side is `null`,
   * otherwise only when they differ.
   */
  predicate FileChanges(before: Option<string>, after: Option<string>)
  {
    before.None? || after.None? || before != after
  }

  predicate FirmwareChanges(before: Firmware?, after: Firmware?)
  {
    before == null || after == null || before != after
  }

  // ---------------------------------------------------------------------------
  // Reconciling the device list

  /** Java `s.contains(d)`: some element of `s` is `equals` to `d`. */
  predicate Holds(s: seq<Device>, d: Device)
  {
    exists h :: h in s && d.Equals(h)
  }

  /** The first loop of `setDevices`: each incoming device not yet held is appended. */
  function AddNew(held: seq<Device>, incoming: seq<Device>): (r: seq<Device>)
    decreases |incoming|
  {
    if incoming == [] then held
    else AddNew(if Holds(held, incoming[0]) then held else held + [incoming[0]], incoming[1..])
  }

  /** The second loop of `setDevices`: held devices that no incoming device equals are dropped. */
  function KeepListed(held: seq<Device>, incoming: seq<Device>): (r: seq<Device>)
    decreases |held|
  {
    if held == [] then []
    else (if Holds(incoming, held[0]) then [held[0]] else []) + KeepListed(held[1..], incoming)
  }

  /** `KeepListed` from index `j` on, with the device at `j` decided. */
  lemma KeepListedAt(held: seq<Device>, j: nat, incoming: seq<Device>)
    requires j < |held|
    ensures KeepListed(held[j..], incoming)
         == (if Holds(incoming, held[j]) then [held[j]] else []) + KeepListed(held[j + 1..], incoming)
  {
    assert held[j..][1..] == held[j + 1..];
  }

  /** What `setDevices(incoming)` leaves in the list that held `held`. */
  function Reconcile(held: seq<Device>, incoming: seq<Device>): seq<Device>
  {
    KeepListed(AddNew(held, incoming), incoming)
  }

  /** The devices `setDevices` appends: the part of `AddNew` after the old list. */
  function NewOnes(held: seq<Device>, incoming: seq<Device>): (r: seq<Device>)
    requires |held| <= |AddNew(held, incoming)|
  {
    AddNew(held, incoming)[|held|..]
  }

  /** `AddNew` only ever appends, and only incoming devices that no earlier element equals. */
  lemma {:induction false} AddNewExtends(held: seq<Device>, incoming: seq<Device>)
    ensures |held| <= |AddNew(held, incoming)| && AddNew(held, incoming)[..|held|] == held
    ensures forall j :: |held| <= j < |AddNew(held, incoming)| ==>
              AddNew(held, incoming)[j] in incoming && !Holds(AddNew(held, incoming)[..j], AddNew(held, incoming)[j])
    decreases |incoming|
  {
    if incoming != [] {
      var x := incoming[0];
      var next := if Holds(held, x) then held else held + [x];
      AddNewExtends(next, incoming[1..]);
      var r := AddNew(held, incoming);
      assert r == AddNew(next, incoming[1..]);
      assert r[..|held|] == held by {
        assert r[..|next|][..|held|] == held;
      }
      forall j | |held| <= j < |r|
        ensures r[j] in incoming && !Holds(r[..j], r[j])
      {
        if j >= |next| {
          assert r[j] in incoming[1..];
        } else {
          assert r[j] == x && r[..j] == held;
        }
      }
    }
  }

  /** `KeepListed` is a filter, so it distributes over concatenation. */
  lemma {:induction false} KeepListedAppend(a: seq<Device>, b: seq<Device>, incoming: seq<Device>)
    ensures KeepListed(a + b, incoming) == KeepListed(a, incoming) + KeepListed(b, incoming)
    decreases |a|
  {
    if a != [] {
      assert (a + b)[1..] == a[1..] + b;
      KeepListedAppend(a[1..], b, incoming);
    } else {
      assert a + b == b;
    }
  }

  /** `KeepListed` keeps exactly the held devices that some incoming device equals. */
  lemma {:induction false} KeepListedMembers(held: seq<Device>, incoming: seq<Device>)
    ensures forall d :: d in KeepListed(held, incoming) <==> d in held && Holds(incoming, d)
    decreases |held|
  {
    if held != [] {
      KeepListedMembers(held[1..], incoming);
      assert held == [held[0]] + held[1..];
    }
  }

  /** Devices taken over from the incoming list pass the second loop. */
  lemma {:induction false} KeepIncoming(s: seq<Device>, incoming: seq<Device>)
    requires forall d :: d in s ==> d in incoming
    ensures KeepListed(s, incoming) == s
    decreases |s|
  {
    if s != [] {
      assert s[0].Equals(s[0]);
      assert Holds(incoming, s[0]);
      KeepIncoming(s[1..], incoming);
      assert s == [s[0]] + s[1..];
    }
  }

  /**
   * The shape of the result: the old devices that are still reported, in their
   * old order and as the same objects, followed by the newly reported ones.
   */
  lemma ReconcileShape(held: seq<Device>, incoming: seq<Device>)
    ensures |held| <= |AddNew(held, incoming)|
    ensures Reconcile(held, incoming) == KeepListed(held, incoming) + NewOnes(held, incoming)
  {
    AddNewExtends(held, incoming);
    var r := AddNew(held, incoming);
    assert r == held + r[|held|..];
    KeepListedAppend(held, r[|held|..], incoming);
    KeepIncoming(r[|held|..], incoming);
  }

  /** A newly added device equals no device before it: equal incoming devices are added once. */
  lemma NewOnesDistinct(held: seq<Device>, incoming: seq<Device>, i: nat, j: nat)
    requires |held| <= |AddNew(held, incoming)|
    requires i < j < |AddNew(held, incoming)| && |held| <= j
    ensures !AddNew(held, incoming)[j].Equals(AddNew(held, incoming)[i])
  {
    AddNewExtends(held, incoming);
    var r := AddNew(held, incoming);
    assert r[i] in r[..j];
  }

  /** Every device held after `setDevices` equals one of the reported devices. */
  lemma ReconcileSound(held: seq<Device>, incoming: seq<Device>, d: Device)
    requires d in Reconcile(held, incoming)
    ensures Holds(incoming, d)
  {
    KeepListedMembers(AddNew(held, incoming), incoming);
  }

  /** Every reported device equals one held after `setDevices`. */
  lemma ReconcileComplete(held: seq<Device>, incoming: seq<Device>, d: Device)
    requires d in incoming
    ensures Holds(Reconcile(held, incoming), d)
  {
    var r := AddNew(held, incoming);
    AddNewCovers(held, incoming, d);
    var h :| h in r && d.Equals(h);
    assert h.Equals(d);
    assert Holds(incoming, h);
    KeepListedMembers(r, incoming);
    assert h in Reconcile(held, incoming);
  }

  /** After the first loop every incoming device has an equal in the list. */
  lemma {:induction false} AddNewCovers(held: seq<Device>, incoming: seq<Device>, d: Device)
    requires d in incoming || Holds(held, d)
    ensures Holds(AddNew(held, incoming), d)
    decreases |incoming|
  {
    if incoming != [] {
      var x := incoming[0];
      var next := if Holds(held, x) then held else held + [x];
      assert Holds(next, x) by {
        if !Holds(held, x) {
          assert x in next && x.Equals(x);
        }
      }
      assert Holds(held, d) ==> Holds(next, d) by {
        if Holds(held, d) {
          var h :| h in held && d.Equals(h);
          assert h in next;
        }
      }
      if d != x {
        assert d in incoming[1..] || Holds(next, d);
      } else {
        assert Holds(next, d);
      }
      AddNewCovers(next, incoming[1..], d);
    }
  }

  /** A held device that is reported again keeps its place as the same object. */
  lemma ReconcileKeeps(held: seq<Device>, incoming: seq<Device>, d: Device)
    requires d in held && Holds(incoming, d)
    ensures d in Reconcile(held, incoming)
  {
    ReconcileShape(held, incoming);
    KeepListedMembers(held, incoming);
  }

  // ---------------------------------------------------------------------------
  // Selection

  /** The selected devices of `s`, in order. */
  function SelectedIn(s: seq<Device>): seq<Device>
    reads s
    decreases |s|
  {
    if s == [] then []
    else (if s[0].selected then [s[0]] else []) + SelectedIn(s[1..])
  }

  /** Exactly the selected devices of `s` are kept, and nothing is added. */
  lemma {:induction false} SelectedInMembers(s: seq<Device>)
    ensures forall d :: d in SelectedIn(s) ==> d in s && d.selected
    ensures forall i :: 0 <= i < |s| && s[i].selected ==> s[i] in SelectedIn(s)
    ensures |SelectedIn(s)| <= |s|
    decreases |s|
  {
    if s != [] {
      SelectedInMembers(s[1..]);
      var r := SelectedIn(s);
      forall i | 0 <= i < |s| && s[i].selected
        ensures s[i] in r
      {
        if i > 0 {
          assert s[i] == s[1..][i - 1];
        }
      }
      forall d | d in r
        ensures d in s && d.selected
      {
        if d != s[0] {
          assert d in SelectedIn(s[1..]);
        }
      }
    }
  }
  /** `SelectedIn` from index `i` on, with the device at `i` decided. */
  lemma SelectedInAt(s: seq<Device>, i: nat)
    requires i < |s|
    ensures SelectedIn(s[i..]) == (if s[i].selected then [s[i]] else []) + SelectedIn(s[i + 1..])
  {
    assert s[i..][1..] == s[i + 1..];
  }


  class LoaderParameters {
    var file: Option<string>
    var firmwareList: seq<Firmware>
    var updateAll: bool
    var devices: seq<Device>
    var enableLocal: bool
    var enableNetwork: bool
    var firmware: Firmware?
    /** The property-change events fired so far, by property name. */
    var changes: seq<string>

    /** A new parameter set: update all, local discovery only, nothing chosen yet. */
    constructor ()
      ensures updateAll && enableLocal && !enableNetwork
      ensures devices == [] && firmwareList == [] && firmware == null && file == None
      ensures changes == []
    {
      file := None;
      firmwareList := [];
      updateAll := true;
      devices := [];
      enableLocal := true;
      enableNetwork := false;
      firmware := null;
      changes := [];
    }

    /** The devices an update goes to: all of them, or the selected ones in order. */
    function SelectedDevices(): (r: seq<Device>)
      reads this, devices
      ensures forall d :: d in r ==> d in devices && (updateAll || d.selected)
      ensures forall i :: 0 <= i < |devices| && (updateAll || devices[i].selected) ==> devices[i] in r
    {
      if updateAll then devices else SelectedInMembers(devices); SelectedIn(devices)
    }

    /** Java `canDoUpdate`. */
    predicate CanDoUpdate()
      reads this, firmware, devices
      ensures CanDoUpdate() <==>
                firmware != null && firmware.binaryVersion != 0
                && (updateAll || exists d :: d in devices && d.selected)
    {
      var selected := SelectedDevices();
      assert selected != [] ==> selected[0] in selected;
      firmware != null && firmware.binaryVersion != 0 && (updateAll || |selected| != 0)
    }

    /** Java `getSelectedDevices`: a new list built by one pass over the devices. */
    method GetSelectedDevices() returns (list: seq<Device>)
      ensures list == SelectedDevices()
    {
      list := [];
      if updateAll {
        list := list + devices;
      } else {
        var i := 0;
        while i < |devices|
          invariant 0 <= i <= |devices|
          invariant list + SelectedIn(devices[i..]) == SelectedIn(devices)
        {
          SelectedInAt(devices, i);
          ghost var rest := SelectedIn(devices[i + 1..]);
          if devices[i].selected {
            assert (list + [devices[i]]) + rest == list + ([devices[i]] + rest);
            list := list + [devices[i]];
          } else {
            assert [] + rest == rest;
          }
          i := i + 1;
        }
        assert devices[i..] == [];
      }
    }

    method SetFile(file: Option<string>)
      modifies this
      ensures this.file == file
      ensures changes == old(changes) + Fired(PropFile, FileChanges(old(this.file), file))
      ensures firmwareList == old(firmwareList) && firmware == old(firmware) && devices == old(devices)
      ensures updateAll == old(updateAll) && enableLocal == old(enableLocal) && enableNetwork == old(enableNetwork)
    {
      var fires := FileChanges(this.file, file);
      this.file := file;
      changes := changes + Fired(PropFile, fires);
    }

    method SetUpdateAll(updateAll: bool)
      modifies this
      ensures this.updateAll == updateAll
      ensures changes == old(changes) + Fired(PropUpdateAll, old(this.updateAll) != updateAll)
      ensures file == old(file) && firmwareList == old(firmwareList) && firmware == old(firmware) && devices == old(devices)
      ensures enableLocal == old(enableLocal) && enableNetwork == old(enableNetwork)
    {
      var fires := this.updateAll != updateAll;
      this.updateAll := updateAll;
      changes := changes + Fired(PropUpdateAll, fires);
    }

    method SetEnableLocal(enableLocal: bool)
      modifies this
      ensures this.enableLocal == enableLocal
      ensures changes == old(changes) + Fired(PropEnableLocal, old(this.enableLocal) != enableLocal)
      ensures file == old(file) && firmwareList == old(firmwareList) && firmware == old(firmware) && devices == old(devices)
      ensures updateAll == old(updateAll) && enableNetwork == old(enableNetwork)
    {
      var fires := this.enableLocal != enableLocal;
      this.enableLocal := enableLocal;
      changes := changes + Fired(PropEnableLocal, fires);
    }

    method SetEnableNetwork(enableNetwork: bool)
      modifies this
      ensures this.enableNetwork == enableNetwork
      ensures changes == old(changes) + Fired(PropEnableNetwork, old(this.enableNetwork) != enableNetwork)
      ensures file == old(file) && firmwareList == old(firmwareList) && firmware == old(firmware) && devices == old(devices)
      ensures updateAll == old(updateAll) && enableLocal == old(enableLocal)
    {
      var fires := this.enableNetwork != enableNetwork;
      this.enableNetwork := enableNetwork;
      changes := changes + Fired(PropEnableNetwork, fires);
    }

    method SetFirmware(firmware: Firmware?)
      modifies this
      ensures this.firmware == firmware
      ensures changes == old(changes) + Fired(PropFirmware, FirmwareChanges(old(this.firmware), firmware))
      ensures file == old(file) && firmwareList == old(firmwareList) && devices == old(devices)
      ensures updateAll == old(updateAll) && enableLocal == old(enableLocal) && enableNetwork == old(enableNetwork)
    {
      var fires := FirmwareChanges(this.firmware, firmware);
      this.firmware := firmware;
      changes := changes + Fired(PropFirmware, fires);
    }

    /** Java `setFirmwareList`: the list is cleared and refilled with a copy; the event always fires. */
    method SetFirmwareList(firmwareList: seq<Firmware>)
      modifies this
      ensures this.firmwareList == firmwareList
      ensures changes == old(changes) + [PropFirmwareList]
      ensures file == old(file) && firmware == old(firmware) && devices == old(devices)
      ensures updateAll == old(updateAll) && enableLocal == old(enableLocal) && enableNetwork == old(enableNetwork)
    {
      this.firmwareList := [];
      this.firmwareList := this.firmwareList + firmwareList;
      changes := changes + [PropFirmwareList];
    }

    /** Java `updateFrom(Firmware)`: a single firmware and no list. */
    method UpdateFromFirmware(firmware: Firmware?)
      modifies this
      ensures firmwareList == [] && this.firmware == firmware
      ensures changes == old(changes) + [PropFirmwareList] + Fired(PropFirmware, FirmwareChanges(old(this.firmware), firmware))
      ensures file == old(file) && devices == old(devices)
      ensures updateAll == old(updateAll) && enableLocal == old(enableLocal) && enableNetwork == old(enableNetwork)
    {
      SetFirmwareList([]);
      SetFirmware(firmware);
    }

    /**
     * Java `updateFrom(FirmwarePack)`: the pack's list and flags are copied and
     * its first firmware is chosen; an empty pack leaves the chosen firmware
     * as it was.
     */
    method UpdateFromPack(pack: FirmwarePack)
      modifies this
      ensures firmwareList == old(pack.firmwareList)
      ensures firmware == if old(pack.firmwareList) == [] then old(firmware) else old(pack.firmwareList)[0]
      ensures enableLocal == old(pack.enableLocal) && enableNetwork == old(pack.enableNetwork)
      ensures file == old(file) && devices == old(devices) && updateAll == old(updateAll)
      ensures changes == old(changes) + [PropFirmwareList]
                + (if old(pack.firmwareList) == [] then []
                   else Fired(PropFirmware, FirmwareChanges(old(firmware), old(pack.firmwareList)[0])))
                + Fired(PropEnableLocal, old(enableLocal) != old(pack.enableLocal))
                + Fired(PropEnableNetwork, old(enableNetwork) != old(pack.enableNetwork))
    {
      var list, local, network := pack.firmwareList, pack.enableLocal, pack.enableNetwork;
      SetFirmwareList(list);
      if |list| != 0 {
        SetFirmware(list[0]);
      }
      SetEnableLocal(local);
      SetEnableNetwork(network);
    }

    /** Java `setDeviceSelection`: the device's flag is set, with an event, only when it changes. */
    method SetDeviceSelection(device: Device, selection: bool)
      modifies this, device
      ensures device.selected == selection && device.status == old(device.status)
      ensures changes == old(changes) + Fired(PropDeviceSelection, old(device.selected) != selection)
      ensures file == old(file) && firmwareList == old(firmwareList) && firmware == old(firmware) && devices == old(devices)
      ensures updateAll == old(updateAll) && enableLocal == old(enableLocal) && enableNetwork == old(enableNetwork)
    {
      if device.selected != selection {
        device.SetSelected(selection);
        changes := changes + [PropDeviceSelection];
      }
    }

    /**
     * Java `setDevices`: reported devices not yet held are appended, then held
     * devices that are no longer reported are removed in place; the event
     * always fires.
     */
    method SetDevices(list: seq<Device>)
      modifies this
      ensures devices == Reconcile(old(devices), list)
      ensures changes == old(changes) + [PropDevices]
      ensures file == old(file) && firmwareList == old(firmwareList) && firmware == old(firmware)
      ensures updateAll == old(updateAll) && enableLocal == old(enableLocal) && enableNetwork == old(enableNetwork)
    {
      AppendNew(list);
      RemoveUnlisted(list);
      changes := changes + [PropDevices];
    }

    /** The first loop of `setDevices`. */
    method AppendNew(list: seq<Device>)
      modifies this
      ensures devices == AddNew(old(devices), list)
      ensures changes == old(changes) && file == old(file) && firmwareList == old(firmwareList) && firmware == old(firmware)
      ensures updateAll == old(updateAll) && enableLocal == old(enableLocal) && enableNetwork == old(enableNetwork)
    {
      var i := 0;
      while i < |list|
        invariant 0 <= i <= |list|
        invariant AddNew(devices, list[i..]) == AddNew(old(devices), list)
        invariant changes == old(changes) && file == old(file) && firmwareList == old(firmwareList) && firmware == old(firmware)
        invariant updateAll == old(updateAll) && enableLocal == old(enableLocal) && enableNetwork == old(enableNetwork)
      {
        assert list[i..][1..] == list[i + 1..];
        var held := Contains(devices, list[i]);
        if !held {
          devices := devices + [list[i]];
        }
        i := i + 1;
      }
    }

    /** The second loop of `setDevices`, removing through the iterator. */
    method RemoveUnlisted(list: seq<Device>)
      modifies this
      ensures devices == KeepListed(old(devices), list)
      ensures changes == old(changes) && file == old(file) && firmwareList == old(firmwareList) && firmware == old(firmware)
      ensures updateAll == old(updateAll) && enableLocal == old(enableLocal) && enableNetwork == old(enableNetwork)
    {
      var j := 0;
      while j < |devices|
        invariant 0 <= j <= |devices|
        invariant devices[..j] + KeepListed(devices[j..], list) == KeepListed(old(devices), list)
        invariant changes == old(changes) && file == old(file) && firmwareList == old(firmwareList) && firmware == old(firmware)
        invariant updateAll == old(updateAll) && enableLocal == old(enableLocal) && enableNetwork == old(enableNetwork)
        decreases |devices| - j
      {
        ghost var before := devices;
        KeepListedAt(before, j, list);
        var listed := Contains(list, devices[j]);
        if !listed {
          devices := devices[..j] + devices[j + 1..];
          assert devices[..j] == before[..j] && devices[j..] == before[j + 1..];
        } else {
          assert devices[..j + 1] == devices[..j] + [devices[j]];
          j := j + 1;
        }
      }
      assert devices[j..] == [];
      assert devices[..j] == devices;
    }
  }

  /** Java `List.contains`, scanning with `equals`. */
  method Contains(s: seq<Device>, d: Device) returns (found: bool)
    ensures found == Holds(s, d)
  {
    var i := 0;
    while i < |s|
      invariant 0 <= i <= |s|
      invariant !Holds(s[..i], d)
    {
      if d.Equals(s[i]) {
        assert s[i] in s;
        return true;
      }
      assert s[..i + 1] == s[..i] + [s[i]];
      i := i + 1;
    }
    assert s[..i] == s;
    return false;
  }
}
