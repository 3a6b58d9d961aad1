/**
 * The decisions the loader window makes apart from drawing itself: how a
 * chosen file's path is shown, what a chosen file is read as, which devices
 * the device list shows, and the update run of `startUpdate`: which devices
 * it targets, which port and loader it uses for each, and the status each
 * device is left with.
 */
module Loader {
  import opened Results
  import opened Bytes
  import opened Text
  import opened Devices
  import opened Discovery
  import opened Firmwares
  import opened FirmwarePacks
  import opened Parameters

  // ---------------------------------------------------------------------------
  // File paths and file kinds

  /**
   * Java `getRelativeFilePath`: the absolute path of `file` with the
   * application directory `appDir` and then at most one separator ('/' or
   * '\') stripped from its front; the path unchanged when it does not start
   * with `appDir`; "" when there is no file.
   */
  function RelativeFilePath(file: Option<string>, appDir: string): (r: string)
    ensures file.None? ==> r == ""
    ensures file.Some? && !StartsWith(file.value, appDir) ==> r == file.value
    ensures file.Some? && StartsWith(file.value, appDir) ==>
              exists sep :: sep in ["", "/", "\\"] && file.value == appDir + sep + r
    ensures file.Some? && StartsWith(file.value, appDir) ==>
              var rest := file.value[|appDir|..];
              (StartsWith(rest, "/") || StartsWith(rest, "\\") ==> r == rest[1..])
              && (!StartsWith(rest, "/") && !StartsWith(rest, "\\") ==> r == rest)
  {
    if file.None? then ""
    else
      var text := file.value;
      if StartsWith(text, appDir) then
        var rest := text[|appDir|..];
        assert text == appDir + rest;
        if StartsWith(rest, "/") || StartsWith(rest, "\\") then
          assert rest == rest[..1] + rest[1..];
          assert text == appDir + rest[..1] + rest[1..];
          rest[1..]
        else
          assert text == appDir + "" + rest;
          rest
      else text
  }

  /** What `handleFileSelection` reads a file as. */
  datatype FileKind = PackFile | ImageFile | OtherFile

  /** The dispatch on the lower-cased file name. */
  function KindOfName(name: string): FileKind
  {
    var lower := ToLower(name);
    if EndsWith(lower, ".json") then PackFile
    else if EndsWith(lower, ".binary") || EndsWith(lower, ".bin") then ImageFile
    else OtherFile
  }

  /** Lower-casing twice is lower-casing once. */
  lemma ToLowerIdempotent(s: string)
    ensures ToLower(ToLower(s)) == ToLower(s)
  {
    var once := ToLower(s);
    forall i | 0 <= i < |s|
      ensures ToLower(once)[i] == once[i]
    {
    }
  }

  /** The dispatch ignores letter case. */
  lemma KindIgnoresCase(name: string)
    ensures KindOfName(ToLower(name)) == KindOfName(name)
  {
    ToLowerIdempotent(name);
  }

  /**
   * Java `handleFileSelection` once the file has been read: the file is
   * recorded, then a pack file updates the parameters from the pack and an
   * image file from the firmware inferred from its bytes. A read or parse
   * failure (`Err`) is swallowed, and any other name changes nothing more.
   */
  method HandleFileSelection(parameters: LoaderParameters, path: string, name: string,
                             pack: Result<FirmwarePack>, image: Result<array<Byte>>)
    modifies parameters
    ensures parameters.file == Some(path)
    ensures parameters.devices == old(parameters.devices) && parameters.updateAll == old(parameters.updateAll)
    ensures KindOfName(name) == PackFile && pack.Ok? ==>
              parameters.firmwareList == old(pack.value.firmwareList)
              && parameters.enableLocal == old(pack.value.enableLocal)
              && parameters.enableNetwork == old(pack.value.enableNetwork)
              && parameters.firmware == (if old(pack.value.firmwareList) == [] then old(parameters.firmware)
                                         else old(pack.value.firmwareList)[0])
    ensures KindOfName(name) == ImageFile && image.Ok? ==>
              parameters.firmwareList == [] && parameters.firmware != null && fresh(parameters.firmware)
              && parameters.firmware.binaryImage == image.value
              && parameters.firmware.binaryVersion == InferredVersion(image.value[..])
              && parameters.firmware.description == Some(DescriptionOf(parameters.firmware.binaryVersion))
              && parameters.enableLocal == old(parameters.enableLocal)
              && parameters.enableNetwork == old(parameters.enableNetwork)
    ensures !(KindOfName(name) == PackFile && pack.Ok?) && !(KindOfName(name) == ImageFile && image.Ok?) ==>
              parameters.firmwareList == old(parameters.firmwareList) && parameters.firmware == old(parameters.firmware)
              && parameters.enableLocal == old(parameters.enableLocal)
              && parameters.enableNetwork == old(parameters.enableNetwork)
    // The events: the file's, then those of the update the file kind calls for.
    ensures KindOfName(name) == PackFile && pack.Ok? ==>
              parameters.changes == old(parameters.changes)
                + Fired(PropFile, FileChanges(old(parameters.file), Some(path)))
                + [PropFirmwareList]
                + (if old(pack.value.firmwareList) == [] then []
                   else Fired(PropFirmware, FirmwareChanges(old(parameters.firmware), old(pack.value.firmwareList)[0])))
                + Fired(PropEnableLocal, old(parameters.enableLocal) != old(pack.value.enableLocal))
                + Fired(PropEnableNetwork, old(parameters.enableNetwork) != old(pack.value.enableNetwork))
    ensures KindOfName(name) == ImageFile && image.Ok? ==>
              parameters.changes == old(parameters.changes)
                + Fired(PropFile, FileChanges(old(parameters.file), Some(path)))
                + [PropFirmwareList, PropFirmware]
    ensures !(KindOfName(name) == PackFile && pack.Ok?) && !(KindOfName(name) == ImageFile && image.Ok?) ==>
              parameters.changes == old(parameters.changes) + Fired(PropFile, FileChanges(old(parameters.file), Some(path)))
  {
    parameters.SetFile(Some(path));
    var lower := ToLower(name);
    if EndsWith(lower, ".json") {
      if pack.Ok? {
        parameters.UpdateFromPack(pack.value);
      }
    } else if EndsWith(lower, ".binary") || EndsWith(lower, ".bin") {
      if image.Ok? {
        var firmware := FromImage(image.value);
        parameters.UpdateFromFirmware(firmware);
      }
    }
  }

  // ---------------------------------------------------------------------------
  // The device list filter

  /**
   * The device viewer's filter: every device is shown while no firmware with
   * a known version is chosen; then a device is shown when its version is
   * unknown (0) or matches.
   */
  predicate Shows(device: Device, firmware: Firmware?)
    reads firmware
  {
    firmware == null || firmware.binaryVersion == 0
    || device.version == 0 || device.version == firmware.binaryVersion
  }

  // ---------------------------------------------------------------------------
  // The update run

  /** The port `startUpdate` opens for a device. */
  datatype PortChoice =
    | SerialPortNamed(portName: string)
    | NetworkPort(name: string, inetAddr: Option<IPv4>, macAddr: Option<string>, resetPin: Option<string>)

  datatype LoaderKind = Propeller1Loader | Propeller2Loader

  /** One upload of the run: the device, the port and the loader used, and whether it goes to flash. */
  datatype Attempt = Attempt(device: Device, port: PortChoice, loader: LoaderKind, writeFlash: bool)

  /** A serial port when the device names one that is not blank, otherwise the network. */
  function PortFor(d: Device): (p: PortChoice)
    ensures p.SerialPortNamed? <==> d.serialPort.Some? && !IsBlank(d.serialPort.value)
    ensures p.SerialPortNamed? ==> Some(p.portName) == d.serialPort
    ensures p.NetworkPort? ==> p == NetworkPort(d.name, d.inetAddr, d.macAddr, d.resetPin)
  {
    if d.serialPort.Some? && !IsBlank(d.serialPort.value) then SerialPortNamed(d.serialPort.value)
    else NetworkPort(d.name, d.inetAddr, d.macAddr, d.resetPin)
  }

  /** The Propeller 1 loader for firmware version 1, the Propeller 2 loader for any other. */
  function LoaderFor(binaryVersion: int): LoaderKind
  {
    if binaryVersion == 1 then Propeller1Loader else Propeller2Loader
  }

  /** The devices of `s` built for firmware version `version`, in order. */
  function MatchingVersion(s: seq<Device>, version: int): seq<Device>
    decreases |s|
  {
    if s == [] then []
    else (if s[0].version == version then [s[0]] else []) + MatchingVersion(s[1..], version)
  }

  /** Exactly the devices of `s` built for `version` are kept, and nothing is added. */
  lemma {:induction false} MatchingVersionMembers(s: seq<Device>, version: int)
    ensures forall d :: d in MatchingVersion(s, version) ==> d in s && d.version == version
    ensures forall i :: 0 <= i < |s| && s[i].version == version ==> s[i] in MatchingVersion(s, version)
    ensures |MatchingVersion(s, version)| <= |s|
    decreases |s|
  {
    if s != [] {
      MatchingVersionMembers(s[1..], version);
      var r := MatchingVersion(s, version);
      forall i | 0 <= i < |s| && s[i].version == version
        ensures s[i] in r
      {
        if i > 0 {
          assert s[i] == s[1..][i - 1];
        }
      }
      forall d | d in r
        ensures d in s && d.version == version
      {
        if d != s[0] {
          assert d in MatchingVersion(s[1..], version);
        }
      }
    }
  }

  /** `MatchingVersion` from index `j` on, with the device at `j` decided. */
  lemma MatchingVersionAt(s: seq<Device>, j: nat, version: int)
    requires j < |s|
    ensures MatchingVersion(s[j..], version)
         == (if s[j].version == version then [s[j]] else []) + MatchingVersion(s[j + 1..], version)
  {
    assert s[j..][1..] == s[j + 1..];
  }

  /** The version filter of `startUpdate`, removing through the iterator. */
  method KeepMatching(s: seq<Device>, version: int) returns (r: seq<Device>)
    ensures r == MatchingVersion(s, version)
  {
    r := s;
    var j := 0;
    while j < |r|
      invariant 0 <= j <= |r|
      invariant r[..j] + MatchingVersion(r[j..], version) == MatchingVersion(s, version)
      decreases |r| - j
    {
      ghost var before := r;
      MatchingVersionAt(before, j, version);
      if r[j].version != version {
        r := r[..j] + r[j + 1..];
        assert r[..j] == before[..j] && r[j..] == before[j + 1..];
      } else {
        assert r[..j + 1] == r[..j] + [r[j]];
        j := j + 1;
      }
    }
    assert r[j..] == [];
    assert r[..j] == r;
  }

  /** A device the update run targets is one the device list shows. */
  lemma TargetsShown(candidates: seq<Device>, firmware: Firmware, d: Device)
    requires d in MatchingVersion(candidates, firmware.binaryVersion)
    ensures Shows(d, firmware)
  {
    MatchingVersionMembers(candidates, firmware.binaryVersion);
  }

  /** The devices `startUpdate` starts from: what discovery reports when none are known, else the selection. */
  function Candidates(parameters: LoaderParameters, localDevices: seq<Device>, networkDevices: seq<Device>): seq<Device>
    reads parameters, parameters.devices
  {
    if parameters.devices == [] then
      Discovered(parameters.enableLocal, parameters.enableNetwork, localDevices, networkDevices)
    else parameters.SelectedDevices()
  }

  /** The attempts made for `targets` with firmware version `version`. */
  function AttemptsFor(targets: seq<Device>, version: int, writeFlash: bool): (r: seq<Attempt>)
    ensures |r| == |targets|
    ensures forall i :: 0 <= i < |r| ==> r[i] == Attempt(targets[i], PortFor(targets[i]), LoaderFor(version), writeFlash)
  {
    seq(|targets|, i requires 0 <= i < |targets| => Attempt(targets[i], PortFor(targets[i]), LoaderFor(version), writeFlash))
  }

  /** Every device the run may touch: the known ones and the ones discovery can report. */
  function Pool(parameters: LoaderParameters, localDevices: seq<Device>, networkDevices: seq<Device>): seq<Device>
    reads parameters
  {
    parameters.devices + localDevices + networkDevices
  }

  /** The devices the run uploads to: the candidates built for the chosen firmware's version. */
  function Targets(parameters: LoaderParameters, localDevices: seq<Device>, networkDevices: seq<Device>): seq<Device>
    requires parameters.firmware != null
    reads parameters, parameters.devices, parameters.firmware
  {
    MatchingVersion(Candidates(parameters, localDevices, networkDevices), parameters.firmware.binaryVersion)
  }

  /**
   * Java `startUpdate` without its dialogs: the devices come from discovery
   * (`localDevices` and `networkDevices` are what the serial and network
   * searches report) when none are known, else from the selection; only
   * those built for the firmware's version remain; when any remain and the
   * user confirms (`confirmed`), each has its status cleared, is uploaded to
   * through the port and loader chosen for it, and ends with status 0 when
   * the upload succeeds (`succeeds`) or 1 when it throws. A firmware is
   * chosen: the update button is enabled only while `canDoUpdate` holds.
   */
  method StartUpdate(parameters: LoaderParameters, localDevices: seq<Device>, networkDevices: seq<Device>,
                     writeFlash: bool, confirmed: bool, succeeds: Device -> bool)
    returns (targets: seq<Device>, attempts: seq<Attempt>)
    requires parameters.firmware != null
    modifies set d | d in Pool(parameters, localDevices, networkDevices)
    ensures targets == old(Targets(parameters, localDevices, networkDevices))
    ensures attempts == if targets != [] && confirmed then AttemptsFor(targets, parameters.firmware.binaryVersion, writeFlash) else []
    ensures confirmed ==> forall d :: d in targets ==> d.status == Some(if succeeds(d) then 0 else 1)
    ensures forall d :: d in old(Pool(parameters, localDevices, networkDevices)) ==>
              d.selected == old(d.selected) && (d.status == old(d.status) || (confirmed && d in targets))
  {
    targets := SelectTargets(parameters, localDevices, networkDevices);
    if |targets| == 0 || !confirmed {
      return targets, [];
    }
    attempts := RunUpdate(targets, parameters.firmware.binaryVersion, writeFlash, succeeds);
  }

  /** The first half of `startUpdate`: the candidates, then the version filter. */
  method SelectTargets(parameters: LoaderParameters, localDevices: seq<Device>, networkDevices: seq<Device>)
    returns (targets: seq<Device>)
    requires parameters.firmware != null
    ensures targets == Targets(parameters, localDevices, networkDevices)
    ensures forall d :: d in targets ==>
              d in Pool(parameters, localDevices, networkDevices) && d.version == parameters.firmware.binaryVersion
  {
    var candidates;
    if |parameters.devices| == 0 {
      candidates := Discovered(parameters.enableLocal, parameters.enableNetwork, localDevices, networkDevices);
    } else {
      candidates := parameters.GetSelectedDevices();
    }
    CandidatesFrom(parameters, localDevices, networkDevices, candidates);
    targets := KeepMatching(candidates, parameters.firmware.binaryVersion);
    MatchingVersionMembers(candidates, parameters.firmware.binaryVersion);
  }

  /** The confirmed half of `startUpdate`: clear every status, then upload to each target in turn. */
  method RunUpdate(targets: seq<Device>, version: int, writeFlash: bool, succeeds: Device -> bool)
    returns (attempts: seq<Attempt>)
    modifies set d | d in targets
    ensures attempts == AttemptsFor(targets, version, writeFlash)
    ensures forall d :: d in targets ==> d.status == Some(if succeeds(d) then 0 else 1) && d.selected == old(d.selected)
  {
    ClearStatuses(targets);
    attempts := UploadAll(targets, version, writeFlash, succeeds);
  }

  /** Every candidate is a known, selected or discovered device. */
  lemma CandidatesFrom(parameters: LoaderParameters, localDevices: seq<Device>, networkDevices: seq<Device>, candidates: seq<Device>)
    requires candidates == Candidates(parameters, localDevices, networkDevices)
    ensures forall d :: d in candidates ==> d in Pool(parameters, localDevices, networkDevices)
  {
    if parameters.devices == [] {
      var e := parameters.enableLocal;
      var n := parameters.enableNetwork;
      var all := (if e then localDevices else []) + (if n then networkDevices else []);
      forall d | d in candidates
        ensures d in Pool(parameters, localDevices, networkDevices)
      {
        assert d in multiset(candidates);
        assert d in multiset(all);
        assert d in all;
      }
    }
  }

  /** Every target's status is cleared before the uploads start. */
  method ClearStatuses(targets: seq<Device>)
    modifies set d | d in targets
    ensures forall d :: d in targets ==> d.status == None && d.selected == old(d.selected)
  {
    for i := 0 to |targets|
      invariant forall k :: 0 <= k < i ==> targets[k].status == None
      invariant forall d :: d in targets ==> d.selected == old(d.selected)
    {
      targets[i].ClearStatus();
    }
  }

  /** The upload loop: every target is visited once, in order, and left with its outcome. */
  method UploadAll(targets: seq<Device>, version: int, writeFlash: bool, succeeds: Device -> bool)
    returns (attempts: seq<Attempt>)
    modifies set d | d in targets
    ensures attempts == AttemptsFor(targets, version, writeFlash)
    ensures forall d :: d in targets ==> d.status == Some(if succeeds(d) then 0 else 1) && d.selected == old(d.selected)
  {
    attempts := [];
    for i := 0 to |targets|
      invariant attempts == AttemptsFor(targets[..i], version, writeFlash)
      invariant forall k :: 0 <= k < i ==> targets[k].status == Some(if succeeds(targets[k]) then 0 else 1)
      invariant forall d :: d in targets ==> d.selected == old(d.selected)
    {
      var device := targets[i];
      var attempt := Attempt(device, PortFor(device), LoaderFor(version), writeFlash);
      if succeeds(device) {
        device.SetStatus(Some(0));
      } else {
        device.SetStatus(Some(1));
      }
      attempts := attempts + [attempt];
      assert targets[..i + 1] == targets[..i] + [device];
    }
    assert targets[..|targets|] == targets;
  }
}
