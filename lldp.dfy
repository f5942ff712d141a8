/**
 * The input the device queries deliver, the node identities built from it and
 * the neighbour table of one switch after normalisation. The registry of all
 * queried switches (`switch_db`) is the fold `BuildRegistry` over the devices
 * in query order; it is the specification of the imperative loop in
 * `SwitchDatabase`.
 */
module Lldp {
  import opened Wrappers
  import opened PyStrings
  import opened OrderedDict

  /** One entry of `lldpNeighborInfo`; a field the switch did not send is `None`. */
  datatype NeighborRecord = NeighborRecord(
    systemName: Option<string>,
    chassisId: Option<string>,
    interfaceId: Option<string>)

  /**
   * What the three command batches return for one switch: `hostname` from
   * `show hostname`, `systemMacAddress` from `show version` and the
   * `lldpNeighbors` table of `show lldp neighbors detail`, one row per local
   * interface in the order the switch lists them.
   */
  datatype Device = Device(
    hostname: Option<string>,
    systemMac: Option<string>,
    lldpNeighbors: seq<(string, seq<NeighborRecord>)>)

  /** The `{remote_host, remote_interface}` entry of one local interface. */
  datatype Neighbor = Neighbor(remoteHost: string, remoteInterface: string)

  /** Why a run aborts: the lookups the code makes without a guard. */
  datatype Error =
    | MissingIdentity(field: string)
    | NoNeighborInfo(node: string, iface: string)
    | MissingField(node: string, iface: string, field: string)

  /** The `interfaces` dict of one node. */
  type Interfaces = ODict<Neighbor>

  /** `switch_db`: node identity to that node's interfaces, in insertion order. */
  type Registry = ODict<Interfaces>

  /** Every dict in the registry is well formed. */
  ghost predicate WellFormed(reg: Registry) {
    Valid(reg) && forall h | h in reg.entries :: Valid(reg.entries[h])
  }

  /** The node identity `{hostname}_{system_mac}`, every `:` removed from the mac. */
  function NodeKey(hostname: string, mac: string): string {
    hostname + "_" + ReplaceAll(mac, ":", "")
  }

  /** The remote identity `{systemName}_{chassisId}`, every `.` removed from the chassis id. */
  function RemoteKey(systemName: string, chassisId: string): string {
    systemName + "_" + ReplaceAll(chassisId, ".", "")
  }

  /** Management interfaces are recognised by the substring "Man". */
  predicate IsManagement(iface: string) {
    Contains(iface, "Man")
  }

  /** The mac part of a node identity holds no `:`, and every other character of the mac. */
  lemma NodeKeyShape(hostname: string, mac: string)
    ensures NodeKey(hostname, mac) == hostname + "_" + Drop(mac, ':')
    ensures NodeKey(hostname, mac)[..|hostname| + 1] == hostname + "_"
    ensures ':' !in NodeKey(hostname, mac)[|hostname| + 1..]
    ensures forall x :: x in NodeKey(hostname, mac)[|hostname| + 1..] <==> x in mac && x != ':'
  {
    RemoveCharExact(mac, ':');
    DropMembers(mac, ':');
    assert NodeKey(hostname, mac)[|hostname| + 1..] == ReplaceAll(mac, ":", "");
  }

  /** The chassis part of a remote identity holds no `.`, and every other character of the chassis id. */
  lemma RemoteKeyShape(systemName: string, chassisId: string)
    ensures RemoteKey(systemName, chassisId) == systemName + "_" + Drop(chassisId, '.')
    ensures RemoteKey(systemName, chassisId)[..|systemName| + 1] == systemName + "_"
    ensures '.' !in RemoteKey(systemName, chassisId)[|systemName| + 1..]
    ensures forall x :: x in RemoteKey(systemName, chassisId)[|systemName| + 1..] <==> x in chassisId && x != '.'
  {
    RemoveCharExact(chassisId, '.');
    DropMembers(chassisId, '.');
    assert RemoteKey(systemName, chassisId)[|systemName| + 1..] == ReplaceAll(chassisId, ".", "");
  }

  /** The identity of a device, or the identity field it lacks. */
  function DeviceKey(d: Device): Result<string, Error> {
    if d.hostname.None? then Failure(MissingIdentity("hostname"))
    else if d.systemMac.None? then Failure(MissingIdentity("systemMacAddress"))
    else Success(NodeKey(d.hostname.value, d.systemMac.value))
  }

  /**
   * The neighbour of a non-management interface, read from the FIRST record of
   * `lldpNeighborInfo`, in the order the fields are looked up.
   */
  function ReadNeighbor(node: string, iface: string, records: seq<NeighborRecord>): Result<Neighbor, Error> {
    if records == [] then Failure(NoNeighborInfo(node, iface))
    else if records[0].systemName.None? then Failure(MissingField(node, iface, "systemName"))
    else if records[0].chassisId.None? then Failure(MissingField(node, iface, "chassisId"))
    else if records[0].interfaceId.None? then Failure(MissingField(node, iface, "interfaceId_v2"))
    else Success(Neighbor(RemoteKey(records[0].systemName.value, records[0].chassisId.value),
                          records[0].interfaceId.value))
  }

  /** The identity lookups: a device has an identity exactly when both fields came back; otherwise the first missing one is named. */
  lemma DeviceKeyCases(d: Device)
    ensures DeviceKey(d).Success? <==> d.hostname.Some? && d.systemMac.Some?
    ensures d.hostname.None? ==> DeviceKey(d) == Failure(MissingIdentity("hostname"))
    ensures d.hostname.Some? && d.systemMac.None? ==> DeviceKey(d) == Failure(MissingIdentity("systemMacAddress"))
    ensures DeviceKey(d).Success? ==> DeviceKey(d).value == d.hostname.value + "_" + Drop(d.systemMac.value, ':')
  {
    if DeviceKey(d).Success? {
      NodeKeyShape(d.hostname.value, d.systemMac.value);
    }
  }

  /**
   * The neighbour lookups: they succeed exactly when the first record exists
   * and has all three fields, and then everything comes from that record.
   */
  lemma ReadNeighborCases(node: string, iface: string, records: seq<NeighborRecord>)
    ensures ReadNeighbor(node, iface, records).Success? <==>
      records != [] && records[0].systemName.Some? && records[0].chassisId.Some? && records[0].interfaceId.Some?
    ensures records == [] ==> ReadNeighbor(node, iface, records) == Failure(NoNeighborInfo(node, iface))
    ensures ReadNeighbor(node, iface, records).Success? ==>
      ReadNeighbor(node, iface, records).value ==
        Neighbor(records[0].systemName.value + "_" + Drop(records[0].chassisId.value, '.'), records[0].interfaceId.value)
  {
    if ReadNeighbor(node, iface, records).Success? {
      RemoteKeyShape(records[0].systemName.value, records[0].chassisId.value);
    }
  }

  /** The `interfaces` dict built from the rows of a neighbour table, row by row. */
  function NormalizeTable(node: string, table: seq<(string, seq<NeighborRecord>)>): (r: Result<Interfaces, Error>)
    ensures r.Success? ==> Valid(r.value)
    decreases |table|
  {
    if table == [] then Success(Empty())
    else
      var ifs :- NormalizeTable(node, table[..|table| - 1]);
      var (iface, records) := table[|table| - 1];
      if IsManagement(iface) then Success(ifs)
      else
        var nb :- ReadNeighbor(node, iface, records);
        Success(Put(ifs, iface, nb))
  }

  /** One device added to the registry: its entry is (re)created with the interfaces of its table. */
  function AddDevice(reg: Registry, d: Device): (r: Result<Registry, Error>)
    ensures WellFormed(reg) && r.Success? ==> WellFormed(r.value)
  {
    var node :- DeviceKey(d);
    var ifs :- NormalizeTable(node, d.lldpNeighbors);
    Success(Put(reg, node, ifs))
  }

  /** `switch_db` after all devices were processed, in query order; the first error aborts. */
  function BuildRegistry(devices: seq<Device>): (r: Result<Registry, Error>)
    decreases |devices|
  {
    if devices == [] then Success(Empty())
    else
      var reg :- BuildRegistry(devices[..|devices| - 1]);
      AddDevice(reg, devices[|devices| - 1])
  }

  /** Every registry the fold builds is well formed. */
  lemma {:induction false} BuildWellFormed(devices: seq<Device>)
    requires BuildRegistry(devices).Success?
    ensures WellFormed(BuildRegistry(devices).value)
    decreases |devices|
  {
    if devices != [] {
      BuildWellFormed(devices[..|devices| - 1]);
    }
  }

  /** The local interface names of a neighbour table, row by row. */
  function Names(table: seq<(string, seq<NeighborRecord>)>): (r: seq<string>)
    ensures |r| == |table|
    ensures forall p | 0 <= p < |table| :: r[p] == table[p].0
  {
    seq(|table|, p requires 0 <= p < |table| => table[p].0)
  }

  /** The last row of the table that names interface `i`. */
  function LastRow(table: seq<(string, seq<NeighborRecord>)>, i: string): (p: nat)
    requires i in Names(table)
    ensures p < |table| && table[p].0 == i
    ensures forall q | p < q < |table| :: table[q].0 != i
    decreases |table|
  {
    var n := |table| - 1;
    if table[n].0 == i then n
    else
      assert i in Names(table[..n]) by {
        var p :| 0 <= p < |table| && Names(table)[p] == i;
        assert p < n && Names(table[..n])[p] == i;
      }
      LastRow(table[..n], i)
  }

  /** How one more row changes the normalised table. */
  lemma NormalizeStep(node: string, table: seq<(string, seq<NeighborRecord>)>, ifs: Interfaces)
    requires table != [] && NormalizeTable(node, table) == Success(ifs)
    ensures var n := |table| - 1;
      NormalizeTable(node, table[..n]).Success? &&
      var prev := NormalizeTable(node, table[..n]).value;
      if IsManagement(table[n].0) then ifs == prev
      else
        ReadNeighbor(node, table[n].0, table[n].1).Success? &&
        ifs == Put(prev, table[n].0, ReadNeighbor(node, table[n].0, table[n].1).value)
  {
  }

  /** An interface is recorded exactly when some row names it and it is not a management interface. */
  lemma {:induction false} RecordedInterfaces(node: string, table: seq<(string, seq<NeighborRecord>)>, ifs: Interfaces)
    requires NormalizeTable(node, table) == Success(ifs)
    ensures forall i :: i in ifs.entries <==> i in Names(table) && !IsManagement(i)
    decreases |table|
  {
    if table != [] {
      var n := |table| - 1;
      NormalizeStep(node, table, ifs);
      RecordedInterfaces(node, table[..n], NormalizeTable(node, table[..n]).value);
      assert Names(table) == Names(table[..n]) + [table[n].0];
    }
  }

  /** The entry of a recorded interface comes from the first neighbour record of the last row naming it. */
  lemma {:induction false} RecordedNeighbor(node: string, table: seq<(string, seq<NeighborRecord>)>, ifs: Interfaces, i: string)
    requires NormalizeTable(node, table) == Success(ifs) && i in ifs.entries
    ensures i in Names(table)
    ensures ReadNeighbor(node, i, table[LastRow(table, i)].1) == Success(ifs.entries[i])
    decreases |table|
  {
    RecordedInterfaces(node, table, ifs);
    var n := |table| - 1;
    NormalizeStep(node, table, ifs);
    if table[n].0 != i {
      var prev := NormalizeTable(node, table[..n]).value;
      assert i in prev.entries;
      RecordedNeighbor(node, table[..n], prev, i);
    }
  }

  /** No management interface is ever recorded. */
  lemma ManagementNeverRecorded(node: string, table: seq<(string, seq<NeighborRecord>)>, ifs: Interfaces)
    requires NormalizeTable(node, table) == Success(ifs)
    ensures forall i | i in ifs.entries :: !IsManagement(i)
  {
    RecordedInterfaces(node, table, ifs);
  }

  /** A malformed row on a non-management interface aborts the run. */
  lemma {:induction false} MalformedRowAborts(node: string, table: seq<(string, seq<NeighborRecord>)>, p: nat)
    requires p < |table| && !IsManagement(table[p].0)
    requires ReadNeighbor(node, table[p].0, table[p].1).Failure?
    ensures NormalizeTable(node, table).Failure?
    decreases |table|
  {
    var n := |table| - 1;
    if p < n {
      assert table[..n][p] == table[p];
      MalformedRowAborts(node, table[..n], p);
    }
  }

  /**
   * A table fails only because of a malformed non-management row: a management
   * row never aborts, whatever its records hold.
   */
  lemma {:induction false} TableFailsOnlyOnMalformedRow(node: string, table: seq<(string, seq<NeighborRecord>)>)
    requires NormalizeTable(node, table).Failure?
    ensures exists p | 0 <= p < |table| :: !IsManagement(table[p].0) && ReadNeighbor(node, table[p].0, table[p].1).Failure?
    decreases |table|
  {
    var n := |table| - 1;
    if NormalizeTable(node, table[..n]).Failure? {
      TableFailsOnlyOnMalformedRow(node, table[..n]);
      var p :| 0 <= p < n && !IsManagement(table[..n][p].0) && ReadNeighbor(node, table[..n][p].0, table[..n][p].1).Failure?;
      assert table[..n][p] == table[p];
    } else {
      assert !IsManagement(table[n].0) && ReadNeighbor(node, table[n].0, table[n].1).Failure?;
    }
  }

  /** Once a prefix of the table has failed, the rows after it cannot change the error. */
  lemma {:induction false} FirstErrorStands(node: string, table: seq<(string, seq<NeighborRecord>)>, m: nat)
    requires m <= |table| && NormalizeTable(node, table[..m]).Failure?
    ensures NormalizeTable(node, table) == NormalizeTable(node, table[..m])
    decreases |table|
  {
    if m < |table| {
      var n := |table| - 1;
      assert table[..n][..m] == table[..m];
      FirstErrorStands(node, table[..n], m);
    } else {
      assert table[..m] == table;
    }
  }

  /** How the row after a prefix extends the normalised prefix. */
  lemma NormalizeSnoc(node: string, table: seq<(string, seq<NeighborRecord>)>, j: nat)
    requires j < |table| && NormalizeTable(node, table[..j]).Success?
    ensures IsManagement(table[j].0) ==> NormalizeTable(node, table[..j + 1]) == NormalizeTable(node, table[..j])
    ensures !IsManagement(table[j].0) && ReadNeighbor(node, table[j].0, table[j].1).Success? ==>
      NormalizeTable(node, table[..j + 1]) ==
        Success(Put(NormalizeTable(node, table[..j]).value, table[j].0, ReadNeighbor(node, table[j].0, table[j].1).value))
  {
    assert table[..j + 1][..j] == table[..j];
  }

  /** The error of the first malformed row is the error of the whole table. */
  lemma RowError(node: string, table: seq<(string, seq<NeighborRecord>)>, j: nat)
    requires j < |table| && NormalizeTable(node, table[..j]).Success? && !IsManagement(table[j].0)
    requires ReadNeighbor(node, table[j].0, table[j].1).Failure?
    ensures NormalizeTable(node, table) == Failure(ReadNeighbor(node, table[j].0, table[j].1).error)
  {
    assert table[..j + 1][..j] == table[..j];
    FirstErrorStands(node, table, j + 1);
  }

  /** Two tables with the same rows and the same first neighbour records normalise alike. */
  predicate SameFirstNeighbors(t1: seq<(string, seq<NeighborRecord>)>, t2: seq<(string, seq<NeighborRecord>)>) {
    |t1| == |t2| &&
    forall p | 0 <= p < |t1| ::
      t1[p].0 == t2[p].0 && (t1[p].1 == [] <==> t2[p].1 == []) &&
      (t1[p].1 != [] ==> t1[p].1[0] == t2[p].1[0])
  }

  lemma SameFirstNeighborsPrefix(t1: seq<(string, seq<NeighborRecord>)>, t2: seq<(string, seq<NeighborRecord>)>, n: nat)
    requires SameFirstNeighbors(t1, t2) && n <= |t1|
    ensures SameFirstNeighbors(t1[..n], t2[..n])
  {
    forall p | 0 <= p < n ensures t1[..n][p] == t1[p] && t2[..n][p] == t2[p] {}
  }

  /** Only element 0 of `lldpNeighborInfo` is ever read: later records change nothing. */
  lemma {:induction false} FirstNeighborWins(node: string, t1: seq<(string, seq<NeighborRecord>)>, t2: seq<(string, seq<NeighborRecord>)>)
    requires SameFirstNeighbors(t1, t2)
    ensures NormalizeTable(node, t1) == NormalizeTable(node, t2)
    decreases |t1|
  {
    if t1 != [] {
      var n := |t1| - 1;
      SameFirstNeighborsPrefix(t1, t2, n);
      FirstNeighborWins(node, t1[..n], t2[..n]);
      assert ReadNeighbor(node, t1[n].0, t1[n].1) == ReadNeighbor(node, t2[n].0, t2[n].1);
      if NormalizeTable(node, t1[..n]).Failure? {
        FirstErrorStands(node, t1, n);
        FirstErrorStands(node, t2, n);
      } else if IsManagement(t1[n].0) || ReadNeighbor(node, t1[n].0, t1[n].1).Success? {
        NormalizeSnoc(node, t1, n);
        NormalizeSnoc(node, t2, n);
        assert t1[..n + 1] == t1 && t2[..n + 1] == t2;
      } else {
        RowError(node, t1, n);
        RowError(node, t2, n);
      }
    }
  }

  /** Re-adding a device already registered replaces its interfaces and moves nothing. */
  lemma ReinsertKeepsPosition(reg: Registry, d: Device, reg': Registry)
    requires AddDevice(reg, d) == Success(reg')
    requires DeviceKey(d).value in reg.entries
    ensures reg'.keys == reg.keys
    ensures reg'.entries[DeviceKey(d).value] == NormalizeTable(DeviceKey(d).value, d.lldpNeighbors).value
    ensures forall h | h in reg.entries && h != DeviceKey(d).value :: h in reg'.entries && reg'.entries[h] == reg.entries[h]
  {
  }

  /** Every device of a successful run has an identity. */
  predicate AllIdentified(devices: seq<Device>) {
    forall p | 0 <= p < |devices| :: DeviceKey(devices[p]).Success?
  }

  lemma AllIdentifiedSnoc(devices: seq<Device>)
    requires devices != [] && AllIdentified(devices[..|devices| - 1]) && DeviceKey(devices[|devices| - 1]).Success?
    ensures AllIdentified(devices)
  {
    var n := |devices| - 1;
    forall p | 0 <= p < |devices| ensures DeviceKey(devices[p]).Success? {
      if p < n {
        assert devices[..n][p] == devices[p];
      }
    }
  }

  /** The identities of the devices, in query order (duplicates kept). */
  function DeviceIds(devices: seq<Device>): (ids: seq<string>)
    requires AllIdentified(devices)
    ensures |ids| == |devices|
    ensures forall p | 0 <= p < |devices| :: ids[p] == DeviceKey(devices[p]).value
    decreases |devices|
  {
    if devices == [] then []
    else
      var n := |devices| - 1;
      assert AllIdentified(devices[..n]) by {
        forall p | 0 <= p < n ensures devices[..n][p] == devices[p] {}
      }
      DeviceIds(devices[..n]) + [DeviceKey(devices[n]).value]
  }

  /** How one more device changes the registry. */
  lemma BuildStep(devices: seq<Device>, reg: Registry)
    requires devices != [] && BuildRegistry(devices) == Success(reg)
    ensures var n := |devices| - 1;
      BuildRegistry(devices[..n]).Success? &&
      DeviceKey(devices[n]).Success? &&
      NormalizeTable(DeviceKey(devices[n]).value, devices[n].lldpNeighbors).Success? &&
      reg == Put(BuildRegistry(devices[..n]).value, DeviceKey(devices[n]).value,
                 NormalizeTable(DeviceKey(devices[n]).value, devices[n].lldpNeighbors).value)
  {
  }

  /** The registry keys are the device identities, each once, in order of first occurrence. */
  lemma {:induction false} RegistryKeys(devices: seq<Device>, reg: Registry)
    requires BuildRegistry(devices) == Success(reg)
    ensures AllIdentified(devices)
    ensures reg.keys == Dedup(DeviceIds(devices))
    decreases |devices|
  {
    if devices != [] {
      var n := |devices| - 1;
      BuildStep(devices, reg);
      var reg0 := BuildRegistry(devices[..n]).value;
      BuildWellFormed(devices[..n]);
      RegistryKeys(devices[..n], reg0);
      AllIdentifiedSnoc(devices);
      var ids0 := DeviceIds(devices[..n]);
      var k := DeviceKey(devices[n]).value;
      var ids := DeviceIds(devices);
      assert ids == ids0 + [k];
      assert ids[..n] == ids0;
      assert Valid(reg0) && (k in reg0.entries <==> k in reg0.keys);
    }
  }

  /**
   * The registry keys list each device identity once, ordered by the position
   * of the first device that has it.
   */
  lemma NodeListOrder(devices: seq<Device>, reg: Registry)
    requires BuildRegistry(devices) == Success(reg)
    ensures AllIdentified(devices)
    ensures NoDup(reg.keys)
    ensures forall k :: k in reg.keys <==> k in DeviceIds(devices)
    ensures forall a, b | 0 <= a < b < |reg.keys| ::
      IndexOf(DeviceIds(devices), reg.keys[a]) < IndexOf(DeviceIds(devices), reg.keys[b])
  {
    RegistryKeys(devices, reg);
    DedupNoDup(DeviceIds(devices));
    DedupOrder(DeviceIds(devices));
  }

  /** When no identity repeats, the registry keys are exactly the device identities in query order. */
  lemma DistinctDevicesInOrder(devices: seq<Device>, reg: Registry)
    requires BuildRegistry(devices) == Success(reg)
    requires AllIdentified(devices) && NoDup(DeviceIds(devices))
    ensures reg.keys == DeviceIds(devices)
  {
    RegistryKeys(devices, reg);
    DedupDistinct(DeviceIds(devices));
  }

  /** How one more device extends the registry of a prefix of the devices. */
  lemma BuildSnoc(devices: seq<Device>, n: nat)
    requires n < |devices| && BuildRegistry(devices[..n]).Success?
    ensures BuildRegistry(devices[..n + 1]) == AddDevice(BuildRegistry(devices[..n]).value, devices[n])
  {
    assert devices[..n + 1][..n] == devices[..n];
  }

  /** A failed prefix fails the registry of one more device. */
  lemma BuildFailStep(devices: seq<Device>, j: nat)
    requires j < |devices| && BuildRegistry(devices[..j]).Failure?
    ensures BuildRegistry(devices[..j + 1]) == BuildRegistry(devices[..j])
  {
    assert devices[..j + 1][..j] == devices[..j];
  }

  /** A device whose answers abort the run: no identity, or a neighbour table that fails. */
  predicate DeviceFails(d: Device) {
    DeviceKey(d).Failure? || NormalizeTable(DeviceKey(d).value, d.lldpNeighbors).Failure?
  }

  /** Adding a device fails exactly when the device is malformed, with an error that does not depend on the registry. */
  lemma AddDeviceFails(reg: Registry, d: Device)
    ensures AddDevice(reg, d).Failure? <==> DeviceFails(d)
    ensures AddDevice(reg, d).Failure? ==> AddDevice(reg, d).error == AddDevice(Empty(), d).error
  {
  }

  /** Devices none of which is malformed build a registry. */
  lemma {:induction false} WellFormedDevicesBuild(devices: seq<Device>, p: nat)
    requires p <= |devices| && forall q | 0 <= q < p :: !DeviceFails(devices[q])
    ensures BuildRegistry(devices[..p]).Success?
  {
    if p > 0 {
      WellFormedDevicesBuild(devices, p - 1);
      BuildSnoc(devices, p - 1);
      AddDeviceFails(BuildRegistry(devices[..p - 1]).value, devices[p - 1]);
    }
  }

  /** Once a device has failed, the devices after it cannot change the error. */
  lemma {:induction false} FirstDeviceErrorStands(devices: seq<Device>, m: nat)
    requires m <= |devices| && BuildRegistry(devices[..m]).Failure?
    ensures BuildRegistry(devices) == BuildRegistry(devices[..m])
    decreases |devices|
  {
    if m < |devices| {
      var n := |devices| - 1;
      assert devices[..n][..m] == devices[..m];
      FirstDeviceErrorStands(devices[..n], m);
      BuildFailStep(devices, n);
      assert devices[..n + 1] == devices;
    } else {
      assert devices[..m] == devices;
    }
  }

  /** No management interface is recorded for any node of the registry. */
  lemma {:induction false} RegistryHasNoManagement(devices: seq<Device>, reg: Registry)
    requires BuildRegistry(devices) == Success(reg)
    ensures forall h, i | h in reg.entries && i in reg.entries[h].entries :: !IsManagement(i)
    decreases |devices|
  {
    if devices != [] {
      var n := |devices| - 1;
      BuildStep(devices, reg);
      var reg0 := BuildRegistry(devices[..n]).value;
      RegistryHasNoManagement(devices[..n], reg0);
      var k := DeviceKey(devices[n]).value;
      ManagementNeverRecorded(k, devices[n].lldpNeighbors, NormalizeTable(k, devices[n].lldpNeighbors).value);
    }
  }
}
