/**
 * `map_network`: query every switch in order, build `switch_db`, resolve and
 * deduplicate the links, and return them with the node list; and the node
 * numbering that `render_templates` hands to the override template.
 */
module MapNetwork {
  import opened Wrappers
  import opened PyStrings
  import opened OrderedDict
  import opened Lldp
  import opened SwitchDatabase
  import opened Resolution

  /** `(endpoint_list, node_list)`. */
  datatype Topology = Topology(endpoints: set<(string, string)>, nodes: seq<string>)

  /** What a run computes from the device answers, or the error that aborts it. */
  function Discover(devices: seq<Device>): Result<Topology, Error> {
    var reg :- BuildRegistry(devices);
    BuildWellFormed(devices);
    Success(Topology(Links(reg), reg.keys))
  }

  /** One malformed device anywhere in the list aborts the run. */
  lemma MalformedDeviceAborts(devices: seq<Device>, p: nat)
    requires p < |devices| && DeviceFails(devices[p])
    ensures Discover(devices).Failure?
  {
    if BuildRegistry(devices[..p]).Failure? {
      FirstDeviceErrorStands(devices, p);
    } else {
      BuildSnoc(devices, p);
      AddDeviceFails(BuildRegistry(devices[..p]).value, devices[p]);
      FirstDeviceErrorStands(devices, p + 1);
    }
  }

  /** A run aborts only because some device is malformed. */
  lemma {:induction false} RunFailsOnlyOnMalformedDevice(devices: seq<Device>)
    requires Discover(devices).Failure?
    ensures exists p | 0 <= p < |devices| :: DeviceFails(devices[p])
    decreases |devices|
  {
    var n := |devices| - 1;
    if BuildRegistry(devices[..n]).Failure? {
      RunFailsOnlyOnMalformedDevice(devices[..n]);
      var p :| 0 <= p < n && DeviceFails(devices[..n][p]);
      assert devices[..n][p] == devices[p];
    } else {
      AddDeviceFails(BuildRegistry(devices[..n]).value, devices[n]);
    }
  }

  /** The error of a failed run is the error of the first malformed device. */
  lemma FirstMalformedDeviceError(devices: seq<Device>, p: nat)
    requires p < |devices| && DeviceFails(devices[p])
    requires forall q | 0 <= q < p :: !DeviceFails(devices[q])
    ensures Discover(devices) == Failure(AddDevice(Empty(), devices[p]).error)
  {
    WellFormedDevicesBuild(devices, p);
    BuildSnoc(devices, p);
    AddDeviceFails(BuildRegistry(devices[..p]).value, devices[p]);
    FirstDeviceErrorStands(devices, p + 1);
  }

  method MapNetwork(devices: seq<Device>) returns (r: Result<Topology, Error>)
    ensures r == Discover(devices)
  {
    var db := new SwitchDb();
    var n := 0;
    while n < |devices|
      invariant 0 <= n <= |devices|
      invariant db.Valid()
      invariant BuildRegistry(devices[..n]) == Success(db.Value())
    {
      BuildSnoc(devices, n);
      var err := db.LoadDevice(devices[n]);
      if err.Some? {
        FirstDeviceErrorStands(devices, n + 1);
        return Failure(err.value);
      }
      n := n + 1;
    }
    assert devices[..n] == devices;
    var temp := ResolveCandidates(db);
    var endpoints := set c | c in temp :: Canonical(c.0, c.1);
    var nodes := db.order;
    r := Success(Topology(endpoints, nodes));
  }

  /** The values handed to the override template for one node. */
  datatype Override = Override(index: nat, node: string)

  /** `for index, node in enumerate(nodes, start=1)` */
  method OverrideIndices(nodes: seq<string>) returns (overrides: seq<Override>)
    ensures |overrides| == |nodes|
    ensures forall p | 0 <= p < |nodes| :: overrides[p] == Override(p + 1, nodes[p])
  {
    overrides := [];
    var index := 1;
    for p := 0 to |nodes|
      invariant index == p + 1
      invariant |overrides| == p
      invariant forall q | 0 <= q < p :: overrides[q] == Override(q + 1, nodes[q])
    {
      overrides := overrides + [Override(index, nodes[p])];
      index := index + 1;
    }
  }

  /**
   * The node list of a run: each device identity once, in the order the
   * devices were queried (by first occurrence), devices without any link included.
   */
  lemma NodeListInQueryOrder(devices: seq<Device>, topo: Topology)
    requires Discover(devices) == Success(topo)
    ensures AllIdentified(devices)
    ensures NoDup(topo.nodes)
    ensures forall p | 0 <= p < |devices| :: DeviceKey(devices[p]).value in topo.nodes
    ensures forall k | k in topo.nodes :: k in DeviceIds(devices)
    ensures forall a, b | 0 <= a < b < |topo.nodes| ::
      IndexOf(DeviceIds(devices), topo.nodes[a]) < IndexOf(DeviceIds(devices), topo.nodes[b])
    ensures NoDup(DeviceIds(devices)) ==> topo.nodes == DeviceIds(devices)
  {
    var reg := BuildRegistry(devices).value;
    NodeListOrder(devices, reg);
    if NoDup(DeviceIds(devices)) {
      DistinctDevicesInOrder(devices, reg);
    }
    forall p | 0 <= p < |devices| ensures DeviceKey(devices[p]).value in topo.nodes {
      assert DeviceIds(devices)[p] == DeviceKey(devices[p]).value;
    }
  }

  /**
   * Every link of a run is a sorted pair of endpoints `node:iface` whose nodes
   * are both in the node list and whose interfaces are recorded, non-management
   * interfaces of those nodes.
   */
  lemma LinksJoinListedNodes(devices: seq<Device>, reg: Registry, link: (string, string))
    requires BuildRegistry(devices) == Success(reg)
    requires link in Discover(devices).value.endpoints
    ensures Discover(devices).value.nodes == reg.keys
    ensures !LexLt(link.1, link.0)
    ensures exists h1, i1, h2, i2 |
        h1 in reg.keys && h1 in reg.entries && i1 in reg.entries[h1].entries &&
        h2 in reg.keys && h2 in reg.entries && i2 in reg.entries[h2].entries ::
      !IsManagement(i1) && !IsManagement(i2) && link == Canonical(Endpoint(h1, i1), Endpoint(h2, i2))
  {
    BuildWellFormed(devices);
    LinkShape(reg, link);
    RegistryHasNoManagement(devices, reg);
  }

  /**
   * Resolution in a run: a recorded interface of a node yields a link exactly
   * when its remote node was queried and has the remote interface recorded;
   * every link comes from such an interface.
   */
  lemma LinkResolution(devices: seq<Device>, reg: Registry)
    requires BuildRegistry(devices) == Success(reg)
    ensures forall h, i | h in reg.entries && i in reg.entries[h].entries && Resolved(reg, reg.entries[h].entries[i]) ::
      Canonical(Endpoint(h, i), Endpoint(reg.entries[h].entries[i].remoteHost, reg.entries[h].entries[i].remoteInterface))
        in Discover(devices).value.endpoints
    ensures forall link | link in Discover(devices).value.endpoints ::
      exists h, i | h in reg.keys && h in reg.entries && i in reg.entries[h].entries ::
        Resolved(reg, reg.entries[h].entries[i]) &&
        link == Canonical(Endpoint(h, i), Endpoint(reg.entries[h].entries[i].remoteHost, reg.entries[h].entries[i].remoteInterface))
  {
    BuildWellFormed(devices);
    forall h, i | h in reg.entries && i in reg.entries[h].entries && Resolved(reg, reg.entries[h].entries[i])
      ensures Canonical(Endpoint(h, i), Endpoint(reg.entries[h].entries[i].remoteHost, reg.entries[h].entries[i].remoteInterface))
        in Links(reg)
    {
      CandidateResolution(reg, h, i);
    }
    forall link | link in Links(reg)
      ensures exists h, i | h in reg.keys && h in reg.entries && i in reg.entries[h].entries ::
        Resolved(reg, reg.entries[h].entries[i]) &&
        link == Canonical(Endpoint(h, i), Endpoint(reg.entries[h].entries[i].remoteHost, reg.entries[h].entries[i].remoteInterface))
    {
      var c :| c in AllCandidates(reg) && link == Canonical(c.0, c.1);
      CandidateOrigin(reg, c);
    }
  }
}
