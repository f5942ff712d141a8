/**
 * The module-level copy of the topology algorithm: the script queries every
 * host of its list, fills the global `switch_db`, resolves the links and
 * builds `endpoint_list` and `host_list` for the topology template. It runs
 * the same steps as `map_network`, so it computes the same topology.
 */
module MapInterfaces {
  import opened Wrappers
  import opened Lldp
  import opened SwitchDatabase
  import opened Resolution
  import opened MapNetwork

  /** The script from `switch_db = {}` to `host_list`. */
  method Run(devices: seq<Device>) returns (r: Result<Topology, Error>)
    ensures r == Discover(devices)
  {
    var switchDb := new SwitchDb();
    var n := 0;
    while n < |devices|
      invariant 0 <= n <= |devices|
      invariant switchDb.Valid()
      invariant BuildRegistry(devices[..n]) == Success(switchDb.Value())
    {
      BuildSnoc(devices, n);
      var err := switchDb.LoadDevice(devices[n]);
      if err.Some? {
        FirstDeviceErrorStands(devices, n + 1);
        return Failure(err.value);
      }
      n := n + 1;
    }
    assert devices[..n] == devices;
    var tempEndpointList := ResolveCandidates(switchDb);
    var endpointList := set c | c in tempEndpointList :: Canonical(c.0, c.1);
    var hostList := switchDb.order;
    r := Success(Topology(endpointList, hostList));
  }
}
