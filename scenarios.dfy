/**
 * Two switches cabled to each other, the first one also facing a server, and
 * both reporting something on a management port: the run yields exactly one
 * link and lists both switches in query order.
 */
module Scenarios {
  import opened Wrappers
  import opened PyStrings
  import opened OrderedDict
  import opened Lldp
  import opened Resolution
  import opened MapNetwork

  /** A neighbour record with every field present. */
  function Record(name: string, chassis: string, iface: string): NeighborRecord {
    NeighborRecord(Some(name), Some(chassis), Some(iface))
  }

  /** The assumptions of the scenario, on arbitrary names. */
  ghost predicate Cabled(
    h1: string, mac1: string, h2: string, mac2: string,
    e1: string, e2: string, srv: string, mg1: string, mg2: string,
    n1: string, c1: string, n2: string, c2: string, ns: string, cs: string)
  {
    // the switches have different identities, and each one's LLDP advertisement names the other
    && NodeKey(h1, mac1) != NodeKey(h2, mac2)
    && RemoteKey(n2, c2) == NodeKey(h2, mac2)
    && RemoteKey(n1, c1) == NodeKey(h1, mac1)
    // the server was not queried
    && RemoteKey(ns, cs) != NodeKey(h1, mac1) && RemoteKey(ns, cs) != NodeKey(h2, mac2)
    // the cabled ports and the server port are data ports, the other two are management ports
    && !IsManagement(e1) && !IsManagement(e2) && !IsManagement(srv) && srv != e1
    && IsManagement(mg1) && IsManagement(mg2)
  }

  function Switch1(h1: string, mac1: string, e1: string, srv: string, mg1: string,
                   n2: string, c2: string, e2: string, ns: string, cs: string, m1: seq<NeighborRecord>): Device {
    Device(Some(h1), Some(mac1), [(e1, [Record(n2, c2, e2)]), (srv, [Record(ns, cs, "eth0")]), (mg1, m1)])
  }

  function Switch2(h2: string, mac2: string, e2: string, mg2: string,
                   n1: string, c1: string, e1: string, m2: seq<NeighborRecord>): Device {
    Device(Some(h2), Some(mac2), [(e2, [Record(n1, c1, e1)]), (mg2, m2)])
  }

  /** The first switch records the cabled port and the server port, and skips the management port. */
  lemma Switch1Table(k1: string, k2: string, h1: string, mac1: string, e1: string, srv: string, mg1: string,
                     n2: string, c2: string, e2: string, ns: string, cs: string, m1: seq<NeighborRecord>)
    requires RemoteKey(n2, c2) == k2
    requires !IsManagement(e1) && !IsManagement(srv) && IsManagement(mg1)
    ensures NormalizeTable(k1, Switch1(h1, mac1, e1, srv, mg1, n2, c2, e2, ns, cs, m1).lldpNeighbors) ==
      Success(Put(Put(Empty(), e1, Neighbor(k2, e2)), srv, Neighbor(RemoteKey(ns, cs), "eth0")))
  {
    var t := Switch1(h1, mac1, e1, srv, mg1, n2, c2, e2, ns, cs, m1).lldpNeighbors;
    assert t[..0] == [];
    NormalizeSnoc(k1, t, 0);
    NormalizeSnoc(k1, t, 1);
    NormalizeSnoc(k1, t, 2);
    assert t[..3] == t;
  }

  /** The second switch records the cabled port and skips the management port. */
  lemma Switch2Table(k1: string, k2: string, h2: string, mac2: string, e2: string, mg2: string,
                     n1: string, c1: string, e1: string, m2: seq<NeighborRecord>)
    requires RemoteKey(n1, c1) == k1
    requires !IsManagement(e2) && IsManagement(mg2)
    ensures NormalizeTable(k2, Switch2(h2, mac2, e2, mg2, n1, c1, e1, m2).lldpNeighbors) ==
      Success(Put(Empty(), e2, Neighbor(k1, e1)))
  {
    var t := Switch2(h2, mac2, e2, mg2, n1, c1, e1, m2).lldpNeighbors;
    assert t[..0] == [];
    NormalizeSnoc(k2, t, 0);
    assert NormalizeTable(k2, t[..1]) == Success(Put(Empty(), e2, Neighbor(k1, e1)));
    NormalizeSnoc(k2, t, 1);
    assert t[..2] == t;
  }

  /** Two devices whose tables normalise give a registry with both, in query order. */
  lemma TwoDeviceRegistry(d1: Device, d2: Device, k1: string, k2: string, ifs1: Interfaces, ifs2: Interfaces)
    requires DeviceKey(d1) == Success(k1) && DeviceKey(d2) == Success(k2) && k1 != k2
    requires NormalizeTable(k1, d1.lldpNeighbors) == Success(ifs1)
    requires NormalizeTable(k2, d2.lldpNeighbors) == Success(ifs2)
    ensures BuildRegistry([d1, d2]) == Success(Put(Put(Empty(), k1, ifs1), k2, ifs2))
  {
    var devices := [d1, d2];
    assert devices[..0] == [];
    BuildSnoc(devices, 0);
    BuildSnoc(devices, 1);
    assert devices[..2] == devices;
  }

  /** The registry the scenario builds; `ks` is the server's key. */
  function ScenarioRegistry(k1: string, k2: string, e1: string, e2: string, srv: string, ks: string): Registry {
    Put(Put(Empty(), k1, Put(Put(Empty(), e1, Neighbor(k2, e2)), srv, Neighbor(ks, "eth0"))),
        k2, Put(Empty(), e2, Neighbor(k1, e1)))
  }

  /** What the candidate loop needs to know about the scenario's registry. */
  ghost predicate Shaped(reg: Registry, k1: string, k2: string, e1: string, e2: string, srv: string, ks: string) {
    && WellFormed(reg) && reg.keys == [k1, k2]
    && reg.entries[k1].keys == [e1, srv]
    && reg.entries[k1].entries[e1] == Neighbor(k2, e2)
    && reg.entries[k1].entries[srv] == Neighbor(ks, "eth0")
    && reg.entries[k2].keys == [e2]
    && reg.entries[k2].entries[e2] == Neighbor(k1, e1)
  }

  /** A dict built by assigning two different keys. */
  lemma TwoPuts<V>(a: string, va: V, b: string, vb: V)
    requires a != b
    ensures var d := Put(Put(Empty(), a, va), b, vb);
      Valid(d) && d.keys == [a, b] && d.entries == map[a := va, b := vb]
  {
  }

  lemma ScenarioRegistryShape(k1: string, k2: string, e1: string, e2: string, srv: string, ks: string)
    requires k1 != k2 && srv != e1
    ensures Shaped(ScenarioRegistry(k1, k2, e1, e2, srv, ks), k1, k2, e1, e2, srv, ks)
  {
    var ifs1 := Put(Put(Empty(), e1, Neighbor(k2, e2)), srv, Neighbor(ks, "eth0"));
    var ifs2 := Put(Empty(), e2, Neighbor(k1, e1));
    TwoPuts(e1, Neighbor(k2, e2), srv, Neighbor(ks, "eth0"));
    TwoPuts(k1, ifs1, k2, ifs2);
    assert Valid(ifs2) && ifs2.keys == [e2] && ifs2.entries == map[e2 := Neighbor(k1, e1)];
    var reg := ScenarioRegistry(k1, k2, e1, e2, srv, ks);
    assert reg.entries == map[k1 := ifs1, k2 := ifs2];
    forall h | h in reg.entries ensures Valid(reg.entries[h]) {
      assert h == k1 || h == k2;
    }
  }

  /** The first switch yields the cable's candidate and nothing for the server port. */
  lemma Switch1Candidates(reg: Registry, k1: string, k2: string, e1: string, e2: string, srv: string, ks: string)
    requires k1 != k2 && ks != k1 && ks != k2
    requires Shaped(reg, k1, k2, e1, e2, srv, ks)
    ensures AllHostCandidates(reg, k1) == [(Endpoint(k1, e1), Endpoint(k2, e2))]
  {
    assert NeighborAt(reg, k1, 0) == Neighbor(k2, e2);
    assert NeighborAt(reg, k1, 1) == Neighbor(ks, "eth0");
    assert HostCandidates(reg, k1, 1) == [Directed(k1, e1, Neighbor(k2, e2))];
    assert !Resolved(reg, Neighbor(ks, "eth0"));
  }

  /** The second switch yields the reverse candidate. */
  lemma Switch2Candidates(reg: Registry, k1: string, k2: string, e1: string, e2: string, srv: string, ks: string)
    requires Shaped(reg, k1, k2, e1, e2, srv, ks)
    ensures AllHostCandidates(reg, k2) == [(Endpoint(k2, e2), Endpoint(k1, e1))]
  {
    assert NeighborAt(reg, k2, 0) == Neighbor(k1, e1);
    assert HostCandidates(reg, k2, 0) == [];
  }

  /** The two directions of one cable collapse into one link. */
  lemma ReciprocalPairLinks(reg: Registry, x: string, y: string)
    requires WellFormed(reg) && AllCandidates(reg) == [(x, y), (y, x)]
    ensures Links(reg) == {Canonical(x, y)}
  {
    CanonicalSymmetric(x, y);
    forall l | l in Links(reg) ensures l == Canonical(x, y) {
      var c :| c in AllCandidates(reg) && l == Canonical(c.0, c.1);
      assert c == (x, y) || c == (y, x);
    }
    assert (x, y) in AllCandidates(reg);
  }

  /** The two candidates of the cable collapse into one link. */
  lemma ScenarioLinks(reg: Registry, k1: string, k2: string, e1: string, e2: string, srv: string, ks: string)
    requires k1 != k2 && ks != k1 && ks != k2
    requires Shaped(reg, k1, k2, e1, e2, srv, ks)
    ensures Links(reg) == {Canonical(Endpoint(k1, e1), Endpoint(k2, e2))}
  {
    Switch1Candidates(reg, k1, k2, e1, e2, srv, ks);
    Switch2Candidates(reg, k1, k2, e1, e2, srv, ks);
    var x, y := Endpoint(k1, e1), Endpoint(k2, e2);
    assert Candidates(reg, 1) == [(x, y)];
    assert AllCandidates(reg) == [(x, y), (y, x)];
    ReciprocalPairLinks(reg, x, y);
  }

  /**
   * The reciprocal cable gives one link, its endpoints in sorted order; the
   * server gives none; the management ports are skipped without their
   * records being read (they may even be empty); both switches are listed
   * in query order.
   */
  lemma TwoSwitches(
    h1: string, mac1: string, h2: string, mac2: string,
    e1: string, e2: string, srv: string, mg1: string, mg2: string,
    n1: string, c1: string, n2: string, c2: string, ns: string, cs: string,
    m1: seq<NeighborRecord>, m2: seq<NeighborRecord>)
    requires Cabled(h1, mac1, h2, mac2, e1, e2, srv, mg1, mg2, n1, c1, n2, c2, ns, cs)
    ensures Discover([Switch1(h1, mac1, e1, srv, mg1, n2, c2, e2, ns, cs, m1), Switch2(h2, mac2, e2, mg2, n1, c1, e1, m2)]) ==
      Success(Topology({Canonical(Endpoint(NodeKey(h1, mac1), e1), Endpoint(NodeKey(h2, mac2), e2))},
                       [NodeKey(h1, mac1), NodeKey(h2, mac2)]))
  {
    var k1, k2 := NodeKey(h1, mac1), NodeKey(h2, mac2);
    var d1 := Switch1(h1, mac1, e1, srv, mg1, n2, c2, e2, ns, cs, m1);
    var d2 := Switch2(h2, mac2, e2, mg2, n1, c1, e1, m2);
    var ks := RemoteKey(ns, cs);
    Switch1Table(k1, k2, h1, mac1, e1, srv, mg1, n2, c2, e2, ns, cs, m1);
    Switch2Table(k1, k2, h2, mac2, e2, mg2, n1, c1, e1, m2);
    var ifs1 := Put(Put(Empty(), e1, Neighbor(k2, e2)), srv, Neighbor(ks, "eth0"));
    var ifs2 := Put(Empty(), e2, Neighbor(k1, e1));
    TwoDeviceRegistry(d1, d2, k1, k2, ifs1, ifs2);
    assert BuildRegistry([d1, d2]) == Success(ScenarioRegistry(k1, k2, e1, e2, srv, ks));
    ScenarioRegistryShape(k1, k2, e1, e2, srv, ks);
    ScenarioLinks(ScenarioRegistry(k1, k2, e1, e2, srv, ks), k1, k2, e1, e2, srv, ks);
  }
}
