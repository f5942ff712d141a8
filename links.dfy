/**
 * Link resolution: every recorded interface whose remote end is a registered
 * node with that interface recorded yields a directional candidate; each
 * candidate is then put in canonical (sorted) form and the candidates are
 * collected into a set.
 */
module Resolution {
  import opened PyStrings
  import opened OrderedDict
  import opened Lldp
  import opened SwitchDatabase

  /** An endpoint string `node:iface`, with "Ethernet" shortened to "et". */
  function Endpoint(node: string, iface: string): string {
    node + ":" + ReplaceAll(iface, "Ethernet", "et")
  }

  /** The remote end names a registered node that has the remote interface recorded. */
  predicate Resolved(reg: Registry, nb: Neighbor) {
    nb.remoteHost in reg.entries && nb.remoteInterface in reg.entries[nb.remoteHost].entries
  }

  /** An interface name without "Ethernet" is kept as it is. */
  lemma EndpointPlain(node: string, iface: string)
    requires !Contains(iface, "Ethernet")
    ensures Endpoint(node, iface) == node + ":" + iface
  {
    ReplaceAllAbsent(iface, "Ethernet", "et");
  }

  /** A leading "Ethernet" is shortened to "et". */
  lemma EndpointEthernet(node: string, t: string)
    ensures Endpoint(node, "Ethernet" + t) == node + ":" + "et" + ReplaceAll(t, "Ethernet", "et")
  {
    ReplaceAllPrefix("Ethernet", "et", t);
  }

  /** The directional candidate `(host:iface, remote_host:remote_iface)`. */
  function Directed(host: string, iface: string, nb: Neighbor): (string, string) {
    (Endpoint(host, iface), Endpoint(nb.remoteHost, nb.remoteInterface))
  }

  /** `tuple(sorted((x, y)))`: the two strings are swapped only when the second is strictly smaller. */
  function Canonical(x: string, y: string): (r: (string, string))
    ensures !LexLt(r.1, r.0)
    ensures r == (x, y) || r == (y, x)
  {
    if LexLt(y, x) then
      LexLtAsymmetric(x, y);
      (y, x)
    else (x, y)
  }

  /** Both orders of the same two endpoints have one canonical form. */
  lemma CanonicalSymmetric(x: string, y: string)
    ensures Canonical(x, y) == Canonical(y, x)
  {
    LexLtAsymmetric(x, y);
    LexLtTotal(x, y);
  }

  /** A host of the registry with a well-formed interface dict. */
  ghost predicate Host(reg: Registry, h: string) {
    h in reg.entries && Valid(reg.entries[h])
  }

  /** The neighbour entry of the `p`-th interface of host `h`. */
  function NeighborAt(reg: Registry, h: string, p: nat): Neighbor
    requires Host(reg, h) && p < |reg.entries[h].keys|
  {
    reg.entries[h].entries[reg.entries[h].keys[p]]
  }

  /** The candidates of host `h` from its first `n` interfaces, in dict order. */
  function HostCandidates(reg: Registry, h: string, n: nat): seq<(string, string)>
    requires Host(reg, h) && n <= |reg.entries[h].keys|
  {
    if n == 0 then []
    else
      var nb := NeighborAt(reg, h, n - 1);
      HostCandidates(reg, h, n - 1) +
        (if Resolved(reg, nb) then [Directed(h, reg.entries[h].keys[n - 1], nb)] else [])
  }

  /** The candidates of every interface of host `h`. */
  function AllHostCandidates(reg: Registry, h: string): seq<(string, string)>
    requires Host(reg, h)
  {
    HostCandidates(reg, h, |reg.entries[h].keys|)
  }

  /** `temp_endpoint_list` after the first `k` hosts of the registry, in dict order. */
  function Candidates(reg: Registry, k: nat): seq<(string, string)>
    requires WellFormed(reg) && k <= |reg.keys|
  {
    if k == 0 then []
    else Candidates(reg, k - 1) + AllHostCandidates(reg, reg.keys[k - 1])
  }

  /** The whole `temp_endpoint_list`. */
  function AllCandidates(reg: Registry): seq<(string, string)>
    requires WellFormed(reg)
  {
    Candidates(reg, |reg.keys|)
  }

  /** `endpoint_list`: the set of canonical candidates. */
  function Links(reg: Registry): set<(string, string)>
    requires WellFormed(reg)
  {
    set c | c in AllCandidates(reg) :: Canonical(c.0, c.1)
  }

  /** `c` is the candidate of one of the first `n` interfaces of host `h`. */
  ghost predicate IssuedBy(reg: Registry, h: string, n: nat, c: (string, string))
    requires Host(reg, h) && n <= |reg.entries[h].keys|
  {
    exists p | 0 <= p < n ::
      Resolved(reg, NeighborAt(reg, h, p)) && c == Directed(h, reg.entries[h].keys[p], NeighborAt(reg, h, p))
  }

  /** The `n`-th interface adds its candidate, when resolved, after those of the first `n - 1`. */
  lemma HostCandidatesSnoc(reg: Registry, h: string, n: nat)
    requires Host(reg, h) && 0 < n <= |reg.entries[h].keys|
    ensures forall c :: c in HostCandidates(reg, h, n) <==>
      c in HostCandidates(reg, h, n - 1) ||
      (Resolved(reg, NeighborAt(reg, h, n - 1)) && c == Directed(h, reg.entries[h].keys[n - 1], NeighborAt(reg, h, n - 1)))
  {
  }

  /** Issued by the first `n` interfaces: by the first `n - 1`, or by interface `n - 1`. */
  lemma IssuedBySnoc(reg: Registry, h: string, n: nat)
    requires Host(reg, h) && 0 < n <= |reg.entries[h].keys|
    ensures forall c :: IssuedBy(reg, h, n, c) <==>
      IssuedBy(reg, h, n - 1, c) ||
      (Resolved(reg, NeighborAt(reg, h, n - 1)) && c == Directed(h, reg.entries[h].keys[n - 1], NeighborAt(reg, h, n - 1)))
  {
    forall c | IssuedBy(reg, h, n, c) && !IssuedBy(reg, h, n - 1, c)
      ensures Resolved(reg, NeighborAt(reg, h, n - 1)) && c == Directed(h, reg.entries[h].keys[n - 1], NeighborAt(reg, h, n - 1))
    {
      var p :| 0 <= p < n && Resolved(reg, NeighborAt(reg, h, p)) && c == Directed(h, reg.entries[h].keys[p], NeighborAt(reg, h, p));
      assert p == n - 1;
    }
  }

  lemma {:induction false} HostCandidatesExactly(reg: Registry, h: string, n: nat)
    requires Host(reg, h) && n <= |reg.entries[h].keys|
    ensures forall c :: c in HostCandidates(reg, h, n) <==> IssuedBy(reg, h, n, c)
  {
    if n > 0 {
      HostCandidatesExactly(reg, h, n - 1);
      HostCandidatesSnoc(reg, h, n);
      IssuedBySnoc(reg, h, n);
    }
  }

  /** `c` is a candidate of some interface of one of the first `k` hosts. */
  ghost predicate IssuedFrom(reg: Registry, k: nat, c: (string, string))
    requires WellFormed(reg) && k <= |reg.keys|
  {
    exists q | 0 <= q < k :: IssuedBy(reg, reg.keys[q], |reg.entries[reg.keys[q]].keys|, c)
  }

  /** The candidates of the first `k` hosts are those of the first `k - 1` and those of host `k - 1`. */
  lemma CandidatesSnoc(reg: Registry, k: nat)
    requires WellFormed(reg) && 0 < k <= |reg.keys|
    ensures forall c :: c in Candidates(reg, k) <==>
      c in Candidates(reg, k - 1) || c in HostCandidates(reg, reg.keys[k - 1], |reg.entries[reg.keys[k - 1]].keys|)
  {
  }

  /** Issued from the first `k` hosts: from the first `k - 1`, or by host `k - 1`. */
  lemma IssuedFromSnoc(reg: Registry, k: nat)
    requires WellFormed(reg) && 0 < k <= |reg.keys|
    ensures forall c :: IssuedFrom(reg, k, c) <==>
      IssuedFrom(reg, k - 1, c) || IssuedBy(reg, reg.keys[k - 1], |reg.entries[reg.keys[k - 1]].keys|, c)
  {
    forall c ensures IssuedFrom(reg, k, c) ==>
      IssuedFrom(reg, k - 1, c) || IssuedBy(reg, reg.keys[k - 1], |reg.entries[reg.keys[k - 1]].keys|, c)
    {
      if IssuedFrom(reg, k, c) {
        var q :| 0 <= q < k && IssuedBy(reg, reg.keys[q], |reg.entries[reg.keys[q]].keys|, c);
        if q < k - 1 {
          assert IssuedFrom(reg, k - 1, c);
        }
      }
    }
  }

  lemma {:induction false} CandidatesExactly(reg: Registry, k: nat)
    requires WellFormed(reg) && k <= |reg.keys|
    ensures forall c :: c in Candidates(reg, k) <==> IssuedFrom(reg, k, c)
  {
    if k > 0 {
      CandidatesExactly(reg, k - 1);
      HostCandidatesExactly(reg, reg.keys[k - 1], |reg.entries[reg.keys[k - 1]].keys|);
      CandidatesSnoc(reg, k);
      IssuedFromSnoc(reg, k);
    }
  }

  /**
   * Resolution: the candidate of host `h` on interface `i` is emitted if and
   * only if its remote node is registered and has the remote interface
   * recorded. Whether the remote's entry points back to `h` is not consulted.
   */
  lemma CandidateResolution(reg: Registry, h: string, i: string)
    requires WellFormed(reg) && h in reg.entries && i in reg.entries[h].entries
    ensures Resolved(reg, reg.entries[h].entries[i]) ==>
      Directed(h, i, reg.entries[h].entries[i]) in AllCandidates(reg) &&
      Canonical(Endpoint(h, i), Endpoint(reg.entries[h].entries[i].remoteHost, reg.entries[h].entries[i].remoteInterface)) in Links(reg)
  {
    CandidatesExactly(reg, |reg.keys|);
    var nb := reg.entries[h].entries[i];
    if Resolved(reg, nb) {
      var p :| 0 <= p < |reg.entries[h].keys| && reg.entries[h].keys[p] == i;
      var q :| 0 <= q < |reg.keys| && reg.keys[q] == h;
      assert IssuedBy(reg, h, |reg.entries[h].keys|, Directed(h, i, nb)) by {
        assert NeighborAt(reg, h, p) == nb;
      }
      assert IssuedFrom(reg, |reg.keys|, Directed(h, i, nb));
    }
  }

  /** Every emitted candidate comes from a recorded interface whose remote end resolved. */
  lemma CandidateOrigin(reg: Registry, c: (string, string))
    requires WellFormed(reg) && c in AllCandidates(reg)
    ensures exists h, i | h in reg.keys && i in reg.entries[h].entries ::
      Resolved(reg, reg.entries[h].entries[i]) && c == Directed(h, i, reg.entries[h].entries[i])
  {
    CandidatesExactly(reg, |reg.keys|);
    var q :| 0 <= q < |reg.keys| && IssuedBy(reg, reg.keys[q], |reg.entries[reg.keys[q]].keys|, c);
    var h := reg.keys[q];
    var p :| 0 <= p < |reg.entries[h].keys| &&
      Resolved(reg, NeighborAt(reg, h, p)) && c == Directed(h, reg.entries[h].keys[p], NeighborAt(reg, h, p));
    var i := reg.entries[h].keys[p];
    assert i in reg.entries[h].entries;
  }

  /**
   * Every link is a sorted pair of endpoint strings of recorded interfaces of
   * registered nodes.
   */
  lemma LinkShape(reg: Registry, link: (string, string))
    requires WellFormed(reg) && link in Links(reg)
    ensures !LexLt(link.1, link.0)
    ensures exists h1, i1, h2, i2 |
        h1 in reg.keys && i1 in reg.entries[h1].entries && h2 in reg.keys && i2 in reg.entries[h2].entries ::
      link == Canonical(Endpoint(h1, i1), Endpoint(h2, i2))
  {
    var c :| c in AllCandidates(reg) && link == Canonical(c.0, c.1);
    CandidateOrigin(reg, c);
    var h, i :| h in reg.keys && i in reg.entries[h].entries &&
      Resolved(reg, reg.entries[h].entries[i]) && c == Directed(h, i, reg.entries[h].entries[i]);
    var nb := reg.entries[h].entries[i];
    assert nb.remoteHost in reg.keys;
  }

  /**
   * A link observed from both ends, each side naming the other, appears in the
   * link set once: both directional candidates have the same canonical form,
   * and for two distinct endpoints exactly one of the two orders is a link.
   */
  lemma ReciprocalLinkOnce(reg: Registry, a: string, ia: string, b: string, ib: string)
    requires WellFormed(reg)
    requires a in reg.entries && ia in reg.entries[a].entries && reg.entries[a].entries[ia] == Neighbor(b, ib)
    requires b in reg.entries && ib in reg.entries[b].entries && reg.entries[b].entries[ib] == Neighbor(a, ia)
    ensures Canonical(Endpoint(a, ia), Endpoint(b, ib)) in Links(reg)
    ensures {Canonical(Endpoint(a, ia), Endpoint(b, ib)), Canonical(Endpoint(b, ib), Endpoint(a, ia))} ==
      {Canonical(Endpoint(a, ia), Endpoint(b, ib))}
    ensures Endpoint(a, ia) != Endpoint(b, ib) ==>
      ((Endpoint(a, ia), Endpoint(b, ib)) in Links(reg) <==> (Endpoint(b, ib), Endpoint(a, ia)) !in Links(reg))
  {
    var x, y := Endpoint(a, ia), Endpoint(b, ib);
    CandidateResolution(reg, a, ia);
    CanonicalSymmetric(x, y);
    if x != y {
      LexLtTotal(x, y);
      if (x, y) in Links(reg) {
        LinkShape(reg, (x, y));
      }
      if (y, x) in Links(reg) {
        LinkShape(reg, (y, x));
      }
    }
  }

  /**
   * The resolution loop: every host of `switch_db` in order, every interface
   * of it in order, with the explicit membership test in place of the
   * `KeyError` handler.
   */
  method ResolveCandidates(db: SwitchDb) returns (temp: seq<(string, string)>)
    requires db.Valid()
    ensures temp == AllCandidates(db.Value())
  {
    ghost var reg := db.Value();
    temp := [];
    var k := 0;
    while k < |db.order|
      invariant 0 <= k <= |db.order|
      invariant temp == Candidates(reg, k)
    {
      var host := db.order[k];
      var table := db.entries[host];
      assert host == reg.keys[k] && Host(reg, host) && table == reg.entries[host];
      var j := 0;
      while j < |table.keys|
        invariant 0 <= j <= |table.keys|
        invariant temp == Candidates(reg, k) + HostCandidates(reg, host, j)
      {
        var iface := table.keys[j];
        var nb := table.entries[iface];
        assert nb == NeighborAt(reg, host, j);
        assert db.HasInterface(nb.remoteHost, nb.remoteInterface) == Resolved(reg, nb);
        if db.HasInterface(nb.remoteHost, nb.remoteInterface) {
          temp := temp + [Directed(host, iface, nb)];
        }
        j := j + 1;
      }
      assert temp == Candidates(reg, k + 1);
      k := k + 1;
    }
  }
}
