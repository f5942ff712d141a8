/**
 * `switch_db`, the dictionary the device loop fills in place: an entry per
 * node identity, created when the device is queried, then one interface
 * entry per non-management row of its neighbour table.
 */
module SwitchDatabase {
  import opened Wrappers
  import opened OrderedDict
  import opened Lldp

  class SwitchDb {
    /** The node identities in insertion order (the dict's key order). */
    var order: seq<string>
    /** The `interfaces` dict of each node. */
    var entries: map<string, Interfaces>

    /** The dictionary as a value. */
    function Value(): Registry
      reads this
    {
      ODict(order, entries)
    }

    ghost predicate Valid()
      reads this
    {
      WellFormed(Value())
    }

    /** `switch_db = {}` */
    constructor ()
      ensures Valid() && Value() == Empty()
    {
      order := [];
      entries := map[];
    }

    /** `switch_db[node] = {'host': node, 'interfaces': {}}`: an existing entry is reset in place. */
    method Register(node: string)
      requires Valid()
      modifies this
      ensures Valid()
      ensures Value() == Put(old(Value()), node, Empty())
    {
      if node !in entries {
        order := order + [node];
      }
      entries := entries[node := Empty()];
    }

    /** `switch_db[node]['interfaces'][iface] = {...}` */
    method SetInterface(node: string, iface: string, nb: Neighbor)
      requires Valid() && node in entries
      modifies this
      ensures Valid()
      ensures Value() == Put(old(Value()), node, Put(old(entries[node]), iface, nb))
    {
      entries := entries[node := Put(entries[node], iface, nb)];
    }

    /** The membership test that replaces the `KeyError` of the lookup `switch_db[host]['interfaces']`. */
    predicate HasInterface(host: string, iface: string)
      reads this
    {
      host in entries && iface in entries[host].entries
    }

    /**
     * The body of the device loop: the identity lookups, the new entry, then
     * every non-management row of the neighbour table. An error aborts the
     * run, so the state it leaves behind is not described.
     */
    method LoadDevice(d: Device) returns (err: Option<Error>)
      requires Valid()
      modifies this
      ensures Valid()
      ensures AddDevice(old(Value()), d).Failure? <==> err.Some?
      ensures err.Some? ==> err.value == AddDevice(old(Value()), d).error
      ensures err.None? ==> Value() == AddDevice(old(Value()), d).value
    {
      ghost var before := Value();
      if d.hostname.None? {
        return Some(MissingIdentity("hostname"));
      }
      if d.systemMac.None? {
        return Some(MissingIdentity("systemMacAddress"));
      }
      var node := NodeKey(d.hostname.value, d.systemMac.value);
      assert DeviceKey(d) == Success(node);
      Register(node);
      var table := d.lldpNeighbors;
      var j := 0;
      while j < |table|
        invariant 0 <= j <= |table|
        invariant Valid()
        invariant NormalizeTable(node, table[..j]).Success?
        invariant Value() == Put(before, node, NormalizeTable(node, table[..j]).value)
      {
        NormalizeSnoc(node, table, j);
        var (iface, records) := table[j];
        if !IsManagement(iface) {
          var nb := ReadNeighbor(node, iface, records);
          if nb.Failure? {
            RowError(node, table, j);
            assert AddDevice(old(Value()), d) == Failure(nb.error);
            return Some(nb.error);
          }
          ghost var prev := NormalizeTable(node, table[..j]).value;
          SetInterface(node, iface, nb.value);
          PutPut(before, node, prev, Put(prev, iface, nb.value));
        }
        j := j + 1;
      }
      assert table[..j] == table;
      assert AddDevice(before, d) == Success(Put(before, node, NormalizeTable(node, table).value));
      err := None;
    }
  }
}
