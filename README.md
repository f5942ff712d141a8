# LLDP topology inference, modelled in Dafny

This project models the core of `model_network`: the code that turns the LLDP
neighbour tables of a list of Arista switches into a lab topology. The topology
is the set of links `endpoint_list` plus the ordered node list `node_list`.
The core exists twice. One copy is the function `map_network` in
`map_network.py`. The other is the module-level script `map_interfaces.py`,
whose result is `host_list`. Both copies do four things:

1. **Registry.** For each queried switch, in query order, they create an entry
   of the insertion-ordered dict `switch_db`. The entry's key is
   `{hostname}_{system_mac}`, with every `:` removed from the mac.
2. **Normalisation.** Each row of the switch's neighbour table becomes one
   interface entry, unless the interface name contains `Man`. The entry holds
   `remote_host` and `remote_interface`:
   - `remote_host` is `{systemName}_{chassisId}`, with every `.` removed from the chassis id;
   - `remote_interface` is `interfaceId_v2`;
   - both come from the FIRST record of `lldpNeighborInfo`.
3. **Resolution.** A recorded interface yields the directional candidate
   `(host:iface, remote_host:remote_iface)` when its remote host is a key of
   `switch_db` and has the remote interface recorded. In both endpoints
   `Ethernet` is shortened to `et`. The candidates are put in sorted order and
   collected into a set.
4. **Node list.** The keys of `switch_db`, in insertion order.

A missing field is looked up without a guard in the source, so the run
raises and aborts. The model returns it as an `Error` instead. There are two
cases:
- `hostname` or `systemMacAddress` is missing;
- the first record of a non-management interface is missing, or lacks
  `systemName`, `chassisId` or `interfaceId_v2`.

The files:

- `wrappers.dfy`: `Option` and `Result`.
- `py_strings.dfy`: the Python string operations used, all on `seq<char>`:
  - `in` on strings;
  - `str.replace`;
  - the `<` order that `sorted` uses.
- `ordered_dict.dfy`: Python's insertion-ordered dict, as a key sequence plus a
  map. `Put` is `d[k] = v`: an existing key keeps its position. `Dedup`
  (first occurrences, in order) is the reference definition of the key order.
- `lldp.dfy`: the input records that the switch queries return, the node and
  remote identities, and how one neighbour table is normalised.
  `BuildRegistry` is the fold over the devices; it specifies the device loop.
- `switch_db.dfy`: class `SwitchDb`, the `switch_db` dict that is filled in
  place. `LoadDevice` is the body of the device loop, proved against
  `AddDevice`.
- `links.dfy`: the resolution loop `ResolveCandidates` and its specification:
  - `Candidates`, and its characterisation by `IssuedFrom`;
  - `Canonical`, which is `tuple(sorted(...))`;
  - `Links`.
- `map_network.dfy`:
  - `Discover`, the specification of a whole run;
  - the method `MapNetwork`, proved equal to it;
  - `OverrideIndices`, the `enumerate(nodes, start=1)` loop of `render_templates`;
  - the lemmas about the returned topology.
- `map_interfaces.dfy`: the script copy `Run`, proved equal to `Discover`.
  Every lemma about `Discover` therefore holds of `endpoint_list` and
  `host_list` in `map_interfaces.py` too.
- `scenarios.dfy`: a worked case. Two switches are cabled to each other and
  one of them also has a server port. The run yields one link. The server
  port yields no link, and both switches are listed in order.

## Model

| member | source | states |
|---|---|---|
| MapNetwork.MapNetwork | map_network.py:11-105 | the loop over the devices, filling a `SwitchDb`, then resolution, dedup and the key list, returns exactly `Discover(devices)`: the topology of the registry, or the first error |
| MapNetwork.Discover | map_network.py:11-105 | a whole run as a value: the registry fold, then the sorted link set and the key list of the registry, or the first error; its properties are the lemmas below |
| MapNetwork.MalformedDeviceAborts | map_network.py:18-70 | one malformed device (no identity, or a failing neighbour table) anywhere in the list aborts the run |
| MapNetwork.RunFailsOnlyOnMalformedDevice | map_network.py:18-70 | conversely, a run aborts only if some device is malformed |
| MapNetwork.FirstMalformedDeviceError | map_network.py:18-70 | the run's error is the error of the first malformed device, whatever follows it |
| MapInterfaces.Run | map_interfaces.py:7-60 | the script copy computes the same result as `map_network`, `Discover(devices)` |
| MapNetwork.OverrideIndices | map_network.py:143-149 | one override per node, in list order; the node at position p gets index p + 1, so indices run 1..n |
| MapNetwork.NodeListInQueryOrder | map_network.py:103 | every queried device's identity is in the node list, even one without links, and nothing else is; each appears once; order is by first query; with distinct identities the list is exactly the identities in query order |
| MapNetwork.LinksJoinListedNodes | map_network.py:88-103 | every link is a sorted pair `Canonical(Endpoint(h1, i1), Endpoint(h2, i2))`; `h1`, `h2` are in the node list; `i1`, `i2` are recorded, non-management interfaces of them |
| MapNetwork.LinkResolution | map_network.py:86-98 | a recorded interface whose remote host and interface are registered yields its sorted link; every link comes from such an interface |
| Resolution.Resolved | map_network.py:86-87 | the `try`/`KeyError` test: the remote host is a key of `switch_db` and has the remote interface recorded; its meaning for the link set is `CandidateResolution` and `LinkResolution` |
| Resolution.Endpoint | map_network.py:88-89 | `f'{host}:{interface.replace("Ethernet","et")}'`; its cases are `EndpointPlain` and `EndpointEthernet` |
| Resolution.Directed | map_network.py:88-90 | the tuple `(local_interface, remote_interface)` appended for one resolved interface |
| Resolution.Candidates | map_network.py:73-92 | `temp_endpoint_list` after the first k hosts, hosts in dict order; characterised by `CandidatesExactly` |
| Resolution.AllCandidates | map_network.py:73-92 | the whole `temp_endpoint_list`; characterised by `CandidatesExactly` and computed by `ResolveCandidates` |
| Resolution.Links | map_network.py:98 | `endpoint_list`: the set of sorted candidates; characterised by `LinkResolution`, `LinkShape` and `ReciprocalLinkOnce` |
| Resolution.ResolveCandidates | map_network.py:73-92 | the nested loop over hosts and interfaces in dict order, with `HasInterface` in place of the `KeyError` handler, builds exactly `AllCandidates` |
| Resolution.HostCandidatesExactly | map_network.py:79-92 | a pair is a candidate of host h exactly when an interface of h resolves and the pair is that interface's directional candidate |
| Resolution.CandidatesExactly | map_network.py:76-92 | a pair is in `temp_endpoint_list` after k hosts exactly when one of those hosts issued it |
| Resolution.CandidateResolution | map_network.py:86-92 | if the remote host and remote interface are registered, the candidate is emitted and its sorted pair is a link; reciprocity is not checked |
| Resolution.CandidateOrigin | map_network.py:86-92 | every emitted candidate is the directional pair of a recorded interface whose remote end resolved |
| Resolution.Canonical | map_network.py:98 | `tuple(sorted((x, y)))`: the result is one of the two orders, and its second string is not smaller than its first |
| Resolution.EndpointPlain | map_network.py:88-89 | an interface name without `Ethernet` is kept as is after `node:` |
| Resolution.EndpointEthernet | map_network.py:88-89 | a leading `Ethernet` in an interface name becomes `et` |
| Resolution.CanonicalSymmetric | map_network.py:98 | both orders of a pair have the same sorted form |
| Resolution.LinkShape | map_network.py:88-98 | every link is sorted and joins endpoint strings of recorded interfaces of registered nodes |
| Resolution.ReciprocalLinkOnce | map_network.py:98 | a cable seen from both ends is a link, its two observations collapse into one set element, and for two distinct endpoints exactly one of the two orders is in the link set |
| SwitchDatabase.SwitchDb.constructor | map_network.py:15 | `switch_db = {}`: an empty, well-formed dict |
| SwitchDatabase.SwitchDb.Register | map_network.py:41-44 | the node's entry is reset to an empty interface dict; a new key goes last, an existing key keeps its place |
| SwitchDatabase.SwitchDb.SetInterface | map_network.py:63-70 | the node's interface dict gets the interface entry; nothing else changes |
| SwitchDatabase.SwitchDb.HasInterface | map_network.py:86-91 | the lookup that succeeds where the code does not hit `KeyError`: the host is a key and has the interface; it reads the same as `Resolved` on `Value()` |
| SwitchDatabase.SwitchDb.LoadDevice | map_network.py:25-70 | the device step fails exactly when `AddDevice` fails, with the same error; on success the dict equals `AddDevice` of the old dict and stays well formed |
| Lldp.NodeKeyShape | map_network.py:29-30 | the node identity is exactly the hostname, `_`, then the mac with every `:` deleted and the other characters kept in order (`Drop`); so it starts with `hostname_` and has no `:` after it |
| Lldp.DeviceKeyCases | map_network.py:29-30 | a device has an identity exactly when both `hostname` and `systemMacAddress` came back; a missing hostname, else a missing mac, is the error; the identity is `hostname_` plus the mac without `:` |
| Lldp.ReadNeighborCases | map_network.py:56-69 | a neighbour is read exactly when the first record exists with `systemName`, `chassisId` and `neighborInterfaceInfo.interfaceId_v2`; no record is the no-neighbour error; the neighbour is the remote identity and interface of that first record |
| Lldp.RemoteKeyShape | map_network.py:56-59 | the remote identity is exactly the system name, `_`, then the chassis id with every `.` deleted and the other characters kept in order (`Drop`); so it starts with `systemName_` and has no `.` after it |
| Lldp.NodeKey | map_network.py:30-41 | `f'{hostname}_{system_mac}'` with the `:` removed from the mac; its exact form is `NodeKeyShape` |
| Lldp.RemoteKey | map_network.py:56-66 | `f'{remote_hostname}_{remote_system_mac}'` with the `.` removed from the chassis id; its exact form is `RemoteKeyShape` |
| Lldp.DeviceKey | map_network.py:29-30 | the identity lookups of one device, or the first missing field; its cases are `DeviceKeyCases` |
| Lldp.IsManagement | map_network.py:53 | `'Man' in interface`; that such interfaces are never recorded is `ManagementNeverRecorded`, and that they never abort is `TableFailsOnlyOnMalformedRow` |
| Lldp.ReadNeighbor | map_network.py:56-69 | the lookups of one non-management row, in source order; its cases are `ReadNeighborCases` |
| Lldp.NormalizeTable | map_network.py:50-70 | the interface dict built from a neighbour table is well formed |
| Lldp.AddDevice | map_network.py:39-70 | adding one device keeps the registry well formed |
| Lldp.BuildRegistry | map_network.py:18-70 | `switch_db` after the device loop, devices in query order, the first error aborting; its properties are `RegistryKeys`, `FirstDeviceErrorStands` and the failure lemmas of `MapNetwork` |
| Lldp.AddDeviceFails | map_network.py:29-70 | adding a device fails exactly when the device is malformed, with an error that does not depend on the devices before it |
| Lldp.WellFormedDevicesBuild | map_network.py:18-70 | a prefix of devices none of which is malformed builds a registry |
| Lldp.BuildWellFormed | map_network.py:18-70 | every registry that the device loop builds is well formed |
| Lldp.RecordedInterfaces | map_network.py:50-63 | an interface is recorded exactly when some row names it and its name does not contain `Man` |
| Lldp.RecordedNeighbor | map_network.py:56-70 | the entry of a recorded interface is read from the first record of the last row that names it |
| Lldp.ManagementNeverRecorded | map_network.py:53-70 | no interface whose name contains `Man` is recorded |
| Lldp.RegistryHasNoManagement | map_network.py:53-70 | no node of the registry has a management interface recorded, so none can yield a link |
| Lldp.MalformedRowAborts | map_network.py:56-69 | a non-management row without a readable first record makes the whole table fail |
| Lldp.TableFailsOnlyOnMalformedRow | map_network.py:50-69 | conversely, a table fails only at some non-management row whose first record cannot be read; a `Man` row never aborts, whatever its records |
| Lldp.RowError | map_network.py:56-69 | the error of the first malformed row is the error of the table |
| Lldp.FirstErrorStands | map_network.py:50-70 | once a prefix of the table fails, later rows cannot change the error |
| Lldp.FirstNeighborWins | map_network.py:56-69 | tables with the same rows and first records normalise alike: records after `[0]` are never read |
| Lldp.ReinsertKeepsPosition | map_network.py:41-70 | re-adding a registered identity replaces its interface dict, keeps the key order, and leaves every other node's entry as it was |
| Lldp.RegistryKeys | map_network.py:18-44 | after a successful run every device has an identity, and the registry keys are the identities without repeats, in first-query order (`Dedup`) |
| Lldp.NodeListOrder | map_network.py:103 | the registry keys have no repeats, are exactly the device identities, and are ordered by first query |
| Lldp.DistinctDevicesInOrder | map_network.py:103 | when no identity repeats, the keys are the device identities in query order |
| Lldp.FirstDeviceErrorStands | map_network.py:18-70 | once a device has failed, the later devices cannot change the error: the first failure is the run's result |
| OrderedDict.Put | map_network.py:41-44 | `d[k] = v`: k maps to v and keeps its position if present, else goes last; other keys and values are unchanged; well-formedness is kept |
| OrderedDict.PutPut | map_network.py:63-70 | assigning the same key twice is the second assignment alone |
| OrderedDict.IndexOf | map_network.py:103 | the first position holding x: it holds x, and no earlier position does; this is what "ordered by first query" refers to |
| OrderedDict.Dedup | map_network.py:103 | the key order that repeated `switch_db[key] = …` (line 41) leaves; characterised by `DedupMembers`, `DedupNoDup` and `DedupOrder` |
| OrderedDict.DedupMembers | map_network.py:103 | the first-occurrence list has exactly the members of the input |
| OrderedDict.DedupNoDup | map_network.py:103 | the first-occurrence list has no repeats |
| OrderedDict.DedupOrder | map_network.py:103 | the first-occurrence list is ordered by first position in the input |
| OrderedDict.DedupDistinct | map_network.py:103 | an input without repeats is its own first-occurrence list |
| PyStrings.StartsWithIsPrefix | map_network.py:53 | the character-by-character prefix test is the prefix order on sequences |
| PyStrings.Contains | map_network.py:53 | Python's `in` on strings: the pattern starts at some position |
| PyStrings.ReplaceAll | map_network.py:88-89 | Python's `str.replace` (also on lines 30 and 59), leftmost non-overlapping occurrences first; see `RemoveCharExact`, `ReplaceAllAbsent` and `ReplaceAllPrefix` |
| PyStrings.LexLt | map_network.py:98 | Python's `<` on strings, by code point; a strict total order by `LexLtIrreflexive`, `LexLtAsymmetric`, `LexLtTotal` and `LexLtTransitive` |
| PyStrings.DropMembers | map_network.py:30 | the filter `Drop(s, c)` contains no `c` and contains exactly the other characters of `s` |
| PyStrings.RemoveCharExact | map_network.py:30 | `s.replace(c, '')` is exactly `s` with every `c` deleted and the other characters kept in order (`Drop`, a character-by-character filter) |
| PyStrings.ReplaceAllAbsent | map_network.py:88-89 | `replace` leaves a string without the pattern unchanged |
| PyStrings.ReplaceAllPrefix | map_network.py:88-89 | a leading occurrence of the pattern is replaced, then the rest is rewritten |
| PyStrings.LexLtIrreflexive | map_network.py:98 | no string is smaller than itself |
| PyStrings.LexLtAsymmetric | map_network.py:98 | two strings are never smaller than each other |
| PyStrings.LexLtTotal | map_network.py:98 | two different strings are always ordered one way or the other |
| PyStrings.LexLtTransitive | map_network.py:98 | the string order is transitive |
| Scenarios.ScenarioLinks | map_network.py:76-98 | in the two-switch registry, the cable's two candidates collapse into one link, and the server port gives none |
| Scenarios.TwoSwitches | map_network.py:11-105 | for two cabled switches with management ports (whose records may be empty) and a server port, the run yields one sorted link and both nodes in query order |

## Left out

- The switch connection: `pyeapi.connect`, the cipher setup, the command batches, and the `rstrip` of the addresses.
  The switches' answers are the input `seq<Device>`, one record per switch in query order.
- The `output['result'][i]` indexing into the command replies. It is taken to succeed.
  So are two unguarded key lookups: the `['lldpNeighbors']` table (map_network.py:50, map_interfaces.py:31) and the running config's `['output']` (map_network.py:37).
  Only the identity fields and the neighbour-record fields can be missing.
- A missing `neighborInterfaceInfo` object. It counts as a missing `interfaceId_v2` (`interfaceId` is `None`).
- File I/O: the running configs, `topology.yml` and the override configs written to disk, and reading `config.yml` and `hosts.conf`.
  Nothing in the core depends on it.
- Jinja2 rendering. The templates are not part of this model.
  `OverrideIndices` models only the `index`/`node` values handed to the override template.
- `backup_config.py`. It only saves one running config.
- The `'host'` field of a `switch_db` entry. It equals the key and is never read, so an entry holds only `interfaces`.
- The `lldpNeighbors` reply is a JSON object, so its interface names are distinct.
  The model takes any sequence of rows; a repeated name keeps its position and takes the last row's entry, as a dict assignment would.
- The order of the set `endpoint_list`. A Python set has no order the code relies on, and the model uses a Dafny `set`.
- `ReplaceAll` handles only non-empty patterns. The code replaces only `:`, `.` and `Ethernet`.
- SwitchDatabase.SwitchDb.LoadDevice: says nothing about the dict's state after an error, because the run is abandoned there.
- MapNetwork.MapNetwork: returns the first error as a value instead of raising it. Files already written before the error are outside the model.
- Per-device failure isolation. The code aborts on the first failure, and so does the model (`FirstDeviceErrorStands`); a more robust tool would skip a failing device and go on.
