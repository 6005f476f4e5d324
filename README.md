# frr-monitor, modelled in Dafny

frr-monitor checks that the EVPN overlay of an FRR routing host can reach every remote BGP next-hop.
For each VRF other than `default` it does four things:

- it collects the IPs of all remote next-hops of the VRF's BGP routes;
- it derives the VRF's VNI from its name;
- it looks each IP up among the EVPN next-hops zebra lists for that VNI;
- it reports an IP that has no entry with a router MAC that parses.

The FRR daemons are queried over their vty control sockets. A query is a NUL-terminated command, and the daemon answers with a NUL-terminated reply.

The model covers three parts of the repository:

- **`Monitor`** (`monitor.dfy`): the reconciliation loop of `main.go`. It is a method with the source's nested loops, its `found` flag and its `break`. It returns `Report` records where the program prints lines. Go visits maps in no fixed order, so the loops pick each map key with `:|`. What they return is therefore specified as a multiset: `AllReports` sums, over the VRFs, the bags that `VrfReports` sums over each VRF's next-hops.
- **`Frr`** (`frr.dfy`): the query side of `pkg/frr/vtysh.go`. This is the `enable`-then-command session of `executeVTYSH`, the flattening of a VRF into route prefixes (`getNexthops`), the permissive walk over the EVPN map-of-maps (`getEVPNVNINexthops`), the de-duplicated difference of `GetMissingRMAC`, and `GetRoutes`.
- **`LegacyFrr`** (`legacy_frr.dfy`): the older `frr/vtysh.go`. Its `GetRoutes` sends one `show ip route json` command to bgpd without `enable` and returns every error unchanged.

Three modules support these:

- **`Vty`** (`vty.dfy`) holds `lookupSocketPath` and `runCmd`. Both source files carry identical copies of these, so they are defined once.
  - The sockets form a `World` class. Its `conns` script says how a connection behaves, given its path and how many connections the client opened before it, to any path. The dial fails, the write fails, or the daemon serves a reply stream.
  - A ghost `sent` log records every framed command that reached a socket.
- **`Bags`** (`bags.dfy`) provides `SumValues`, the multiset sum over the bags of a map, and its lemmas. Every loop over a Go map picks its keys with `:|` and is proved against a bag or a set that does not depend on the order. The loops that build the reports, the prefix list and the EVPN key list are proved against `SumValues`; next-hop collection and `GetMissingRMAC` are proved against sets.
- **`Results`** (`results.dfy`) defines the error values, including the `fmt.Errorf("...: %w")` wrapping.

Where the code does something other than one might expect, the model follows the code:

- **VNI derivation.** The VNI is the VRF name with *every* `"vrf"` deleted by `strings.ReplaceAll`, not only a leading prefix. So `"vrf100"` and `"100"` share VNI `"100"`, and `"vvrfrf"` gives `"vrf"` (`VniOfNotInjective`).
- **`"00:00:00"` MAC.** A next-hop whose only EVPN entry has a MAC that does not parse, such as `"00:00:00"`, gets an "invalid mac" report *and* a "not found" report (`OnlyInvalidMacsGetBoth`). One might expect a single "invalid mac" report instead.
- **EVPN walk.** The walk keeps every inner key of every object-valued entry, so the `numNextHops` count key is collected too (`KeyBagMember`). It skips only non-object top-level values.
- **`getNexthops`.** It collects each route's `Prefix`, not next-hop IPs. `GetMissingRMAC` therefore compares route prefixes with EVPN next-hop IPs.

## Model

| member | source | states |
|---|---|---|
| Vty.LookupSocketPath | pkg/frr/vtysh.go:140-164 | a path exactly for the 18 listed daemons, namely `/var/run/frr/<daemon>.vty`; an "unknown daemon" error naming the daemon for any other name; frr/vtysh.go:96-120 is an identical copy |
| Vty.SocketPathRoundTrip | pkg/frr/vtysh.go:161 | the daemon name can be read back out of its socket path |
| Vty.LookupSocketPathInjective | pkg/frr/vtysh.go:140-164 | no two accepted daemons share a socket path |
| Vty.Frame | pkg/frr/vtysh.go:173-174 | the bytes written are the command followed by exactly one NUL |
| Vty.ReadBytes | pkg/frr/vtysh.go:179 | the stream up to and including the first NUL, with no earlier NUL; an EOF error exactly when no NUL arrives |
| Vty.Unframe | pkg/frr/vtysh.go:179-184 | succeeds exactly when the reply holds a NUL; the result is the NUL-free prefix before the first NUL, which is dropped |
| Vty.UnframeFrame | pkg/frr/vtysh.go:173-184 | un-framing a framed NUL-free payload gives it back, whatever bytes follow |
| Vty.AsciiUnframes | frr/vtysh.go:129-130 | a command of non-NUL ASCII characters survives framing and un-framing |
| Vty.Exchange | pkg/frr/vtysh.go:166-184 | a runCmd round trip succeeds exactly when the connection serves a reply containing a NUL; a successful reply is NUL-free |
| Vty.Delivered | pkg/frr/vtysh.go:167-176 | the framed command reaches the socket exactly when both dial and write succeed |
| Vty.World.RunCmd | pkg/frr/vtysh.go:166-185 | opens one connection; returns that connection's exchange; logs the framed command exactly when it was delivered; frr/vtysh.go:122-141 is an identical copy |
| Frr.CommandUnframes | pkg/frr/vtysh.go:173-174 | each fixed command (`enable`, and the three `show` queries) reaches the daemon intact |
| Frr.EnableSession | pkg/frr/vtysh.go:193-197 | a failed `enable` ends the session after one connection with an error; otherwise two connections are used and only the second reply is returned |
| Frr.EnableSessionSends | pkg/frr/vtysh.go:193-197 | a session writes `enable` and then the command, both to the same socket, and nothing else: `enable` exactly when the first connection takes the write, the command exactly when `enable` succeeded and the second connection takes the write |
| Frr.ExecuteVtysh | pkg/frr/vtysh.go:187-198 | an unknown daemon fails with the wrapped lookup error, dialling and sending nothing; otherwise its result, dials and log are those of the `enable`-then-command session on the daemon's socket |
| Frr.Decoded | pkg/frr/vtysh.go:75-84 | succeeds exactly when the session and the decoding both succeed, with the decoded value; transport and decode failures are wrapped |
| Frr.Prefixes | pkg/frr/vtysh.go:90 | one entry per route, namely that route's prefix, in order |
| Frr.PrefixBagSize | pkg/frr/vtysh.go:86-93 | as many prefixes are collected as there are routes over all prefix lists |
| Frr.RoutePrefixes | pkg/frr/vtysh.go:86-93 | the result holds each route's prefix once per route, over every prefix list, in any order; its length is the total number of routes |
| Frr.GetNexthops | pkg/frr/vtysh.go:74-96 | queries bgpd with `show bgp detail json` after `enable`; passes on a transport or decode failure; otherwise returns the prefixes of the decoded VRF's routes |
| Frr.KeyBagMember | pkg/frr/vtysh.go:109-118 | a key is collected exactly when some object-valued top-level entry holds it, whatever the key is (count keys included); non-object entries contribute nothing |
| Frr.EvpnKeys | pkg/frr/vtysh.go:109-118 | the result holds every inner key of every object-valued entry, once per entry that holds it; non-object entries are skipped, not rejected |
| Frr.AppendKeys | pkg/frr/vtysh.go:115-117 | appends every key of one object exactly once, in any order, keeping what was collected before |
| Frr.GetEvpnVniNexthops | pkg/frr/vtysh.go:98-121 | queries zebra with `show evpn next-hops vni all json` after `enable`; passes on a transport or decode failure; otherwise returns the collected inner keys |
| Frr.MissingFrom | pkg/frr/vtysh.go:61-70 | a value is in the result exactly when it is in the BGP list and not in the EVPN list; no value appears twice |
| Frr.GetMissingRmac | pkg/frr/vtysh.go:51-72 | a failed BGP query returns its error and the EVPN query is never issued; a failed EVPN query returns its error; otherwise the distinct BGP prefixes absent from the EVPN keys |
| Frr.GetRoutes | pkg/frr/vtysh.go:123-138 | queries bgpd with `show bgp vrf all ipv4 unicast json` after `enable`; the result is the decoded VRFs, or the wrapped transport or decode error |
| LegacyFrr.ShowIpRouteUnframes | frr/vtysh.go:129-130 | the framed RIB query reaches the daemon intact |
| LegacyFrr.GetRoutes | frr/vtysh.go:77-94 | exactly one connection, to the bgpd socket, carrying `show ip route json` with no `enable` before it; transport and decode errors are returned unchanged, with no routes |
| Monitor.RemoveAll | main.go:77 | deleting occurrences never makes a string longer; what it deletes is stated by `RemoveAllFirst` and `RemoveAllAbsent` |
| Monitor.RemoveAllFirst | main.go:77 | for every text, the part before the first occurrence is kept, that occurrence is deleted, and the pass continues after it, so later occurrences go too |
| Monitor.VniOf | main.go:77 | the VNI keeps the VRF name up to its first `"vrf"`, drops that `"vrf"`, and removes every later one by the same pass; a name without `"vrf"` is its own VNI; the VNI is never longer than the name |
| Monitor.RemoveAllAbsent | main.go:77 | a name with no `"vrf"` in it is left as it is |
| Monitor.VniOfConventionalName | main.go:77 | `"vrf"` followed by a name free of `"vrf"` gives back that name as the VNI |
| Monitor.VniOfVrf100 | main.go:77 | VRF `"vrf100"` has VNI `"100"` |
| Monitor.VniOfNotInjective | main.go:77 | every occurrence is removed: `"vrf100"` and `"100"` share a VNI, and `"vvrfrf"` gives `"vrf"` |
| Monitor.MarkRemoteIps | main.go:70-74 | adds exactly the IPs of the next-hops whose hostname is not the local one |
| Monitor.MarkRouteListIps | main.go:69-75 | adds exactly the remote next-hop IPs of every route in the list |
| Monitor.CollectNexthops | main.go:67-76 | the collected next-hops are exactly the distinct IPs of remote next-hops over all routes of all prefixes |
| Monitor.FirstResolving | main.go:80-85 | the position where the scan stops: every earlier entry fails to resolve the IP, and the entry there resolves it |
| Monitor.InvalidMacReports | main.go:81-88 | all reports are "invalid mac" for this next-hop; one with a given MAC exists exactly when a scanned entry has the IP and that MAC |
| Monitor.InvalidMacReportsCount | main.go:81-88 | there is one "invalid mac" report per scanned entry with the next-hop's IP |
| Monitor.NexthopReportsAbout | main.go:87-92 | every report about a next-hop names it, its VRF and its VNI |
| Monitor.NotFoundIffUnresolved | main.go:78-93 | "not found" is reported once when no entry has the IP and a MAC that parses, and never otherwise |
| Monitor.InvalidMacUpToFirstValid | main.go:80-92 | "invalid mac" reports are exactly the entries with the IP before the first resolving one, and those entries' MACs do not parse; the report count is those entries plus one "not found" when nothing resolves |
| Monitor.ScanStopsAtFirstValid | main.go:83-85 | entries after the first resolving one are never looked at: replacing them changes no report |
| Monitor.OnlyInvalidMacsGetBoth | main.go:80-92 | a next-hop whose matching entries all have MACs that do not parse gets an "invalid mac" report for each and also "not found" |
| Monitor.CheckNexthop | main.go:79-93 | the scan with `found` and `break` emits exactly the reports of its next-hop, in order |
| Monitor.EntriesFor | main.go:80 | a VNI missing from the EVPN table has no entries |
| Monitor.VrfReportsAbout | main.go:64-66 | the `default` VRF reports nothing; every report of another VRF is under its name and VNI and about one of its collected next-hops |
| Monitor.LocalNexthopNeverReported | main.go:71 | an IP reached only through the local host is never reported for the VRF, whatever the EVPN table holds |
| Monitor.VrfNotFoundCount | main.go:78-93 | in a non-default VRF, "not found" is reported once for each collected next-hop with no resolving entry, and for no other IP |
| Monitor.MissingVniAllNotFound | main.go:80-93 | when the VNI is not in the EVPN table, every report is "not found" and each collected next-hop gets exactly one |
| Monitor.CheckVrf | main.go:64-94 | one VRF's reports are, as a multiset, each collected next-hop's reports, each next-hop once; none for `default` |
| Monitor.Reconcile | main.go:63-95 | the reports are, as a multiset, the reports of every VRF in the map |
| Monitor.ReportOrigin | main.go:63-95 | every report comes from a non-default VRF of the map, about one of its collected next-hops, under the VNI of its name |
| Monitor.ReportsOfOneVrf | main.go:63-95 | when VRF names are distinct, the whole run reports about a VRF exactly what that VRF alone reports |
| Monitor.NotFoundOverall | main.go:78-95 | across the whole run, a next-hop of a non-default VRF is reported "not found" once exactly when nothing resolves it, and never otherwise |

## Left out

- The start of `main` (main.go:50-61) is not modelled. It calls `frr.GetVRFs` and `frr.GetEVPNVNINexthops`, which are not part of this model, then `os.Hostname`, and panics on any error. `Monitor.Reconcile` takes the VRFs, the EVPN table and the hostname as parameters.
- The EVPN table that `main` reads is modelled as a map from VNI to its `nextHops`, with each next-hop a `{NexthopIp, RouterMac}` pair. Its decoder is not part of this model.
- kernel/kernel.go and pkg/kernel/kernel.go are not modelled. They list netlink routes, which is a foreign kernel interface.
- `net.Dial`, `Write`, `Close` and `bufio` buffering are not modelled. Each connection's behaviour is the `World.conns` script. A reply stream without NUL stands for a connection that ends or fails before the terminator, reported as an EOF error. The deferred `Close` is not modelled.
- `encoding/json` decoding is not modelled. Every `json.Unmarshal` is a parameter from reply bytes to a `Result`. JSON numbers are kept as integers in `Json`, not as Go's `float64`.
- `net.ParseMAC` is the parameter `validMac`. No rejection rule of its own is added.
- `fmt.Printf` text is not modelled. Reports are `Report` records. The error text of `ParseMAC`, printed with `%q`, is not carried.
- Error messages are structured `Error` values. The `%w` chains keep their context strings, but not the exact formatted text.
- Struct fields that no logic reads are dropped from the BGP and EVPN types: the BGP peer and summary counters, route metadata such as validity, AFI and use flags, VRF ids, router ids and AS numbers, and the EVPN `numNextHops` count. The RIB routes of the older `frr/vtysh.go` are only returned as decoded, so nothing reads them; they keep prefix, protocol, VRF, selection, installation and next-hops (each with IP, AFI, interface, active and FIB flags), and drop the rest.
- Names, IPs and MACs are Dafny strings of characters, not UTF-8 bytes. Deleting the ASCII pattern `"vrf"` gives the same result either way.
- Frr.GetMissingRmac: returns an empty sequence when nothing is missing. Go returns a nil slice there, which the model does not tell apart from an empty one.
- Monitor.ReportsOfOneVrf: assumes VRF names are distinct across the map's keys, as FRR keys its VRF map by name. The model does not tie each key to its VRF's name.
- Monitor.NotFoundOverall: assumes distinct VRF names across the map's keys, for the same reason as `ReportsOfOneVrf`.
