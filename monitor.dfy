/**
 * The EVPN reconciliation of main.go: for every VRF but `default`, each remote BGP next-hop
 * must appear in the EVPN next-hops of the VRF's VNI with a router MAC that parses.
 * Instead of printing, the check returns its findings as `Report` records; since Go visits
 * maps in no fixed order, what it returns is specified as a multiset.
 * The local hostname, the decoded VRFs and EVPN table, and net.ParseMAC are parameters.
 */
module Monitor {
  import opened Bags
  import opened Frr

  datatype Reason =
    | InvalidMac(mac: string)  // "has invalid mac address"
    | NotFound                 // "not found in evpn next-hops"

  /** One line the check prints: the VNI, the VRF, the next-hop and what is wrong with it. */
  datatype Report = Report(vni: string, vrf: string, nexthop: string, reason: Reason)

  // ---- VRF name to VNI ----

  predicate OccursAt(s: string, pat: string, i: nat)
  {
    i + |pat| <= |s| && s[i..i + |pat|] == pat
  }

  /** strings.ReplaceAll(s, pat, ""): every leftmost non-overlapping occurrence deleted. */
  function RemoveAll(s: string, pat: string): (r: string)
    ensures |r| <= |s|
    decreases |s|
  {
    if pat == [] || |s| < |pat| then s
    else if s[..|pat|] == pat then RemoveAll(s[|pat|..], pat)
    else [s[0]] + RemoveAll(s[1..], pat)
  }

  /** A string in which `pat` does not occur is left as it is. */
  lemma {:induction false} RemoveAllAbsent(s: string, pat: string)
    requires forall i: nat :: !OccursAt(s, pat, i)
    ensures RemoveAll(s, pat) == s
    decreases |s|
  {
    if pat != [] && |s| >= |pat| {
      assert !OccursAt(s, pat, 0);
      assert s[..|pat|] != pat;
      forall i: nat ensures !OccursAt(s[1..], pat, i) {
        assert !OccursAt(s, pat, i + 1);
        if i + |pat| <= |s[1..]| {
          assert s[1..][i..i + |pat|] == s[i + 1..i + 1 + |pat|];
        }
      }
      RemoveAllAbsent(s[1..], pat);
      assert [s[0]] + s[1..] == s;
    }
  }

  /** A text that does not start with the pattern keeps its first character. */
  lemma RemoveAllKeepsHead(s: string, pat: string)
    requires pat != [] && |s| >= |pat| && !OccursAt(s, pat, 0)
    ensures RemoveAll(s, pat) == [s[0]] + RemoveAll(s[1..], pat)
  {
    assert s[..|pat|] != pat;
  }

  /** No occurrence in the first |x| positions of `x + pat + y` means none in the first |x| - 1 of its tail. */
  lemma NoEarlyOccurrenceTail(x: string, pat: string, y: string)
    requires x != []
    requires forall i: nat :: i < |x| ==> !OccursAt(x + pat + y, pat, i)
    ensures forall i: nat :: i < |x[1..]| ==> !OccursAt(x[1..] + pat + y, pat, i)
  {
    var s := x + pat + y;
    assert s[1..] == x[1..] + pat + y;
    forall i: nat | i < |x[1..]| ensures !OccursAt(x[1..] + pat + y, pat, i) {
      assert !OccursAt(s, pat, i + 1);
      if i + |pat| <= |s[1..]| {
        assert s[i + 1..i + 1 + |pat|] == s[1..][i..i + |pat|];
      }
    }
  }

  /**
   * The single left-to-right pass: text before the first occurrence is kept as it is, the
   * occurrence is deleted, and the pass goes on after it.
   */
  lemma {:induction false} RemoveAllFirst(x: string, pat: string, y: string)
    requires pat != []
    requires forall i: nat :: i < |x| ==> !OccursAt(x + pat + y, pat, i)
    ensures RemoveAll(x + pat + y, pat) == x + RemoveAll(y, pat)
    decreases |x|
  {
    var s := x + pat + y;
    if x == [] {
      assert s == pat + y;
      assert s[..|pat|] == pat && s[|pat|..] == y;
    } else {
      RemoveAllKeepsHead(s, pat);
      assert s[1..] == x[1..] + pat + y;
      NoEarlyOccurrenceTail(x, pat, y);
      RemoveAllFirst(x[1..], pat, y);
      assert s[0] == x[0] && [x[0]] + x[1..] == x;
    }
  }

  /** The pass read at the first occurrence of the pattern in any text. */
  lemma RemoveAllAtFirst(s: string, pat: string, k: nat)
    requires pat != [] && OccursAt(s, pat, k)
    requires forall i: nat :: i < k ==> !OccursAt(s, pat, i)
    ensures RemoveAll(s, pat) == s[..k] + RemoveAll(s[k + |pat|..], pat)
  {
    var x, y := s[..k], s[k + |pat|..];
    assert s == x + pat + y;
    RemoveAllFirst(x, pat, y);
  }

  /** The pass read at whichever position holds the first occurrence. */
  lemma RemoveAllAtAnyFirst(s: string, pat: string)
    requires pat != []
    ensures forall k: nat :: OccursAt(s, pat, k) && (forall i: nat :: i < k ==> !OccursAt(s, pat, i))
              ==> RemoveAll(s, pat) == s[..k] + RemoveAll(s[k + |pat|..], pat)
  {
    forall k: nat | OccursAt(s, pat, k) && (forall i: nat :: i < k ==> !OccursAt(s, pat, i))
      ensures RemoveAll(s, pat) == s[..k] + RemoveAll(s[k + |pat|..], pat)
    {
      RemoveAllAtFirst(s, pat, k);
    }
  }

  /** A text in which the pattern never occurs passes unchanged; stated for every text. */
  lemma RemoveAllNone(s: string, pat: string)
    ensures (forall i: nat :: !OccursAt(s, pat, i)) ==> RemoveAll(s, pat) == s
  {
    if forall i: nat :: !OccursAt(s, pat, i) {
      RemoveAllAbsent(s, pat);
    }
  }

  /**
   * The VNI of a VRF: its name with every "vrf" deleted, as strings.ReplaceAll does. Before the
   * first "vrf" the name is kept, that "vrf" goes, and the rest is treated alike; a name
   * without "vrf" is its own VNI.
   */
  function VniOf(vrfName: string): (vni: string)
    ensures |vni| <= |vrfName|
    ensures forall k: nat :: OccursAt(vrfName, "vrf", k) && (forall i: nat :: i < k ==> !OccursAt(vrfName, "vrf", i))
              ==> vni == vrfName[..k] + RemoveAll(vrfName[k + 3..], "vrf")
    ensures (forall i: nat :: !OccursAt(vrfName, "vrf", i)) ==> vni == vrfName
  {
    RemoveAllAtAnyFirst(vrfName, "vrf");
    RemoveAllNone(vrfName, "vrf");
    RemoveAll(vrfName, "vrf")
  }

  /** A conventional name "vrf" + n gives back n when n itself holds no "vrf". */
  lemma VniOfConventionalName(n: string)
    requires forall i: nat :: !OccursAt(n, "vrf", i)
    ensures VniOf("vrf" + n) == n
  {
    var s := "vrf" + n;
    assert s[..3] == "vrf";
    assert s[3..] == n;
    RemoveAllAbsent(n, "vrf");
  }

  /** "100" holds no "vrf". */
  lemma NoVrfIn100()
    ensures forall i: nat :: !OccursAt("100", "vrf", i)
  {
    forall i: nat ensures !OccursAt("100", "vrf", i) {
      if i + 3 <= 3 { assert "100"[0] != "vrf"[0]; }
    }
  }

  lemma VniOfVrf100()
    ensures VniOf("vrf100") == "100"
  {
    NoVrfIn100();
    VniOfConventionalName("100");
  }

  /** Names are not kept apart: "vrf100" and "100" share a VNI; "vvrfrf" still holds "vrf". */
  lemma VniOfNotInjective()
    ensures VniOf("vrf100") == VniOf("100") == "100"
    ensures VniOf("vvrfrf") == "vrf"
  {
    VniOfVrf100();
    NoVrfIn100();
    RemoveAllAbsent("100", "vrf");
    var s := "vvrfrf";
    assert s[..3][1] != "vrf"[1];
    assert s[1..] == "vrfrf" && s[1..][..3] == "vrf" && s[1..][3..] == "rf";
    assert RemoveAll("rf", "vrf") == "rf";
  }

  // ---- The next-hops a VRF is checked for ----

  /** The IPs of the next-hops in `hops` that do not belong to the local host. */
  function RemoteIps(hops: seq<Nexthop>, hostname: string): set<string>
  {
    set nh | nh in hops && nh.hostname != hostname :: nh.ip
  }

  /** The remote next-hop IPs of a list of routes. */
  function RouteListIps(rs: seq<Route>, hostname: string): set<string>
  {
    set r, nh | r in rs && nh in r.nexthops && nh.hostname != hostname :: nh.ip
  }

  /** The remote next-hop IPs over all routes of all prefixes: what a VRF is checked for. */
  function Candidates(routes: map<string, seq<Route>>, hostname: string): set<string>
  {
    set p, r, nh | p in routes && r in routes[p] && nh in r.nexthops && nh.hostname != hostname :: nh.ip
  }

  lemma RemoteIpsStep(hops: seq<Nexthop>, j: nat, hostname: string)
    requires j < |hops|
    ensures RemoteIps(hops[..j + 1], hostname)
         == RemoteIps(hops[..j], hostname) + (if hops[j].hostname != hostname then {hops[j].ip} else {})
  {
    assert hops[..j + 1] == hops[..j] + [hops[j]];
  }

  lemma RouteListIpsStep(rs: seq<Route>, i: nat, hostname: string)
    requires i < |rs|
    ensures RouteListIps(rs[..i + 1], hostname) == RouteListIps(rs[..i], hostname) + RemoteIps(rs[i].nexthops, hostname)
  {
    assert rs[..i + 1] == rs[..i] + [rs[i]];
    var left := RouteListIps(rs[..i + 1], hostname);
    var right := RouteListIps(rs[..i], hostname) + RemoteIps(rs[i].nexthops, hostname);
    forall ip | ip in left ensures ip in right {
      var r: Route, nh: Nexthop :| r in rs[..i + 1] && nh in r.nexthops && nh.hostname != hostname && nh.ip == ip;
      if r != rs[i] {
        assert r in rs[..i];
      }
    }
  }

  lemma CandidatesAdd(routes: map<string, seq<Route>>, p: string, vr: seq<Route>, hostname: string)
    requires p !in routes
    ensures Candidates(routes[p := vr], hostname) == Candidates(routes, hostname) + RouteListIps(vr, hostname)
  {
    var more := routes[p := vr];
    var left := Candidates(more, hostname);
    var right := Candidates(routes, hostname) + RouteListIps(vr, hostname);
    forall ip | ip in left ensures ip in right {
      var q: string, r: Route, nh: Nexthop :| q in more && r in more[q] && nh in r.nexthops && nh.hostname != hostname && nh.ip == ip;
      if q != p {
        assert q in routes && r in routes[q];
      }
    }
    forall ip | ip in right ensures ip in left {
      if ip in Candidates(routes, hostname) {
        var q: string, r: Route, nh: Nexthop :| q in routes && r in routes[q] && nh in r.nexthops && nh.hostname != hostname && nh.ip == ip;
        assert q in more && r in more[q];
      } else {
        var r: Route, nh: Nexthop :| r in vr && nh in r.nexthops && nh.hostname != hostname && nh.ip == ip;
        assert p in more && r in more[p];
      }
    }
  }

  /** The innermost loop of main.go: marks the IPs of one route's remote next-hops. */
  method MarkRemoteIps(seen: map<string, bool>, hops: seq<Nexthop>, hostname: string)
    returns (nexthops: map<string, bool>)
    ensures nexthops.Keys == seen.Keys + RemoteIps(hops, hostname)
  {
    nexthops := seen;
    for j := 0 to |hops|
      invariant nexthops.Keys == seen.Keys + RemoteIps(hops[..j], hostname)
    {
      var nh := hops[j];
      if nh.hostname != hostname {
        nexthops := nexthops[nh.ip := true];
      }
      RemoteIpsStep(hops, j, hostname);
    }
    assert hops[..|hops|] == hops;
  }

  /** The middle loop of main.go: marks the remote next-hops of every route under one prefix. */
  method MarkRouteListIps(seen: map<string, bool>, rs: seq<Route>, hostname: string)
    returns (nexthops: map<string, bool>)
    ensures nexthops.Keys == seen.Keys + RouteListIps(rs, hostname)
  {
    nexthops := seen;
    for i := 0 to |rs|
      invariant nexthops.Keys == seen.Keys + RouteListIps(rs[..i], hostname)
    {
      nexthops := MarkRemoteIps(nexthops, rs[i].nexthops, hostname);
      RouteListIpsStep(rs, i, hostname);
    }
    assert rs[..|rs|] == rs;
  }

  /** main.go's first loop: the de-duplicated IPs of all remote next-hops of the VRF. */
  method CollectNexthops(vrf: Vrf, hostname: string) returns (nexthops: map<string, bool>)
    ensures nexthops.Keys == Candidates(vrf.routes, hostname)
  {
    nexthops := map[];
    var pending := vrf.routes.Keys;
    while pending != {}
      invariant pending <= vrf.routes.Keys
      invariant nexthops.Keys == Candidates(vrf.routes - pending, hostname)
      decreases pending
    {
      var prefix :| prefix in pending;
      var vr := vrf.routes[prefix];
      nexthops := MarkRouteListIps(nexthops, vr, hostname);
      assert vrf.routes - (pending - {prefix}) == (vrf.routes - pending)[prefix := vr];
      CandidatesAdd(vrf.routes - pending, prefix, vr, hostname);
      pending := pending - {prefix};
    }
    assert vrf.routes - {} == vrf.routes;
  }

  // ---- Checking one next-hop against the EVPN entries of its VNI ----

  /** An EVPN entry that resolves the next-hop: same IP, and a router MAC that parses. */
  predicate Resolves(e: EvpnNexthop, ip: string, validMac: string -> bool)
  {
    e.nexthopIp == ip && validMac(e.routerMac)
  }

  predicate Resolved(ip: string, entries: seq<EvpnNexthop>, validMac: string -> bool)
  {
    exists i :: 0 <= i < |entries| && Resolves(entries[i], ip, validMac)
  }

  /** Where the scan stops: the first resolving entry, or the end of the entries. */
  function FirstResolving(ip: string, entries: seq<EvpnNexthop>, validMac: string -> bool): (k: nat)
    ensures k <= |entries|
    ensures forall i :: 0 <= i < k ==> !Resolves(entries[i], ip, validMac)
    ensures k < |entries| ==> Resolves(entries[k], ip, validMac)
    decreases |entries|
  {
    if entries == [] then 0
    else if Resolves(entries[0], ip, validMac) then 0
    else 1 + FirstResolving(ip, entries[1..], validMac)
  }

  /** The scan stops at `k` exactly when `k` is the first resolving entry (or the end). */
  lemma FirstResolvingUnique(ip: string, entries: seq<EvpnNexthop>, validMac: string -> bool, k: nat)
    requires k <= |entries|
    requires forall i :: 0 <= i < k ==> !Resolves(entries[i], ip, validMac)
    requires k < |entries| ==> Resolves(entries[k], ip, validMac)
    ensures FirstResolving(ip, entries, validMac) == k
  {
  }

  /** One "invalid mac" report for each scanned entry with the next-hop's IP, in order. */
  function InvalidMacReports(vni: string, vrf: string, ip: string, scanned: seq<EvpnNexthop>): (rs: seq<Report>)
    ensures forall r :: r in rs ==> r.vni == vni && r.vrf == vrf && r.nexthop == ip && r.reason.InvalidMac?
    ensures forall m :: Report(vni, vrf, ip, InvalidMac(m)) in rs <==>
              exists j :: 0 <= j < |scanned| && scanned[j].nexthopIp == ip && scanned[j].routerMac == m
    decreases |scanned|
  {
    if scanned == [] then []
    else
      var n := |scanned| - 1;
      var e := scanned[n];
      assert forall j :: 0 <= j < n ==> scanned[..n][j] == scanned[j];
      InvalidMacReports(vni, vrf, ip, scanned[..n])
        + (if e.nexthopIp == ip then [Report(vni, vrf, ip, InvalidMac(e.routerMac))] else [])
  }

  /** The indices of the scanned entries that carry the next-hop's IP. */
  function MatchingIndices(ip: string, scanned: seq<EvpnNexthop>): set<nat>
  {
    set j: nat | j < |scanned| && scanned[j].nexthopIp == ip
  }

  /** There are as many "invalid mac" reports as scanned entries with the IP. */
  lemma {:induction false} InvalidMacReportsCount(vni: string, vrf: string, ip: string, scanned: seq<EvpnNexthop>)
    ensures |InvalidMacReports(vni, vrf, ip, scanned)| == |MatchingIndices(ip, scanned)|
    decreases |scanned|
  {
    if scanned != [] {
      var n := |scanned| - 1;
      InvalidMacReportsCount(vni, vrf, ip, scanned[..n]);
      var before := MatchingIndices(ip, scanned[..n]);
      if scanned[n].nexthopIp == ip {
        assert MatchingIndices(ip, scanned) == before + {n};
      } else {
        assert MatchingIndices(ip, scanned) == before;
      }
    }
  }

  /** The reports for one next-hop: "invalid mac" up to the first resolving entry, then "not found" if there is none. */
  function NexthopReports(vni: string, vrf: string, ip: string, entries: seq<EvpnNexthop>,
                          validMac: string -> bool): seq<Report>
  {
    var k := FirstResolving(ip, entries, validMac);
    InvalidMacReports(vni, vrf, ip, entries[..k])
      + (if k == |entries| then [Report(vni, vrf, ip, NotFound)] else [])
  }

  /** Every report about a next-hop names it, its VRF and its VNI. */
  lemma NexthopReportsAbout(vni: string, vrf: string, ip: string, entries: seq<EvpnNexthop>,
                            validMac: string -> bool, r: Report)
    requires r in NexthopReports(vni, vrf, ip, entries, validMac)
    ensures r.vni == vni && r.vrf == vrf && r.nexthop == ip
  {
  }

  /** "not found" is reported once for an unresolved next-hop and never for a resolved one. */
  lemma NotFoundIffUnresolved(vni: string, vrf: string, ip: string, entries: seq<EvpnNexthop>,
                              validMac: string -> bool)
    ensures multiset(NexthopReports(vni, vrf, ip, entries, validMac))[Report(vni, vrf, ip, NotFound)]
         == if Resolved(ip, entries, validMac) then 0 else 1
  {
    var k := FirstResolving(ip, entries, validMac);
    var invalid := InvalidMacReports(vni, vrf, ip, entries[..k]);
    assert Report(vni, vrf, ip, NotFound) !in invalid;
    assert multiset(invalid)[Report(vni, vrf, ip, NotFound)] == 0;
    if k < |entries| {
      assert Resolved(ip, entries, validMac);
    } else {
      assert !Resolved(ip, entries, validMac);
    }
  }

  /**
   * "invalid mac" is reported with a MAC exactly when an entry before the first resolving one
   * has the next-hop's IP and that MAC; one report per such entry.
   */
  lemma InvalidMacUpToFirstValid(vni: string, vrf: string, ip: string, entries: seq<EvpnNexthop>,
                                 validMac: string -> bool, mac: string)
    ensures var k := FirstResolving(ip, entries, validMac);
      && (Report(vni, vrf, ip, InvalidMac(mac)) in NexthopReports(vni, vrf, ip, entries, validMac) <==>
          exists j :: 0 <= j < k && entries[j].nexthopIp == ip && entries[j].routerMac == mac)
      && (forall j :: 0 <= j < k && entries[j].nexthopIp == ip ==> !validMac(entries[j].routerMac))
      && |NexthopReports(vni, vrf, ip, entries, validMac)|
           == |MatchingIndices(ip, entries[..k])| + (if k == |entries| then 1 else 0)
  {
    var k := FirstResolving(ip, entries, validMac);
    InvalidMacReportsCount(vni, vrf, ip, entries[..k]);
    var invalid := InvalidMacReports(vni, vrf, ip, entries[..k]);
    if exists j :: 0 <= j < k && entries[j].nexthopIp == ip && entries[j].routerMac == mac {
      var j :| 0 <= j < k && entries[j].nexthopIp == ip && entries[j].routerMac == mac;
      assert entries[..k][j] == entries[j];
    }
    if Report(vni, vrf, ip, InvalidMac(mac)) in invalid {
      var j :| 0 <= j < k && entries[..k][j].nexthopIp == ip && entries[..k][j].routerMac == mac;
      assert entries[j] == entries[..k][j];
    }
  }

  /** Entries after the first resolving one are never looked at. */
  lemma ScanStopsAtFirstValid(vni: string, vrf: string, ip: string, entries: seq<EvpnNexthop>,
                              validMac: string -> bool, tail: seq<EvpnNexthop>)
    requires Resolved(ip, entries, validMac)
    ensures var k := FirstResolving(ip, entries, validMac);
      NexthopReports(vni, vrf, ip, entries[..k + 1] + tail, validMac) == NexthopReports(vni, vrf, ip, entries, validMac)
  {
    var k := FirstResolving(ip, entries, validMac);
    var cut := entries[..k + 1] + tail;
    assert forall i :: 0 <= i <= k ==> cut[i] == entries[i];
    FirstResolvingUnique(ip, cut, validMac, k);
    assert cut[..k] == entries[..k];
  }

  /** main.go's inner loop: scan the VNI's entries for the next-hop, with `found` and `break`. */
  method CheckNexthop(vni: string, vrfName: string, vrfnh: string, entries: seq<EvpnNexthop>,
                      validMac: string -> bool) returns (reports: seq<Report>)
    ensures reports == NexthopReports(vni, vrfName, vrfnh, entries, validMac)
  {
    reports := [];
    var found := false;
    var i := 0;
    while i < |entries|
      invariant 0 <= i <= FirstResolving(vrfnh, entries, validMac)
      invariant reports == InvalidMacReports(vni, vrfName, vrfnh, entries[..i])
      invariant !found
    {
      var evpnnh := entries[i];
      if vrfnh == evpnnh.nexthopIp {
        if validMac(evpnnh.routerMac) {
          found := true;
          break;
        } else {
          reports := reports + [Report(vni, vrfName, vrfnh, InvalidMac(evpnnh.routerMac))];
        }
      }
      assert entries[..i + 1][..i] == entries[..i];
      i := i + 1;
    }
    if !found {
      reports := reports + [Report(vni, vrfName, vrfnh, NotFound)];
    }
  }

  // ---- The whole check ----

  /** `evpns[vni].NextHops`: a VNI missing from the table has no entries. */
  function EntriesFor(evpns: map<string, EvpnVni>, vni: string): (es: seq<EvpnNexthop>)
    ensures vni !in evpns ==> es == []
  {
    if vni in evpns then evpns[vni].nextHops else []
  }

  /** The reports for each next-hop of a VRF, as a bag. */
  function NexthopReporter(vni: string, vrf: string, entries: seq<EvpnNexthop>, validMac: string -> bool)
    : string -> multiset<Report>
  {
    ip => multiset(NexthopReports(vni, vrf, ip, entries, validMac))
  }

  /** The reports for a set of next-hops of one VRF. */
  ghost function IpReports(vni: string, vrf: string, ips: set<string>, entries: seq<EvpnNexthop>,
                           validMac: string -> bool): multiset<Report>
  {
    SumValues(SetImage(ips, NexthopReporter(vni, vrf, entries, validMac)))
  }

  /** Checking one more next-hop adds its reports. */
  lemma IpReportsAdd(vni: string, vrf: string, ips: set<string>, ip: string, entries: seq<EvpnNexthop>,
                     validMac: string -> bool)
    requires ip !in ips
    ensures IpReports(vni, vrf, ips + {ip}, entries, validMac)
         == IpReports(vni, vrf, ips, entries, validMac) + multiset(NexthopReports(vni, vrf, ip, entries, validMac))
  {
    SumSetImageAdd(ips, ip, NexthopReporter(vni, vrf, entries, validMac));
  }

  /** The reports for one VRF: none for `default`, else those of each of its next-hops once. */
  ghost function VrfReports(vrf: Vrf, evpns: map<string, EvpnVni>, hostname: string,
                            validMac: string -> bool): multiset<Report>
  {
    if vrf.vrfName == "default" then multiset{}
    else
      var vni := VniOf(vrf.vrfName);
      IpReports(vni, vrf.vrfName, Candidates(vrf.routes, hostname), EntriesFor(evpns, vni), validMac)
  }

  /** The reports for each VRF, by key, as a bag. */
  ghost function VrfReporter(vrfs: map<string, Vrf>, evpns: map<string, EvpnVni>, hostname: string,
                             validMac: string -> bool): string -> multiset<Report>
  {
    key => if key in vrfs then VrfReports(vrfs[key], evpns, hostname, validMac) else multiset{}
  }

  /** The reports for the VRFs under the given keys. */
  ghost function ReportsFor(keys: set<string>, vrfs: map<string, Vrf>, evpns: map<string, EvpnVni>,
                            hostname: string, validMac: string -> bool): multiset<Report>
  {
    SumValues(SetImage(keys, VrfReporter(vrfs, evpns, hostname, validMac)))
  }

  /** Visiting one more VRF adds its reports. */
  lemma ReportsForAdd(keys: set<string>, key: string, vrfs: map<string, Vrf>, evpns: map<string, EvpnVni>,
                      hostname: string, validMac: string -> bool)
    requires key in vrfs && key !in keys
    ensures ReportsFor(keys + {key}, vrfs, evpns, hostname, validMac)
         == ReportsFor(keys, vrfs, evpns, hostname, validMac) + VrfReports(vrfs[key], evpns, hostname, validMac)
  {
    SumSetImageAdd(keys, key, VrfReporter(vrfs, evpns, hostname, validMac));
  }

  /** Everything the check reports, over all VRFs. */
  ghost function AllReports(vrfs: map<string, Vrf>, evpns: map<string, EvpnVni>, hostname: string,
                            validMac: string -> bool): multiset<Report>
  {
    ReportsFor(vrfs.Keys, vrfs, evpns, hostname, validMac)
  }

  // ---- What the check reports, per VRF and overall ----

  /** The per-next-hop bags a non-default VRF's reports are summed from. */
  ghost function VrfBags(vrf: Vrf, evpns: map<string, EvpnVni>, hostname: string, validMac: string -> bool)
    : map<string, multiset<Report>>
  {
    var vni := VniOf(vrf.vrfName);
    SetImage(Candidates(vrf.routes, hostname), NexthopReporter(vni, vrf.vrfName, EntriesFor(evpns, vni), validMac))
  }

  /** Every report of a VRF is about one of its collected next-hops, under its VNI; `default` has none. */
  lemma VrfReportsAbout(vrf: Vrf, evpns: map<string, EvpnVni>, hostname: string, validMac: string -> bool,
                        r: Report)
    requires r in VrfReports(vrf, evpns, hostname, validMac)
    ensures vrf.vrfName != "default"
    ensures r.vrf == vrf.vrfName && r.vni == VniOf(vrf.vrfName)
    ensures r.nexthop in Candidates(vrf.routes, hostname)
  {
    if vrf.vrfName != "default" {
      var vni := VniOf(vrf.vrfName);
      var m := VrfBags(vrf, evpns, hostname, validMac);
      SumValuesMember(m, r);
      var ip :| ip in m && r in m[ip];
      NexthopReportsAbout(vni, vrf.vrfName, ip, EntriesFor(evpns, vni), validMac, r);
    }
  }

  /**
   * A next-hop IP that every route of the VRF reaches only through the local host is never
   * reported for that VRF, whatever the EVPN table holds.
   */
  lemma LocalNexthopNeverReported(vrf: Vrf, evpns: map<string, EvpnVni>, hostname: string,
                                  validMac: string -> bool, ip: string)
    requires forall p, rt, nh :: p in vrf.routes && rt in vrf.routes[p] && nh in rt.nexthops && nh.ip == ip
               ==> nh.hostname == hostname
    ensures forall r :: r in VrfReports(vrf, evpns, hostname, validMac) ==> r.nexthop != ip
  {
    forall r | r in VrfReports(vrf, evpns, hostname, validMac) ensures r.nexthop != ip {
      VrfReportsAbout(vrf, evpns, hostname, validMac, r);
    }
  }

  /** A non-default VRF reports "not found" once for each collected next-hop that no entry resolves, and for no other IP. */
  lemma VrfNotFoundCount(vrf: Vrf, evpns: map<string, EvpnVni>, hostname: string, validMac: string -> bool,
                         ip: string)
    requires vrf.vrfName != "default"
    ensures var vni := VniOf(vrf.vrfName);
      VrfReports(vrf, evpns, hostname, validMac)[Report(vni, vrf.vrfName, ip, NotFound)]
        == if ip in Candidates(vrf.routes, hostname) && !Resolved(ip, EntriesFor(evpns, vni), validMac) then 1 else 0
  {
    var vni := VniOf(vrf.vrfName);
    var entries := EntriesFor(evpns, vni);
    var x := Report(vni, vrf.vrfName, ip, NotFound);
    var m := VrfBags(vrf, evpns, hostname, validMac);
    if ip in Candidates(vrf.routes, hostname) {
      forall j | j in m && j != ip ensures x !in m[j] {
        if x in m[j] {
          NexthopReportsAbout(vni, vrf.vrfName, j, entries, validMac, x);
        }
      }
      SumValuesSingleSource(m, ip, x);
      NotFoundIffUnresolved(vni, vrf.vrfName, ip, entries, validMac);
    } else if x in VrfReports(vrf, evpns, hostname, validMac) {
      VrfReportsAbout(vrf, evpns, hostname, validMac, x);
    }
  }

  /** A VRF whose VNI is not in the EVPN table gets exactly one "not found" per collected next-hop, and nothing else. */
  lemma MissingVniAllNotFound(vrf: Vrf, evpns: map<string, EvpnVni>, hostname: string, validMac: string -> bool)
    requires vrf.vrfName != "default" && VniOf(vrf.vrfName) !in evpns
    ensures forall r :: r in VrfReports(vrf, evpns, hostname, validMac) ==> r.reason == NotFound
    ensures forall ip :: ip in Candidates(vrf.routes, hostname) ==>
              VrfReports(vrf, evpns, hostname, validMac)[Report(VniOf(vrf.vrfName), vrf.vrfName, ip, NotFound)] == 1
  {
    var vni := VniOf(vrf.vrfName);
    var m := VrfBags(vrf, evpns, hostname, validMac);
    assert EntriesFor(evpns, vni) == [];
    forall r | r in VrfReports(vrf, evpns, hostname, validMac) ensures r.reason == NotFound {
      SumValuesMember(m, r);
      var ip :| ip in m && r in m[ip];
      assert m[ip] == multiset(NexthopReports(vni, vrf.vrfName, ip, [], validMac));
    }
    forall ip | ip in Candidates(vrf.routes, hostname)
      ensures VrfReports(vrf, evpns, hostname, validMac)[Report(vni, vrf.vrfName, ip, NotFound)] == 1
    {
      VrfNotFoundCount(vrf, evpns, hostname, validMac, ip);
    }
  }

  /** A next-hop whose only matching entries carry MACs that do not parse gets "invalid mac" for each and also "not found". */
  lemma OnlyInvalidMacsGetBoth(vni: string, vrf: string, ip: string, entries: seq<EvpnNexthop>,
                               validMac: string -> bool, j: nat)
    requires j < |entries| && entries[j].nexthopIp == ip
    requires forall i :: 0 <= i < |entries| && entries[i].nexthopIp == ip ==> !validMac(entries[i].routerMac)
    ensures Report(vni, vrf, ip, InvalidMac(entries[j].routerMac)) in NexthopReports(vni, vrf, ip, entries, validMac)
    ensures Report(vni, vrf, ip, NotFound) in NexthopReports(vni, vrf, ip, entries, validMac)
  {
    InvalidMacUpToFirstValid(vni, vrf, ip, entries, validMac, entries[j].routerMac);
    NotFoundIffUnresolved(vni, vrf, ip, entries, validMac);
  }

  /** Every report comes from some non-default VRF, about one of its collected next-hops, under its VNI. */
  lemma ReportOrigin(vrfs: map<string, Vrf>, evpns: map<string, EvpnVni>, hostname: string,
                     validMac: string -> bool, r: Report)
    requires r in AllReports(vrfs, evpns, hostname, validMac)
    ensures r.vrf != "default" && r.vni == VniOf(r.vrf)
    ensures exists key :: key in vrfs && vrfs[key].vrfName == r.vrf && r.nexthop in Candidates(vrfs[key].routes, hostname)
  {
    var m := SetImage(vrfs.Keys, VrfReporter(vrfs, evpns, hostname, validMac));
    SumValuesMember(m, r);
    var key :| key in m && r in m[key];
    VrfReportsAbout(vrfs[key], evpns, hostname, validMac, r);
  }

  /** With VRF names kept apart, the whole check reports about a VRF exactly what that VRF reports. */
  lemma ReportsOfOneVrf(vrfs: map<string, Vrf>, evpns: map<string, EvpnVni>, hostname: string,
                        validMac: string -> bool, key: string, r: Report)
    requires key in vrfs && r.vrf == vrfs[key].vrfName
    requires forall k :: k in vrfs && k != key ==> vrfs[k].vrfName != vrfs[key].vrfName
    ensures AllReports(vrfs, evpns, hostname, validMac)[r] == VrfReports(vrfs[key], evpns, hostname, validMac)[r]
  {
    var m := SetImage(vrfs.Keys, VrfReporter(vrfs, evpns, hostname, validMac));
    forall k | k in m && k != key ensures r !in m[k] {
      if r in m[k] {
        VrfReportsAbout(vrfs[k], evpns, hostname, validMac, r);
      }
    }
    SumValuesSingleSource(m, key, r);
  }

  /** Overall, a next-hop of a non-default VRF is reported "not found" once exactly when nothing resolves it. */
  lemma NotFoundOverall(vrfs: map<string, Vrf>, evpns: map<string, EvpnVni>, hostname: string,
                        validMac: string -> bool, key: string, ip: string)
    requires key in vrfs && vrfs[key].vrfName != "default"
    requires forall k :: k in vrfs && k != key ==> vrfs[k].vrfName != vrfs[key].vrfName
    ensures var vrf := vrfs[key];
      var vni := VniOf(vrf.vrfName);
      AllReports(vrfs, evpns, hostname, validMac)[Report(vni, vrf.vrfName, ip, NotFound)]
        == if ip in Candidates(vrf.routes, hostname) && !Resolved(ip, EntriesFor(evpns, vni), validMac) then 1 else 0
  {
    var vrf := vrfs[key];
    var x := Report(VniOf(vrf.vrfName), vrf.vrfName, ip, NotFound);
    ReportsOfOneVrf(vrfs, evpns, hostname, validMac, key, x);
    VrfNotFoundCount(vrf, evpns, hostname, validMac, ip);
  }

  /** One round of main.go's VRF loop: collect, derive the VNI, check each next-hop once. */
  method CheckVrf(vrf: Vrf, evpns: map<string, EvpnVni>, hostname: string, validMac: string -> bool)
    returns (reports: seq<Report>)
    ensures multiset(reports) == VrfReports(vrf, evpns, hostname, validMac)
  {
    reports := [];
    if vrf.vrfName == "default" {
      return;
    }
    var nexthops := CollectNexthops(vrf, hostname);
    var vni := VniOf(vrf.vrfName);
    var entries := EntriesFor(evpns, vni);
    var unchecked := nexthops.Keys;
    while unchecked != {}
      invariant unchecked <= nexthops.Keys
      invariant multiset(reports) == IpReports(vni, vrf.vrfName, nexthops.Keys - unchecked, entries, validMac)
      decreases unchecked
    {
      var vrfnh :| vrfnh in unchecked;
      var nhReports := CheckNexthop(vni, vrf.vrfName, vrfnh, entries, validMac);
      assert nexthops.Keys - (unchecked - {vrfnh}) == (nexthops.Keys - unchecked) + {vrfnh};
      IpReportsAdd(vni, vrf.vrfName, nexthops.Keys - unchecked, vrfnh, entries, validMac);
      assert multiset(reports + nhReports) == multiset(reports) + multiset(nhReports);
      reports := reports + nhReports;
      unchecked := unchecked - {vrfnh};
    }
    assert nexthops.Keys - {} == nexthops.Keys;
  }

  /** main.go:63-95, reporting instead of printing. */
  method Reconcile(vrfs: map<string, Vrf>, evpns: map<string, EvpnVni>, hostname: string,
                   validMac: string -> bool) returns (reports: seq<Report>)
    ensures multiset(reports) == AllReports(vrfs, evpns, hostname, validMac)
  {
    reports := [];
    var pending := vrfs.Keys;
    while pending != {}
      invariant pending <= vrfs.Keys
      invariant multiset(reports) == ReportsFor(vrfs.Keys - pending, vrfs, evpns, hostname, validMac)
      decreases pending
    {
      var key :| key in pending;
      var vrf := vrfs[key];
      var vrfReports := CheckVrf(vrf, evpns, hostname, validMac);
      assert vrfs.Keys - (pending - {key}) == (vrfs.Keys - pending) + {key};
      ReportsForAdd(vrfs.Keys - pending, key, vrfs, evpns, hostname, validMac);
      assert multiset(reports + vrfReports) == multiset(reports) + multiset(vrfReports);
      reports := reports + vrfReports;
      pending := pending - {key};
    }
    assert vrfs.Keys - {} == vrfs.Keys;
  }
}
