/**
 * The query side of pkg/frr/vtysh.go: the `enable`-then-command session over the vty
 * transport, the decoded BGP and EVPN replies, and the next-hop lists that GetMissingRMAC
 * compares. json.Unmarshal is a parameter (`decode…`) from reply bytes to decoded values.
 */
module Frr {
  import opened Results
  import opened Bags
  import opened Vty

  // ---- Decoded BGP replies (only the fields some logic reads) ----

  datatype Nexthop = Nexthop(ip: string, hostname: string)

  datatype Route = Route(prefix: string, nexthops: seq<Nexthop>)

  /** A VRF of `show bgp … json`: its name and its routes, by destination prefix. */
  datatype Vrf = Vrf(vrfName: string, routes: map<string, seq<Route>>)

  // ---- Decoded EVPN reply, as the reconciliation reads it ----

  datatype EvpnNexthop = EvpnNexthop(nexthopIp: string, routerMac: string)

  /** The EVPN next-hops of one VNI. */
  datatype EvpnVni = EvpnVni(nextHops: seq<EvpnNexthop>)

  /** A JSON value as encoding/json decodes it into `any` (numbers kept as integers). */
  datatype Json =
    | JNull
    | JBool(b: bool)
    | JNumber(n: int)
    | JString(s: string)
    | JArray(items: seq<Json>)
    | JObject(fields: map<string, Json>)

  // ---- Commands and sockets ----

  const Enable := Ascii("enable")
  const ShowBgpDetail := Ascii("show bgp detail json")
  const ShowEvpnNexthops := Ascii("show evpn next-hops vni all json")
  const ShowBgpVrfs := Ascii("show bgp vrf all ipv4 unicast json")

  const BgpdPath := RunDir + "bgpd" + VtySuffix
  const ZebraPath := RunDir + "zebra" + VtySuffix

  /** The daemon reads each command the client frames back intact, whatever it receives after it. */
  lemma CommandUnframes(cmd: Bytes, rest: Bytes)
    requires cmd == Enable || cmd == ShowBgpDetail || cmd == ShowEvpnNexthops || cmd == ShowBgpVrfs
    ensures Unframe(Frame(cmd) + rest) == Ok(cmd)
  {
    if cmd == Enable {
      AsciiUnframes("enable", rest);
    } else if cmd == ShowBgpDetail {
      AsciiUnframes("show bgp detail json", rest);
    } else if cmd == ShowEvpnNexthops {
      AsciiUnframes("show evpn next-hops vni all json", rest);
    } else {
      AsciiUnframes("show bgp vrf all ipv4 unicast json", rest);
    }
  }

  /** What one executeVTYSH session on a known daemon's socket returns, writes and dials. */
  datatype Session = Session(reply: Result<Bytes>, log: seq<Sent>, dials: nat)

  /**
   * The session executeVTYSH runs on `path` when the world's next connection is the n-th:
   * `enable` first, its reply drained and dropped; `cmd` only once `enable` succeeded.
   */
  function EnableSession(conns: (string, nat) -> Conn, n: nat, path: string, cmd: Bytes): (s: Session)
    ensures Exchange(conns(path, n)).Err? ==> s.dials == 1 && s.reply.Err?
    ensures Exchange(conns(path, n)).Ok? ==> s.dials == 2 && s.reply == Exchange(conns(path, n + 1))
  {
    var first := conns(path, n);
    var enabled := Exchange(first);
    if enabled.Err? then
      Session(Err(Wrapped(RunFailed, enabled.error)), Delivered(first, Sent(path, Frame(Enable))), 1)
    else
      var second := conns(path, n + 1);
      Session(Exchange(second), [Sent(path, Frame(Enable))] + Delivered(second, Sent(path, Frame(cmd))), 2)
  }

  /**
   * A session writes `enable` and then the command, both to `path`, and nothing else:
   * `enable` exactly when the first connection takes the write, the command exactly when
   * `enable` succeeded and the second connection takes the write.
   */
  lemma EnableSessionSends(conns: (string, nat) -> Conn, n: nat, path: string, cmd: Bytes)
    ensures EnableSession(conns, n, path, cmd).log <= [Sent(path, Frame(Enable)), Sent(path, Frame(cmd))]
    ensures |EnableSession(conns, n, path, cmd).log| >= 1 <==> conns(path, n).Serves?
    ensures |EnableSession(conns, n, path, cmd).log| == 2 <==> Exchange(conns(path, n)).Ok? && conns(path, n + 1).Serves?
  {
  }

  /** executeVTYSH: look the socket up, then run `enable` and `cmd` on it. */
  method ExecuteVtysh(w: World, daemon: string, cmd: Bytes) returns (r: Result<Bytes>)
    modifies w
    ensures daemon !in Daemons ==>
      && r == Err(Wrapped(LookupFailed, UnknownDaemon(daemon)))
      && w.dials == old(w.dials) && w.sent == old(w.sent)
    ensures daemon in Daemons ==>
      var s := EnableSession(w.conns, old(w.dials), LookupSocketPath(daemon).value, cmd);
      && r == s.reply
      && w.dials == old(w.dials) + s.dials && w.sent == old(w.sent) + s.log
  {
    var socketPath := LookupSocketPath(daemon);
    if socketPath.Err? {
      return Err(Wrapped(LookupFailed, socketPath.error));
    }
    var enabled := w.RunCmd(socketPath.value, Enable);
    if enabled.Err? {
      return Err(Wrapped(RunFailed, enabled.error));
    }
    r := w.RunCmd(socketPath.value, cmd);
  }

  /** A session's reply decoded, each failure wrapped as the pkg/frr queries wrap it. */
  function Decoded<T>(s: Session, decode: Bytes -> Result<T>): (r: Result<T>)
    ensures r.Ok? <==> s.reply.Ok? && decode(s.reply.value).Ok?
    ensures r.Ok? ==> r == decode(s.reply.value)
    ensures s.reply.Err? ==> r == Err(Wrapped(RunFailed, s.reply.error))
    ensures s.reply.Ok? && decode(s.reply.value).Err? ==> r == Err(Wrapped(UnmarshalFailed, decode(s.reply.value).error))
  {
    match s.reply
    case Err(e) => Err(Wrapped(RunFailed, e))
    case Ok(output) =>
      match decode(output)
      case Err(e) => Err(Wrapped(UnmarshalFailed, e))
      case Ok(v) => Ok(v)
  }

  // ---- getNexthops: the route prefixes of a VRF ----

  /** The prefix of each route, in order. */
  function Prefixes(rs: seq<Route>): (ps: seq<string>)
    ensures |ps| == |rs| && forall i :: 0 <= i < |rs| ==> ps[i] == rs[i].prefix
  {
    seq(|rs|, i requires 0 <= i < |rs| => rs[i].prefix)
  }

  /** The prefixes of one prefix list, as a bag. */
  function PrefixesOf(rs: seq<Route>): multiset<string>
  {
    multiset(Prefixes(rs))
  }

  /** The routes of one prefix list, as a bag. */
  function RoutesOf(rs: seq<Route>): multiset<Route>
  {
    multiset(rs)
  }

  /** One prefix per route, over all prefix lists of the VRF. */
  ghost function PrefixBag(routes: map<string, seq<Route>>): multiset<string>
  {
    SumValues(Image(routes, PrefixesOf))
  }

  /** All routes of the VRF. */
  ghost function RouteBag(routes: map<string, seq<Route>>): multiset<Route>
  {
    SumValues(Image(routes, RoutesOf))
  }

  /** Visiting one more prefix list adds the prefixes of its routes. */
  lemma PrefixBagAdd(routes: map<string, seq<Route>>, p: string, vr: seq<Route>)
    requires p !in routes
    ensures PrefixBag(routes[p := vr]) == PrefixBag(routes) + multiset(Prefixes(vr))
  {
    SumImageAdd(routes, p, vr, PrefixesOf);
  }

  /** There are exactly as many prefixes collected as there are routes. */
  lemma PrefixBagSize(routes: map<string, seq<Route>>)
    ensures |PrefixBag(routes)| == |RouteBag(routes)|
  {
    SumValuesSize(Image(routes, PrefixesOf), Image(routes, RoutesOf));
  }

  /** The loop of getNexthops: every route of every prefix list contributes its `Prefix`. */
  method RoutePrefixes(routes: map<string, seq<Route>>) returns (nexthops: seq<string>)
    ensures multiset(nexthops) == PrefixBag(routes)
    ensures |nexthops| == |RouteBag(routes)|
  {
    nexthops := [];
    var pending := routes.Keys;
    while pending != {}
      invariant pending <= routes.Keys
      invariant multiset(nexthops) == PrefixBag(routes - pending)
      decreases pending
    {
      var p :| p in pending;
      var vr := routes[p];
      ghost var before := nexthops;
      for i := 0 to |vr|
        invariant nexthops == before + Prefixes(vr[..i])
      {
        assert Prefixes(vr[..i + 1]) == Prefixes(vr[..i]) + [vr[i].prefix];
        nexthops := nexthops + [vr[i].prefix];
      }
      assert vr[..|vr|] == vr;
      assert routes - (pending - {p}) == (routes - pending)[p := vr];
      PrefixBagAdd(routes - pending, p, vr);
      pending := pending - {p};
    }
    assert routes - {} == routes;
    PrefixBagSize(routes);
  }

  /** getNexthops: the `show bgp detail json` VRF, flattened into its route prefixes. */
  method GetNexthops(w: World, decodeVrf: Bytes -> Result<Vrf>) returns (r: Result<seq<string>>)
    modifies w
    ensures var s := EnableSession(w.conns, old(w.dials), BgpdPath, ShowBgpDetail);
      && w.dials == old(w.dials) + s.dials && w.sent == old(w.sent) + s.log
      && (Decoded(s, decodeVrf).Err? ==> r == Err(Decoded(s, decodeVrf).error))
      && (Decoded(s, decodeVrf).Ok? ==> r.Ok? && multiset(r.value) == PrefixBag(Decoded(s, decodeVrf).value.routes))
  {
    var output := ExecuteVtysh(w, "bgpd", ShowBgpDetail);
    if output.Err? {
      return Err(Wrapped(RunFailed, output.error));
    }
    var vrf := decodeVrf(output.value);
    if vrf.Err? {
      return Err(Wrapped(UnmarshalFailed, vrf.error));
    }
    var nexthops := RoutePrefixes(vrf.value.routes);
    return Ok(nexthops);
  }

  // ---- getEVPNVNINexthops: the inner keys of the EVPN map-of-maps ----

  /** The keys an entry of the EVPN reply contributes: all keys of an object, none otherwise. */
  function InnerKeys(v: Json): multiset<string>
  {
    if v.JObject? then multiset(v.fields.Keys) else multiset{}
  }

  /** Every inner key of every object-valued top-level entry. */
  ghost function KeyBag(nhs: map<string, Json>): multiset<string>
  {
    SumValues(Image(nhs, InnerKeys))
  }

  /** Visiting one more top-level entry adds its inner keys. */
  lemma KeyBagAdd(nhs: map<string, Json>, vni: string, v: Json)
    requires vni !in nhs
    ensures KeyBag(nhs[vni := v]) == KeyBag(nhs) + InnerKeys(v)
  {
    SumImageAdd(nhs, vni, v, InnerKeys);
  }

  /** A key is collected exactly when some object-valued entry holds it, whatever its name. */
  lemma KeyBagMember(nhs: map<string, Json>, key: string)
    ensures key in KeyBag(nhs) <==> exists vni :: vni in nhs && nhs[vni].JObject? && key in nhs[vni].fields
  {
    var m := Image(nhs, InnerKeys);
    SumValuesMember(m, key);
    if key in KeyBag(nhs) {
      var vni :| vni in m && key in m[vni];
      assert nhs[vni].JObject? && key in nhs[vni].fields;
    }
    if exists vni :: vni in nhs && nhs[vni].JObject? && key in nhs[vni].fields {
      var vni :| vni in nhs && nhs[vni].JObject? && key in nhs[vni].fields;
      assert key in m[vni];
    }
  }

  /** Taking one more key out of the pending set adds it once to the visited ones. */
  lemma KeysStep(all: set<string>, pending: set<string>, k: string)
    requires pending <= all && k in pending
    ensures multiset(all - (pending - {k})) == multiset(all - pending) + multiset{k}
  {
    assert all - (pending - {k}) == (all - pending) + {k};
  }

  /** The inner loop of getEVPNVNINexthops: appends every key of one object, in any order. */
  method AppendKeys(nexthops: seq<string>, value: map<string, Json>) returns (r: seq<string>)
    ensures multiset(r) == multiset(nexthops) + multiset(value.Keys)
  {
    r := nexthops;
    var keys := value.Keys;
    while keys != {}
      invariant keys <= value.Keys
      invariant multiset(r) == multiset(nexthops) + multiset(value.Keys - keys)
      decreases keys
    {
      var ip :| ip in keys;
      KeysStep(value.Keys, keys, ip);
      r := r + [ip];
      keys := keys - {ip};
    }
    assert value.Keys - {} == value.Keys;
  }

  /** The walk of getEVPNVNINexthops: non-object entries are skipped, not rejected. */
  method EvpnKeys(nhs: map<string, Json>) returns (nexthops: seq<string>)
    ensures multiset(nexthops) == KeyBag(nhs)
  {
    nexthops := [];
    var pending := nhs.Keys;
    while pending != {}
      invariant pending <= nhs.Keys
      invariant multiset(nexthops) == KeyBag(nhs - pending)
      decreases pending
    {
      var vni :| vni in pending;
      var v := nhs[vni];
      assert nhs - (pending - {vni}) == (nhs - pending)[vni := v];
      KeyBagAdd(nhs - pending, vni, v);
      pending := pending - {vni};
      if !v.JObject? {
        continue;
      }
      nexthops := AppendKeys(nexthops, v.fields);
    }
    assert nhs - {} == nhs;
  }

  /** getEVPNVNINexthops: the `show evpn next-hops vni all json` object, walked permissively. */
  method GetEvpnVniNexthops(w: World, decodeJson: Bytes -> Result<map<string, Json>>)
    returns (r: Result<seq<string>>)
    modifies w
    ensures var s := EnableSession(w.conns, old(w.dials), ZebraPath, ShowEvpnNexthops);
      && w.dials == old(w.dials) + s.dials && w.sent == old(w.sent) + s.log
      && (Decoded(s, decodeJson).Err? ==> r == Err(Decoded(s, decodeJson).error))
      && (Decoded(s, decodeJson).Ok? ==> r.Ok? && multiset(r.value) == KeyBag(Decoded(s, decodeJson).value))
  {
    var output := ExecuteVtysh(w, "zebra", ShowEvpnNexthops);
    if output.Err? {
      return Err(Wrapped(RunFailed, output.error));
    }
    var nhs := decodeJson(output.value);
    if nhs.Err? {
      return Err(Wrapped(UnmarshalFailed, nhs.error));
    }
    var nexthops := EvpnKeys(nhs.value);
    return Ok(nexthops);
  }

  // ---- GetMissingRMAC ----

  predicate NoDuplicates(s: seq<string>)
  {
    forall i, j :: 0 <= i < j < |s| ==> s[i] != s[j]
  }

  /** The comparison of GetMissingRMAC: each BGP value absent from the EVPN list, once. */
  method MissingFrom(nhs: seq<string>, evpnnhs: seq<string>) returns (result: seq<string>)
    ensures forall x :: x in result <==> x in nhs && x !in evpnnhs
    ensures NoDuplicates(result)
  {
    var missing: map<string, bool> := map[];
    for i := 0 to |nhs|
      invariant forall x :: x in missing <==> x in nhs[..i] && x !in evpnnhs
    {
      if nhs[i] !in evpnnhs {
        missing := missing[nhs[i] := true];
      }
      assert nhs[..i + 1] == nhs[..i] + [nhs[i]];
    }
    assert nhs[..|nhs|] == nhs;
    result := [];
    var pending := missing.Keys;
    while pending != {}
      invariant pending <= missing.Keys
      invariant forall x :: x in result <==> x in missing && x !in pending
      invariant NoDuplicates(result)
      decreases pending
    {
      var m :| m in pending;
      result := result + [m];
      pending := pending - {m};
    }
  }

  /** `result` lists, once each, the values of the `bgp` bag that the `evpn` bag lacks. */
  ghost predicate MissingOf(result: seq<string>, bgp: multiset<string>, evpn: multiset<string>)
  {
    NoDuplicates(result) && forall x :: x in result <==> x in bgp && x !in evpn
  }

  /** What MissingFrom promises, read over the bags of its two inputs. */
  lemma MissingOfBags(result: seq<string>, nhs: seq<string>, evpnnhs: seq<string>)
    requires forall x :: x in result <==> x in nhs && x !in evpnnhs
    requires NoDuplicates(result)
    ensures MissingOf(result, multiset(nhs), multiset(evpnnhs))
  {
    forall x ensures x in result <==> x in multiset(nhs) && x !in multiset(evpnnhs) {
      assert x in nhs <==> x in multiset(nhs);
      assert x in evpnnhs <==> x in multiset(evpnnhs);
    }
  }

  /**
   * GetMissingRMAC: the BGP query first, the EVPN query only if it succeeded; on success the
   * distinct BGP values that the EVPN reply does not list.
   */
  method GetMissingRmac(w: World, decodeVrf: Bytes -> Result<Vrf>,
                        decodeJson: Bytes -> Result<map<string, Json>>)
    returns (r: Result<seq<string>>)
    modifies w
    ensures var bgp := EnableSession(w.conns, old(w.dials), BgpdPath, ShowBgpDetail);
      Decoded(bgp, decodeVrf).Err? ==>
        && r == Err(Decoded(bgp, decodeVrf).error)
        && w.dials == old(w.dials) + bgp.dials && w.sent == old(w.sent) + bgp.log
    ensures var bgp := EnableSession(w.conns, old(w.dials), BgpdPath, ShowBgpDetail);
      var evpn := EnableSession(w.conns, old(w.dials) + bgp.dials, ZebraPath, ShowEvpnNexthops);
      Decoded(bgp, decodeVrf).Ok? ==>
        && w.dials == old(w.dials) + bgp.dials + evpn.dials
        && w.sent == old(w.sent) + bgp.log + evpn.log
        && (Decoded(evpn, decodeJson).Err? ==> r == Err(Decoded(evpn, decodeJson).error))
        && (Decoded(evpn, decodeJson).Ok? ==>
              && r.Ok? && MissingOf(r.value, PrefixBag(Decoded(bgp, decodeVrf).value.routes),
                                    KeyBag(Decoded(evpn, decodeJson).value)))
  {
    ghost var bgp := EnableSession(w.conns, w.dials, BgpdPath, ShowBgpDetail);
    var nhs := GetNexthops(w, decodeVrf);
    if nhs.Err? {
      return Err(nhs.error);
    }
    ghost var vrf := Decoded(bgp, decodeVrf);
    assert vrf.Ok? && multiset(nhs.value) == PrefixBag(vrf.value.routes);
    ghost var evpn := EnableSession(w.conns, w.dials, ZebraPath, ShowEvpnNexthops);
    assert w.dials == old(w.dials) + bgp.dials && w.sent == old(w.sent) + bgp.log;
    assert evpn == EnableSession(w.conns, old(w.dials) + bgp.dials, ZebraPath, ShowEvpnNexthops);
    var evpnnhs := GetEvpnVniNexthops(w, decodeJson);
    assert w.dials == old(w.dials) + bgp.dials + evpn.dials && w.sent == old(w.sent) + bgp.log + evpn.log;
    ghost var keys := Decoded(evpn, decodeJson);
    if evpnnhs.Err? {
      assert keys.Err?;
      return Err(evpnnhs.error);
    }
    assert keys.Ok? && multiset(evpnnhs.value) == KeyBag(keys.value);
    var result := MissingFrom(nhs.value, evpnnhs.value);
    MissingOfBags(result, nhs.value, evpnnhs.value);
    return Ok(result);
  }

  /** GetRoutes: the VRFs of `show bgp vrf all ipv4 unicast json`, strictly decoded. */
  method GetRoutes(w: World, decodeVrfs: Bytes -> Result<map<string, Vrf>>)
    returns (r: Result<map<string, Vrf>>)
    modifies w
    ensures var s := EnableSession(w.conns, old(w.dials), BgpdPath, ShowBgpVrfs);
      && r == Decoded(s, decodeVrfs)
      && w.dials == old(w.dials) + s.dials && w.sent == old(w.sent) + s.log
  {
    var output := ExecuteVtysh(w, "bgpd", ShowBgpVrfs);
    if output.Err? {
      return Err(Wrapped(RunFailed, output.error));
    }
    var vrfs := decodeVrfs(output.value);
    if vrfs.Err? {
      return Err(Wrapped(UnmarshalFailed, vrfs.error));
    }
    return Ok(vrfs.value);
  }
}
