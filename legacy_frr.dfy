/**
 * The older query helper of frr/vtysh.go: one `show ip route json` command sent straight to
 * the bgpd socket (no `enable` first), with every error returned as it came.
 */
module LegacyFrr {
  import opened Results
  import opened Vty

  datatype RibNexthop = RibNexthop(ip: string, afi: string, interfaceName: string, active: bool, fib: bool)

  /** A RIB route of `show ip route json`. */
  datatype RibRoute = RibRoute(prefix: string, protocol: string, vrfName: string,
                               selected: bool, installed: bool, nexthops: seq<RibNexthop>)

  const ShowIpRoute := Ascii("show ip route json")

  /** The daemon reads the framed RIB query back intact. */
  lemma ShowIpRouteUnframes(rest: Bytes)
    ensures Unframe(Frame(ShowIpRoute) + rest) == Ok(ShowIpRoute)
  {
    AsciiUnframes("show ip route json", rest);
  }

  /** GetRoutes: one connection, one command, the reply decoded strictly. */
  method GetRoutes(w: World, decodeRoutes: Bytes -> Result<seq<RibRoute>>) returns (r: Result<seq<RibRoute>>)
    modifies w
    ensures var path := LookupSocketPath("bgpd").value;
      var c := w.conns(path, old(w.dials));
      && w.dials == old(w.dials) + 1
      && w.sent == old(w.sent) + Delivered(c, Sent(path, Frame(ShowIpRoute)))
      && (Exchange(c).Err? ==> r == Err(Exchange(c).error))
      && (Exchange(c).Ok? ==> r == decodeRoutes(Exchange(c).value))
  {
    var socketPath := LookupSocketPath("bgpd");
    match socketPath {
      case Err(e) => return Err(e);
      case Ok(path) =>
        var output := w.RunCmd(path, ShowIpRoute);
        if output.Err? {
          return Err(output.error);
        }
        var routes := decodeRoutes(output.value);
        if routes.Err? {
          return Err(routes.error);
        }
        return Ok(routes.value);
    }
  }
}
