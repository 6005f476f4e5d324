/**
 * The vty control-socket transport of the FRR routing suite, as both frr/vtysh.go and
 * pkg/frr/vtysh.go implement it (the two files carry identical copies of `lookupSocketPath`
 * and `runCmd`; the model defines them once).
 *
 * Go strings and byte slices are both byte sequences, so commands and replies are `Bytes`.
 * The sockets themselves are a `World`: every connection the client opens behaves as the
 * world's script says, and a ghost log records every framed command written to a socket.
 */
module Vty {
  import opened Results

  newtype byte = b: int | 0 <= b < 256

  type Bytes = seq<byte>

  /** The frame terminator of the vty protocol, in both directions. */
  const NUL: byte := 0

  /** The bytes of an ASCII string literal. */
  function Ascii(s: string): (b: Bytes)
    requires forall i :: 0 <= i < |s| ==> s[i] as int < 128
    ensures |b| == |s| && forall i :: 0 <= i < |s| ==> b[i] as int == s[i] as int
  {
    seq(|s|, i requires 0 <= i < |s| && s[i] as int < 128 => s[i] as int as byte)
  }

  /** The daemons of the routing suite whose sockets the client knows. */
  const Daemons: set<string> := {
    "babeld", "bfdd", "bgpd", "eigrpd", "fabricd", "isisd", "ldpd", "nhrpd", "ospf6d",
    "ospfd", "pbrd", "pimd", "ripd", "ripngd", "sharpd", "staticd", "vrrpd", "zebra"
  }

  const RunDir := "/var/run/frr/"
  const VtySuffix := ".vty"

  /** lookupSocketPath: the socket of a known daemon, an "unknown daemon" error otherwise. */
  function LookupSocketPath(daemon: string): (r: Result<string>)
    ensures r.Ok? <==> daemon in Daemons
    ensures r.Ok? ==> r.value == RunDir + daemon + VtySuffix
    ensures r.Err? ==> r.error == UnknownDaemon(daemon)
  {
    match daemon
    case "babeld" | "bfdd" | "bgpd" | "eigrpd" | "fabricd" | "isisd" | "ldpd" | "nhrpd" | "ospf6d"
       | "ospfd" | "pbrd" | "pimd" | "ripd" | "ripngd" | "sharpd" | "staticd" | "vrrpd" | "zebra" =>
      Ok(RunDir + daemon + VtySuffix)
    case _ => Err(UnknownDaemon(daemon))
  }

  /** Reads the daemon name back out of a socket path, if the path has the socket shape. */
  function DaemonOfPath(path: string): (d: Option<string>)
  {
    var n := |RunDir| + |VtySuffix|;
    if |path| >= n && path[..|RunDir|] == RunDir && path[|path| - |VtySuffix|..] == VtySuffix
    then Some(path[|RunDir|..|path| - |VtySuffix|])
    else None
  }

  datatype Option<+T> = None | Some(value: T)

  /** The socket path determines the daemon: the lookup is inverted by `DaemonOfPath`. */
  lemma SocketPathRoundTrip(daemon: string)
    requires daemon in Daemons
    ensures DaemonOfPath(LookupSocketPath(daemon).value) == Some(daemon)
  {
    var p := LookupSocketPath(daemon).value;
    assert p[..|RunDir|] == RunDir;
    assert p[|p| - |VtySuffix|..] == VtySuffix;
    assert p[|RunDir|..|p| - |VtySuffix|] == daemon;
  }

  /** No two daemons share a socket. */
  lemma LookupSocketPathInjective(a: string, b: string)
    requires LookupSocketPath(a).Ok? && LookupSocketPath(b).Ok?
    requires LookupSocketPath(a).value == LookupSocketPath(b).value
    ensures a == b
  {
    SocketPathRoundTrip(a);
    SocketPathRoundTrip(b);
  }

  /** What runCmd writes: the command followed by one NUL byte. */
  function Frame(cmd: Bytes): (f: Bytes)
    ensures |f| == |cmd| + 1 && f[..|cmd|] == cmd && f[|cmd|] == NUL
  {
    cmd + [NUL]
  }

  /**
   * bufio.Reader.ReadBytes: the stream up to and including the first `delim`, or the
   * end-of-stream error when `delim` never arrives.
   */
  function ReadBytes(stream: Bytes, delim: byte): (r: Result<Bytes>)
    ensures r.Ok? <==> delim in stream
    ensures r.Ok? ==> 0 < |r.value| <= |stream| && r.value == stream[..|r.value|]
    ensures r.Ok? ==> r.value[|r.value| - 1] == delim && delim !in r.value[..|r.value| - 1]
    ensures r.Err? ==> r.error == Io("EOF")
    decreases |stream|
  {
    if stream == [] then Err(Io("EOF"))
    else if stream[0] == delim then Ok([delim])
    else
      match ReadBytes(stream[1..], delim)
      case Ok(line) => Ok([stream[0]] + line)
      case Err(e) => Err(e)
  }

  /** The payload of a reply: the bytes before the first NUL, which is dropped. */
  function Unframe(stream: Bytes): (r: Result<Bytes>)
    ensures r.Ok? <==> NUL in stream
    ensures r.Ok? ==> |r.value| < |stream| && NUL !in r.value && r.value + [NUL] == stream[..|r.value| + 1]
  {
    match ReadBytes(stream, NUL)
    case Ok(line) => Ok(line[..|line| - 1])
    case Err(e) => Err(e)
  }

  /** Un-framing gives back any NUL-free payload, whatever follows its terminator. */
  lemma UnframeFrame(payload: Bytes, rest: Bytes)
    requires NUL !in payload
    ensures Unframe(Frame(payload) + rest) == Ok(payload)
  {
    var stream := Frame(payload) + rest;
    assert stream[|payload|] == NUL;
    var r := Unframe(stream);
    assert r.value == stream[..|r.value|];
  }

  /** A command spelled in printable-or-control ASCII other than NUL survives framing. */
  lemma AsciiUnframes(s: string, rest: Bytes)
    requires forall i :: 0 <= i < |s| ==> 0 < s[i] as int < 128
    ensures Unframe(Frame(Ascii(s)) + rest) == Ok(Ascii(s))
  {
    var cmd := Ascii(s);
    forall i | 0 <= i < |cmd| ensures cmd[i] != NUL {
      assert cmd[i] as int == s[i] as int;
    }
    UnframeFrame(cmd, rest);
  }

  /** How one connection to a daemon socket behaves. */
  datatype Conn =
    | DialFails(reason: string)   // net.Dial fails: nothing is written
    | WriteFails(reason: string)  // the write of the framed command fails
    | Serves(reply: Bytes)        // the command is delivered; the daemon sends `reply` (a reply
                                  // without NUL stands for a connection that ends or fails early)

  /** One framed command written to the socket at `path`. */
  datatype Sent = Sent(path: string, data: Bytes)

  /** What runCmd returns over a connection that behaves as `c`. */
  function Exchange(c: Conn): (r: Result<Bytes>)
    ensures r.Ok? <==> c.Serves? && NUL in c.reply
    ensures r.Ok? ==> NUL !in r.value
  {
    match c
    case DialFails(reason) => Err(Io(reason))
    case WriteFails(reason) => Err(Io(reason))
    case Serves(reply) => Unframe(reply)
  }

  /** What reaches the socket over a connection that behaves as `c`. */
  function Delivered(c: Conn, s: Sent): (log: seq<Sent>)
    ensures |log| <= 1 && (log == [s] <==> c.Serves?)
  {
    if c.Serves? then [s] else []
  }

  /** The daemon sockets, seen from the client. */
  class World {
    /** How a connection to a path behaves, given how many connections the client opened before it, to any path. */
    const conns: (string, nat) -> Conn
    /** Connections opened so far. */
    var dials: nat
    /** Every framed command written so far, in order. */
    ghost var sent: seq<Sent>

    constructor (conns: (string, nat) -> Conn)
      ensures this.conns == conns && dials == 0 && sent == []
    {
      this.conns := conns;
      dials := 0;
      sent := [];
    }

    /** runCmd: one connection, one framed command out, one framed reply in. */
    method RunCmd(socketPath: string, cmd: Bytes) returns (r: Result<Bytes>)
      modifies this
      ensures dials == old(dials) + 1
      ensures r == Exchange(conns(socketPath, old(dials)))
      ensures sent == old(sent) + Delivered(conns(socketPath, old(dials)), Sent(socketPath, Frame(cmd)))
    {
      var socket := conns(socketPath, dials);
      dials := dials + 1;
      if socket.DialFails? {
        return Err(Io(socket.reason));
      }
      var framed := cmd + [NUL];
      if socket.WriteFails? {
        return Err(Io(socket.reason));
      }
      sent := sent + [Sent(socketPath, framed)];
      var output := ReadBytes(socket.reply, NUL);
      if output.Err? {
        return Err(output.error);
      }
      r := Ok(output.value[..|output.value| - 1]);
    }
  }
}
