/** The static tables behind the selectors of the editor form, and the one
    decision among them: the protocol list offered for a framework. */
module Metadata {
  /** The framework ids the server lists. */
  const FrameworkIds: seq<string> := ["grpc", "rmi", "netremoting"]

  /** `PROTOCOLS_BY_FRAMEWORK[framework] || ['tcp']`: the protocols of a
      known framework, and `tcp` alone for any other name. */
  function ProtocolsFor(framework: string): (r: seq<string>)
    ensures |r| > 0 && r[0] == "tcp"
    ensures "udp" in r <==> framework == "grpc"
    ensures framework !in FrameworkIds ==> r == ["tcp"]
    ensures r == (if framework == "grpc" then ["tcp", "udp"] else ["tcp"])
  {
    if framework == "grpc" then ["tcp", "udp"]
    else if framework == "rmi" then ["tcp"]
    else if framework == "netremoting" then ["tcp"]
    else ["tcp"]
  }
}
