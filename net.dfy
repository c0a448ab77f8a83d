/**
 * Go's `net.SplitHostPort`, restricted to addresses whose host is not in
 * square brackets (see README, "Left out").
 */
module GoNet {
  import opened Wrappers
  import opened GoStrings

  /** The reasons `net.SplitHostPort` gives for refusing an address. */
  datatype AddrError =
    | MissingPort             // "missing port in address"
    | TooManyColons           // "too many colons in address"
    | UnexpectedOpenBracket   // "unexpected '[' in address"
    | UnexpectedCloseBracket  // "unexpected ']' in address"

  /** No colon and no square bracket: the characters a host or port may not hold here. */
  predicate Plain(s: string) {
    ':' !in s && '[' !in s && ']' !in s
  }

  /**
   * The port starts after the last colon; the host before it must hold no
   * further colon, and the whole address no bracket. The checks run in the
   * library's order, so the first one that fails names the error.
   */
  function SplitHostPort(hostport: string): (r: Result<(string, string), AddrError>)
    ensures r.Success? ==> hostport == r.value.0 + ":" + r.value.1
    ensures r.Success? ==> Plain(r.value.0) && Plain(r.value.1)
    ensures r == Failure(MissingPort) <==> ':' !in hostport
  {
    var i := LastIndexByte(hostport, ':');
    if i < 0 then Failure(MissingPort)
    else
      var host := hostport[..i];
      assert hostport == host + ":" + hostport[i + 1..];
      if IndexByte(host, ':') >= 0 then Failure(TooManyColons)
      else if IndexByte(hostport, '[') >= 0 then Failure(UnexpectedOpenBracket)
      else if IndexByte(hostport, ']') >= 0 then Failure(UnexpectedCloseBracket)
      else Success((host, hostport[i + 1..]))
  }

  /** Every plain host and port joined by one colon splits back into that host and port. */
  lemma SplitHostPortJoin(host: string, port: string)
    requires Plain(host) && Plain(port)
    ensures SplitHostPort(host + ":" + port) == Success((host, port))
  {
    var hp := host + ":" + port;
    assert hp[|host|] == ':';
    assert hp[|host| + 1..] == port;
    assert hp[..|host|] == host;
    assert forall k :: 0 <= k < |hp| ==> hp[k] != '[' && hp[k] != ']' by {
      forall k | 0 <= k < |hp| ensures hp[k] != '[' && hp[k] != ']' {
        if k < |host| { assert hp[k] == host[k]; }
        else if k > |host| { assert hp[k] == port[k - |host| - 1]; }
      }
    }
  }

  /** An address with two or more colons is refused as having too many. */
  lemma TwoColonsRefused(hostport: string, a: nat, b: nat)
    requires a < b < |hostport| && hostport[a] == ':' && hostport[b] == ':'
    ensures SplitHostPort(hostport) == Failure(TooManyColons)
  {
    var i := LastIndexByte(hostport, ':');
    assert b <= i;
    assert hostport[..i][a] == ':';
  }
}
