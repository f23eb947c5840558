/**
 * The visitor address of the IP-information handler: RemoteAddr with its
 * port cut off at the last ':', and the test for a local visitor.
 */
module Visitor {

  /** strings.LastIndex for one character: the last position of c in s, or -1. */
  function LastIndex(s: string, c: char): (idx: int)
    ensures -1 <= idx < |s|
    ensures idx == -1 <==> forall k :: 0 <= k < |s| ==> s[k] != c
    ensures idx >= 0 ==> s[idx] == c && forall k :: idx < k < |s| ==> s[k] != c
    decreases |s|
  {
    if s == [] then -1
    else if s[|s| - 1] == c then |s| - 1
    else LastIndex(s[..|s| - 1], c)
  }

  /** s[:idx] for an index LastIndex found; any other index leaves s as it is. */
  function Prefix(s: string, idx: int): (p: string)
    ensures 0 <= idx <= |s| ==> p == s[..idx]
  {
    if 0 <= idx <= |s| then s[..idx] else s
  }

  /**
   * The address before its last ':'. When the search finds nothing, the else
   * branch repeats the same search and cuts only if that one finds a ':'.
   */
  function StripPort(addr: string): string {
    var idx := LastIndex(addr, ':');
    if idx != -1 then Prefix(addr, idx)
    else
      var idx2 := LastIndex(addr, ':');
      if idx2 != -1 then Prefix(addr, idx2) else addr
  }

  /** A visitor served from the same machine. */
  predicate IsLoopback(host: string) {
    host == "[::1]" || host == "127.0.0.1" || host == "localhost"
  }

  /**
   * The repeated search in the else branch finds nothing, so that branch can
   * never cut: the whole function is a single cut at the last ':'.
   */
  lemma ElseBranchIsDead(addr: string)
    ensures StripPort(addr) == (if LastIndex(addr, ':') != -1 then addr[..LastIndex(addr, ':')] else addr)
  {
  }

  /** The stripped address is the prefix before the last ':', or the whole address if it has none. */
  lemma StripPortShape(addr: string)
    ensures (forall k :: 0 <= k < |addr| ==> addr[k] != ':') ==> StripPort(addr) == addr
    ensures (exists k :: 0 <= k < |addr| && addr[k] == ':') ==>
              var h := StripPort(addr);
              && |h| < |addr| && addr[..|h|] == h && addr[|h|] == ':'
              && forall k :: |h| < k < |addr| ==> addr[k] != ':'
  {
  }

  /** host:port loses exactly its port, for any host (IPv6 in brackets included) and any port without ':'. */
  lemma {:induction false} StripPortOfHostPort(host: string, port: string)
    requires forall k :: 0 <= k < |port| ==> port[k] != ':'
    ensures StripPort(host + [':'] + port) == host
  {
    var addr := host + [':'] + port;
    assert addr[|host|] == ':';
    assert forall k :: |host| < k < |addr| ==> addr[k] == port[k - |host| - 1];
    assert LastIndex(addr, ':') == |host|;
    assert addr[..|host|] == host;
  }

  /** The loopback addresses with any port are recognised as local. */
  lemma LoopbackVisitors(port: string)
    requires forall k :: 0 <= k < |port| ==> port[k] != ':'
    ensures IsLoopback(StripPort("[::1]" + [':'] + port))
    ensures IsLoopback(StripPort("127.0.0.1" + [':'] + port))
    ensures IsLoopback(StripPort("localhost" + [':'] + port))
  {
    StripPortOfHostPort("[::1]", port);
    StripPortOfHostPort("127.0.0.1", port);
    StripPortOfHostPort("localhost", port);
  }

  /** Only the three spellings count: other loopback forms such as 127.0.0.2 or ::1 unbracketed do not. */
  lemma OnlyThreeSpellings()
    ensures !IsLoopback("127.0.0.2") && !IsLoopback("::1") && !IsLoopback("LOCALHOST")
  {
  }
}
