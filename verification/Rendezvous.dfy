/** The list of rendezvous servers: how it travels between processes and how the one to use is
    picked from it. */
module Rendezvous {
  import opened Text

  /** The value of the `rendezvous_server` setting: the preferred server and the list. */
  function Compose(preferred: string, servers: seq<string>): string
  {
    preferred + "," + Join(servers, ",")
  }

  function Decompose(v: string): (string, seq<string>)
  {
    var urls := Split(v, ",");
    (urls[0], urls[1..])
  }

  /** The value is read back as it was written if and only if the list is not empty: an empty list
      comes back as one empty name. */
  lemma ComposeRoundTrip(preferred: string, servers: seq<string>)
    requires ',' !in preferred && forall i :: 0 <= i < |servers| ==> ',' !in servers[i]
    ensures Decompose(Compose(preferred, servers)) == (preferred, if servers == [] then [""] else servers)
  {
    var list := if servers == [] then [""] else servers;
    var all := [preferred] + list;
    assert all[1..] == list;
    assert Join(all, ",") == Compose(preferred, servers);
    SplitJoin(all, ',');
  }

  /** Adds the standard port where none is given; whether a name is an IPv6 address is decided by a
      pattern that is taken as given. */
  function CheckPort(isIpv6: string -> bool, host: string, port: string): string
  {
    if isIpv6(host) then
      if StartsWith(host, "[") then host else "[" + host + "]:" + port
    else if !Contains(host, ":") then host + ":" + port
    else host
  }

  /** Every name ends up with a port: its own if it has one, else the standard one, with an IPv6 address
      set in brackets. */
  lemma PortIsThere(isIpv6: string -> bool, host: string, port: string)
    ensures !isIpv6(host) && ':' !in host ==> CheckPort(isIpv6, host, port) == host + ":" + port
    ensures !isIpv6(host) && ':' in host ==> CheckPort(isIpv6, host, port) == host
    ensures isIpv6(host) && host != "" && host[0] == '[' ==> CheckPort(isIpv6, host, port) == host
    ensures isIpv6(host) && (host == "" || host[0] != '[') ==> CheckPort(isIpv6, host, port) == "[" + host + "]:" + port
  {
    if ':' in host {
      var i :| 0 <= i < |host| && host[i] == ':';
      assert host[i..i + 1] == ":";
      FindFirst(host, ":", i);
    } else {
      FindSkipPlain(host, "", ":");
      assert host + "" == host;
    }
    assert host != "" ==> (StartsWith(host, "[") <==> host[0] == '[');
  }

  function Normalised(isIpv6: string -> bool, port: string, servers: seq<string>): (r: seq<string>)
    ensures |r| == |servers|
  {
    seq(|servers|, i requires 0 <= i < |servers| => CheckPort(isIpv6, servers[i], port))
  }

  function Without(s: seq<string>, a: string): (r: seq<string>)
    ensures a !in r && forall x :: x in r ==> x in s
    ensures forall x :: x in s && x != a ==> x in r
  {
    if s == [] then [] else (if s[0] != a then [s[0]] else []) + Without(s[1..], a)
  }

  /** The others stay in order. */
  lemma {:induction false} WithoutConcat(s: seq<string>, t: seq<string>, a: string)
    ensures Without(s + t, a) == Without(s, a) + Without(t, a)
  {
    if s == [] {
      assert s + t == t;
    } else {
      WithoutConcat(s[1..], t, a);
      assert (s + t)[1..] == s[1..] + t;
      var head := if s[0] != a then [s[0]] else [];
      assert head + (Without(s[1..], a) + Without(t, a)) == head + Without(s[1..], a) + Without(t, a);
    }
  }

  lemma WithoutOne(x: string, a: string)
    ensures Without([x], a) == if x == a then [] else [x]
  {
    assert [x][1..] == [];
  }

  /** The server to use, the others, and whether the preferred one was listed. */
  method GetRendezvousServer(isIpv6: string -> bool, port: string, preferred: string, servers: seq<string>)
    returns (a: string, b: seq<string>, c: bool)
    ensures (a, b, c) == Picked(preferred, Normalised(isIpv6, port, servers))
  {
    a, b := preferred, Normalised(isIpv6, port, servers);
    if a in b {
      b := Without(b, a);
      c := true;
    } else {
      if b != [] {
        a := b[|b| - 1];
        b := b[..|b| - 1];
      }
      c := false;
    }
  }

  function Picked(preferred: string, b: seq<string>): (string, seq<string>, bool)
  {
    if preferred in b then (preferred, Without(b, preferred), true)
    else if b == [] then (preferred, [], false)
    else (b[|b| - 1], b[..|b| - 1], false)
  }

  predicate LastIsRepeated(b: seq<string>)
  {
    b != [] && b[|b| - 1] in b[..|b| - 1]
  }

  /** The picked server is not among the others, as the connection code asserts, unless the
      preferred one is not listed and the last server is listed twice. */
  lemma PickedIsNotAmongOthers(preferred: string, b: seq<string>)
    ensures var (a, others, _) := Picked(preferred, b);
      a !in others <==> preferred in b || !LastIsRepeated(b)
  {
  }

  /** Nothing is lost and nothing invented: a non-empty list is the picked server and the others, and
      from an empty one the preferred server is picked, as not listed. */
  lemma PickedCoversList(preferred: string, b: seq<string>, x: string)
    ensures var (a, others, listed) := Picked(preferred, b);
      && (b != [] ==> (x in b <==> x == a || x in others))
      && (b == [] ==> a == preferred && others == [])
      && (listed <==> preferred in b)
      && (listed ==> a == preferred)
  {
    if preferred !in b && b != [] {
      assert b == b[..|b| - 1] + [b[|b| - 1]];
    }
  }
}
