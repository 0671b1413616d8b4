/** Merging discovery responses into the stored list of peers on the local network. */
module LanPeers {
  import opened Text

  datatype Peer = Peer(id: string, username: string, hostname: string, platform: string,
                       online: bool, ipMac: map<string, string>)

  datatype Key = Key(id: string, username: string)

  function KeyOf(p: Peer): Key
  {
    Key(p.id, p.username)
  }

  /** Same peer means same id and same user; whether a peer has responded is kept by id alone. */
  predicate IsSamePeer(a: Peer, b: Peer)
  {
    a.id == b.id && a.username == b.username
  }

  predicate Distinct(peers: seq<Peer>)
  {
    forall i, j :: 0 <= i < j < |peers| ==> KeyOf(peers[i]) != KeyOf(peers[j])
  }

  function Position(peers: seq<Peer>, p: Peer): (k: int)
    ensures -1 <= k < |peers|
    ensures k >= 0 ==> IsSamePeer(peers[k], p)
    ensures forall i :: 0 <= i < |peers| && IsSamePeer(peers[i], p) ==> 0 <= k <= i
  {
    if peers == [] then -1
    else if IsSamePeer(peers[0], p) then 0
    else
      var k := Position(peers[1..], p);
      if k < 0 then -1 else k + 1
  }

  function Offline(peers: seq<Peer>): (r: seq<Peer>)
    ensures |r| == |peers|
    ensures forall i :: 0 <= i < |peers| ==> r[i] == peers[i].(online := false)
  {
    seq(|peers|, i requires 0 <= i < |peers| => peers[i].(online := false))
  }

  /** The entry that replaces `before` when `p` responds. */
  function Merged(p: Peer, before: Option<Peer>, respondedBefore: bool): Peer
  {
    if before.Some? && respondedBefore then p.(ipMac := p.ipMac + before.value.ipMac, online := true) else p
  }

  function Merge(peers: seq<Peer>, p: Peer, respondedBefore: bool): seq<Peer>
  {
    var pos := Position(peers, p);
    if pos < 0 then [p] + peers
    else [Merged(p, Some(peers[pos]), respondedBefore)] + (peers[..pos] + peers[pos + 1..])
  }

  function Ids(rx: seq<Peer>): set<string>
  {
    set i | 0 <= i < |rx| :: rx[i].id
  }

  /** The list after the responses `rx`. */
  function Run(stored: seq<Peer>, rx: seq<Peer>): seq<Peer>
  {
    if rx == [] then Offline(stored)
    else
      var before := rx[..|rx| - 1];
      var p := rx[|rx| - 1];
      Merge(Run(stored, before), p, p.id in Ids(before))
  }

  method HandleReceivedPeers(stored: seq<Peer>, rx: seq<Peer>) returns (peers: seq<Peer>)
    ensures peers == Run(stored, rx)
  {
    peers := Offline(stored);
    var responseSet: set<string> := {};
    for n := 0 to |rx|
      invariant responseSet == Ids(rx[..n])
      invariant peers == Run(stored, rx[..n])
    {
      var peer := rx[n];
      assert rx[..n + 1][..n] == rx[..n];
      var inResponseSet := peer.id in responseSet;
      assert Ids(rx[..n + 1]) == Ids(rx[..n]) + {peer.id} by {
        assert rx[..n + 1][n] == peer;
        assert forall i :: 0 <= i < n ==> rx[..n + 1][i] == rx[..n][i];
      }
      responseSet := responseSet + {peer.id};
      var pos := Position(peers, peer);
      if pos >= 0 {
        var peer1 := peers[pos];
        peers := peers[..pos] + peers[pos + 1..];
        if inResponseSet {
          peer := peer.(ipMac := peer.ipMac + peer1.ipMac);
          peer := peer.(online := true);
        }
      }
      peers := [peer] + peers;
    }
    assert rx[..|rx|] == rx;
  }

  // ---------- Order ----------

  function Keys(peers: seq<Peer>): (ks: seq<Key>)
    ensures |ks| == |peers| && forall i :: 0 <= i < |peers| ==> ks[i] == KeyOf(peers[i])
  {
    seq(|peers|, i requires 0 <= i < |peers| => KeyOf(peers[i]))
  }

  function Without(ks: seq<Key>, gone: set<Key>): seq<Key>
  {
    if ks == [] then []
    else if ks[0] in gone then Without(ks[1..], gone)
    else [ks[0]] + Without(ks[1..], gone)
  }

  lemma {:induction false} WithoutMember(ks: seq<Key>, gone: set<Key>, k: Key)
    ensures k in Without(ks, gone) <==> k in ks && k !in gone
  {
    if ks != [] {
      WithoutMember(ks[1..], gone, k);
      assert k in ks <==> k == ks[0] || k in ks[1..];
    }
  }

  predicate DistinctKeys(ks: seq<Key>)
  {
    forall i, j :: 0 <= i < j < |ks| ==> ks[i] != ks[j]
  }

  /** Distinct keys, the one that occurs latest first. */
  function Recent(ks: seq<Key>): seq<Key>
  {
    if ks == [] then []
    else
      var k := ks[|ks| - 1];
      [k] + Without(Recent(ks[..|ks| - 1]), {k})
  }

  function LastIndex(ks: seq<Key>, k: Key): (i: int)
    ensures -1 <= i < |ks|
    ensures i >= 0 <==> k in ks
    ensures i >= 0 ==> ks[i] == k
  {
    if ks == [] then -1
    else if ks[|ks| - 1] == k then |ks| - 1
    else
      assert k in ks <==> k in ks[..|ks| - 1];
      LastIndex(ks[..|ks| - 1], k)
  }

  predicate LatestFirst(ks: seq<Key>, r: seq<Key>)
  {
    forall i, j :: 0 <= i < j < |r| ==> LastIndex(ks, r[i]) > LastIndex(ks, r[j])
  }

  lemma {:induction false} WithoutLatestFirst(ks: seq<Key>, r: seq<Key>, gone: set<Key>)
    requires LatestFirst(ks, r)
    ensures LatestFirst(ks, Without(r, gone))
  {
    if r != [] {
      WithoutLatestFirst(ks, r[1..], gone);
      forall j | 0 <= j < |Without(r[1..], gone)|
        ensures LastIndex(ks, r[0]) > LastIndex(ks, Without(r[1..], gone)[j])
      {
        WithoutMember(r[1..], gone, Without(r[1..], gone)[j]);
      }
    }
  }

  lemma {:induction false} RecentMember(ks: seq<Key>, k: Key)
    ensures k in Recent(ks) <==> k in ks
  {
    if ks != [] {
      var before, last := ks[..|ks| - 1], ks[|ks| - 1];
      RecentMember(before, k);
      WithoutMember(Recent(before), {last}, k);
      assert k in ks <==> k == last || k in before;
    }
  }

  lemma LatestFirstNext(before: seq<Key>, last: Key, rest: seq<Key>)
    requires LatestFirst(before, rest) && last !in rest
    ensures LatestFirst(before + [last], [last] + rest)
  {
    var ks, r := before + [last], [last] + rest;
    assert ks[..|before|] == before;
    forall i, j | 0 <= i < j < |r|
      ensures LastIndex(ks, r[i]) > LastIndex(ks, r[j])
    {
      assert r[j] == rest[j - 1] && rest[j - 1] != last;
      assert LastIndex(ks, r[j]) == LastIndex(before, rest[j - 1]);
      if i > 0 {
        assert r[i] == rest[i - 1] && rest[i - 1] != last;
      }
    }
  }

  lemma {:induction false} RecentLatestFirst(ks: seq<Key>)
    ensures LatestFirst(ks, Recent(ks))
  {
    if ks != [] {
      var before, last := ks[..|ks| - 1], ks[|ks| - 1];
      RecentLatestFirst(before);
      WithoutLatestFirst(before, Recent(before), {last});
      WithoutMember(Recent(before), {last}, last);
      LatestFirstNext(before, last, Without(Recent(before), {last}));
      assert before + [last] == ks;
    }
  }

  /** `Recent` in terms of positions: exactly the members of `ks`, by their last occurrence. */
  lemma RecentMeaning(ks: seq<Key>)
    ensures LatestFirst(ks, Recent(ks)) && forall k :: k in Recent(ks) <==> k in ks
  {
    RecentLatestFirst(ks);
    forall k
      ensures k in Recent(ks) <==> k in ks
    {
      RecentMember(ks, k);
    }
  }

  lemma {:induction false} WithoutAt(ks: seq<Key>, i: nat)
    requires DistinctKeys(ks) && i < |ks|
    ensures Without(ks, {ks[i]}) == ks[..i] + ks[i + 1..]
  {
    if i == 0 {
      WithoutNothing(ks[1..], {ks[0]});
    } else {
      WithoutAt(ks[1..], i - 1);
      assert [ks[0]] + (ks[1..][..i - 1] + ks[1..][i..]) == ks[..i] + ks[i + 1..];
    }
  }

  lemma {:induction false} WithoutNothing(ks: seq<Key>, gone: set<Key>)
    requires forall i :: 0 <= i < |ks| ==> ks[i] !in gone
    ensures Without(ks, gone) == ks
  {
    if ks != [] {
      WithoutNothing(ks[1..], gone);
    }
  }

  lemma {:induction false} WithoutTwice(ks: seq<Key>, a: set<Key>, b: set<Key>)
    ensures Without(Without(ks, a), b) == Without(ks, a + b)
  {
    if ks != [] {
      WithoutTwice(ks[1..], a, b);
    }
  }

  lemma {:induction false} WithoutConcat(a: seq<Key>, b: seq<Key>, gone: set<Key>)
    ensures Without(a + b, gone) == Without(a, gone) + Without(b, gone)
  {
    if a == [] {
      assert a + b == b;
    } else {
      WithoutConcat(a[1..], b, gone);
      assert (a + b)[1..] == a[1..] + b;
      var wa, wb := Without(a[1..], gone), Without(b, gone);
      assert [a[0]] + (wa + wb) == [a[0]] + wa + wb;
    }
  }

  lemma {:induction false} WithoutDistinct(ks: seq<Key>, gone: set<Key>)
    requires DistinctKeys(ks)
    ensures DistinctKeys(Without(ks, gone))
  {
    if ks != [] {
      WithoutDistinct(ks[1..], gone);
      WithoutMember(ks[1..], gone, ks[0]);
    }
  }

  lemma KeysFront(p: Peer, peers: seq<Peer>)
    ensures Keys([p] + peers) == [KeyOf(p)] + Keys(peers)
  {
  }

  lemma KeysRemove(peers: seq<Peer>, pos: nat)
    requires pos < |peers|
    ensures Keys(peers[..pos] + peers[pos + 1..]) == Keys(peers)[..pos] + Keys(peers)[pos + 1..]
  {
  }

  lemma MergeKeys(peers: seq<Peer>, p: Peer, respondedBefore: bool)
    requires Distinct(peers)
    ensures Keys(Merge(peers, p, respondedBefore)) == [KeyOf(p)] + Without(Keys(peers), {KeyOf(p)})
  {
    var pos := Position(peers, p);
    if pos < 0 {
      WithoutNothing(Keys(peers), {KeyOf(p)});
      KeysFront(p, peers);
    } else {
      WithoutAt(Keys(peers), pos);
      KeysRemove(peers, pos);
      KeysFront(Merged(p, Some(peers[pos]), respondedBefore), peers[..pos] + peers[pos + 1..]);
    }
  }

  lemma MergeDistinct(peers: seq<Peer>, p: Peer, respondedBefore: bool)
    requires Distinct(peers)
    ensures Distinct(Merge(peers, p, respondedBefore))
  {
    var ks, k := Keys(peers), KeyOf(p);
    MergeKeys(peers, p, respondedBefore);
    WithoutDistinct(ks, {k});
    WithoutMember(ks, {k}, k);
    DistinctFromKeys(Merge(peers, p, respondedBefore));
  }

  lemma DistinctFromKeys(peers: seq<Peer>)
    requires DistinctKeys(Keys(peers))
    ensures Distinct(peers)
  {
    var ks := Keys(peers);
    assert forall i :: 0 <= i < |peers| ==> ks[i] == KeyOf(peers[i]);
  }

  function KeySet(ks: seq<Key>): set<Key>
  {
    set i | 0 <= i < |ks| :: ks[i]
  }

  /** Responders come first, the latest response first, then everyone else in stored order; and no
      peer is listed twice. */
  lemma {:induction false} RunOrder(stored: seq<Peer>, rx: seq<Peer>)
    requires Distinct(stored)
    ensures Keys(Run(stored, rx)) == Recent(Keys(rx)) + Without(Keys(stored), KeySet(Keys(rx)))
    ensures Distinct(Run(stored, rx))
  {
    if rx == [] {
      WithoutNothing(Keys(stored), KeySet(Keys(rx)));
      assert Keys(Offline(stored)) == Keys(stored);
    } else {
      var before, p := rx[..|rx| - 1], rx[|rx| - 1];
      var k := KeyOf(p);
      RunOrder(stored, before);
      MergeKeys(Run(stored, before), p, p.id in Ids(before));
      MergeDistinct(Run(stored, before), p, p.id in Ids(before));
      assert Keys(rx) == Keys(before) + [k];
      OrderStep(Keys(stored), Keys(before), k);
    }
  }

  /** Moving a key to the front of responders-then-others leaves responders-then-others. */
  lemma OrderStep(others: seq<Key>, ks: seq<Key>, k: Key)
    ensures [k] + Without(Recent(ks) + Without(others, KeySet(ks)), {k})
         == Recent(ks + [k]) + Without(others, KeySet(ks + [k]))
  {
    assert (ks + [k])[..|ks|] == ks;
    KeySetNext(ks, k);
    WithoutConcat(Recent(ks), Without(others, KeySet(ks)), {k});
    WithoutTwice(others, KeySet(ks), {k});
  }

  lemma KeySetNext(ks: seq<Key>, k: Key)
    ensures KeySet(ks + [k]) == KeySet(ks) + {k}
  {
    var all := ks + [k];
    assert all[|ks|] == k;
    assert forall i :: 0 <= i < |ks| ==> all[i] == ks[i];
  }

  // ---------- Entries ----------

  function Lookup(peers: seq<Peer>, k: Key): Option<Peer>
  {
    if peers == [] then None else if KeyOf(peers[0]) == k then Some(peers[0]) else Lookup(peers[1..], k)
  }

  lemma {:induction false} LookupSkips(a: seq<Peer>, q: Peer, b: seq<Peer>, k: Key)
    requires KeyOf(q) != k
    ensures Lookup(a + [q] + b, k) == Lookup(a + b, k)
  {
    if a == [] {
      assert a + [q] + b == [q] + b && a + b == b;
    } else {
      LookupSkips(a[1..], q, b, k);
      assert (a + [q] + b)[1..] == a[1..] + [q] + b;
      assert (a + b)[1..] == a[1..] + b;
    }
  }

  lemma {:induction false} LookupIsPosition(peers: seq<Peer>, p: Peer)
    ensures var pos := Position(peers, p);
      Lookup(peers, KeyOf(p)) == if pos < 0 then None else Some(peers[pos])
  {
    if peers != [] && !IsSamePeer(peers[0], p) {
      LookupIsPosition(peers[1..], p);
    }
  }

  lemma LookupMerge(peers: seq<Peer>, p: Peer, respondedBefore: bool, k: Key)
    ensures Lookup(Merge(peers, p, respondedBefore), k)
         == if k == KeyOf(p) then Some(Merged(p, Lookup(peers, k), respondedBefore)) else Lookup(peers, k)
  {
    var pos := Position(peers, p);
    LookupIsPosition(peers, p);
    if pos >= 0 && k != KeyOf(p) {
      LookupSkips(peers[..pos], peers[pos], peers[pos + 1..], k);
      assert peers == peers[..pos] + [peers[pos]] + peers[pos + 1..];
    }
  }

  /** Addresses over all responses of a peer; where two responses disagree, the earlier one wins. */
  function Collected(rx: seq<Peer>, k: Key): map<string, string>
  {
    if rx == [] then map[]
    else
      var p := rx[|rx| - 1];
      var before := Collected(rx[..|rx| - 1], k);
      if KeyOf(p) == k then p.ipMac + before else before
  }

  /** The latest response of a peer. */
  function Latest(rx: seq<Peer>, k: Key): Option<Peer>
  {
    if rx == [] then None
    else if KeyOf(rx[|rx| - 1]) == k then Some(rx[|rx| - 1])
    else Latest(rx[..|rx| - 1], k)
  }

  predicate Responded(rx: seq<Peer>, k: Key)
  {
    exists i :: 0 <= i < |rx| && KeyOf(rx[i]) == k
  }

  /** Another user of the same machine responded before this peer first did. */
  predicate Shadowed(rx: seq<Peer>, k: Key)
  {
    if rx == [] then false
    else
      var before, p := rx[..|rx| - 1], rx[|rx| - 1];
      if KeyOf(p) == k && !Responded(before, k) then k.id in Ids(before) else Shadowed(before, k)
  }

  /** Stored addresses that outlive the run. */
  function Stale(stored: seq<Peer>, rx: seq<Peer>, k: Key): map<string, string>
  {
    var known := Lookup(stored, k);
    if known.Some? && Shadowed(rx, k) then known.value.ipMac else map[]
  }

  lemma RespondedNext(rx: seq<Peer>, k: Key)
    requires rx != []
    ensures Responded(rx, k) <==> KeyOf(rx[|rx| - 1]) == k || Responded(rx[..|rx| - 1], k)
  {
    var before := rx[..|rx| - 1];
    if Responded(before, k) {
      var i :| 0 <= i < |before| && KeyOf(before[i]) == k;
      assert rx[i] == before[i];
    }
  }

  lemma RespondedId(rx: seq<Peer>, k: Key)
    requires Responded(rx, k)
    ensures k.id in Ids(rx)
  {
  }

  lemma {:induction false} CollectedNothing(rx: seq<Peer>, k: Key)
    requires !Responded(rx, k)
    ensures Collected(rx, k) == map[] && !Shadowed(rx, k)
  {
    if rx != [] {
      RespondedNext(rx, k);
      CollectedNothing(rx[..|rx| - 1], k);
    }
  }

  lemma {:induction false} OfflineLookup(stored: seq<Peer>, k: Key)
    ensures Lookup(Offline(stored), k)
         == if Lookup(stored, k).None? then None else Some(Lookup(stored, k).value.(online := false))
  {
    if stored != [] {
      OfflineLookup(stored[1..], k);
      assert Offline(stored)[1..] == Offline(stored[1..]);
    }
  }

  /** The state of any peer after any run: whoever has not responded is as stored, but offline;
      whoever has is as in its latest response and online, with the addresses of all its responses,
      and with stored ones only if it was shadowed. */
  lemma {:induction false} RunEntry(stored: seq<Peer>, rx: seq<Peer>, k: Key)
    requires forall i :: 0 <= i < |rx| ==> rx[i].online
    ensures var e := Lookup(Run(stored, rx), k);
      if Responded(rx, k) then
        Latest(rx, k).Some? && Latest(rx, k).value.online
        && e == Some(Latest(rx, k).value.(ipMac := Collected(rx, k) + Stale(stored, rx, k)))
      else
        e == if Lookup(stored, k).None? then None else Some(Lookup(stored, k).value.(online := false))
  {
    if rx == [] {
      OfflineLookup(stored, k);
    } else {
      var before, p := rx[..|rx| - 1], rx[|rx| - 1];
      RunEntry(stored, before, k);
      LookupMerge(Run(stored, before), p, p.id in Ids(before), k);
      RespondedNext(rx, k);
      if KeyOf(p) == k {
        EntryStep(stored, rx, k);
      }
    }
  }

  lemma MapRegroup(a: map<string, string>, b: map<string, string>, c: map<string, string>)
    ensures a + (b + c) == a + b + c
  {
  }

  lemma EntryStep(stored: seq<Peer>, rx: seq<Peer>, k: Key)
    requires rx != [] && KeyOf(rx[|rx| - 1]) == k && rx[|rx| - 1].online
    requires var before := rx[..|rx| - 1];
      var e := Lookup(Run(stored, before), k);
      if Responded(before, k) then
        e.Some? && e.value.ipMac == Collected(before, k) + Stale(stored, before, k)
      else
        e == if Lookup(stored, k).None? then None else Some(Lookup(stored, k).value.(online := false))
    ensures var before := rx[..|rx| - 1];
      var m := Merged(rx[|rx| - 1], Lookup(Run(stored, before), k), k.id in Ids(before));
      m == rx[|rx| - 1].(ipMac := Collected(rx, k) + Stale(stored, rx, k))
  {
    var before, p := rx[..|rx| - 1], rx[|rx| - 1];
    if Responded(before, k) {
      RespondedId(before, k);
      MapRegroup(p.ipMac, Collected(before, k), Stale(stored, rx, k));
    } else {
      CollectedNothing(before, k);
      assert p.ipMac + map[] == p.ipMac;
    }
  }

  /** A responder's addresses are exactly those of its responses if and only if no stored one comes
      on top; what is collected from the responses are the addresses they mention. */
  lemma AddressesAreThoseOfResponses(stored: seq<Peer>, rx: seq<Peer>, k: Key)
    requires forall i :: 0 <= i < |rx| ==> rx[i].online
    requires Responded(rx, k)
    ensures var e := Lookup(Run(stored, rx), k);
      e.Some? && (e.value.ipMac == Collected(rx, k) <==> Stale(stored, rx, k).Items <= Collected(rx, k).Items)
    ensures forall a :: a in Collected(rx, k) <==> Mentioned(rx, k, a)
  {
    RunEntry(stored, rx, k);
    forall a
      ensures a in Collected(rx, k) <==> Mentioned(rx, k, a)
    {
      CollectedAddresses(rx, k, a);
    }
    var c, s := Collected(rx, k), Stale(stored, rx, k);
    if c + s == c {
      forall x | x in s.Items
        ensures x in c.Items
      {
        assert (c + s)[x.0] == x.1;
      }
    }
    if s.Items <= c.Items {
      forall a | a in s
        ensures a in c && c[a] == s[a]
      {
        assert (a, s[a]) in s.Items;
      }
      assert c + s == c;
    }
  }

  ghost predicate Mentioned(rx: seq<Peer>, k: Key, a: string)
  {
    exists i :: 0 <= i < |rx| && KeyOf(rx[i]) == k && a in rx[i].ipMac
  }

  lemma {:induction false} CollectedAddresses(rx: seq<Peer>, k: Key, a: string)
    ensures a in Collected(rx, k) <==> Mentioned(rx, k, a)
  {
    if rx != [] {
      var before := rx[..|rx| - 1];
      CollectedAddresses(before, k, a);
      assert forall i :: 0 <= i < |before| ==> before[i] == rx[i];
    }
  }

  /** Response `i` is the first of this peer that mentions the address. */
  predicate FirstMention(rx: seq<Peer>, k: Key, a: string, i: nat)
    requires i < |rx|
  {
    KeyOf(rx[i]) == k && a in rx[i].ipMac && forall j :: 0 <= j < i && KeyOf(rx[j]) == k ==> a !in rx[j].ipMac
  }

  /** Where responses disagree about an address, the first one that mentions it counts. */
  lemma {:induction false} FirstMentionCounts(rx: seq<Peer>, k: Key, a: string, i: nat)
    requires i < |rx| && FirstMention(rx, k, a, i)
    ensures a in Collected(rx, k) && Collected(rx, k)[a] == rx[i].ipMac[a]
    decreases |rx|
  {
    var before := rx[..|rx| - 1];
    if i < |rx| - 1 {
      FirstMentionCounts(before, k, a, i);
    } else {
      CollectedAddresses(before, k, a);
    }
  }

  /** The latest response is the last one with this key. */
  lemma {:induction false} LatestIsLast(rx: seq<Peer>, k: Key, i: nat)
    requires i < |rx| && KeyOf(rx[i]) == k && forall j :: i < j < |rx| ==> KeyOf(rx[j]) != k
    ensures Latest(rx, k) == Some(rx[i])
    decreases |rx|
  {
    if i < |rx| - 1 {
      LatestIsLast(rx[..|rx| - 1], k, i);
    }
  }

  /** A peer is shadowed if and only if somebody else with its id responded before it first did. */
  lemma {:induction false} ShadowedIff(rx: seq<Peer>, k: Key, i: nat)
    requires i < |rx| && KeyOf(rx[i]) == k && forall j :: 0 <= j < i ==> KeyOf(rx[j]) != k
    ensures Shadowed(rx, k) <==> exists j :: 0 <= j < i && rx[j].id == k.id
    decreases |rx|
  {
    var before := rx[..|rx| - 1];
    if i < |rx| - 1 {
      ShadowedIff(before, k, i);
      assert before[i] == rx[i];
      assert forall j :: 0 <= j < i ==> before[j] == rx[j];
    } else {
      assert !Responded(before, k);
      assert forall j :: 0 <= j < i ==> before[j] == rx[j];
    }
  }

  /** A concrete shadowed peer: after another user of the same machine has responded, a stored
      address outlives a response that does not mention it. */
  lemma StaleAddressSurvives(known: Peer, first: Peer, second: Peer, a: string)
    requires first.online && second.online
    requires first.id == second.id && first.username != second.username && KeyOf(known) == KeyOf(second)
    requires a in known.ipMac && a !in second.ipMac
    ensures var k := KeyOf(second);
      var e := Lookup(Run([known], [first, second]), k);
      e.Some? && a in e.value.ipMac && a !in Collected([first, second], k)
  {
    var rx, k := [first, second], KeyOf(second);
    assert rx[1] == second;
    RunEntry([known], rx, k);
    var before := rx[..1];
    assert before == [first] && before[0] == first;
    assert !Responded(before, k);
    CollectedNothing(before, k);
    assert k.id in Ids(before);
    assert Shadowed(rx, k);
  }
}
