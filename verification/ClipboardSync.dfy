/** Two machines that keep their clipboards in step.  Content that was put there by the program is
    tagged, and tagged content is never sent, so nothing echoes. */
module ClipboardSync {
  import opened Text
  import opened ClipboardCodec

  datatype Side = Host | Client

  function Other(m: Side): Side
  {
    if m == Host then Client else Host
  }

  function OwnerData(side: Side): Bytes
  {
    if side == Host then [1] else [2]
  }

  /** Either of the two low bits marks the program as owner, on both sides alike. */
  predicate IsOwner(data: Bytes)
  {
    data != [] && data[0] % 4 != 0
  }

  /** The owner format and whether file copies are handled apart. */
  datatype Setup = Setup(libs: Libraries, owner: Bytes, files: bool)

  predicate IsTag(u: Setup, d: ClipboardData)
  {
    d.Special? && d.name == u.owner
  }

  predicate Tagged(u: Setup, v: seq<ClipboardData>)
  {
    exists i :: 0 <= i < |v| && IsTag(u, v[i]) && IsOwner(v[i].data)
  }

  predicate ToBeSent(u: Setup, d: ClipboardData)
  {
    !IsTag(u, d) && (d.PlainText? ==> d.text != [])
  }

  function Filter(u: Setup, v: seq<ClipboardData>): (r: seq<ClipboardData>)
    ensures forall i :: 0 <= i < |r| ==> r[i] in v && ToBeSent(u, r[i])
  {
    if v == [] then []
    else if ToBeSent(u, v[0]) then [v[0]] + Filter(u, v[1..])
    else Filter(u, v[1..])
  }

  /** What a check that is not forced reads. */
  function Get(u: Setup, v: seq<ClipboardData>): (r: seq<ClipboardData>)
  {
    if Tagged(u, v) then []
    else
      var data := Filter(u, v);
      if u.files && exists i :: 0 <= i < |data| && data[i].FileUrl? then [] else data
  }

  /** The loop over the entries that looks for the owner tag, and the filtering after it. */
  method GetFormatsFilter(u: Setup, v: seq<ClipboardData>, force: bool) returns (r: seq<ClipboardData>)
    ensures force ==> r == Filter(u, v)
    ensures !force ==> r == if Tagged(u, v) then [] else Filter(u, v)
  {
    if v == [] {
      return v;
    }
    if !force {
      for i := 0 to |v|
        invariant forall j :: 0 <= j < i ==> !(IsTag(u, v[j]) && IsOwner(v[j].data))
      {
        if IsTag(u, v[i]) && IsOwner(v[i].data) {
          return [];
        }
      }
    }
    r := [];
    for i := 0 to |v|
      invariant r + Filter(u, v[i..]) == Filter(u, v)
    {
      assert v[i..][1..] == v[i + 1..];
      if ToBeSent(u, v[i]) {
        r := r + [v[i]];
      }
    }
  }

  // ---------- The two machines ----------

  datatype Message = Message(clipboards: seq<Clipboard>)

  /** Clipboards, messages on their way to each machine, and for reasoning the contents users have
      copied on each. */
  datatype World = World(
    clip: map<Side, seq<ClipboardData>>,
    inbox: map<Side, seq<Message>>,
    copied: map<Side, set<seq<ClipboardData>>>)

  ghost predicate Complete(w: World)
  {
    forall m: Side :: m in w.clip && m in w.inbox && m in w.copied
  }

  datatype Event =
    | UserCopies(m: Side, data: seq<ClipboardData>)
    | Checks(m: Side)
    | Delivers(m: Side, ok: bool)

  ghost predicate AllValid(cs: seq<Clipboard>)
  {
    forall i :: 0 <= i < |cs| ==> ValidClipboard(cs[i])
  }

  /** A received message replaces the clipboard, with the tag at the end; an empty one and a failed
      write change nothing. */
  ghost function Received(u: Setup, m: Side, clip: seq<ClipboardData>, msg: Message, ok: bool): seq<ClipboardData>
    requires AllValid(msg.clipboards)
  {
    var data := FromMulti(u.libs, msg.clipboards);
    if data == [] || !ok then clip else data + [Special(u.owner, OwnerData(m))]
  }

  ghost function Next(u: Setup, w: World, e: Event): World
    requires Complete(w)
  {
    match e
    case UserCopies(m, data) => w.(clip := w.clip[m := data], copied := w.copied[m := w.copied[m] + {data}])
    case Checks(m) =>
      var content := Get(u, w.clip[m]);
      if content == [] then w
      else
        var to := Other(m);
        w.(inbox := w.inbox[to := w.inbox[to] + [Message(CreateMulti(u.libs, content))]])
    case Delivers(m, ok) =>
      if w.inbox[m] == [] || !AllValid(w.inbox[m][0].clipboards) then w
      else
        w.(clip := w.clip[m := Received(u, m, w.clip[m], w.inbox[m][0], ok)],
           inbox := w.inbox[m := w.inbox[m][1..]])
  }

  const EMPTY := World(map[Host := [], Client := []], map[Host := [], Client := []], map[Host := {}, Client := {}])

  lemma EmptyIsComplete()
    ensures Complete(EMPTY)
  {
    forall m: Side
      ensures m in EMPTY.clip && m in EMPTY.inbox && m in EMPTY.copied
    {
      match m
      case Host =>
      case Client =>
    }
  }

  ghost function Run(u: Setup, events: seq<Event>): (w: World)
    ensures Complete(w)
  {
    EmptyIsComplete();
    if events == [] then EMPTY else Next(u, Run(u, events[..|events| - 1]), events[|events| - 1])
  }

  // ---------- What holds in every run ----------

  /** The message is what a check makes of this content. */
  predicate Sends(u: Setup, c: seq<ClipboardData>, msg: Message)
  {
    Get(u, c) != [] && msg == Message(CreateMulti(u.libs, Get(u, c)))
  }

  ghost predicate StemsFrom(u: Setup, msg: Message, contents: set<seq<ClipboardData>>)
  {
    exists c :: c in contents && Sends(u, c, msg)
  }

  /** Every clipboard is tagged, untouched, or as its user left it; every message on its way was
      made from something copied on the machine that sent it. */
  ghost predicate NoEcho(u: Setup, w: World)
  {
    && Complete(w)
    && (forall m: Side :: w.clip[m] == [] || Tagged(u, w.clip[m]) || w.clip[m] in w.copied[m])
    && (forall m: Side, i :: 0 <= i < |w.inbox[m]| ==> StemsFrom(u, w.inbox[m][i], w.copied[Other(m)]))
  }

  lemma StemsFromMore(u: Setup, msg: Message, a: set<seq<ClipboardData>>, b: set<seq<ClipboardData>>)
    requires StemsFrom(u, msg, a) && a <= b
    ensures StemsFrom(u, msg, b)
  {
    var c :| c in a && Sends(u, c, msg);
    assert c in b && Sends(u, c, msg);
  }

  lemma ReceivedIsTagged(u: Setup, m: Side, clip: seq<ClipboardData>, msg: Message, ok: bool)
    requires AllValid(msg.clipboards)
    ensures var r := Received(u, m, clip, msg, ok); r == clip || Tagged(u, r)
  {
    var data := FromMulti(u.libs, msg.clipboards);
    var r := data + [Special(u.owner, OwnerData(m))];
    assert r[|data|] == Special(u.owner, OwnerData(m));
  }

  lemma CopyKeeps(u: Setup, w: World, e: Event)
    requires NoEcho(u, w) && e.UserCopies?
    ensures NoEcho(u, Next(u, w, e))
  {
    var w' := Next(u, w, e);
    forall m: Side, i | 0 <= i < |w'.inbox[m]|
      ensures StemsFrom(u, w'.inbox[m][i], w'.copied[Other(m)])
    {
      StemsFromMore(u, w.inbox[m][i], w.copied[Other(m)], w'.copied[Other(m)]);
    }
  }

  lemma CheckKeeps(u: Setup, w: World, m: Side)
    requires NoEcho(u, w)
    ensures NoEcho(u, Next(u, w, Checks(m)))
  {
    var content := Get(u, w.clip[m]);
    if content != [] {
      var msg := Message(CreateMulti(u.libs, content));
      assert !Tagged(u, w.clip[m]);
      assert w.clip[m] in w.copied[m] && Sends(u, w.clip[m], msg);
      assert StemsFrom(u, msg, w.copied[m]);
      assert Other(Other(m)) == m;
    }
  }

  lemma DeliverKeeps(u: Setup, w: World, m: Side, ok: bool)
    requires NoEcho(u, w)
    ensures NoEcho(u, Next(u, w, Delivers(m, ok)))
  {
    if w.inbox[m] != [] && AllValid(w.inbox[m][0].clipboards) {
      ReceivedIsTagged(u, m, w.clip[m], w.inbox[m][0], ok);
      var w' := Next(u, w, Delivers(m, ok));
      forall k: Side, i | 0 <= i < |w'.inbox[k]|
        ensures StemsFrom(u, w'.inbox[k][i], w'.copied[Other(k)])
      {
        if k == m {
          assert w'.inbox[k][i] == w.inbox[k][i + 1];
        }
      }
    }
  }

  lemma {:induction false} NeverEchoes(u: Setup, events: seq<Event>)
    ensures NoEcho(u, Run(u, events))
  {
    if events != [] {
      var w, e := Run(u, events[..|events| - 1]), events[|events| - 1];
      NeverEchoes(u, events[..|events| - 1]);
      match e
      case UserCopies(_, _) => CopyKeeps(u, w, e);
      case Checks(m) => CheckKeeps(u, w, m);
      case Delivers(m, ok) => DeliverKeeps(u, w, m, ok);
    }
  }

  ghost function RunFrom(u: Setup, w: World, events: seq<Event>): (w': World)
    requires Complete(w)
    ensures Complete(w')
  {
    if events == [] then w else Next(u, RunFrom(u, w, events[..|events| - 1]), events[|events| - 1])
  }

  /** The user of this machine copies nothing. */
  predicate NoCopyOn(m: Side, events: seq<Event>)
  {
    forall i :: 0 <= i < |events| && events[i].UserCopies? ==> events[i].m != m
  }

  /** A tagged clipboard stays tagged until its user copies. */
  lemma {:induction false} TaggedStays(u: Setup, w: World, m: Side, events: seq<Event>)
    requires Complete(w) && Tagged(u, w.clip[m]) && NoCopyOn(m, events)
    ensures Tagged(u, RunFrom(u, w, events).clip[m])
  {
    if events != [] {
      var before, e := events[..|events| - 1], events[|events| - 1];
      TaggedStays(u, w, m, before);
      var v := RunFrom(u, w, before);
      if e.Delivers? && v.inbox[e.m] != [] && AllValid(v.inbox[e.m][0].clipboards) {
        ReceivedIsTagged(u, e.m, v.clip[e.m], v.inbox[e.m][0], e.ok);
      }
    }
  }

  /** After something has been delivered to a machine, and for as long as its user copies nothing,
      whatever else happens, a check on it sends nothing. */
  lemma DeliveredIsNotSentBack(u: Setup, w: World, m: Side, events: seq<Event>)
    requires Complete(w) && w.inbox[m] != [] && AllValid(w.inbox[m][0].clipboards)
    requires FromMulti(u.libs, w.inbox[m][0].clipboards) != [] && NoCopyOn(m, events)
    ensures var v := RunFrom(u, Next(u, w, Delivers(m, true)), events); Next(u, v, Checks(m)) == v
  {
    var w1 := Next(u, w, Delivers(m, true));
    var data := FromMulti(u.libs, w.inbox[m][0].clipboards);
    assert w1.clip[m] == data + [Special(u.owner, OwnerData(m))];
    assert w1.clip[m][|data|] == Special(u.owner, OwnerData(m));
    assert Tagged(u, w1.clip[m]);
    TaggedStays(u, w1, m, events);
  }

  lemma {:induction false} NoTagInWire(u: Setup, v: seq<ClipboardData>, i: nat)
    requires forall k :: 0 <= k < |v| ==> !IsTag(u, v[k])
    requires i < |CreateMulti(u.libs, v)|
    ensures var c := CreateMulti(u.libs, v)[i]; !(c.format == FSpecial && c.specialName == u.owner)
  {
    if v != [] {
      var skip := if Supported(v[0]) then 1 else 0;
      if i >= skip {
        NoTagInWire(u, v[1..], i - skip);
      }
    }
  }

  /** No message carries the tag. */
  lemma MessagesCarryNoTag(u: Setup, events: seq<Event>, m: Side, k: nat, i: nat)
    requires k < |Run(u, events).inbox[m]| && i < |Run(u, events).inbox[m][k].clipboards|
    ensures var c := Run(u, events).inbox[m][k].clipboards[i]; !(c.format == FSpecial && c.specialName == u.owner)
  {
    NeverEchoes(u, events);
    var w := Run(u, events);
    var c :| c in w.copied[Other(m)] && Sends(u, c, w.inbox[m][k]);
    NoTagInWire(u, Get(u, c), i);
  }

  /** A copy that is checked and delivered puts the same entries on the other machine, followed by
      the tag, provided each entry survives the wire. */
  lemma CopyArrives(u: Setup, w: World, m: Side, data: seq<ClipboardData>)
    requires Complete(w) && w.inbox[Other(m)] == [] && !Tagged(u, data)
    requires forall i :: 0 <= i < |data| ==> WellFormed(u.libs, data[i])
    requires AllSurvive(u.libs, Get(u, data)) && Keep(Get(u, data)) != []
    ensures var to := Other(m);
      var w' := Next(u, Next(u, Next(u, w, UserCopies(m, data)), Checks(m)), Delivers(to, true));
      w'.clip[to] == Keep(Get(u, data)) + [Special(u.owner, OwnerData(to))] && w'.clip[m] == data
  {
    var content := Get(u, data);
    assert forall i :: 0 <= i < |content| ==> content[i] in data;
    MultiRoundTrip(u.libs, content);
    var to := Other(m);
    var w2 := Next(u, Next(u, w, UserCopies(m, data)), Checks(m));
    assert w2.inbox[to] == [Message(CreateMulti(u.libs, content))];
  }

  // ---------- What is read and what arrives, in full ----------

  /** The filter keeps exactly the entries to be sent, in order. */
  lemma {:induction false} FilterConcat(u: Setup, a: seq<ClipboardData>, b: seq<ClipboardData>)
    ensures Filter(u, a + b) == Filter(u, a) + Filter(u, b)
  {
    if a == [] {
      assert a + b == b;
    } else {
      FilterConcat(u, a[1..], b);
      assert (a + b)[1..] == a[1..] + b;
    }
  }

  lemma FilterOne(u: Setup, d: ClipboardData)
    ensures Filter(u, [d]) == if (d.Special? && d.name == u.owner) || d == PlainText([]) then [] else [d]
  {
    assert [d][1..] == [];
  }

  lemma {:induction false} FilterAll(u: Setup, v: seq<ClipboardData>)
    requires forall i :: 0 <= i < |v| ==> ToBeSent(u, v[i])
    ensures Filter(u, v) == v
  {
    if v != [] {
      FilterAll(u, v[1..]);
      assert [v[0]] + v[1..] == v;
    }
  }

  /** A check reads nothing from a tagged clipboard, nothing from copied files where these are handled
      apart, and otherwise what the filter leaves. */
  lemma WhatIsRead(u: Setup, v: seq<ClipboardData>)
    ensures (exists d :: IsOwner(d) && Special(u.owner, d) in v) ==> Get(u, v) == []
    ensures u.files && (exists i :: 0 <= i < |v| && v[i].FileUrl?) ==> Get(u, v) == []
    ensures (forall d :: Special(u.owner, d) in v ==> !IsOwner(d)) && (u.files ==> forall i :: 0 <= i < |v| ==> !v[i].FileUrl?) ==>
      Get(u, v) == Filter(u, v)
  {
    if exists i :: 0 <= i < |v| && v[i].FileUrl? {
      var i :| 0 <= i < |v| && v[i].FileUrl?;
      FilterKeeps(u, v, i);
    }
  }

  lemma {:induction false} FilterKeeps(u: Setup, v: seq<ClipboardData>, i: nat)
    requires i < |v| && ToBeSent(u, v[i])
    ensures exists j :: 0 <= j < |Filter(u, v)| && Filter(u, v)[j] == v[i]
  {
    if i == 0 {
      assert Filter(u, v)[0] == v[0];
    } else {
      FilterKeeps(u, v[1..], i - 1);
      var j :| 0 <= j < |Filter(u, v[1..])| && Filter(u, v[1..])[j] == v[i];
      assert Filter(u, v)[if ToBeSent(u, v[0]) then j + 1 else j] == v[i];
    }
  }

  /** Whatever a user copies that can be sent and survives arrives whole, in order, with the tag of the
      receiving side behind it. */
  lemma WholeCopyArrives(u: Setup, w: World, m: Side, data: seq<ClipboardData>)
    requires Complete(w) && w.inbox[Other(m)] == [] && data != []
    requires forall i :: 0 <= i < |data| ==>
      WellFormed(u.libs, data[i]) && Survives(u.libs, data[i]) && ToBeSent(u, data[i])
    ensures var to := Other(m);
      var w' := Next(u, Next(u, Next(u, w, UserCopies(m, data)), Checks(m)), Delivers(to, true));
      w'.clip[to] == data + [Special(u.owner, if to == Host then [1] else [2])] && w'.clip[m] == data
  {
    FilterAll(u, data);
    KeepAll(data);
    assert Get(u, data) == data;
    CopyArrives(u, w, m, data);
  }

  /** Messages arrive in the order in which they were sent; a failed write or an empty message leaves
      the clipboard alone, and takes the message off the queue all the same. */
  lemma MessagesQueue(u: Setup, w: World, m: Side, ok: bool)
    requires Complete(w)
    ensures Get(u, w.clip[m]) != [] ==>
      Next(u, w, Checks(m)).inbox[Other(m)] == w.inbox[Other(m)] + [Message(CreateMulti(u.libs, Get(u, w.clip[m])))]
    ensures Get(u, w.clip[m]) == [] ==> Next(u, w, Checks(m)) == w
    ensures w.inbox[m] != [] && AllValid(w.inbox[m][0].clipboards) ==>
      Next(u, w, Delivers(m, ok)).inbox[m] == w.inbox[m][1..]
    ensures w.inbox[m] != [] && AllValid(w.inbox[m][0].clipboards) && (!ok || FromMulti(u.libs, w.inbox[m][0].clipboards) == []) ==>
      Next(u, w, Delivers(m, ok)).clip[m] == w.clip[m]
  {
  }

  /** Each side's own mark is one of the two low bits, and either bit in the first byte, whoever set
      it, marks the program as owner. */
  lemma OwnerBits(data: Bytes)
    ensures IsOwner(data) <==> data != [] && (data[0] % 2 == 1 || data[0] / 2 % 2 == 1)
    ensures IsOwner(OwnerData(Host)) && IsOwner(OwnerData(Client)) && OwnerData(Host) != OwnerData(Client)
  {
  }
}
