/** Addresses of the form `id@server?key=K`, their relay suffix, and what is remembered of them for
    the next connection. */
module PeerAddress {
  import opened Text

  const PUBLIC_SERVER := "public"
  const OTHER_SERVER_KEY := "other-server-key"
  const FORCE_RELAY := "force-always-relay"

  datatype OtherServer = OtherServer(id: string, server: string, key: string)

  /** A trailing `/r` or `\r` asks for a relay. */
  function HandleRelayId(id: string): string
  {
    if IsSuffix("\\r", id) || IsSuffix("/r", id) then id[..|id| - 2] else id
  }

  function Piece(s: string, sep: char, k: nat): string
  {
    var parts := Split(s, [sep]);
    if k < |parts| then parts[k] else ""
  }

  /** Arguments by lower-cased name; later ones replace earlier ones, parts without `=` count for
      nothing, and only the first `=` separates. */
  function ArgsMap(parts: seq<string>): map<string, string>
  {
    if parts == [] then map[]
    else
      var m := ArgsMap(parts[..|parts| - 1]);
      var arg := parts[|parts| - 1];
      var k := Find(arg, "=");
      if k < 0 then m else m[Lower(arg[..k]) := arg[k + 1..]]
  }

  method ParseArgs(args: string) returns (m: map<string, string>)
    ensures m == ArgsMap(Split(args, "&"))
  {
    var parts := Split(args, "&");
    m := map[];
    for n := 0 to |parts|
      invariant m == ArgsMap(parts[..n])
    {
      var arg := parts[n];
      assert parts[..n + 1][..n] == parts[..n];
      var kv := Find(arg, "=");
      if kv >= 0 {
        m := m[Lower(arg[..kv]) := arg[kv + 1..]];
      }
    }
    assert parts[..|parts|] == parts;
  }

  function KeyOf(pubKey: string, server: string, args: string): string
  {
    if server == PUBLIC_SERVER then pubKey
    else
      var m := ArgsMap(Split(args, "&"));
      if "key" in m then m["key"] else ""
  }

  datatype Parsed = Parsed(id: string, other: Option<OtherServer>, relay: bool)

  /** What the text of an address says by itself. */
  function Parse(pubKey: string, id: string): Parsed
  {
    if Contains(id, "@") then
      var raw := Piece(id, '@', 0);
      var rest := Piece(id, '@', 1);
      var server := Piece(rest, '?', 0);
      var key := KeyOf(pubKey, server, Piece(rest, '?', 1));
      var bare := HandleRelayId(raw);
      Parsed(bare + "@" + server, Some(OtherServer(bare, server, key)), bare != raw)
    else
      Parsed(HandleRelayId(id), None, HandleRelayId(id) != id)
  }

  type Options = map<string, string>

  function GetOption(o: Options, k: string): string
  {
    if k in o then o[k] else ""
  }

  /** Saved options of all peers. */
  type Store = map<string, Options>

  function Load(store: Store, id: string): Options
  {
    if id in store then store[id] else map[]
  }

  datatype Connection = Connection(id: string, other: Option<OtherServer>, forceRelay: bool, options: Options)

  /** Address, saved options and global settings together; a server named by an earlier address of
      the same handler (`before`) stays if this one names none. */
  function Initialized(pubKey: string, store: Store, before: Option<OtherServer>, address: string,
                       relay: bool, always: bool): Connection
  {
    var p := Parse(pubKey, address);
    var options := Load(store, p.id);
    Connection(p.id, WithSavedKey(if p.other.Some? then p.other else before, options),
               GetOption(options, FORCE_RELAY) == "Y" || relay || p.relay || always, options)
  }

  class LoginConfigHandler {
    var id: string
    var other: Option<OtherServer>
    var forceRelay: bool
    var options: Options

    constructor ()
      ensures other == None
    {
      id, other, forceRelay, options := "", None, false, map[];
    }

    /** `always` stands for the settings that force a relay for every connection. */
    method Initialize(pubKey: string, store: Store, address: string, relay: bool, always: bool)
      modifies this
      ensures Connection(id, other, forceRelay, options)
           == Initialized(pubKey, store, old(other), address, relay, always)
    {
      var force := relay;
      id := address;
      if Contains(id, "@") {
        var raw := Piece(id, '@', 0);
        var rest := Piece(id, '@', 1);
        var server := Piece(rest, '?', 0);
        var key := "";
        if server == PUBLIC_SERVER {
          key := pubKey;
        } else {
          var m := ParseArgs(Piece(rest, '?', 1));
          if "key" in m {
            key := m["key"];
          }
        }
        var bare := HandleRelayId(raw);
        if bare != raw {
          force := true;
        }
        other := Some(OtherServer(bare, server, key));
        id := bare + "@" + server;
      } else {
        var bare := HandleRelayId(id);
        if bare != id {
          force := true;
          id := bare;
        }
      }
      options := Load(store, id);
      forceRelay := GetOption(options, FORCE_RELAY) == "Y" || force || always;
      if other.Some? {
        var saved := GetOption(options, OTHER_SERVER_KEY);
        if saved != "" && other.value.key == "" {
          other := Some(other.value.(key := saved));
        }
      }
    }

    /** What a successful connection writes back. */
    method HandlePeerInfo(store: Store) returns (store': Store)
      modifies this`options
      ensures options == Remembered(Load(store, id), other, forceRelay)
      ensures store' == store[id := options]
    {
      var o := Load(store, id);
      if other.Some? && other.value.server != PUBLIC_SERVER {
        o := o[OTHER_SERVER_KEY := other.value.key];
      }
      if forceRelay {
        o := o[FORCE_RELAY := "Y"];
      }
      options := o;
      store' := store[id := o];
    }
  }

  function WithSavedKey(other: Option<OtherServer>, options: Options): Option<OtherServer>
  {
    var saved := GetOption(options, OTHER_SERVER_KEY);
    if other.Some? && saved != "" && other.value.key == "" then Some(other.value.(key := saved)) else other
  }

  function Remembered(o: Options, other: Option<OtherServer>, forceRelay: bool): Options
  {
    var o1 := if other.Some? && other.value.server != PUBLIC_SERVER then o[OTHER_SERVER_KEY := other.value.key] else o;
    if forceRelay then o1[FORCE_RELAY := "Y"] else o1
  }

  // ---------- Reading back what was written ----------

  lemma TwoPieces(a: string, b: string, sep: char)
    requires sep !in a && sep !in b
    ensures Piece(a + [sep] + b, sep, 0) == a && Piece(a + [sep] + b, sep, 1) == b
  {
    assert Join([a, b], [sep]) == a + [sep] + b;
    SplitJoin([a, b], sep);
  }

  lemma OnePiece(a: string, sep: char)
    requires sep !in a
    ensures Piece(a, sep, 0) == a && Piece(a, sep, 1) == ""
  {
    SplitJoin([a], sep);
  }

  lemma ContainsSep(a: string, b: string, sep: char)
    ensures Contains(a + [sep] + b, [sep])
  {
    var s := a + [sep] + b;
    assert s[|a|..|a| + 1] == [sep];
    FindFirst(s, [sep], |a|);
  }

  /** The first `=` ends the name, so a key may itself hold `=`. */
  lemma KeyArgument(name: string, key: string)
    requires Lower(name) == "key" && '&' !in key
    ensures ArgsMap(Split(name + "=" + key, "&")) == map["key" := key]
  {
    var arg := name + "=" + key;
    assert '=' !in name && '&' !in name by {
      assert forall i :: 0 <= i < |name| ==> LowerChar(name[i]) == "key"[i];
    }
    assert arg == Join([arg], "&");
    SplitJoin([arg], '&');
    assert arg == name + ("=" + key);
    FindSkipPlain(name, "=" + key, "=");
    assert arg[..|name|] == name && arg[|name| + 1..] == key;
    var parts: seq<string> := [arg];
    assert parts[..0] == [];
  }

  /** Parts of an address that hold none of the characters that separate them. */
  predicate Plain(raw: string, server: string, name: string, key: string)
  {
    && '@' !in raw && '@' !in server && '?' !in server
    && Lower(name) == "key"
    && '@' !in key && '?' !in key && '&' !in key
  }

  lemma NameIsPlain(name: string, c: char)
    requires Lower(name) == "key" && LowerChar(c) !in "key"
    ensures c !in name
  {
    forall i | 0 <= i < |name|
      ensures name[i] != c
    {
      assert LowerChar(name[i]) == "key"[i];
    }
  }

  lemma ParseWithKey(pubKey: string, raw: string, server: string, name: string, key: string)
    requires Plain(raw, server, name, key) && server != PUBLIC_SERVER
    ensures var bare := HandleRelayId(raw);
      Parse(pubKey, raw + "@" + (server + "?" + (name + "=" + key)))
        == Parsed(bare + "@" + server, Some(OtherServer(bare, server, key)), bare != raw)
  {
    var args := name + "=" + key;
    NameIsPlain(name, '@');
    NameIsPlain(name, '?');
    TwoPieces(server, args, '?');
    TwoPieces(raw, server + "?" + args, '@');
    ContainsSep(raw, server + "?" + args, '@');
    KeyArgument(name, key);
  }

  lemma ParseWithoutKey(pubKey: string, raw: string, server: string)
    requires '@' !in raw && '@' !in server && '?' !in server && server != PUBLIC_SERVER
    ensures var bare := HandleRelayId(raw);
      Parse(pubKey, raw + "@" + server)
        == Parsed(bare + "@" + server, Some(OtherServer(bare, server, "")), bare != raw)
  {
    TwoPieces(raw, server, '@');
    OnePiece(server, '?');
    ContainsSep(raw, server, '@');
    NoArguments();
  }

  // ---------- Which keys are read back ----------

  lemma FirstPiece(p: string, s: string, sep: char)
    requires sep !in p
    ensures Piece(p + s, sep, 0) == p + Piece(s, sep, 0)
    ensures |Piece(s, sep, 0)| <= |s| && (Piece(s, sep, 0) == s <==> sep !in s)
  {
    FindSkipPlain(p, s, [sep]);
    var k := Find(s, [sep]);
    if k >= 0 {
      FindOccurs(s, [sep]);
      OccursChar(s, [sep], k, 0);
      assert (p + s)[..|p| + k] == p + s[..k];
    } else if sep in s {
      var i :| 0 <= i < |s| && s[i] == sep;
      assert s[i..i + 1] == [sep];
      FindFirst(s, [sep], i);
    }
  }

  lemma SecondPiece(a: string, s: string, sep: char)
    requires sep !in a
    ensures Piece(a + [sep] + s, sep, 0) == a && Piece(a + [sep] + s, sep, 1) == Piece(s, sep, 0)
  {
    assert a + [sep] + s == a + ([sep] + s);
    SplitFirstPlain(a, s, [sep]);
  }

  lemma {:induction false} SplitShorter(s: string, sep: char, i: nat)
    requires i < |Split(s, [sep])|
    ensures |Split(s, [sep])[i]| <= |s| && (sep in s ==> |Split(s, [sep])[i]| < |s|)
    decreases |s|
  {
    var k := Find(s, [sep]);
    FirstPiece("", s, sep);
    if k >= 0 && i > 0 {
      SplitShorter(s[k + 1..], sep, i - 1);
    }
  }

  lemma {:induction false} ValueShorter(parts: seq<string>, n: int)
    requires forall i :: 0 <= i < |parts| ==> |parts[i]| < n
    ensures "key" in ArgsMap(parts) ==> |ArgsMap(parts)["key"]| + 4 < n
  {
    if parts != [] {
      ValueShorter(parts[..|parts| - 1], n);
      var arg := parts[|parts| - 1];
      var k := Find(arg, "=");
      if k >= 0 && Lower(arg[..k]) == "key" {
        assert k == 3;
      }
    }
  }

  /** The key of an address is read as written if and only if it holds none of `@`, `?` and `&`. */
  lemma KeyReadIff(pubKey: string, raw: string, server: string, name: string, key: string)
    requires '@' !in raw && '@' !in server && '?' !in server && server != PUBLIC_SERVER && Lower(name) == "key"
    ensures var p := Parse(pubKey, raw + "@" + (server + "?" + (name + "=" + key)));
      p.other.Some? && (p.other.value.key == key <==> '@' !in key && '?' !in key && '&' !in key)
  {
    var head := name + "=";
    NameIsPlain(name, '@');
    NameIsPlain(name, '?');
    var key1 := Piece(key, '@', 0);
    var key2 := Piece(key1, '?', 0);
    var tail := server + "?" + (head + key);
    ContainsSep(raw, tail, '@');
    SecondPiece(raw, tail, '@');
    assert tail == (server + "?" + head) + key;
    FirstPiece(server + "?" + head, key, '@');
    assert server + "?" + head + key1 == server + "?" + (head + key1);
    SecondPiece(server, head + key1, '?');
    FirstPiece(head, key1, '?');
    KeyValue(name, key, key2);
    FirstPiece("", key, '@');
    FirstPiece("", key1, '?');
  }

  lemma KeyValue(name: string, key: string, key2: string)
    requires Lower(name) == "key" && |key2| <= |key| && (|key2| == |key| ==> key2 == key)
    ensures var m := ArgsMap(Split(name + "=" + key2, "&"));
      (if "key" in m then m["key"] else "") == key <==> key2 == key && '&' !in key
  {
    var args := name + "=" + key2;
    var m := ArgsMap(Split(args, "&"));
    if '&' !in key2 {
      KeyArgument(name, key2);
    } else {
      forall i | 0 <= i < |Split(args, "&")|
        ensures |Split(args, "&")[i]| < |args|
      {
        assert '&' in args;
        SplitShorter(args, '&', i);
      }
      ValueShorter(Split(args, "&"), |args|);
    }
  }

  lemma NoArguments()
    ensures ArgsMap(Split("", "&")) == map[]
  {
    assert Find("", "&") == -1;
    var parts: seq<string> := Split("", "&");
    assert parts == [""];
    assert parts[..0] == [];
    assert Find("", "=") == -1;
  }

  /** Connect once with the key, be accepted, connect again without the key: the same peer, server
      and key are found, and a relay that was forced, by a suffix or otherwise, stays forced. */
  lemma Reconnect(pubKey: string, store: Store, raw: string, server: string, name: string, key: string,
                  relay: bool, always: bool, raw2: string)
    requires Plain(raw, server, name, key) && server != PUBLIC_SERVER && key != ""
    requires '@' !in raw2 && HandleRelayId(raw2) == HandleRelayId(raw)
    ensures var first := Initialized(pubKey, store, None, raw + "@" + (server + "?" + (name + "=" + key)), relay, always);
      var store' := store[first.id := Remembered(Load(store, first.id), first.other, first.forceRelay)];
      var second := Initialized(pubKey, store', None, raw2 + "@" + server, false, false);
      && first.other == Some(OtherServer(HandleRelayId(raw), server, key))
      && second.id == first.id && second.other == first.other
      && (HandleRelayId(raw) != raw || relay || always ==> first.forceRelay)
      && (first.forceRelay ==> second.forceRelay)
  {
    ParseWithKey(pubKey, raw, server, name, key);
    ParseWithoutKey(pubKey, raw2, server);
  }

  // ---------- Relay suffixes, plain ids, arguments and what is remembered ----------

  /** A relay suffix, with either slash, is cut off, and nothing else is. */
  lemma RelaySuffix(id: string)
    ensures HandleRelayId(id + "/r") == id && HandleRelayId(id + "\\r") == id
    ensures HandleRelayId(id) != id <==>
      |id| >= 2 && id[|id| - 1] == 'r' && (id[|id| - 2] == '/' || id[|id| - 2] == '\\')
    ensures HandleRelayId(id) <= id
  {
    var a, b := id + "/r", id + "\\r";
    assert a[|a| - 2..] == "/r" && b[|b| - 2..] == "\\r";
    assert a[..|a| - 2] == id && b[..|b| - 2] == id;
    if |id| >= 2 {
      assert id[|id| - 2..] == [id[|id| - 2], id[|id| - 1]];
    }
  }

  /** An id without `@` names no server; a relay suffix only forces the relay. */
  lemma PlainId(pubKey: string, id: string)
    requires '@' !in id
    ensures Parse(pubKey, id) == Parsed(id, None, false) || Parse(pubKey, id) == Parsed(HandleRelayId(id), None, true)
    ensures Parse(pubKey, id).relay <==> HandleRelayId(id) != id
    ensures Parse(pubKey, id).id == HandleRelayId(id)
  {
    FindSkipPlain(id, "", "@");
    assert id + "" == id;
  }

  /** For the public server the built-in key counts, whatever the address says. */
  lemma PublicServerKey(pubKey: string, raw: string, args: string)
    requires '@' !in raw && '@' !in args && '?' !in args
    ensures Parse(pubKey, raw + "@" + (PUBLIC_SERVER + "?" + args)).other
      == Some(OtherServer(HandleRelayId(raw), PUBLIC_SERVER, pubKey))
  {
    TwoPieces(PUBLIC_SERVER, args, '?');
    TwoPieces(raw, PUBLIC_SERVER + "?" + args, '@');
    ContainsSep(raw, PUBLIC_SERVER + "?" + args, '@');
  }

  /** A part gives the argument of this name: what stands before its first `=`, in any letter case. */
  predicate Names(part: string, name: string)
  {
    Find(part, "=") >= 0 && Lower(part[..Find(part, "=")]) == name
  }

  /** Each argument has the value of the last part that names it, and none is there unless named. */
  lemma {:induction false} ArgumentIsLast(parts: seq<string>, name: string, k: nat)
    requires k < |parts| && Names(parts[k], name) && forall i :: k < i < |parts| ==> !Names(parts[i], name)
    ensures name in ArgsMap(parts) && ArgsMap(parts)[name] == parts[k][Find(parts[k], "=") + 1..]
    decreases |parts|
  {
    if k < |parts| - 1 {
      ArgumentIsLast(parts[..|parts| - 1], name, k);
    }
  }

  lemma {:induction false} ArgumentIsNamed(parts: seq<string>, name: string)
    ensures name in ArgsMap(parts) <==> exists i :: 0 <= i < |parts| && Names(parts[i], name)
  {
    if parts != [] {
      var n := |parts| - 1;
      ArgumentIsNamed(parts[..n], name);
      assert forall i :: 0 <= i < n ==> parts[..n][i] == parts[i];
    }
  }

  /** A relay is forced if and only if one of its four reasons holds. */
  lemma RelayIff(pubKey: string, store: Store, before: Option<OtherServer>, address: string, relay: bool, always: bool)
    ensures var c, p := Initialized(pubKey, store, before, address, relay, always), Parse(pubKey, address);
      && c.id == p.id && c.options == Load(store, p.id)
      && (c.forceRelay <==> relay || always || p.relay || (FORCE_RELAY in c.options && c.options[FORCE_RELAY] == "Y"))
  {
  }

  /** The server: the one the address names, or else the one named before; its key: the one given, or
      else the saved one. */
  lemma ServerAndKey(pubKey: string, store: Store, before: Option<OtherServer>, address: string, relay: bool, always: bool)
    ensures var c, p := Initialized(pubKey, store, before, address, relay, always), Parse(pubKey, address);
      var named := if p.other.Some? then p.other else before;
      var saved := GetOption(Load(store, p.id), OTHER_SERVER_KEY);
      && (named.None? ==> c.other.None?)
      && (named.Some? ==>
            && c.other.Some? && c.other.value.id == named.value.id && c.other.value.server == named.value.server
            && c.other.value.key == if named.value.key != "" then named.value.key else saved)
  {
  }

  /** What is written back touches two options only, and the key of the public server is not kept. */
  lemma RememberedOptions(o: Options, other: Option<OtherServer>, forceRelay: bool, k: string)
    ensures var r := Remembered(o, other, forceRelay);
      && (k == FORCE_RELAY && forceRelay ==> k in r && r[k] == "Y")
      && (k == OTHER_SERVER_KEY && other.Some? && other.value.server != PUBLIC_SERVER ==> k in r && r[k] == other.value.key)
      && (!(k == FORCE_RELAY && forceRelay)
          && !(k == OTHER_SERVER_KEY && other.Some? && other.value.server != PUBLIC_SERVER) ==>
            (k in r <==> k in o) && (k in r ==> r[k] == o[k]))
  {
  }
}
