/** Session options: what the controlling side keeps, what it tells the peer at login and at each
    toggle, and what the peer makes of it.  The question is when a sequence of toggle messages
    leaves the peer where a fresh login would have put it. */
module SessionOptions {
  import opened Text

  /** Switches kept per peer, and the two that exist only on the wire (keyboard, block input). */
  datatype Opt =
    | ShowRemoteCursor | FollowRemoteCursor | FollowRemoteWindow | DisableAudio | DisableClipboard
    | LockAfterSessionEnd | TerminalPersistent | PrivacyMode | EnableFileCopyPaste
    | ShowQualityMonitor | AllowSwapKey | ViewOnly | ShowMyCursor
    | DisableKeyboard | InputBlocked

  /** Switches that are on, and free-form options. */
  datatype PeerConfig = PeerConfig(on: set<Opt>, options: map<string, string>)

  /** Yes and No entries of an option message; what is absent is not set. */
  type OptionMessage = map<Opt, bool>

  datatype Name = Switch(o: Opt) | BlockInput | UnblockInput | Other(key: string)

  /** Names the dispatcher knows as switches. */
  predicate IsName(name: Name)
  {
    name.Switch? ==> name.o != DisableKeyboard && name.o != InputBlocked
  }

  function Flip(c: PeerConfig, o: Opt): PeerConfig
  {
    c.(on := if o in c.on then c.on - {o} else c.on + {o})
  }

  /** Switches whose new value is announced to the peer as it is. */
  predicate Announced(o: Opt)
  {
    o.ShowRemoteCursor? || o.FollowRemoteCursor? || o.FollowRemoteWindow? || o.DisableAudio? || o.DisableClipboard?
    || o.LockAfterSessionEnd? || o.TerminalPersistent? || o.EnableFileCopyPaste? || o.ShowMyCursor?
  }

  // ---------- The controlling side ----------

  const VIEW_ONLY_ON: OptionMessage :=
    map[DisableKeyboard := true, DisableClipboard := true, ShowRemoteCursor := true,
        EnableFileCopyPaste := false, LockAfterSessionEnd := false]

  function ViewOnlyOff(memory: PeerConfig, cursor: bool): OptionMessage
  {
    var msg := map[DisableKeyboard := false,
                   DisableClipboard := DisableClipboard in memory.on,
                   ShowRemoteCursor := ShowRemoteCursor in memory.on,
                   EnableFileCopyPaste := EnableFileCopyPaste in memory.on,
                   LockAfterSessionEnd := LockAfterSessionEnd in memory.on];
    if cursor then msg[ShowMyCursor := false] else msg
  }

  datatype Toggled = Toggled(msg: Option<OptionMessage>, stored: PeerConfig, memory: PeerConfig)

  /** The stored configuration is loaded, changed and saved, so memory follows it; but what is
      announced when view-only ends is read from memory, and a free-form option is flipped in
      memory and memory is stored. */
  function Toggle(stored: PeerConfig, memory: PeerConfig, name: Name): Toggled
  {
    match name
    case BlockInput => Toggled(Some(map[InputBlocked := true]), stored, memory)
    case UnblockInput => Toggled(Some(map[InputBlocked := false]), stored, memory)
    case Other(key) =>
      var isSet := key in memory.options && memory.options[key] != "";
      var c := memory.(options := if isSet then memory.options - {key} else memory.options[key := "Y"]);
      Toggled(None, c, c)
    case Switch(o) =>
      var c := if o == PrivacyMode then stored else Flip(stored, o);
      if Announced(o) then Toggled(Some(map[o := o in c.on]), c, c)
      else if o == PrivacyMode then Toggled(Some(map[o := o !in c.on]), c, c)
      else if o != ViewOnly then Toggled(Some(map[]), c, c)
      else if o in c.on then Toggled(Some(VIEW_ONLY_ON), c, c)
      else
        var c' := c.(on := c.on - {ShowMyCursor});
        Toggled(Some(ViewOnlyOff(memory, ShowMyCursor in c.on)), c', c')
  }

  class LoginConfigHandler {
    var stored: PeerConfig
    var config: PeerConfig

    constructor (c: PeerConfig)
      ensures stored == config == c
    {
      stored, config := c, c;
    }

    /** Reads the stored configuration, works on a copy, saves the copy to both places. */
    method ToggleOption(name: Name) returns (msg: Option<OptionMessage>)
      requires IsName(name)
      modifies this
      ensures Toggled(msg, stored, config) == Toggle(old(stored), old(config), name)
    {
      var option: OptionMessage := map[];
      var c := stored;
      if name.Switch? && Announced(name.o) {
        c := Flip(c, name.o);
        option := option[name.o := name.o in c.on];
      } else if name == Switch(PrivacyMode) {
        option := option[PrivacyMode := PrivacyMode !in c.on];
      } else if name == BlockInput {
        option := option[InputBlocked := true];
      } else if name == UnblockInput {
        option := option[InputBlocked := false];
      } else if name == Switch(ShowQualityMonitor) || name == Switch(AllowSwapKey) {
        c := Flip(c, name.o);
      } else if name == Switch(ViewOnly) {
        c := Flip(c, ViewOnly);
        if ViewOnly in c.on {
          option := VIEW_ONLY_ON;
        } else {
          option := ViewOnlyOff(config, false);
          if ShowMyCursor in c.on {
            c := c.(on := c.on - {ShowMyCursor});
            option := option[ShowMyCursor := false];
            assert option == ViewOnlyOff(config, true);
          }
        }
      } else {
        if name.key in config.options && config.options[name.key] != "" {
          config := config.(options := config.options - {name.key});
        } else {
          config := config.(options := config.options[name.key := "Y"]);
        }
        stored := config;
        return None;
      }
      if name != BlockInput && name != UnblockInput {
        stored, config := c, c;
      }
      msg := Some(option);
    }
  }

  datatype ConnKind = Desktop | Terminal | NoOptions

  /** Settings a peer keeps from option messages. */
  predicate Setting(o: Opt)
  {
    Announced(o) || o.DisableKeyboard?
  }

  /** What a desktop login asks for. */
  predicate Wanted(c: PeerConfig, o: Opt)
  {
    match o
    case DisableKeyboard => ViewOnly in c.on
    case ShowRemoteCursor => ViewOnly in c.on || o in c.on
    case DisableClipboard => ViewOnly in c.on || o in c.on
    case ShowMyCursor => ViewOnly in c.on && o in c.on
    case LockAfterSessionEnd => ViewOnly !in c.on && o in c.on
    case EnableFileCopyPaste => ViewOnly !in c.on && o in c.on
    case TerminalPersistent => false
    case _ => o in c.on
  }

  /** The message in the login request only ever says Yes. */
  function LoginMessage(kind: ConnKind, c: PeerConfig): Option<OptionMessage>
  {
    match kind
    case NoOptions => None
    case Terminal => if TerminalPersistent in c.on then Some(map[TerminalPersistent := true]) else None
    case Desktop => Some(map o: Opt | Setting(o) && Wanted(c, o) :: true)
  }

  // ---------- The peer ----------

  /** The peer changes exactly the settings that the message sets. */
  function UpdateOptions(peer: set<Opt>, msg: OptionMessage): set<Opt>
  {
    set o: Opt | Setting(o) && (if o in msg then msg[o] else o in peer)
  }

  function Deliver(peer: set<Opt>, msg: Option<OptionMessage>): set<Opt>
  {
    if msg.None? then peer else UpdateOptions(peer, msg.value)
  }

  /** A fresh connection has every setting off. */
  function AfterLogin(kind: ConnKind, c: PeerConfig): set<Opt>
  {
    Deliver({}, LoginMessage(kind, c))
  }

  // ---------- Runs ----------

  datatype Session = Session(config: PeerConfig, peer: set<Opt>)

  /** One toggle in a session whose stored and remembered configurations agree, as they do after
      every toggle that saves. */
  function Next(s: Session, name: Name): Session
  {
    var t := Toggle(s.config, s.config, name);
    Session(t.stored, Deliver(s.peer, t.msg))
  }

  function Run(s: Session, names: seq<Name>): Session
  {
    if names == [] then s else Next(Run(s, names[..|names| - 1]), names[|names| - 1])
  }

  predicate InSync(s: Session)
  {
    s.peer == AfterLogin(Desktop, s.config)
  }

  /** The toggles that keep a session in step.  While view-only is on, the four overridden options
      may only be switched to the value view-only imposes; the own cursor may be switched on only
      under view-only, and view-only may not be entered with it already on; and persistence of
      terminals, which a desktop login never announces, may only be switched off. */
  predicate Safe(c: PeerConfig, name: Name)
  {
    if !name.Switch? then true
    else match name.o
      case ShowRemoteCursor => ViewOnly in c.on ==> name.o !in c.on
      case DisableClipboard => ViewOnly in c.on ==> name.o !in c.on
      case LockAfterSessionEnd => ViewOnly in c.on ==> name.o in c.on
      case EnableFileCopyPaste => ViewOnly in c.on ==> name.o in c.on
      case ShowMyCursor => ViewOnly in c.on || name.o in c.on
      case ViewOnly => ViewOnly in c.on || ShowMyCursor !in c.on
      case TerminalPersistent => name.o in c.on
      case _ => true
  }

  lemma LoginSettings(c: PeerConfig, o: Opt)
    ensures o in AfterLogin(Desktop, c) <==> Setting(o) && Wanted(c, o)
  {
  }

  /** In step means: each setting is what a login would ask for. */
  ghost predicate SettingsInStep(c: PeerConfig, peer: set<Opt>)
  {
    forall o :: o in peer <==> Setting(o) && Wanted(c, o)
  }

  lemma InSyncPointwise(s: Session)
    ensures InSync(s) <==> SettingsInStep(s.config, s.peer)
  {
    forall o
      ensures o in AfterLogin(Desktop, s.config) <==> Setting(o) && Wanted(s.config, o)
    {
      LoginSettings(s.config, o);
    }
  }

  /** A switch other than view-only changes what a login asks for in its own setting only. */
  lemma WantedElsewhere(c: PeerConfig, o: Opt, x: Opt)
    requires o != ViewOnly && x != o
    ensures Wanted(Flip(c, o), x) == Wanted(c, x)
  {
  }

  lemma StepAnnounced(s: Session, o: Opt)
    requires InSync(s) && Announced(o)
    ensures InSync(Next(s, Switch(o))) <==> Safe(s.config, Switch(o))
  {
    var s' := Next(s, Switch(o));
    InSyncPointwise(s);
    InSyncPointwise(s');
    assert s'.config == Flip(s.config, o);
    forall x | x != o
      ensures x in s'.peer <==> Setting(x) && Wanted(s'.config, x)
    {
      WantedElsewhere(s.config, o, x);
    }
    assert o in s'.peer <==> o in s'.config.on;
    assert Safe(s.config, Switch(o)) <==> (o in s'.config.on <==> Wanted(s'.config, o));
  }

  lemma DeliveredSetting(peer: set<Opt>, msg: OptionMessage, x: Opt)
    ensures x in Deliver(peer, Some(msg)) <==> Setting(x) && (if x in msg then msg[x] else x in peer)
  {
  }

  lemma ViewOnlySettings(s: Session, x: Opt)
    requires SettingsInStep(s.config, s.peer) && x != ShowMyCursor
    ensures var s' := Next(s, Switch(ViewOnly)); x in s'.peer <==> Setting(x) && Wanted(s'.config, x)
  {
    if ViewOnly in s.config.on {
      DeliveredSetting(s.peer, ViewOnlyOff(s.config, ShowMyCursor in s.config.on), x);
    } else {
      DeliveredSetting(s.peer, VIEW_ONLY_ON, x);
    }
  }

  lemma ViewOnlyCursor(s: Session)
    requires SettingsInStep(s.config, s.peer)
    ensures var s' := Next(s, Switch(ViewOnly));
      (ShowMyCursor in s'.peer <==> Wanted(s'.config, ShowMyCursor)) <==> Safe(s.config, Switch(ViewOnly))
  {
  }

  lemma StepViewOnly(s: Session)
    requires InSync(s)
    ensures InSync(Next(s, Switch(ViewOnly))) <==> Safe(s.config, Switch(ViewOnly))
  {
    InSyncPointwise(s);
    InSyncPointwise(Next(s, Switch(ViewOnly)));
    forall x | x != ShowMyCursor
      ensures var s' := Next(s, Switch(ViewOnly)); x in s'.peer <==> Setting(x) && Wanted(s'.config, x)
    {
      ViewOnlySettings(s, x);
    }
    ViewOnlyCursor(s);
  }

  lemma QuietSetting(s: Session, name: Name, x: Opt)
    requires SettingsInStep(s.config, s.peer) && IsName(name)
    requires name.Switch? ==> !Announced(name.o) && name.o != ViewOnly
    ensures var s' := Next(s, name); x in s'.peer <==> Setting(x) && Wanted(s'.config, x)
  {
    var t := Toggle(s.config, s.config, name);
    if t.msg.Some? {
      DeliveredSetting(s.peer, t.msg.value, x);
    }
  }

  /** The remaining names reach no setting of the peer and no switch a login looks at. */
  lemma StepQuiet(s: Session, name: Name)
    requires InSync(s) && IsName(name)
    requires name.Switch? ==> !Announced(name.o) && name.o != ViewOnly
    ensures InSync(Next(s, name))
  {
    InSyncPointwise(s);
    InSyncPointwise(Next(s, name));
    forall x
      ensures var s' := Next(s, name); x in s'.peer <==> Setting(x) && Wanted(s'.config, x)
    {
      QuietSetting(s, name, x);
    }
  }

  lemma StepInSync(s: Session, name: Name)
    requires InSync(s) && IsName(name)
    ensures InSync(Next(s, name)) <==> Safe(s.config, name)
  {
    if name == Switch(ViewOnly) {
      StepViewOnly(s);
    } else if name.Switch? && Announced(name.o) {
      StepAnnounced(s, name.o);
    } else {
      StepQuiet(s, name);
    }
  }

  predicate AreNames(names: seq<Name>)
  {
    forall k :: 0 <= k < |names| ==> IsName(names[k])
  }

  ghost predicate InSyncThroughout(s: Session, names: seq<Name>)
  {
    forall k :: 0 <= k <= |names| ==> InSync(Run(s, names[..k]))
  }

  ghost predicate SafeThroughout(s: Session, names: seq<Name>)
  {
    forall k :: 0 <= k < |names| ==> Safe(Run(s, names[..k]).config, names[k])
  }

  lemma RunPrefix(s: Session, names: seq<Name>, k: nat)
    requires 0 < k <= |names|
    ensures Run(s, names[..k]) == Next(Run(s, names[..k - 1]), names[k - 1])
  {
    assert names[..k][..k - 1] == names[..k - 1];
  }

  /** Over every run that starts with a login: the peer always is where a fresh login would put it
      if and only if every toggle was safe when it was made. */
  lemma InSyncIffSafe(c: PeerConfig, names: seq<Name>)
    requires AreNames(names)
    ensures var s := Session(c, AfterLogin(Desktop, c));
      InSyncThroughout(s, names) <==> SafeThroughout(s, names)
  {
    var s := Session(c, AfterLogin(Desktop, c));
    if InSyncThroughout(s, names) {
      forall k | 0 <= k < |names|
        ensures Safe(Run(s, names[..k]).config, names[k])
      {
        assert InSync(Run(s, names[..k])) && InSync(Run(s, names[..k + 1]));
        RunPrefix(s, names, k + 1);
        StepInSync(Run(s, names[..k]), names[k]);
      }
    }
    if SafeThroughout(s, names) {
      forall k | 0 <= k <= |names|
        ensures InSync(Run(s, names[..k]))
      {
        SafePrefixInSync(s, names, k);
      }
    }
  }

  lemma {:induction false} SafePrefixInSync(s: Session, names: seq<Name>, k: nat)
    requires k <= |names| && AreNames(names) && InSync(s) && SafeThroughout(s, names)
    ensures InSync(Run(s, names[..k]))
  {
    if k > 0 {
      SafePrefixInSync(s, names, k - 1);
      RunPrefix(s, names, k);
      StepInSync(Run(s, names[..k - 1]), names[k - 1]);
    }
  }

  // ---------- What the user interface does ----------

  /** What the list of cursor entries took down when it was built: whether its own entry is enabled,
      and whether the remote cursor was shown. */
  datatype CursorMenu = CursorMenu(enabled: bool, shown: bool)

  /** The session and the two lists of entries as last built, for the cursor and for the display.  A
      list is not built anew when an option changes: in the mobile dialog both stand beside View
      Mode until the dialog is closed. */
  datatype Screen = Screen(session: Session, cursor: Option<CursorMenu>, display: Option<bool>)

  /** A plain menu entry, the entries that may make a second toggle, and the building of the two
      lists, the first of which may make a toggle too. */
  datatype Action = Click(name: Name) | ViewMode | OwnCursor | OpenCursorMenu | OpenDisplayMenu | Follow

  /** The toggles an action makes, in order. */
  function Toggles(u: Screen, a: Action): seq<Name>
  {
    var on := u.session.config.on;
    match a
    case Click(name) => [name]
    case ViewMode => [Switch(ViewOnly)]
    case OwnCursor =>
      if ShowMyCursor !in on && ViewOnly !in on then [Switch(ShowMyCursor), Switch(ViewOnly)]
      else [Switch(ShowMyCursor)]
    case OpenCursorMenu =>
      if FollowRemoteCursor in on && ShowRemoteCursor !in on then [Switch(ShowRemoteCursor)] else []
    case OpenDisplayMenu => []
    case Follow =>
      if u.cursor.Some? && u.cursor.value.shown then [Switch(FollowRemoteCursor)]
      else [Switch(FollowRemoteCursor), Switch(ShowRemoteCursor)]
  }

  /** The overridden options are enabled if view-only was off when their list was built; terminal
      persistence has no entry. */
  predicate Offered(u: Screen, a: Action)
  {
    match a
    case Click(name) =>
      if !name.Switch? then true
      else (match name.o
        case ShowRemoteCursor => u.cursor.Some? && u.cursor.value.enabled
        case DisableClipboard => u.display == Some(true)
        case LockAfterSessionEnd => u.display == Some(true)
        case EnableFileCopyPaste => u.display == Some(true)
        case ShowMyCursor => false
        case ViewOnly => false
        case FollowRemoteCursor => false
        case TerminalPersistent => false
        case _ => IsName(name))
    case Follow => u.cursor.Some?
    case _ => true
  }

  function After(u: Screen, a: Action): Screen
  {
    var on := u.session.config.on;
    Screen(Run(u.session, Toggles(u, a)),
           if a.OpenCursorMenu? then Some(CursorMenu(ViewOnly !in on, ShowRemoteCursor in on)) else u.cursor,
           if a.OpenDisplayMenu? then Some(ViewOnly !in on) else u.display)
  }

  /** During view-only, a toggle of an overridden option that has the value view-only imposes. */
  predicate AgainstViewOnly(on: set<Opt>, o: Opt)
  {
    ViewOnly in on &&
    match o
    case ShowRemoteCursor => o in on
    case DisableClipboard => o in on
    case LockAfterSessionEnd => o !in on
    case EnableFileCopyPaste => o !in on
    case _ => false
  }

  /** The three actions that leave the peer out of step: view-only entered with the own cursor already
      on; during view-only, an entry for an overridden option that was built before; and, during
      view-only too, a follow entry built before the remote cursor was shown. */
  predicate Upsets(u: Screen, a: Action)
  {
    var on := u.session.config.on;
    match a
    case ViewMode => ViewOnly !in on && ShowMyCursor in on
    case Click(name) => name.Switch? && AgainstViewOnly(on, name.o)
    case Follow => AgainstViewOnly(on, ShowRemoteCursor) && !(u.cursor.Some? && u.cursor.value.shown)
    case _ => false
  }

  /** What the entries are for: View Mode flips view-only; showing the own cursor flips it and brings
      view-only along; while the remote cursor is followed, opening its menu makes sure that it is
      shown; following flips, and with it the remote cursor if that was not shown when the menu was
      built. */
  lemma ActionEffects(u: Screen, a: Action)
    ensures var on, on' := u.session.config.on, After(u, a).session.config.on;
      && (a.ViewMode? ==> ((ViewOnly in on') != (ViewOnly in on)))
      && (a.OwnCursor? ==>
            && ((ShowMyCursor in on') != (ShowMyCursor in on))
            && (ViewOnly in on' <==> ViewOnly in on || ShowMyCursor in on'))
      && (a.OpenCursorMenu? ==> on' == if FollowRemoteCursor in on then on + {ShowRemoteCursor} else on)
      && (a.OpenDisplayMenu? ==> on' == on)
      && (a.Follow? && u.cursor.Some? ==>
            && ((FollowRemoteCursor in on') != (FollowRemoteCursor in on))
            && (((ShowRemoteCursor in on') != (ShowRemoteCursor in on)) <==> !u.cursor.value.shown))
  {
    var s, names := u.session, Toggles(u, a);
    if |names| == 1 {
      RunOne(s, names[0]);
    } else if |names| == 2 {
      RunTwo(s, names[0], names[1]);
    }
  }

  /** A list takes down the options as they are when it is opened, and keeps that until it is opened
      again. */
  lemma ListsKeepWhatTheySaw(u: Screen, a: Action)
    ensures var on, u' := u.session.config.on, After(u, a);
      && (a.OpenCursorMenu? ==> u'.cursor == Some(CursorMenu(ViewOnly !in on, ShowRemoteCursor in on)))
      && (a.OpenDisplayMenu? ==> u'.display == Some(ViewOnly !in on))
      && (!a.OpenCursorMenu? ==> u'.cursor == u.cursor)
      && (!a.OpenDisplayMenu? ==> u'.display == u.display)
  {
  }

  /** Names that are no switch are always offered, and so are the switches that view-only does not
      override, except those that have an entry of their own. */
  lemma AlwaysOffered(u: Screen, name: Name)
    requires name.Switch? ==> name.o in {FollowRemoteWindow, DisableAudio, PrivacyMode, ShowQualityMonitor, AllowSwapKey}
    ensures Offered(u, Click(name)) && !Upsets(u, Click(name))
  {
  }

  lemma RunOne(s: Session, a: Name)
    ensures Run(s, [a]) == Next(s, a)
  {
    assert [a][..0] == [];
    assert Run(s, [a][..0]) == s;
  }

  lemma RunTwo(s: Session, a: Name, b: Name)
    ensures Run(s, [a, b]) == Next(Next(s, a), b)
  {
    assert [a, b][..1] == [a];
    RunOne(s, a);
  }

  /** Showing the own cursor outside view-only: out of step after the first toggle, in step again
      after the second. */
  lemma OwnCursorRecovers(s: Session)
    requires InSync(s) && ShowMyCursor !in s.config.on && ViewOnly !in s.config.on
    ensures !InSync(Next(s, Switch(ShowMyCursor)))
    ensures InSync(Next(Next(s, Switch(ShowMyCursor)), Switch(ViewOnly)))
  {
    StepAnnounced(s, ShowMyCursor);
    var s1 := Next(s, Switch(ShowMyCursor));
    var s2 := Next(s1, Switch(ViewOnly));
    InSyncPointwise(s);
    InSyncPointwise(s2);
    forall x
      ensures x in s2.peer <==> Setting(x) && Wanted(s2.config, x)
    {
      OwnCursorSettings(s, x);
    }
  }

  lemma OwnCursorSettings(s: Session, x: Opt)
    requires SettingsInStep(s.config, s.peer) && ShowMyCursor !in s.config.on && ViewOnly !in s.config.on
    ensures var s2 := Next(Next(s, Switch(ShowMyCursor)), Switch(ViewOnly));
      x in s2.peer <==> Setting(x) && Wanted(s2.config, x)
  {
    var s1 := Next(s, Switch(ShowMyCursor));
    DeliveredSetting(s.peer, map[ShowMyCursor := true], x);
    DeliveredSetting(s1.peer, VIEW_ONLY_ON, x);
  }

  lemma FollowInSync(u: Screen)
    requires InSync(u.session)
    ensures InSync(After(u, Follow).session) <==> !Upsets(u, Follow)
  {
    var s1 := Next(u.session, Switch(FollowRemoteCursor));
    StepInSync(u.session, Switch(FollowRemoteCursor));
    StepInSync(s1, Switch(ShowRemoteCursor));
    RunOne(u.session, Switch(FollowRemoteCursor));
    RunTwo(u.session, Switch(FollowRemoteCursor), Switch(ShowRemoteCursor));
  }

  /** From a session in step, an action of the interface leaves it in step unless it is one of those
      three, and then never. */
  lemma ActionInSync(u: Screen, a: Action)
    requires InSync(u.session) && Offered(u, a)
    ensures InSync(After(u, a).session) <==> !Upsets(u, a)
  {
    var s := u.session;
    match a
    case Click(name) =>
      RunOne(s, name);
      StepInSync(s, name);
    case ViewMode =>
      RunOne(s, Switch(ViewOnly));
      StepInSync(s, Switch(ViewOnly));
    case OwnCursor =>
      RunOne(s, Switch(ShowMyCursor));
      RunTwo(s, Switch(ShowMyCursor), Switch(ViewOnly));
      StepInSync(s, Switch(ShowMyCursor));
      if ShowMyCursor !in s.config.on && ViewOnly !in s.config.on {
        OwnCursorRecovers(s);
      }
    case OpenCursorMenu =>
      RunOne(s, Switch(ShowRemoteCursor));
      StepInSync(s, Switch(ShowRemoteCursor));
    case OpenDisplayMenu =>
    case Follow => FollowInSync(u);
  }

  function UiRun(u: Screen, actions: seq<Action>): Screen
  {
    if actions == [] then u else After(UiRun(u, actions[..|actions| - 1]), actions[|actions| - 1])
  }

  lemma UiRunPrefix(u: Screen, actions: seq<Action>, k: nat)
    requires 0 < k <= |actions|
    ensures UiRun(u, actions[..k]) == After(UiRun(u, actions[..k - 1]), actions[k - 1])
  {
    assert actions[..k][..k - 1] == actions[..k - 1];
  }

  ghost predicate OfferedThroughout(u: Screen, actions: seq<Action>)
  {
    forall k :: 0 <= k < |actions| ==> Offered(UiRun(u, actions[..k]), actions[k])
  }

  ghost predicate NoneUpsets(u: Screen, actions: seq<Action>)
  {
    forall k :: 0 <= k < |actions| ==> !Upsets(UiRun(u, actions[..k]), actions[k])
  }

  lemma {:induction false} UiPrefixInSync(u: Screen, actions: seq<Action>, k: nat)
    requires InSync(u.session) && OfferedThroughout(u, actions) && NoneUpsets(u, actions) && k <= |actions|
    ensures InSync(UiRun(u, actions[..k]).session)
  {
    if k > 0 {
      UiPrefixInSync(u, actions, k - 1);
      UiRunPrefix(u, actions, k);
      ActionInSync(UiRun(u, actions[..k - 1]), actions[k - 1]);
    }
  }

  /** A new session: just logged in, no menu built yet. */
  function LoggedIn(c: PeerConfig): Screen
  {
    Screen(Session(c, AfterLogin(Desktop, c)), None, None)
  }

  /** Over every run of the interface from a login: in step after each action if and only if no
      action was one of those three. */
  lemma UiInSyncIff(c: PeerConfig, actions: seq<Action>)
    requires OfferedThroughout(LoggedIn(c), actions)
    ensures NoneUpsets(LoggedIn(c), actions) <==>
      forall k :: 0 <= k <= |actions| ==> InSync(UiRun(LoggedIn(c), actions[..k]).session)
  {
    var u := LoggedIn(c);
    if NoneUpsets(u, actions) {
      forall k | 0 <= k <= |actions|
        ensures InSync(UiRun(u, actions[..k]).session)
      {
        UiPrefixInSync(u, actions, k);
      }
    }
    if forall k :: 0 <= k <= |actions| ==> InSync(UiRun(u, actions[..k]).session) {
      forall k | 0 <= k < |actions|
        ensures !Upsets(UiRun(u, actions[..k]), actions[k])
      {
        assert InSync(UiRun(u, actions[..k]).session) && InSync(UiRun(u, actions[..k + 1]).session);
        UiRunPrefix(u, actions, k + 1);
        ActionInSync(UiRun(u, actions[..k]), actions[k]);
      }
    }
  }

  predicate CursorNeedsViewOnly(c: PeerConfig)
  {
    ShowMyCursor in c.on ==> ViewOnly in c.on
  }

  lemma ActionKeepsCursor(u: Screen, a: Action)
    requires CursorNeedsViewOnly(u.session.config) && Offered(u, a)
    ensures CursorNeedsViewOnly(After(u, a).session.config)
  {
    var s, names := u.session, Toggles(u, a);
    if |names| == 1 {
      RunOne(s, names[0]);
    } else if |names| == 2 {
      RunTwo(s, names[0], names[1]);
    }
  }

  /** The interface itself never leaves the own cursor on without view-only, so the first of the two
      needs a configuration that comes from elsewhere. */
  lemma {:induction false} UiKeepsCursor(c: PeerConfig, actions: seq<Action>, k: nat)
    requires CursorNeedsViewOnly(c) && OfferedThroughout(LoggedIn(c), actions) && k <= |actions|
    ensures CursorNeedsViewOnly(UiRun(LoggedIn(c), actions[..k]).session.config)
  {
    if k > 0 {
      UiKeepsCursor(c, actions, k - 1);
      UiRunPrefix(LoggedIn(c), actions, k);
      ActionKeepsCursor(UiRun(LoggedIn(c), actions[..k - 1]), actions[k - 1]);
    }
  }

  /** The lists agree with the options they were built from. */
  predicate UpToDate(u: Screen)
  {
    var on := u.session.config.on;
    && (u.cursor.Some? ==> u.cursor.value == CursorMenu(ViewOnly !in on, ShowRemoteCursor in on))
    && (u.display.Some? ==> u.display.value == (ViewOnly !in on))
  }

  ghost predicate UpToDateThroughout(u: Screen, actions: seq<Action>)
  {
    forall k :: 0 <= k < |actions| ==> UpToDate(UiRun(u, actions[..k]))
  }

  /** So the other two need a list that is out of date: every run whose actions find the lists up to
      date stays in step. */
  lemma FreshMenusStayInSync(c: PeerConfig, actions: seq<Action>, k: nat)
    requires CursorNeedsViewOnly(c) && OfferedThroughout(LoggedIn(c), actions) && k <= |actions|
    requires UpToDateThroughout(LoggedIn(c), actions)
    ensures InSync(UiRun(LoggedIn(c), actions[..k]).session)
  {
    var u := LoggedIn(c);
    forall i | 0 <= i < |actions|
      ensures !Upsets(UiRun(u, actions[..i]), actions[i])
    {
      UiKeepsCursor(c, actions, i);
      assert UpToDate(UiRun(u, actions[..i])) && Offered(UiRun(u, actions[..i]), actions[i]);
    }
    UiPrefixInSync(u, actions, k);
  }

  /** The list that holds the entry of an overridden option. */
  function ListOf(o: Opt): Action
  {
    if o == ShowRemoteCursor then OpenCursorMenu else OpenDisplayMenu
  }

  /** The second one happens: the list is opened, View Mode is switched on, and an entry that is still
      enabled toggles an option away from the value view-only imposes. */
  lemma StaleEntry(c: PeerConfig, o: Opt)
    requires ViewOnly !in c.on && ShowMyCursor !in c.on && AgainstViewOnly(c.on + {ViewOnly}, o)
    ensures var u, actions := LoggedIn(c), [ListOf(o), ViewMode, Click(Switch(o))];
      && OfferedThroughout(u, actions)
      && InSync(UiRun(u, actions[..2]).session) && !InSync(UiRun(u, actions).session)
  {
    var u, actions := LoggedIn(c), [ListOf(o), ViewMode, Click(Switch(o))];
    var u1 := After(u, ListOf(o));
    var u2 := After(u1, ViewMode);
    assert actions[..0] == [] && actions[..3] == actions;
    UiRunPrefix(u, actions, 1);
    UiRunPrefix(u, actions, 2);
    UiRunPrefix(u, actions, 3);
    assert u1.session == u.session;
    RunOne(u1.session, Switch(ViewOnly));
    ActionInSync(u1, ViewMode);
    ActionInSync(u2, Click(Switch(o)));
  }

  /** The third one happens: following the remote cursor during view-only with the remote cursor not
      chosen, the menu is opened, which shows it, and following is switched off, which hides it. */
  lemma StaleFollow(c: PeerConfig)
    requires {ViewOnly, FollowRemoteCursor} <= c.on && ShowRemoteCursor !in c.on
    ensures var u := LoggedIn(c);
      OfferedThroughout(u, [OpenCursorMenu, Follow]) && !InSync(UiRun(u, [OpenCursorMenu, Follow]).session)
  {
    var u, actions := LoggedIn(c), [OpenCursorMenu, Follow];
    assert actions[..0] == [] && actions[..2] == actions;
    UiRunPrefix(u, actions, 1);
    UiRunPrefix(u, actions, 2);
    var u1 := After(u, OpenCursorMenu);
    RunOne(u.session, Switch(ShowRemoteCursor));
    ActionInSync(u, OpenCursorMenu);
    ActionInSync(u1, Follow);
  }

  /** Whatever has gone wrong before, toggling view-only puts the five settings it governs back to
      what a fresh login would say. */
  lemma ViewOnlyResynchronises(s: Session, o: Opt)
    requires o in VIEW_ONLY_ON
    ensures var s' := Next(s, Switch(ViewOnly)); o in s'.peer <==> o in AfterLogin(Desktop, s'.config)
  {
    var s' := Next(s, Switch(ViewOnly));
    LoginSettings(s'.config, o);
  }

  /** The peer serves its clipboard if its side permits both clipboard and keyboard, one-way
      redirection is off, and neither setting forbids it. */
  predicate ServesClipboard(peer: set<Opt>, permitted: bool)
  {
    permitted && DisableClipboard !in peer && DisableKeyboard !in peer
  }

  predicate KeyboardFollows(s: Session)
  {
    DisableKeyboard in s.peer <==> ViewOnly in s.config.on
  }

  lemma StepKeyboard(s: Session, name: Name)
    requires KeyboardFollows(s) && IsName(name)
    ensures KeyboardFollows(Next(s, name))
  {
  }

  /** Over every run of toggles, safe or not, the keyboard setting follows view-only, and so the
      peer's clipboard stays closed as long as view-only is on. */
  lemma {:induction false} ViewOnlyClosesClipboard(c: PeerConfig, names: seq<Name>, permitted: bool)
    requires AreNames(names)
    ensures var r := Run(Session(c, AfterLogin(Desktop, c)), names);
      KeyboardFollows(r) && (ViewOnly in r.config.on ==> !ServesClipboard(r.peer, permitted))
  {
    if names == [] {
      LoginSettings(c, DisableKeyboard);
    } else {
      var n := |names| - 1;
      ViewOnlyClosesClipboard(c, names[..n], permitted);
      StepKeyboard(Run(Session(c, AfterLogin(Desktop, c)), names[..n]), names[n]);
    }
  }

  /** In a session in step the peer serves its clipboard if and only if its own side permits it, view-only
      is off and the user has not disabled it. */
  lemma ClipboardServedIff(s: Session, permitted: bool)
    requires InSync(s)
    ensures ServesClipboard(s.peer, permitted) <==> permitted && ViewOnly !in s.config.on && DisableClipboard !in s.config.on
  {
    InSyncPointwise(s);
    assert DisableClipboard in s.peer <==> Wanted(s.config, DisableClipboard);
    assert DisableKeyboard in s.peer <==> Wanted(s.config, DisableKeyboard);
  }

  /** A concrete unsafe toggle: allowing the clipboard during view-only flips the peer's setting,
      which a login would have set; the clipboard stays closed all the same. */
  lemma UnsafeToggleFlipsSetting(c: PeerConfig, permitted: bool)
    requires ViewOnly in c.on && DisableClipboard in c.on
    ensures var s' := Next(Session(c, AfterLogin(Desktop, c)), Switch(DisableClipboard));
      ViewOnly in s'.config.on && DisableClipboard !in s'.peer && !InSync(s') && !ServesClipboard(s'.peer, permitted)
  {
    var s := Session(c, AfterLogin(Desktop, c));
    StepAnnounced(s, DisableClipboard);
    LoginSettings(c, DisableKeyboard);
    StepKeyboard(s, Switch(DisableClipboard));
  }

  /** In a terminal session the one option that matters is always in step. */
  lemma TerminalInSync(s: Session)
    requires s.peer == AfterLogin(Terminal, s.config)
    ensures var s' := Next(s, Switch(TerminalPersistent)); s'.peer == AfterLogin(Terminal, s'.config)
  {
  }

  // ---------- What toggles do to the configuration and ask of the peer ----------

  function Count(names: seq<Name>, name: Name): nat
  {
    if names == [] then 0 else Count(names[..|names| - 1], name) + if names[|names| - 1] == name then 1 else 0
  }

  /** The switches that only their own name flips. */
  predicate FlippedOnly(o: Opt)
  {
    o != ShowMyCursor && o != PrivacyMode && o != DisableKeyboard && o != InputBlocked
  }

  lemma StepSwitch(s: Session, name: Name, o: Opt)
    requires IsName(name)
    ensures FlippedOnly(o) ==> (o in Next(s, name).config.on <==> ((o in s.config.on) != (name == Switch(o))))
    ensures o == PrivacyMode || o == DisableKeyboard || o == InputBlocked ==>
      (o in Next(s, name).config.on <==> o in s.config.on)
  {
  }

  /** Over every run: a switch is on if it was toggled an odd number of times when it was off, or an
      even number when it was on.  Privacy mode is only asked for and never changes here. */
  lemma {:induction false} SwitchAfterRun(s: Session, names: seq<Name>, o: Opt)
    requires AreNames(names)
    ensures FlippedOnly(o) ==>
      (o in Run(s, names).config.on <==> ((o in s.config.on) != (Count(names, Switch(o)) % 2 == 1)))
    ensures o == PrivacyMode || o == DisableKeyboard || o == InputBlocked ==>
      (o in Run(s, names).config.on <==> o in s.config.on)
  {
    if names != [] {
      var n := |names| - 1;
      SwitchAfterRun(s, names[..n], o);
      StepSwitch(Run(s, names[..n]), names[n], o);
    }
  }

  /** The own cursor: its own name flips it, and leaving view-only switches it off. */
  lemma CursorStep(s: Session, name: Name)
    requires IsName(name)
    ensures var on := s.config.on;
      ShowMyCursor in Next(s, name).config.on <==>
        if name == Switch(ShowMyCursor) then ShowMyCursor !in on
        else ShowMyCursor in on && !(name == Switch(ViewOnly) && ViewOnly in on)
  {
  }

  predicate IsSet(c: PeerConfig, key: string)
  {
    key in c.options && c.options[key] != ""
  }

  /** Over every run: a free-form option changes with its own name only, by turns, and is switched on
      as "Y". */
  lemma {:induction false} OptionAfterRun(s: Session, names: seq<Name>, key: string)
    requires AreNames(names)
    ensures var c, n := Run(s, names).config, Count(names, Other(key));
      && (IsSet(c, key) <==> (IsSet(s.config, key) != (n % 2 == 1)))
      && (n == 0 ==> ((key in c.options <==> key in s.config.options)
                      && (key in c.options ==> c.options[key] == s.config.options[key])))
      && (n > 0 && IsSet(c, key) ==> c.options[key] == "Y")
  {
    if names != [] {
      OptionAfterRun(s, names[..|names| - 1], key);
    }
  }

  /** Whether the peer blocks its user's input, after the messages of a run. */
  function InputBlockedAfter(s: Session, blocked: bool, names: seq<Name>): bool
  {
    if names == [] then blocked
    else
      var n := |names| - 1;
      var c := Run(s, names[..n]).config;
      var msg := Toggle(c, c, names[n]).msg;
      if msg.Some? && InputBlocked in msg.value then msg.value[InputBlocked]
      else InputBlockedAfter(s, blocked, names[..n])
  }

  predicate IsBlocking(name: Name)
  {
    name == BlockInput || name == UnblockInput
  }

  /** Name `i` is the last one about the peer's input. */
  predicate LastAboutInput(names: seq<Name>, i: nat)
    requires i < |names|
  {
    IsBlocking(names[i]) && forall j :: i < j < |names| ==> !IsBlocking(names[j])
  }

  lemma {:induction false} InputUntouched(s: Session, blocked: bool, names: seq<Name>)
    requires AreNames(names) && forall j :: 0 <= j < |names| ==> !IsBlocking(names[j])
    ensures InputBlockedAfter(s, blocked, names) == blocked
  {
    if names != [] {
      InputUntouched(s, blocked, names[..|names| - 1]);
    }
  }

  /** Over every run: the peer's input is blocked if the last name about it was to block it. */
  lemma {:induction false} InputAfterRun(s: Session, blocked: bool, names: seq<Name>, i: nat)
    requires AreNames(names) && i < |names| && LastAboutInput(names, i)
    ensures InputBlockedAfter(s, blocked, names) <==> names[i] == BlockInput
    decreases |names|
  {
    if i < |names| - 1 {
      InputAfterRun(s, blocked, names[..|names| - 1], i);
    }
  }

  /** The request for privacy mode asks for the opposite of what is stored; neither it nor blocking
      changes anything that is stored, or any setting of the peer. */
  lemma RequestsChangeNothing(s: Session, name: Name)
    requires name == Switch(PrivacyMode) || IsBlocking(name)
    ensures Next(s, name).config == s.config
    ensures forall o :: Setting(o) ==> (o in Next(s, name).peer <==> o in s.peer)
    ensures name == Switch(PrivacyMode) ==>
      Toggle(s.config, s.config, name).msg == Some(map[PrivacyMode := PrivacyMode !in s.config.on])
  {
  }

  /** A login message only ever says Yes; sessions without options leave every setting off, and a
      terminal session sets at most its own. */
  lemma LoginSaysYes(kind: ConnKind, c: PeerConfig)
    ensures LoginMessage(kind, c).Some? ==> forall o :: o in LoginMessage(kind, c).value ==> LoginMessage(kind, c).value[o]
    ensures AfterLogin(NoOptions, c) == {}
    ensures AfterLogin(Terminal, c) == if TerminalPersistent in c.on then {TerminalPersistent} else {}
  {
  }

  /** Where the stored configuration and the one in memory differ, a switch goes by the stored one, and
      a free-form option by the one in memory, which then replaces what is stored. */
  lemma WhichCopyCounts(stored: PeerConfig, memory: PeerConfig, name: Name)
    requires IsName(name) && !IsBlocking(name)
    ensures !name.Other? && name != Switch(ViewOnly) ==> Toggle(stored, memory, name) == Toggle(stored, stored, name)
    ensures name.Other? ==> Toggle(stored, memory, name) == Toggle(memory, memory, name)
    ensures name == Switch(ViewOnly) ==>
      var t := Toggle(stored, memory, name); t.stored == t.memory == Toggle(stored, stored, name).stored
  {
  }

  /** What is announced when view-only ends is read from memory; whether the own cursor has to be
      switched off, from the store. */
  lemma ViewOnlyEndsFromMemory(stored: PeerConfig, memory: PeerConfig, msg: OptionMessage, o: Opt)
    requires ViewOnly in stored.on && Toggle(stored, memory, Switch(ViewOnly)).msg == Some(msg)
    ensures o in msg <==> o in VIEW_ONLY_ON || (o == ShowMyCursor && ShowMyCursor in stored.on)
    ensures o in msg ==> msg[o] == (o in memory.on && o != DisableKeyboard && o != ShowMyCursor)
  {
  }
}
