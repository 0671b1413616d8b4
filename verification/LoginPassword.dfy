/** Which password a login uses and which one is remembered.  A password from a shared address
    book may be used to log in but must not end up among the remembered ones. */
module LoginPassword {
  import opened Text

  type Password = seq<Byte>

  datatype Source = PersonalAb(hashed: Password) | SharedAb(text: string) | Undefined

  datatype Switch = NoSwitch | BadUuid | GoodUuid

  /** Password hashing with the peer's salt; hashes are never empty. */
  type Hasher = (string, string) -> Password

  ghost predicate HasherLaw(h: Hasher)
  {
    forall text, salt :: h(text, salt) != []
  }

  /** The part of the login handler that deals with passwords, with the saved one of the peer. */
  datatype Login = Login(salt: string, password: Password, source: Source, remember: bool,
                         shared: Option<string>, switch: Switch, saved: Password)

  /** Where a hash message may find a password: the one preset for the session, the one of the
      peer in the personal address book, and the built-in default. */
  datatype Offer = Offer(salt: string, preset: string, personal: Password, builtin: string)

  predicate IsSharedAb(h: Hasher, s: Login)
  {
    s.password != [] && MatchesUnder(h, s, s.salt)
  }

  /** The noted shared password still explains the one in use under the given salt. */
  predicate MatchesUnder(h: Hasher, s: Login, salt: string)
  {
    s.source.SharedAb? && h(s.source.text, salt) == s.password
  }

  predicate IsPersonalAb(s: Login)
  {
    s.password != [] && s.source == PersonalAb(s.password)
  }

  /** A shared password waiting to be used. */
  predicate FreshShared(s: Login)
  {
    s.shared.Some? && s.shared.value != ""
  }

  class Handler {
    var lc: Login

    constructor (s: Login)
      ensures lc == s
    {
      lc := s;
    }

    method HandleHash(h: Hasher, o: Offer)
      requires HasherLaw(h)
      modifies this
      ensures lc == OnHash(h, old(lc), o)
    {
      lc := lc.(salt := o.salt);
      var uuid := lc.switch;
      lc := lc.(switch := NoSwitch);
      if uuid == GoodUuid {
        lc := lc.(source := Undefined);
        return;
      }
      var password := lc.password;
      if password == [] && o.preset != "" {
        password := h(o.preset, o.salt);
        lc := lc.(source := Undefined);
      }
      var shared := lc.shared;
      lc := lc.(shared := None);
      if shared.Some? && shared.value != "" {
        password := h(shared.value, o.salt);
        lc := lc.(source := SharedAb(shared.value));
      }
      if password == [] {
        password := lc.saved;
        if password != [] {
          lc := lc.(source := Undefined);
        }
      }
      if password == [] && o.personal != [] {
        password := o.personal;
        lc := lc.(source := PersonalAb(o.personal));
      }
      if password == [] && o.builtin != "" {
        password := h(o.builtin, o.salt);
        lc := lc.(source := SharedAb(o.builtin));
      }
      lc := lc.(password := password);
    }

    method HandleLoginFromUi(h: Hasher, password: string, remember: bool)
      modifies this
      ensures lc == OnUiLogin(h, old(lc), password, remember)
    {
      var hashed: Password;
      if password == "" {
        hashed := lc.password;
        if hashed == [] {
          hashed := lc.saved;
          if hashed != [] {
            lc := lc.(source := Undefined);
          }
        }
      } else {
        lc := lc.(source := Undefined);
        hashed := h(password, lc.salt);
        lc := lc.(remember := remember);
      }
      lc := lc.(password := hashed);
    }

    /** The peer says that the password is missing or wrong, or something else. */
    method HandleLoginError(passwordRefused: bool)
      modifies this
      ensures lc == if passwordRefused then old(lc).(password := []) else old(lc)
    {
      if passwordRefused {
        lc := lc.(password := []);
      }
    }

    method HandlePeerInfo(h: Hasher)
      modifies this
      ensures lc == OnPeerInfo(h, old(lc))
    {
      var saved := lc.saved;
      if lc.remember {
        if lc.password != [] && lc.password != saved && !IsSharedAb(h, lc) {
          saved := lc.password;
        }
      } else if IsPersonalAb(lc) {
        saved := lc.password;
      } else if saved != [] {
        saved := [];
      }
      lc := lc.(saved := saved);
    }
  }

  // ---------- The same steps on values ----------

  /** A candidate password, where it came from, and the source that is noted for it. */
  datatype Origin = Nowhere | Typed | Preset | Personal | Shared

  datatype Candidate = Candidate(password: Password, source: Source, origin: Origin)

  function Or(a: Candidate, b: Candidate): Candidate
  {
    if a.password != [] then a else b
  }

  /** The order of application: a fresh shared password, the last one used, the preset one, the
      saved one, the one in the personal address book, the built-in one. */
  function Choose(h: Hasher, s: Login, origin: Origin, savedOrigin: Origin, o: Offer): Candidate
  {
    Or(if FreshShared(s) then Candidate(h(s.shared.value, o.salt), SharedAb(s.shared.value), Shared)
       else Candidate([], Undefined, Nowhere),
    Or(Candidate(s.password, s.source, origin),
    Or(Candidate(if o.preset != "" then h(o.preset, o.salt) else [], Undefined, Preset),
    Or(Candidate(s.saved, Undefined, savedOrigin),
    Or(Candidate(o.personal, PersonalAb(o.personal), Personal),
    Or(Candidate(if o.builtin != "" then h(o.builtin, o.salt) else [], SharedAb(o.builtin), Shared),
       Candidate([], s.source, Nowhere)))))))
  }

  ghost function OnHash(h: Hasher, s: Login, o: Offer): Login
  {
    OnHashTracked(h, Tracked(s, Nowhere, Nowhere), o).login
  }

  function OnUiLogin(h: Hasher, s: Login, password: string, remember: bool): Login
  {
    if password != "" then s.(source := Undefined, password := h(password, s.salt), remember := remember)
    else if s.password != [] || s.saved == [] then s
    else s.(source := Undefined, password := s.saved)
  }

  function OnPeerInfo(h: Hasher, s: Login): Login
  {
    if s.remember then
      if s.password != [] && s.password != s.saved && !IsSharedAb(h, s) then s.(saved := s.password) else s
    else if IsPersonalAb(s) then s.(saved := s.password)
    else s.(saved := [])
  }

  // ---------- Where passwords come from ----------

  /** A login together with the origins of its current and its saved password. */
  datatype Tracked = Tracked(login: Login, origin: Origin, savedOrigin: Origin)

  function OnHashTracked(h: Hasher, t: Tracked, o: Offer): Tracked
  {
    var s := t.login;
    if s.switch == GoodUuid then t.(login := s.(salt := o.salt, switch := NoSwitch, source := Undefined))
    else
      var c := Choose(h, s, t.origin, t.savedOrigin, o);
      Tracked(s.(salt := o.salt, switch := NoSwitch, shared := None, password := c.password, source := c.source),
              c.origin, t.savedOrigin)
  }

  datatype Event =
    | Hash(offer: Offer)
    | UiLogin(text: string, remember: bool)
    | LoginError(passwordRefused: bool)
    | PeerInfo

  function Next(h: Hasher, t: Tracked, e: Event): Tracked
  {
    match e
    case Hash(o) => OnHashTracked(h, t, o)
    case UiLogin(text, remember) =>
      var s := OnUiLogin(h, t.login, text, remember);
      t.(login := s,
         origin := if text != "" then Typed
                   else if t.login.password == [] && t.login.saved != [] then t.savedOrigin
                   else t.origin)
    case LoginError(refused) =>
      if refused then t.(login := t.login.(password := []), origin := Nowhere) else t
    case PeerInfo =>
      var s := OnPeerInfo(h, t.login);
      t.(login := s, savedOrigin := if s.saved == t.login.saved then t.savedOrigin
                                    else if s.saved == [] then Nowhere
                                    else t.origin)
  }

  function Run(h: Hasher, t: Tracked, events: seq<Event>): Tracked
  {
    if events == [] then t else Next(h, Run(h, t, events[..|events| - 1]), events[|events| - 1])
  }

  /** A shared password in use is recognisable as such, none has been saved, and none is in use
      while a switch of sides is pending. */
  predicate Guarded(h: Hasher, t: Tracked)
  {
    && (t.origin == Shared && t.login.password != [] ==> IsSharedAb(h, t.login))
    && t.savedOrigin != Shared
    && (t.login.switch == GoodUuid ==> t.origin != Shared)
  }

  /** A hash message that takes the mark off a shared password in use: under another salt the
      password no longer matches the noted source. */
  predicate Unmarks(h: Hasher, t: Tracked, e: Event)
  {
    && e.Hash? && t.origin == Shared && t.login.password != []
    && !FreshShared(t.login) && !MatchesUnder(h, t.login, e.offer.salt)
  }

  /** Of all events only such a message can lift the guard, and it always does.  The message that
      carries out a switch of sides drops the noted source too, but finds no shared password. */
  lemma StepGuarded(h: Hasher, t: Tracked, e: Event)
    requires HasherLaw(h) && Guarded(h, t)
    ensures Guarded(h, Next(h, t, e)) <==> !Unmarks(h, t, e)
  {
  }

  ghost predicate NoneUnmarks(h: Hasher, t: Tracked, events: seq<Event>)
  {
    forall k :: 0 <= k < |events| ==> !Unmarks(h, Run(h, t, events[..k]), events[k])
  }

  lemma RunPrefix(h: Hasher, t: Tracked, events: seq<Event>, k: nat)
    requires 0 < k <= |events|
    ensures Run(h, t, events[..k]) == Next(h, Run(h, t, events[..k - 1]), events[k - 1])
  {
    assert events[..k][..k - 1] == events[..k - 1];
  }

  /** A handler as created: nothing in use yet, and what is saved did not come from a share. */
  predicate Initial(t: Tracked)
  {
    t.login.password == [] && t.origin == Nowhere && t.savedOrigin != Shared
  }

  /** No run saves a shared password, as long as no message unmarks one in use. */
  lemma {:induction false} SharedNeverSaved(h: Hasher, t: Tracked, events: seq<Event>, k: nat)
    requires HasherLaw(h) && Initial(t) && NoneUnmarks(h, t, events) && k <= |events|
    ensures Guarded(h, Run(h, t, events[..k]))
  {
    if k > 0 {
      SharedNeverSaved(h, t, events, k - 1);
      RunPrefix(h, t, events, k);
      StepGuarded(h, Run(h, t, events[..k - 1]), events[k - 1]);
    }
  }

  /** And the guard holds throughout a run only then. */
  lemma AlwaysGuardedIff(h: Hasher, t: Tracked, events: seq<Event>)
    requires HasherLaw(h) && Initial(t)
    ensures NoneUnmarks(h, t, events) <==> forall k :: 0 <= k <= |events| ==> Guarded(h, Run(h, t, events[..k]))
  {
    if NoneUnmarks(h, t, events) {
      forall k | 0 <= k <= |events|
        ensures Guarded(h, Run(h, t, events[..k]))
      {
        SharedNeverSaved(h, t, events, k);
      }
    }
    if forall k :: 0 <= k <= |events| ==> Guarded(h, Run(h, t, events[..k])) {
      forall k | 0 <= k < |events|
        ensures !Unmarks(h, Run(h, t, events[..k]), events[k])
      {
        RunPrefix(h, t, events, k + 1);
        StepGuarded(h, Run(h, t, events[..k]), events[k]);
      }
    }
  }

  /** All hash messages carry one salt. */
  predicate OneSalt(events: seq<Event>, salt: string)
  {
    forall k :: 0 <= k < |events| && events[k].Hash? ==> events[k].offer.salt == salt
  }

  lemma OneSaltStep(h: Hasher, t: Tracked, e: Event, salt: string)
    requires HasherLaw(h) && Guarded(h, t) && (t.origin == Shared ==> t.login.salt == salt)
    requires e.Hash? ==> e.offer.salt == salt
    ensures Guarded(h, Next(h, t, e)) && (Next(h, t, e).origin == Shared ==> Next(h, t, e).login.salt == salt)
  {
    StepGuarded(h, t, e);
  }

  /** With one salt nothing is ever unmarked, whether or not the session began with a switch of
      sides. */
  lemma {:induction false} OneSaltGuarded(h: Hasher, t: Tracked, events: seq<Event>, salt: string, k: nat)
    requires HasherLaw(h) && Initial(t) && OneSalt(events, salt) && k <= |events|
    ensures var r := Run(h, t, events[..k]); Guarded(h, r) && (r.origin == Shared ==> r.login.salt == salt)
  {
    if k > 0 {
      OneSaltGuarded(h, t, events, salt, k - 1);
      RunPrefix(h, t, events, k);
      OneSaltStep(h, Run(h, t, events[..k - 1]), events[k - 1], salt);
    }
  }

  /** Peer info then only keeps or clears the saved password while a shared one is in use. */
  lemma SharedLoginKeepsOrClears(h: Hasher, t: Tracked)
    requires Guarded(h, t) && t.origin == Shared && t.login.password != []
    ensures var saved := Next(h, t, PeerInfo).login.saved; saved == t.login.saved || saved == []
  {
  }

  lemma UnmarkedStep(h: Hasher, t: Tracked, e: Event)
    requires HasherLaw(h) && Guarded(h, t) && Unmarks(h, t, e)
    requires t.login.remember && t.login.password != t.login.saved
    ensures var r := Next(h, Next(h, t, e), PeerInfo);
      r.savedOrigin == Shared && r.login.saved == t.login.password
  {
  }

  lemma RunTwo(h: Hasher, t: Tracked, events: seq<Event>, d: Event, e: Event)
    ensures Run(h, t, events + [d, e]) == Next(h, Next(h, Run(h, t, events), d), e)
  {
    assert (events + [d, e])[..|events| + 1] == events + [d];
    assert (events + [d])[..|events|] == events;
  }

  /** Once the mark is off, the next peer info with "remember" set saves the shared password. */
  lemma UnmarkedIsSaved(h: Hasher, t: Tracked, events: seq<Event>, e: Event)
    requires HasherLaw(h) && Initial(t) && NoneUnmarks(h, t, events)
    requires var r := Run(h, t, events); Unmarks(h, r, e) && r.login.remember && r.login.password != r.login.saved
    ensures var r := Run(h, t, events + [e, PeerInfo]);
      r.savedOrigin == Shared && r.login.saved == Run(h, t, events).login.password
  {
    assert events[..|events|] == events;
    SharedNeverSaved(h, t, events, |events|);
    RunTwo(h, t, events, e, PeerInfo);
    UnmarkedStep(h, Run(h, t, events), e);
  }

  /** Such a run: a shared password, two hash messages with different salts, and peer info. */
  lemma SharedSaved(h: Hasher, t: Tracked, text: string, first: Offer, second: Offer)
    requires HasherLaw(h) && Initial(t) && t.login.switch != GoodUuid
    requires text != "" && t.login.shared == Some(text) && t.login.remember
    requires h(text, first.salt) != h(text, second.salt) && h(text, first.salt) != t.login.saved
    ensures var r := Run(h, t, [Hash(first), Hash(second), PeerInfo]);
      r.savedOrigin == Shared && r.login.saved == h(text, first.salt)
  {
    var events := [Hash(first), Hash(second), PeerInfo];
    assert events[..0] == [] && events[..3] == events;
    RunPrefix(h, t, events, 1);
    RunPrefix(h, t, events, 2);
    RunPrefix(h, t, events, 3);
  }

  // ---------- Which password is used and saved, case by case ----------

  /** Nothing but the given candidates is at hand: no switch of sides, no fresh shared password and
      none in use. */
  predicate NothingInUse(s: Login)
  {
    s.switch != GoodUuid && !FreshShared(s) && s.password == []
  }

  /** A hash message takes the first password there is, in this order: the one a switch of sides
      brings along, a fresh shared one, the one in use, the preset one, the saved one, the one in the
      personal address book, the built-in one. */
  lemma HashOrder(h: Hasher, s: Login, o: Offer)
    requires HasherLaw(h)
    ensures var r := OnHash(h, s, o);
      r.salt == o.salt && r.switch == NoSwitch && r.saved == s.saved && r.remember == s.remember
    ensures s.switch == GoodUuid ==>
      OnHash(h, s, o).password == s.password && OnHash(h, s, o).source == Undefined && OnHash(h, s, o).shared == s.shared
    ensures s.switch != GoodUuid ==> OnHash(h, s, o).shared == None
    ensures s.switch != GoodUuid && FreshShared(s) ==>
      var r := OnHash(h, s, o);
      r.password == h(s.shared.value, o.salt) && r.source == SharedAb(s.shared.value)
    ensures s.switch != GoodUuid && !FreshShared(s) && s.password != [] ==>
      var r := OnHash(h, s, o); r.password == s.password && r.source == s.source
    ensures NothingInUse(s) && o.preset != "" ==>
      var r := OnHash(h, s, o); r.password == h(o.preset, o.salt) && r.source == Undefined
    ensures NothingInUse(s) && o.preset == "" && s.saved != [] ==>
      var r := OnHash(h, s, o); r.password == s.saved && r.source == Undefined
    ensures NothingInUse(s) && o.preset == "" && s.saved == [] && o.personal != [] ==>
      var r := OnHash(h, s, o); r.password == o.personal && r.source == PersonalAb(o.personal)
    ensures NothingInUse(s) && o.preset == "" && s.saved == [] && o.personal == [] && o.builtin != "" ==>
      var r := OnHash(h, s, o); r.password == h(o.builtin, o.salt) && r.source == SharedAb(o.builtin)
    ensures NothingInUse(s) && o.preset == "" && s.saved == [] && o.personal == [] && o.builtin == "" ==>
      OnHash(h, s, o).password == []
  {
  }

  /** A password typed by the user is what the next login saves, or nothing is, as the user chose. */
  lemma TypedThenLogin(h: Hasher, t: Tracked, text: string, remember: bool)
    requires HasherLaw(h) && text != ""
    ensures var r := Next(h, Next(h, t, UiLogin(text, remember)), PeerInfo).login;
      && r.password == h(text, t.login.salt) && r.remember == remember
      && r.saved == if remember then h(text, t.login.salt) else []
  {
  }

  /** Without a typed password the choice of remembering stays, and so does the password in use, or
      else the saved one comes in. */
  lemma EmptyThenLogin(h: Hasher, t: Tracked, remember: bool)
    ensures var r := Next(h, t, UiLogin("", remember)).login;
      && r.remember == t.login.remember && r.saved == t.login.saved
      && r.password == if t.login.password != [] then t.login.password else t.login.saved
  {
  }

  /** A refused password is not tried again: the next hash message falls back to the saved one, and
      so does an empty password. */
  lemma RefusedFallsBack(h: Hasher, t: Tracked, o: Offer, remember: bool)
    requires HasherLaw(h) && t.login.switch != GoodUuid && !FreshShared(t.login) && o.preset == "" && t.login.saved != []
    ensures var r := Next(h, t, LoginError(true));
      Next(h, r, Hash(o)).login.password == t.login.saved && Next(h, r, UiLogin("", remember)).login.password == t.login.saved
    ensures Next(h, t, LoginError(false)) == t
  {
  }

  /** What a login that found its password by itself leaves saved: one from the personal address book
      always, a preset one if the user wants it remembered, a shared one never, and a saved one stays
      only if it is still to be remembered. */
  lemma SavedAfterLogin(h: Hasher, t: Tracked, o: Offer)
    requires HasherLaw(h) && t.login.switch != GoodUuid && t.login.password == []
    ensures var s, r := t.login, Next(h, Next(h, t, Hash(o)), PeerInfo).login;
      if FreshShared(s) then r.saved == if s.remember then s.saved else []
      else if o.preset != "" then r.saved == if s.remember then h(o.preset, o.salt) else []
      else if s.saved != [] then r.saved == if s.remember then s.saved else []
      else r.saved == o.personal
  {
  }

  /** The origin noted for the password in use goes with it: only a hash message, a typed password, a
      refusal, or a saved password that comes in can change it, and each says where the new one is
      from. */
  lemma OriginsTrack(h: Hasher, t: Tracked, e: Event)
    requires HasherLaw(h)
    ensures e.UiLogin? && e.text != "" ==> Next(h, t, e).origin == Typed
    ensures e.UiLogin? && e.text == "" && t.login.password != [] ==> Next(h, t, e).origin == t.origin
    ensures e.UiLogin? && e.text == "" && t.login.password == [] && t.login.saved != [] ==> Next(h, t, e).origin == t.savedOrigin
    ensures e.LoginError? ==> Next(h, t, e).origin == if e.passwordRefused then Nowhere else t.origin
    ensures e.PeerInfo? ==> Next(h, t, e).origin == t.origin
    ensures e.Hash? && t.login.switch != GoodUuid && (FreshShared(t.login) || t.login.password != []) ==>
      Next(h, t, e).origin == if FreshShared(t.login) then Shared else t.origin
    ensures e.Hash? && NothingInUse(t.login) ==>
      Next(h, t, e).origin == if e.offer.preset != "" then Preset
        else if t.login.saved != [] then t.savedOrigin
        else if e.offer.personal != [] then Personal
        else if e.offer.builtin != "" then Shared else Nowhere
    ensures !e.PeerInfo? ==> Next(h, t, e).savedOrigin == t.savedOrigin
    ensures e.PeerInfo? ==>
      var saved := Next(h, t, e).login.saved;
      Next(h, t, e).savedOrigin ==
        if saved == t.login.saved then t.savedOrigin else if saved == [] then Nowhere else t.origin
  {
  }
}
