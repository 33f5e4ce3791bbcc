/** What every run of logins, links, unlinks and account changes keeps true. */
module IdentityRuns {
  import opened Wrappers
  import opened Collections
  import opened Identity

  ghost function Run(db: Db, acts: seq<Action>): (r: Db)
    requires Wf(db)
    ensures Wf(r)
    decreases |acts|
  {
    if acts == [] then db
    else
      StepKeepsWf(db, acts[0]);
      Run(Apply(db, acts[0]), acts[1..])
  }

  // --- at most one identity per (user, kind, provider) ---

  ghost predicate OnePerProvider(db: Db) {
    forall i, j | i in db.idents && j in db.idents
      && i.user == j.user && i.kind == j.kind && i.provider == j.provider :: i == j
  }

  /** The login inserts an identity for an account it found by email or username. */
  ghost predicate Adopts(db: Db, mode: string, p: Profile, f: Faults) {
    && p.uid != "" && p.kind != "" && !f.read && !f.insertIdent
    && Owner(db, p.kind, p.provider, p.uid) == None && MatchByEmail(db, mode, p).Found?
  }

  /** Adding a free identity breaks the law exactly when its user has one for that provider already. */
  lemma InsertKeepsIff(db: Db, i: Ident)
    requires OnePerProvider(db) && i !in db.idents
    ensures OnePerProvider(db.(idents := db.idents + {i})) <==> !HasIdent(db, i.user, i.kind, i.provider)
  {
    if j :| j in db.idents && j.user == i.user && j.kind == i.kind && j.provider == i.provider {
      assert j in db.idents + {i} && i in db.idents + {i};
    }
  }

  lemma SameIdentsSameLaw(db: Db, db': Db)
    requires db'.idents == db.idents
    ensures OnePerProvider(db') <==> OnePerProvider(db)
  {
  }

  lemma NewUserKeepsOnePerProvider(db: Db, p: Profile, f: Faults)
    requires Wf(db) && OnePerProvider(db)
    ensures OnePerProvider(CreateAndLink(db, p, f).0)
  {
  }

  /** A login breaks the law exactly when it adopts an account that has an identity for that provider
      already. */
  lemma LoginBreaksIff(db: Db, mode: string, p: Profile, f: Faults)
    requires Wf(db) && OnePerProvider(db)
    ensures !OnePerProvider(Login(db, mode, p, f).0)
       <==> Adopts(db, mode, p, f) && HasIdent(db, MatchByEmail(db, mode, p).user, p.kind, p.provider)
  {
    if Adopts(db, mode, p, f) {
      var i := Ident(MatchByEmail(db, mode, p).user, p.kind, p.provider, p.uid);
      var db' := db.(idents := db.idents + {i});
      InsertKeepsIff(db, i);
      SyncKeepsExternal(db', i.user, p, f);
      SameIdentsSameLaw(db', Login(db, mode, p, f).0);
    } else if Login(db, mode, p, f).0.idents == db.idents {
      SameIdentsSameLaw(db, Login(db, mode, p, f).0);
    } else {
      NewUserKeepsOnePerProvider(db, p, f);
    }
  }

  /** The modes in which no login breaks the law, whatever the tables hold, are exactly these two. */
  lemma LoginKeepsLawIff(mode: string)
    ensures (forall db, p, f | Wf(db) && OnePerProvider(db) :: OnePerProvider(Login(db, mode, p, f).0))
       <==> mode == "auto" || mode == "never"
  {
    if mode == "auto" || mode == "never" {
      forall db, p, f | Wf(db) && OnePerProvider(db)
        ensures OnePerProvider(Login(db, mode, p, f).0)
      {
        PinningLoginKeeps(db, mode, p, f);
      }
    } else {
      SecondLogin(mode);
      TwoLoginsUnlinked();
      assert Wf(ONE_LOGIN) && OnePerProvider(ONE_LOGIN);
      assert !OnePerProvider(Login(ONE_LOGIN, mode, Visitor("sub-2"), NO_FAULTS).0);
    }
  }

  lemma PinningLoginKeeps(db: Db, mode: string, p: Profile, f: Faults)
    requires Wf(db) && OnePerProvider(db) && (mode == "auto" || mode == "never")
    ensures OnePerProvider(Login(db, mode, p, f).0)
  {
    LoginBreaksIff(db, mode, p, f);
    if MatchByEmail(db, mode, p).Found? {
      var u := MatchByEmail(db, mode, p).user;
      assert forall i | i in db.idents && i.user == u :: i in IdentsOf(db, u);
    }
  }

  /** A link breaks the law exactly when it is called without a kind, which the insert renames to
      "oidc" after the one-per-provider test looked for an empty one, and the user has an OIDC
      identity for the provider. Every non-empty kind is safe. */
  lemma LinkBreaksIff(db: Db, u: int, kind: string, provider: string, uid: string)
    requires Wf(db) && OnePerProvider(db)
    ensures !OnePerProvider(Link(db, u, kind, provider, uid).0)
       <==> && kind == "" && uid != "" && u in db.users
            && Owner(db, "", provider, uid) == None && Owner(db, "oidc", provider, uid) == None
            && !HasIdent(db, u, "", provider) && HasIdent(db, u, "oidc", provider)
  {
    var i := Ident(u, if kind == "" then "oidc" else kind, provider, uid);
    if Link(db, u, kind, provider, uid).0 != db {
      assert i !in db.idents;
      InsertKeepsIff(db, i);
    }
  }

  /** The modes in which email matching never adds a second identity, and links that name a kind. */
  predicate Pinning(a: Action) {
    match a
    case DoLogin(mode, _, _) => mode == "auto" || mode == "never"
    case DoLink(_, kind, _, _) => kind != ""
    case _ => true
  }

  lemma StepKeepsOnePerProvider(db: Db, a: Action)
    requires Wf(db) && OnePerProvider(db) && Pinning(a)
    ensures OnePerProvider(Apply(db, a))
  {
    match a
    case DoLogin(mode, p, f) => PinningLoginKeeps(db, mode, p, f);
    case DoLink(u, kind, provider, uid) => LinkBreaksIff(db, u, kind, provider, uid);
    case _ =>
  }

  lemma {:induction false} RunsKeepOnePerProvider(db: Db, acts: seq<Action>)
    requires Wf(db) && OnePerProvider(db) && forall i | 0 <= i < |acts| :: Pinning(acts[i])
    ensures OnePerProvider(Run(db, acts))
    decreases |acts|
  {
    if acts != [] {
      StepKeepsWf(db, acts[0]);
      StepKeepsOnePerProvider(db, acts[0]);
      RunsKeepOnePerProvider(Apply(db, acts[0]), acts[1..]);
    }
  }

  /** When exactly an unlink strips an external user of every identity: it has several, and they all
      share the unlinked kind and provider. */
  lemma UnlinkStripsIff(db: Db, u: int, kind: string, provider: string)
    requires Wf(db) && u in db.users && db.users[u].external && IdentsOf(db, u) != {}
    ensures IdentsOf(Apply(db, DoUnlink(u, kind, provider)), u) == {}
       <==> && (kind == "ldap" || kind == "oidc")
            && |IdentsOf(db, u)| >= 2 && forall i | i in IdentsOf(db, u) :: i.kind == kind && i.provider == provider
  {
    var mine := IdentsOf(db, u);
    var mine' := IdentsOf(Apply(db, DoUnlink(u, kind, provider)), u);
    var i :| i in mine;
    if kind != "ldap" && kind != "oidc" {
      assert mine' == mine;
    } else if forall j | j in mine :: j.kind == kind && j.provider == provider {
      assert HasIdent(db, u, kind, provider) by {
        assert i in db.idents && i.user == u && i.kind == kind && i.provider == provider;
      }
      if |mine| <= 1 {
        assert mine' == mine;
      } else {
        assert forall j :: j !in mine';
      }
    } else {
      var j :| j in mine && !(j.kind == kind && j.provider == provider);
      assert j in mine';
    }
  }

  lemma DistinctElements(s: set<Ident>) returns (i: Ident, j: Ident)
    requires |s| >= 2
    ensures i in s && j in s && i != j
  {
    i :| i in s;
    assert |s - {i}| == |s| - 1;
    j :| j in s - {i};
  }

  /** In the pinning modes, over every run, no unlink ever takes an external user from one or more
      identities to none. */
  lemma UnlinkNeverStrips(db: Db, acts: seq<Action>, u: int, kind: string, provider: string)
    requires Wf(db) && OnePerProvider(db) && forall i | 0 <= i < |acts| :: Pinning(acts[i])
    requires u in Run(db, acts).users && Run(db, acts).users[u].external && IdentsOf(Run(db, acts), u) != {}
    ensures IdentsOf(Apply(Run(db, acts), DoUnlink(u, kind, provider)), u) != {}
  {
    var now := Run(db, acts);
    RunsKeepOnePerProvider(db, acts);
    UnlinkStripsIff(now, u, kind, provider);
    if |IdentsOf(now, u)| >= 2 {
      var i, j := DistinctElements(IdentsOf(now, u));
    }
  }

  const NO_FAULTS := Faults(false, false, false, false)

  function Visitor(uid: string): Profile {
    Profile("oidc", "corp", uid, "jdoe", "John Doe", "jdoe@example.com", false, true)
  }

  const JDOE := User("jdoe", "John Doe", "jdoe@example.com", true)
  const SUB_1 := Ident(1, "oidc", "corp", "sub-1")
  const SUB_2 := Ident(1, "oidc", "corp", "sub-2")
  const ONE_LOGIN := Db(map[1 := JDOE], {SUB_1}, 2)
  const TWO_LOGINS := Db(map[1 := JDOE], {SUB_1, SUB_2}, 2)

  function AlwaysLogin(uid: string): Action {
    DoLogin("always", Visitor(uid), NO_FAULTS)
  }

  lemma FirstLogin()
    ensures var start := Db(map[], {}, 1);
            Wf(start) && Apply(start, AlwaysLogin("sub-1")) == ONE_LOGIN
  {
    var start := Db(map[], {}, 1);
    assert ByLoginOrEmail(start, "", "jdoe@example.com") == {};
    assert Owner(start, "oidc", "corp", "sub-1") == None;
    assert Login(start, "always", Visitor("sub-1"), NO_FAULTS) == CreateAndLink(start, Visitor("sub-1"), NO_FAULTS);
  }

  lemma SecondLogin(mode: string)
    requires mode != "auto" && mode != "never"
    ensures Wf(ONE_LOGIN) && Apply(ONE_LOGIN, DoLogin(mode, Visitor("sub-2"), NO_FAULTS)) == TWO_LOGINS
  {
    var db, p := ONE_LOGIN, Visitor("sub-2");
    assert ByLoginOrEmail(db, "", "jdoe@example.com") == {1};
    assert MatchByEmail(db, mode, p) == Found(1);
    assert Owner(db, "oidc", "corp", "sub-2") == None;
    assert Synced(JDOE, p) == JDOE;
  }

  lemma TwoLoginsUnlinked()
    ensures Wf(TWO_LOGINS) && !OnePerProvider(TWO_LOGINS) && |IdentsOf(TWO_LOGINS, 1)| == 2
    ensures IdentsOf(Apply(TWO_LOGINS, DoUnlink(1, "oidc", "corp")), 1) == {}
  {
    assert SUB_1 in TWO_LOGINS.idents && SUB_2 in TWO_LOGINS.idents && SUB_1 != SUB_2;
    assert IdentsOf(TWO_LOGINS, 1) == {SUB_1, SUB_2};
    UnlinkStripsIff(TWO_LOGINS, 1, "oidc", "corp");
  }

  /** Mode "always" breaks the first step: two logins from one provider with one verified email share
      an account, and unlinking that provider then strips it. */
  lemma AlwaysStrips()
    ensures var start := Db(map[], {}, 1);
            var acts := [AlwaysLogin("sub-1"), AlwaysLogin("sub-2"), DoUnlink(1, "oidc", "corp")];
            && Wf(start)
            && !OnePerProvider(Run(start, acts[..2]))
            && |IdentsOf(Run(start, acts[..2]), 1)| == 2 && Run(start, acts[..2]).users[1].external
            && 1 in Run(start, acts).users && IdentsOf(Run(start, acts), 1) == {}
  {
    var start := Db(map[], {}, 1);
    var a1, a2, a3 := AlwaysLogin("sub-1"), AlwaysLogin("sub-2"), DoUnlink(1, "oidc", "corp");
    FirstLogin();
    SecondLogin("always");
    TwoLoginsUnlinked();
    RunOf3(start, a1, a2, a3);
  }

  lemma RunOf3(db: Db, a: Action, b: Action, c: Action)
    requires Wf(db)
    ensures Wf(Apply(db, a)) && Wf(Apply(Apply(db, a), b))
    ensures Run(db, [a, b, c][..2]) == Apply(Apply(db, a), b)
    ensures Run(db, [a, b, c]) == Apply(Apply(Apply(db, a), b), c)
  {
    StepKeepsWf(db, a);
    StepKeepsWf(Apply(db, a), b);
    StepKeepsWf(Apply(Apply(db, a), b), c);
    var s := [a, b, c];
    assert s[..2] == [a, b] && [a, b][1..] == [b] && [b][1..] == [];
    assert s[1..] == [b, c] && [b, c][1..] == [c] && [c][1..] == [];
    assert Run(Apply(Apply(db, a), b), []) == Apply(Apply(db, a), b);
    assert Run(Apply(db, a), [b]) == Apply(Apply(db, a), b);
    assert Run(Apply(Apply(db, a), b), [c]) == Apply(Apply(Apply(db, a), b), c);
    assert Run(Apply(db, a), [b, c]) == Apply(Apply(Apply(db, a), b), c);
  }

  /** LinkBreaksIff's failing case exists. */
  lemma EmptyKindBreaksOnePerProvider()
    ensures Wf(ONE_LOGIN) && OnePerProvider(ONE_LOGIN) && !OnePerProvider(Link(ONE_LOGIN, 1, "", "corp", "sub-2").0)
  {
    var db := ONE_LOGIN;
    assert Wf(db) && OnePerProvider(db);
    assert Owner(db, "", "corp", "sub-2") == None && Owner(db, "oidc", "corp", "sub-2") == None;
    assert SUB_1 in db.idents && HasIdent(db, 1, "oidc", "corp");
    assert SUB_2 !in db.idents && SUB_2 in Link(db, 1, "", "corp", "sub-2").0.idents;
    LinkBreaksIff(db, 1, "", "corp", "sub-2");
  }

  // --- login stability ---

  /** Only unlinking this identity, or deleting its user, can undo a binding. */
  predicate Releases(a: Action, i: Ident) {
    || (a.DoUnlink? && a.user == i.user && a.kind == i.kind && a.provider == i.provider)
    || (a.DeleteUser? && a.user == i.user)
  }

  lemma StepKeepsBinding(db: Db, a: Action, i: Ident)
    requires Wf(db) && i in db.idents && !Releases(a, i)
    ensures i in Apply(db, a).idents
  {
  }

  lemma {:induction false} RunKeepsBinding(db: Db, acts: seq<Action>, i: Ident)
    requires Wf(db) && i in db.idents && forall k | 0 <= k < |acts| :: !Releases(acts[k], i)
    ensures i in Run(db, acts).idents
    decreases |acts|
  {
    if acts != [] {
      StepKeepsWf(db, acts[0]);
      StepKeepsBinding(db, acts[0], i);
      RunKeepsBinding(Apply(db, acts[0]), acts[1..], i);
    }
  }

  lemma SuccessfulLoginBinds(db: Db, mode: string, p: Profile, f: Faults)
    requires Wf(db) && Login(db, mode, p, f).1.Some?
    ensures Ident(Login(db, mode, p, f).1.value, p.kind, p.provider, p.uid) in Login(db, mode, p, f).0.idents
  {
  }

  lemma BoundLoginReturnsOwner(db: Db, mode: string, p: Profile, f: Faults, u: int)
    requires Wf(db) && Ident(u, p.kind, p.provider, p.uid) in db.idents
    ensures Login(db, mode, p, f).1 in {None, Some(u)}
  {
    OwnerIs(db, Ident(u, p.kind, p.provider, p.uid));
  }

  /** Login stability: whoever a login with (kind, provider, uid) returned, every later successful
      login with it returns the same user, in every mode and whatever email, name and username the
      provider sends, until that identity is unlinked or the user deleted. */
  lemma LoginIsStable(
    db: Db, mode: string, p: Profile, f: Faults, acts: seq<Action>, mode': string, p': Profile, f': Faults)
    requires Wf(db) && Login(db, mode, p, f).1.Some?
    requires p'.kind == p.kind && p'.provider == p.provider && p'.uid == p.uid
    requires var i := Ident(Login(db, mode, p, f).1.value, p.kind, p.provider, p.uid);
             forall k | 0 <= k < |acts| :: !Releases(acts[k], i)
    ensures Wf(Login(db, mode, p, f).0)
    ensures Login(Run(Login(db, mode, p, f).0, acts), mode', p', f').1 in {None, Login(db, mode, p, f).1}
  {
    LoginKeepsWf(db, mode, p, f);
    SuccessfulLoginBinds(db, mode, p, f);
    var u := Login(db, mode, p, f).1.value;
    RunKeepsBinding(Login(db, mode, p, f).0, acts, Ident(u, p.kind, p.provider, p.uid));
    BoundLoginReturnsOwner(Run(Login(db, mode, p, f).0, acts), mode', p', f', u);
  }

  /** The account answers to what the profile may be matched by; an attribute that may not be used is
      searched for as "", which the query compares with too. */
  predicate Answers(user: User, p: Profile) {
    || user.email == (if p.emailVerified then p.email else "")
    || user.username == (if p.matchByUsername then p.username else "")
  }

  /** Which account a login without its own identity may adopt, exactly: matching is on and has
      something to go by, the account is the only one that answers, it is external, and in mode
      "auto" nothing has pinned it yet. */
  lemma AdoptsIff(db: Db, mode: string, p: Profile, u: int)
    ensures MatchByEmail(db, mode, p) == Found(u) <==>
            && mode != "never" && ((p.emailVerified && p.email != "") || (p.matchByUsername && p.username != ""))
            && (forall w :: w in db.users && Answers(db.users[w], p) <==> w == u)
            && db.users[u].external && (mode == "auto" ==> IdentsOf(db, u) == {})
  {
    var username, email := if p.matchByUsername then p.username else "", if p.emailVerified then p.email else "";
    var hits := ByLoginOrEmail(db, username, email);
    assert forall w :: w in hits <==> w in db.users && Answers(db.users[w], p);
    if |hits| == 1 {
      HasElement(hits);
      var x :| x in hits;
      assert |hits - {x}| == 0;
      assert forall w :: w in hits <==> w == x;
    }
    if forall w :: w in hits <==> w == u {
      OnlyElement(hits, u);
    }
  }

  lemma OnlyElement(s: set<int>, u: int)
    requires forall w :: w in s <==> w == u
    ensures |s| == 1
  {
    assert forall w :: w in s <==> w in {u};
    assert s == {u};
  }

  /** An account that already existed is reached without its identity only by such an adoption. */
  lemma AdoptionIsJustified(db: Db, mode: string, p: Profile, f: Faults)
    requires Wf(db) && Login(db, mode, p, f).1.Some? && Owner(db, p.kind, p.provider, p.uid) == None
    requires Login(db, mode, p, f).1.value in db.users
    ensures var u := Login(db, mode, p, f).1.value;
            && mode != "never" && ((p.emailVerified && p.email != "") || (p.matchByUsername && p.username != ""))
            && (forall w :: w in db.users && Answers(db.users[w], p) <==> w == u)
            && db.users[u].external && (mode == "auto" ==> IdentsOf(db, u) == {})
  {
    AdoptsIff(db, mode, p, Login(db, mode, p, f).1.value);
  }

  predicate SameAccount(was: User, now: User) {
    now.username == was.username && now.external == was.external
  }

  /** A successful login leaves an external user with the name and email the provider sent, and a
      local user's profile as it was; no other account changes. */
  lemma LoginSyncsProfile(db: Db, mode: string, p: Profile, f: Faults)
    requires Wf(db) && Login(db, mode, p, f).1.Some?
    ensures var (db', r) := Login(db, mode, p, f);
            && r.value in db'.users
            && (db'.users[r.value].external ==>
                  && (p.email != "" ==> db'.users[r.value].email == p.email)
                  && (p.name != "" ==> db'.users[r.value].name == p.name))
            && (forall u | u in db.users && (u != r.value || !db.users[u].external) ::
                  u in db'.users && db'.users[u] == db.users[u])
            && (r.value in db.users ==> SameAccount(db.users[r.value], db'.users[r.value]))
  {
    var owner := Owner(db, p.kind, p.provider, p.uid);
    if owner.Some? {
      SyncBringsProfile(db, owner.value, p, f);
    } else if MatchByEmail(db, mode, p).Found? {
      var u := MatchByEmail(db, mode, p).user;
      SyncBringsProfile(db.(idents := db.idents + {Ident(u, p.kind, p.provider, p.uid)}), u, p, f);
    }
  }

  lemma SyncBringsProfile(db: Db, u: int, p: Profile, f: Faults)
    requires u in db.users && Sync(db, u, p, f).1.Some?
    ensures var (db', r) := Sync(db, u, p, f);
            && r == Some(u) && db'.users == db.users[u := Synced(db.users[u], p)]
            && SameAccount(db.users[u], db'.users[u]) && (!db.users[u].external ==> db'.users[u] == db.users[u])
            && (db'.users[u].external ==>
                  (p.email != "" ==> db'.users[u].email == p.email) && (p.name != "" ==> db'.users[u].name == p.name))
  {
    assert db.users[u := db.users[u]] == db.users;
  }

  /** Linking succeeds exactly when the identity is already the user's own, or is free and the user has
      none for that provider; then it leads to that user. */
  lemma LinkSucceedsIff(db: Db, u: int, kind: string, provider: string, uid: string)
    requires Wf(db) && u in db.users && kind != ""
    ensures var (db', ok) := Link(db, u, kind, provider, uid);
            && (ok <==> uid != "" && (Owner(db, kind, provider, uid) == Some(u)
                                      || (Owner(db, kind, provider, uid) == None && !HasIdent(db, u, kind, provider))))
            && (ok ==> Owner(db', kind, provider, uid) == Some(u))
            && (!ok ==> db' == db)
  {
    var (db', ok) := Link(db, u, kind, provider, uid);
    if ok {
      StepKeepsWf(db, DoLink(u, kind, provider, uid));
      assert Ident(u, kind, provider, uid) in db'.idents;
      OwnerIs(db', Ident(u, kind, provider, uid));
    }
  }

  // --- local accounts are never adopted ---

  function LinkedIn(acts: seq<Action>): set<int> {
    set a | a in acts && a.DoLink? :: a.user
  }

  /** Every identity belongs to an external user or to one in `linked`. */
  ghost predicate OwnedProperly(db: Db, linked: set<int>) {
    forall i | i in db.idents :: i.user in db.users && (db.users[i.user].external || i.user in linked)
  }

  lemma StepKeepsOwnership(db: Db, linked: set<int>, a: Action)
    requires Wf(db) && OwnedProperly(db, linked)
    ensures OwnedProperly(Apply(db, a), linked + LinkedIn([a]))
    ensures forall u | u in db.users && u in Apply(db, a).users ::
              Apply(db, a).users[u].external == db.users[u].external
  {
    match a
    case DoLogin(mode, p, f) =>
      LoginKeepsOwnership(db, linked, mode, p, f);
      assert OwnedProperly(Apply(db, a), linked);
    case DoLink(u, _, _, _) =>
      assert a in [a];
      assert u in LinkedIn([a]);
    case _ =>
      assert OwnedProperly(Apply(db, a), linked);
  }

  /** Profile synchronisation touches neither the identities nor who is external. */
  lemma SyncKeepsExternal(db: Db, u: int, p: Profile, f: Faults)
    requires u in db.users
    ensures var db' := Sync(db, u, p, f).0;
            && db'.idents == db.idents && db'.users.Keys == db.users.Keys
            && forall x | x in db.users :: db'.users[x].external == db.users[x].external
  {
  }

  lemma LoginKeepsOwnership(db: Db, linked: set<int>, mode: string, p: Profile, f: Faults)
    requires Wf(db) && OwnedProperly(db, linked)
    ensures OwnedProperly(Login(db, mode, p, f).0, linked)
    ensures forall u | u in db.users && u in Login(db, mode, p, f).0.users ::
              Login(db, mode, p, f).0.users[u].external == db.users[u].external
  {
    var owner := Owner(db, p.kind, p.provider, p.uid);
    if owner.Some? {
      SyncKeepsExternal(db, owner.value, p, f);
    } else if MatchByEmail(db, mode, p).Found? {
      var u := MatchByEmail(db, mode, p).user;
      assert u in db.users && db.users[u].external;
      SyncKeepsExternal(db.(idents := db.idents + {Ident(u, p.kind, p.provider, p.uid)}), u, p, f);
    }
  }

  /** Over every run, in every mode, a local user owns an identity only if it was linked for that
      user on purpose. */
  lemma {:induction false} LocalUsersOwnOnlyLinked(db: Db, linked: set<int>, acts: seq<Action>)
    requires Wf(db) && OwnedProperly(db, linked)
    ensures OwnedProperly(Run(db, acts), linked + LinkedIn(acts))
    decreases |acts|
  {
    if acts != [] {
      StepKeepsWf(db, acts[0]);
      StepKeepsOwnership(db, linked, acts[0]);
      LocalUsersOwnOnlyLinked(Apply(db, acts[0]), linked + LinkedIn([acts[0]]), acts[1..]);
      assert acts == [acts[0]] + acts[1..];
      assert linked + LinkedIn([acts[0]]) + LinkedIn(acts[1..]) == linked + LinkedIn(acts);
    }
  }

  /** A failed identity insert leaves no half-created account behind, so the login can be retried. */
  lemma FailedCreationIsUndone(db: Db, mode: string, p: Profile, f: Faults)
    requires Wf(db) && f.insertIdent && !f.deleteUser
    requires Owner(db, p.kind, p.provider, p.uid) == None
    ensures Login(db, mode, p, f).1 == None
    ensures Login(db, mode, p, f).0.users == db.users && Login(db, mode, p, f).0.idents == db.idents
  {
  }
}
