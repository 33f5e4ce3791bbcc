/** When logins, links and unlinks succeed and what they leave behind, read off the tables, the profile
    and the database faults. */
module IdentityLogins {
  import opened Wrappers
  import opened Collections
  import opened Identity
  import opened IdentityRuns

  // --- profile synchronisation ---

  /** The provider has nothing new to say about the account, or may not say it. */
  predicate UpToDate(user: User, p: Profile) {
    || !user.external
    || ((p.email == "" || p.email == user.email) && (p.name == "" || p.name == user.name))
  }

  /** No other account has the profile's email. */
  predicate EmailFree(db: Db, u: int, p: Profile) {
    p.email == "" || forall w | w in db.users && w != u :: db.users[w].email != p.email
  }

  /** The account with the provider's email and name, where it sends any. */
  function Refreshed(user: User, p: Profile): User {
    User(user.username, if p.name == "" then user.name else p.name, if p.email == "" then user.email else p.email, true)
  }

  /** Synchronising succeeds exactly when there is nothing to do, or the update goes through and no other
      account has the email; it then leaves the account up to date, and otherwise changes nothing. */
  lemma SyncIff(db: Db, u: int, p: Profile, f: Faults)
    requires Wf(db) && u in db.users
    ensures var (db', r) := Sync(db, u, p, f);
            if UpToDate(db.users[u], p) then r == Some(u) && db' == db
            else if !f.update && EmailFree(db, u, p) then
              r == Some(u) && db' == db.(users := db.users[u := Refreshed(db.users[u], p)])
            else r == None && db' == db
  {
    var user := db.users[u];
    assert Free(db.users, u, user.username, user.email);
    if user.external && !UpToDate(user, p) {
      assert Synced(user, p) == Refreshed(user, p);
      assert Free(db.users, u, user.username, Refreshed(user, p).email) <==> EmailFree(db, u, p);
    }
  }

  // --- login ---

  predicate WellFormedLogin(p: Profile, f: Faults) {
    p.uid != "" && p.kind != "" && !f.read
  }

  /** A login with a bound identity succeeds exactly when its profile can be synchronised; it returns the
      user the identity is bound to, and touches no identity. */
  lemma BoundLoginIff(db: Db, mode: string, p: Profile, f: Faults, u: int)
    requires Wf(db) && Ident(u, p.kind, p.provider, p.uid) in db.idents && WellFormedLogin(p, f)
    ensures var (db', r) := Login(db, mode, p, f);
            var user := db.users[u];
            && (r == Some(u) <==> UpToDate(user, p) || (!f.update && EmailFree(db, u, p)))
            && (r != Some(u) ==> r == None && db' == db)
            && (r == Some(u) ==>
                  db' == if UpToDate(user, p) then db else db.(users := db.users[u := Refreshed(user, p)]))
  {
    OwnerIs(db, Ident(u, p.kind, p.provider, p.uid));
    SyncIff(db, u, p, f);
  }

  /** A login that adopts an account (see AdoptsIff for which) succeeds exactly when the identity can be
      inserted and the profile synchronised; an inserted identity stays even if the latter fails. */
  lemma AdoptingLoginIff(db: Db, mode: string, p: Profile, f: Faults, u: int)
    requires Wf(db) && WellFormedLogin(p, f)
    requires Owner(db, p.kind, p.provider, p.uid) == None && MatchByEmail(db, mode, p) == Found(u)
    ensures u in db.users
    ensures var (db', r) := Login(db, mode, p, f);
            var linked := db.(idents := db.idents + {Ident(u, p.kind, p.provider, p.uid)});
            && (r == Some(u) <==> !f.insertIdent && (UpToDate(db.users[u], p) || (!f.update && EmailFree(db, u, p))))
            && (r != Some(u) ==> r == None && db' == if f.insertIdent then db else linked)
            && (r == Some(u) ==>
                  db' == if UpToDate(db.users[u], p) then linked
                         else linked.(users := db.users[u := Refreshed(db.users[u], p)]))
  {
    AdoptsIff(db, mode, p, u);
    var i := Ident(u, p.kind, p.provider, p.uid);
    AdoptKeepsWf(db, i);
    SyncIff(db.(idents := db.idents + {i}), u, p, f);
  }

  /** No account has this username or this email. */
  predicate Unknown(db: Db, p: Profile) {
    forall w | w in db.users :: db.users[w].username != p.username && db.users[w].email != p.email
  }

  /** A login that matches nobody succeeds exactly when the profile is complete, its username and email
      are unknown and the identity can be inserted; the new external account carries the profile. */
  lemma CreatingLoginIff(db: Db, mode: string, p: Profile, f: Faults)
    requires Wf(db) && WellFormedLogin(p, f)
    requires Owner(db, p.kind, p.provider, p.uid) == None && MatchByEmail(db, mode, p) == NotFound
    ensures var (db', r) := Login(db, mode, p, f);
            var created := p.username != "" && p.email != "" && p.name != "" && Unknown(db, p);
            && (r.Some? <==> created && !f.insertIdent)
            && (r.Some? ==>
                  && r.value !in db.users
                  && db'.users == db.users[r.value := User(p.username, p.name, p.email, true)]
                  && db'.idents == db.idents + {Ident(r.value, p.kind, p.provider, p.uid)})
            && (r == None ==> db'.idents == db.idents)
            && (r == None && !(created && f.deleteUser) ==> db'.users == db.users)
  {
    assert Free(db.users, db.next, p.username, p.email) <==> Unknown(db, p);
  }

  /** Two accounts answer to the profile. */
  ghost predicate Ambiguous(db: Db, p: Profile) {
    exists w, w' | w in db.users && w' in db.users && w != w' ::
      Answers(db.users[w], p) && Answers(db.users[w'], p)
  }

  /** Matching fails exactly when it is on, has something to go by, and two accounts answer. */
  lemma MatchFailsIff(db: Db, mode: string, p: Profile)
    ensures MatchByEmail(db, mode, p) == Failed <==>
            && mode != "never" && ((p.emailVerified && p.email != "") || (p.matchByUsername && p.username != ""))
            && Ambiguous(db, p)
  {
    var username, email := if p.matchByUsername then p.username else "", if p.emailVerified then p.email else "";
    var hits := ByLoginOrEmail(db, username, email);
    assert forall w :: w in hits <==> w in db.users && Answers(db.users[w], p);
    TwoElementsIff(hits);
  }

  lemma TwoElementsIff(s: set<int>)
    ensures |s| > 1 <==> exists x, y | x in s && y in s :: x != y
  {
    if |s| > 1 {
      HasElement(s);
      var x :| x in s;
      assert |s - {x}| == |s| - 1;
      HasElement(s - {x});
      var y :| y in s - {x};
      assert y in s && x != y;
    } else if x, y :| x in s && y in s && x != y {
      PairIsTwo(s, x, y);
    }
  }

  lemma PairIsTwo(s: set<int>, x: int, y: int)
    requires x in s && y in s && x != y
    ensures |s| > 1
  {
    SubsetSize({x, y}, s);
  }

  /** A login without a uid or type, with an unreadable table or an ambiguous match is refused, and leaves
      the tables alone. */
  lemma RefusedLogin(db: Db, mode: string, p: Profile, f: Faults)
    requires Wf(db)
    requires !WellFormedLogin(p, f)
               || (Owner(db, p.kind, p.provider, p.uid) == None && MatchByEmail(db, mode, p) == Failed)
    ensures Login(db, mode, p, f) == (db, None)
  {
  }

  /** When a login succeeds, in one statement. */
  lemma LoginSucceedsIff(db: Db, mode: string, p: Profile, f: Faults)
    requires Wf(db)
    ensures Login(db, mode, p, f).1.Some? <==>
            && WellFormedLogin(p, f)
            && (|| (exists u :: Ident(u, p.kind, p.provider, p.uid) in db.idents && CanSync(db, u, p, f))
                || (&& (forall u :: Ident(u, p.kind, p.provider, p.uid) !in db.idents) && !f.insertIdent
                    && (|| (exists u :: MatchByEmail(db, mode, p) == Found(u) && CanSync(db, u, p, f))
                        || (&& MatchByEmail(db, mode, p) == NotFound
                            && p.username != "" && p.email != "" && p.name != "" && Unknown(db, p)))))
  {
    if WellFormedLogin(p, f) {
      var owner := Owner(db, p.kind, p.provider, p.uid);
      if owner.Some? {
        BoundLoginIff(db, mode, p, f, owner.value);
        assert forall u | Ident(u, p.kind, p.provider, p.uid) in db.idents :: u == owner.value;
      } else {
        assert forall u :: Ident(u, p.kind, p.provider, p.uid) !in db.idents;
        match MatchByEmail(db, mode, p)
        case Found(u) => AdoptingLoginIff(db, mode, p, f, u);
        case NotFound => CreatingLoginIff(db, mode, p, f);
        case Failed => RefusedLogin(db, mode, p, f);
      }
    } else {
      RefusedLogin(db, mode, p, f);
    }
  }

  predicate CanSync(db: Db, u: int, p: Profile, f: Faults) {
    u in db.users && (UpToDate(db.users[u], p) || (!f.update && EmailFree(db, u, p)))
  }

  /** Whoever got in gets in again with the same profile, as the same user and in every mode, and the
      second login changes nothing. */
  lemma ReturningUser(db: Db, mode: string, p: Profile, f: Faults, mode': string, f': Faults)
    requires Wf(db) && Login(db, mode, p, f).1.Some? && !f'.read
    ensures Wf(Login(db, mode, p, f).0)
    ensures Login(Login(db, mode, p, f).0, mode', p, f') == Login(db, mode, p, f)
  {
    LoginKeepsWf(db, mode, p, f);
    SuccessfulLoginBinds(db, mode, p, f);
    LoginSyncsProfile(db, mode, p, f);
    var (db', r) := Login(db, mode, p, f);
    BoundLoginIff(db', mode', p, f', r.value);
  }

  // --- account changes ---

  /** An account is created exactly when its username and email are new, under an id never used before;
      nothing else changes. */
  lemma CreateUserIff(db: Db, account: User)
    requires Wf(db)
    ensures var db' := Apply(db, CreateUser(account));
            && db'.idents == db.idents
            && (if forall w | w in db.users ::
                db.users[w].username != account.username && db.users[w].email != account.email
                then db.next !in db.users && db'.users == db.users[db.next := account]
                else db' == db)
  {
    assert Free(db.users, db.next, account.username, account.email) <==>
           forall w | w in db.users :: db.users[w].username != account.username && db.users[w].email != account.email;
  }

  /** An update goes through exactly when no other account has the username or email; it never changes
      whether the account is external, nor anything else. */
  lemma UpdateUserIff(db: Db, u: int, username: string, name: string, email: string)
    requires Wf(db)
    ensures var db' := Apply(db, UpdateUser(u, username, name, email));
            if u in db.users
               && forall w | w in db.users && w != u :: db.users[w].username != username && db.users[w].email != email
            then db' == db.(users := db.users[u := User(username, name, email, db.users[u].external)])
            else db' == db
  {
  }

  /** A deleted user is gone with its identities, and nobody else's. */
  lemma DeleteUserRemoves(db: Db, u: int)
    requires Wf(db)
    ensures var db' := Apply(db, DeleteUser(u));
            && u !in db'.users && (forall w | w != u :: (w in db'.users <==> w in db.users))
            && (forall w | w in db'.users :: db'.users[w] == db.users[w])
            && (forall i: Ident :: i in db'.idents <==> i in db.idents && i.user != u)
  {
  }

  // --- link and unlink ---

  /** A link changes nothing but to add the identity, for a user that is there. */
  lemma LinkAddsOnly(db: Db, u: int, kind: string, provider: string, uid: string)
    requires Wf(db) && kind != ""
    ensures var (db', ok) := Link(db, u, kind, provider, uid);
            && (ok ==> db' == db.(idents := db.idents + {Ident(u, kind, provider, uid)}))
            && (!ok ==> db' == db)
            && (ok ==> u in db.users && uid != "")
  {
    if Link(db, u, kind, provider, uid).1 && Owner(db, kind, provider, uid).Some? {
      assert Ident(u, kind, provider, uid) in db.idents;
      assert db.idents + {Ident(u, kind, provider, uid)} == db.idents;
    }
  }

  /** An unlink is refused exactly for an unknown kind, or when it names the only identity of an external
      user; otherwise the named identities are gone, and no others. */
  lemma UnlinkIff(db: Db, u: int, external: bool, kind: string, provider: string)
    ensures var (db', ok) := Unlink(db, u, external, kind, provider);
            && (ok <==> (kind == "ldap" || kind == "oidc")
                        && !(external && HasIdent(db, u, kind, provider) && |IdentsOf(db, u)| == 1))
            && (!ok ==> db' == db)
            && (ok ==> db'.users == db.users && db'.next == db.next && !HasIdent(db', u, kind, provider))
            && (ok ==> forall i: Ident :: !(i.user == u && i.kind == kind && i.provider == provider) ==>
                         (i in db'.idents <==> i in db.idents))
  {
    if HasIdent(db, u, kind, provider) {
      var i :| i in db.idents && i.user == u && i.kind == kind && i.provider == provider;
      assert i in IdentsOf(db, u);
    }
  }

  /** A link can be undone: unlinking what was just linked gives the tables back, unless it was the
      user's own already or is an external user's only identity. */
  lemma UnlinkUndoesLink(db: Db, u: int, kind: string, provider: string, uid: string)
    requires Wf(db) && (kind == "ldap" || kind == "oidc") && !HasIdent(db, u, kind, provider)
    requires Link(db, u, kind, provider, uid).1
    requires u in db.users && (db.users[u].external ==> IdentsOf(db, u) != {})
    ensures Unlink(Link(db, u, kind, provider, uid).0, u, db.users[u].external, kind, provider) == (db, true)
  {
    LinkAddsOnly(db, u, kind, provider, uid);
    var i := Ident(u, kind, provider, uid);
    var db1 := db.(idents := db.idents + {i});
    assert i !in db.idents;
    if db.users[u].external {
      var j :| j in IdentsOf(db, u);
      assert {i, j} <= IdentsOf(db1, u) && i != j;
      SubsetSize({i, j}, IdentsOf(db1, u));
    }
    UnlinkIff(db1, u, db.users[u].external, kind, provider);
    var db2 := Unlink(db1, u, db.users[u].external, kind, provider).0;
    forall x: Ident
      ensures x in db2.idents <==> x in db.idents
    {
      if x.user == u && x.kind == kind && x.provider == provider {
        assert x !in db.idents && x !in db2.idents;
      }
    }
    assert db2.idents == db.idents;
  }
}
