/** External identities: how an LDAP or OIDC login finds its user, how identities are linked and
    unlinked, and what these operations keep true of the user and identity tables. */
module Identity {
  import opened Wrappers
  import opened Collections

  datatype User = User(username: string, name: string, email: string, external: bool)

  /** A row of user__external_identity; the index on (kind, provider, uid) makes it unique. */
  datatype Ident = Ident(user: int, kind: string, provider: string, uid: string)

  /** Ids below `next` have been handed out; the sequence never goes back. */
  datatype Db = Db(users: map<int, User>, idents: set<Ident>, next: int)

  datatype Profile = Profile(
    kind: string, provider: string, uid: string,
    username: string, name: string, email: string,
    matchByUsername: bool, emailVerified: bool)

  /** Which database statements fail for reasons of their own. */
  datatype Faults = Faults(read: bool, insertIdent: bool, deleteUser: bool, update: bool)

  // --- tables ---

  ghost function Owner(db: Db, kind: string, provider: string, uid: string): Option<int> {
    if i :| i in db.idents && i.kind == kind && i.provider == provider && i.uid == uid then Some(i.user) else None
  }

  ghost function IdentsOf(db: Db, u: int): set<Ident> {
    set i | i in db.idents && i.user == u
  }

  ghost function ByLoginOrEmail(db: Db, username: string, email: string): set<int> {
    set u | u in db.users && (db.users[u].email == email || db.users[u].username == username)
  }

  /** Username and email carry unique indexes. */
  predicate Free(users: map<int, User>, u: int, username: string, email: string) {
    forall v | v in users && v != u :: users[v].username != username && users[v].email != email
  }

  ghost predicate Wf(db: Db) {
    && (forall u | u in db.users :: u < db.next && Free(db.users, u, db.users[u].username, db.users[u].email))
    && (forall i | i in db.idents :: i.user in db.users)
    && (forall i, j | i in db.idents && j in db.idents
          && i.kind == j.kind && i.provider == j.provider && i.uid == j.uid :: i == j)
  }

  lemma OwnerIs(db: Db, i: Ident)
    requires Wf(db) && i in db.idents
    ensures Owner(db, i.kind, i.provider, i.uid) == Some(i.user)
  {
  }

  // --- login ---

  datatype Match = NotFound | Failed | Found(user: int)

  /** matchExternalUserByEmail. SelectOne fails when several rows match. */
  ghost function MatchByEmail(db: Db, mode: string, p: Profile): Match {
    var email := if p.emailVerified then p.email else "";
    var username := if p.matchByUsername then p.username else "";
    if mode == "never" then NotFound
    else if email == "" && username == "" then NotFound
    else
      var hits := ByLoginOrEmail(db, username, email);
      if hits == {} then NotFound
      else if |hits| > 1 then Failed
      else
        HasElement(hits);
        var u :| u in hits;
        if !db.users[u].external then NotFound
        else if mode == "auto" && IdentsOf(db, u) != {} then NotFound
        else Found(u)
  }

  function Synced(user: User, p: Profile): User {
    if !user.external then user
    else user.(email := if p.email != "" then p.email else user.email,
               name := if p.name != "" then p.name else user.name)
  }

  /** syncExternalUserAttrs: the update may collide with another account's email. */
  ghost function Sync(db: Db, u: int, p: Profile, f: Faults): (Db, Option<int>)
    requires u in db.users
  {
    var user := Synced(db.users[u], p);
    if user == db.users[u] then (db, Some(u))
    else if f.update || !Free(db.users, u, user.username, user.email) then (db, None)
    else (db.(users := db.users[u := user]), Some(u))
  }

  ghost function CreateAndLink(db: Db, p: Profile, f: Faults): (Db, Option<int>) {
    if p.username == "" || p.email == "" || p.name == ""
      || !Free(db.users, db.next, p.username, p.email) then (db, None)
    else
      var u := db.next;
      var created := db.(users := db.users[u := User(p.username, p.name, p.email, true)], next := u + 1);
      if !f.insertIdent then (created.(idents := db.idents + {Ident(u, p.kind, p.provider, p.uid)}), Some(u))
      else if f.deleteUser then (created, None)
      else (db.(next := u + 1), None)
  }

  /** resolveExternalUser: by identity, else by email under the configured mode, else a new user. */
  ghost function Login(db: Db, mode: string, p: Profile, f: Faults): (Db, Option<int>)
    requires Wf(db)
  {
    if p.uid == "" || p.kind == "" || f.read then (db, None)
    else
      var owner := Owner(db, p.kind, p.provider, p.uid);
      if owner.Some? then Sync(db, owner.value, p, f)
      else
        match MatchByEmail(db, mode, p)
        case Failed => (db, None)
        case Found(u) =>
          if f.insertIdent then (db, None)
          else Sync(db.(idents := db.idents + {Ident(u, p.kind, p.provider, p.uid)}), u, p, f)
        case NotFound => CreateAndLink(db, p, f)
  }

  // --- link and unlink ---

  /** linkExternalIdentity; the insert defaults an empty kind to "oidc". */
  ghost function Link(db: Db, u: int, kind: string, provider: string, uid: string): (Db, bool) {
    var owner := Owner(db, kind, provider, uid);
    var stored := if kind == "" then "oidc" else kind;
    if uid == "" then (db, false)
    else if owner.Some? then (db, owner.value == u)
    else if exists i :: i in db.idents && i.user == u && i.kind == kind && i.provider == provider then (db, false)
    else if u !in db.users || Owner(db, stored, provider, uid).Some? then (db, false)
    else (db.(idents := db.idents + {Ident(u, stored, provider, uid)}), true)
  }

  ghost predicate HasIdent(db: Db, u: int, kind: string, provider: string) {
    exists i :: i in db.idents && i.user == u && i.kind == kind && i.provider == provider
  }

  /** DeleteUserIdentity: refuses to unlink the last identity of an external user, then deletes by
      (user, kind, provider). */
  ghost function Unlink(db: Db, u: int, external: bool, kind: string, provider: string): (Db, bool) {
    if kind != "ldap" && kind != "oidc" then (db, false)
    else if external && HasIdent(db, u, kind, provider) && |IdentsOf(db, u)| <= 1 then (db, false)
    else (db.(idents := set i | i in db.idents && !(i.user == u && i.kind == kind && i.provider == provider)), true)
  }

  // --- the tables in place ---

  class Tables {
    var users: map<int, User>
    var idents: set<Ident>
    var next: int

    constructor ()
      ensures Value() == Db(map[], {}, 1)
    {
      users, idents, next := map[], {}, 1;
    }

    function Value(): Db
      reads this
    {
      Db(users, idents, next)
    }

    method GetExternalIdentity(kind: string, provider: string, uid: string) returns (r: Option<int>)
      requires Wf(Value())
      ensures r == Owner(Value(), kind, provider, uid)
    {
      var rest := idents;
      while rest != {}
        invariant rest <= idents
        invariant forall i | i in idents && i !in rest :: !(i.kind == kind && i.provider == provider && i.uid == uid)
      {
        var i :| i in rest;
        if i.kind == kind && i.provider == provider && i.uid == uid {
          return Some(i.user);
        }
        rest := rest - {i};
      }
      r := None;
    }

    method GetUserExternalIdentities(u: int) returns (r: set<Ident>)
      ensures r == IdentsOf(Value(), u)
    {
      r := set i | i in idents && i.user == u;
    }

    method MatchExternalUserByEmail(mode: string, p: Profile) returns (r: Match)
      ensures r == MatchByEmail(Value(), mode, p)
    {
      if mode == "never" {
        return NotFound;
      }
      var email := if p.emailVerified then p.email else "";
      var username := if p.matchByUsername then p.username else "";
      if email == "" && username == "" {
        return NotFound;
      }
      var hits := set u | u in users && (users[u].email == email || users[u].username == username);
      assert hits == ByLoginOrEmail(Value(), username, email);
      if hits == {} {
        return NotFound;
      }
      if |hits| > 1 {
        return Failed;
      }
      HasElement(hits);
      var u :| u in hits;
      assert hits == {u} by {
        assert |hits - {u}| == |hits| - 1;
      }
      if !users[u].external {
        return NotFound;
      }
      if mode == "auto" {
        var pinned := GetUserExternalIdentities(u);
        if pinned != {} {
          return NotFound;
        }
      }
      return Found(u);
    }

    method SyncExternalUserAttrs(u: int, p: Profile, f: Faults) returns (r: Option<int>)
      requires u in users
      modifies this`users
      ensures (Value(), r) == Sync(old(Value()), u, p, f)
    {
      var user := users[u];
      if !user.external {
        return Some(u);
      }
      var changed := false;
      if p.email != "" && user.email != p.email {
        user := user.(email := p.email);
        changed := true;
      }
      if p.name != "" && user.name != p.name {
        user := user.(name := p.name);
        changed := true;
      }
      if !changed {
        return Some(u);
      }
      if f.update || !Free(users, u, user.username, user.email) {
        return None;
      }
      users := users[u := user];
      return Some(u);
    }

    method ResolveExternalUser(mode: string, p: Profile, f: Faults) returns (r: Option<int>)
      requires Wf(Value())
      modifies this
      ensures (Value(), r) == Login(old(Value()), mode, p, f)
    {
      if p.uid == "" || p.kind == "" || f.read {
        return None;
      }
      var owner := GetExternalIdentity(p.kind, p.provider, p.uid);
      if owner.Some? {
        r := SyncExternalUserAttrs(owner.value, p, f);
        return;
      }
      var m := MatchExternalUserByEmail(mode, p);
      if m.Failed? {
        return None;
      }
      if m.Found? {
        if f.insertIdent {
          return None;
        }
        idents := idents + {Ident(m.user, p.kind, p.provider, p.uid)};
        r := SyncExternalUserAttrs(m.user, p, f);
        return;
      }
      if p.username == "" || p.email == "" || p.name == "" || !Free(users, next, p.username, p.email) {
        return None;
      }
      var u := next;
      ghost var before := users;
      users, next := users[u := User(p.username, p.name, p.email, true)], u + 1;
      if f.insertIdent {
        if !f.deleteUser {
          users := users - {u};
          assert users == before;
        }
        return None;
      }
      idents := idents + {Ident(u, p.kind, p.provider, p.uid)};
      return Some(u);
    }

    method LinkExternalIdentity(u: int, kind: string, provider: string, uid: string) returns (ok: bool)
      requires Wf(Value())
      modifies this`idents
      ensures (Value(), ok) == Link(old(Value()), u, kind, provider, uid)
    {
      if uid == "" {
        return false;
      }
      var owner := GetExternalIdentity(kind, provider, uid);
      if owner.Some? {
        return owner.value == u;
      }
      var mine := GetUserExternalIdentities(u);
      if exists i | i in mine :: i.kind == kind && i.provider == provider {
        return false;
      }
      var stored := if kind == "" then "oidc" else kind;
      var taken := GetExternalIdentity(stored, provider, uid);
      if u !in users || taken.Some? {
        return false;
      }
      idents := idents + {Ident(u, stored, provider, uid)};
      return true;
    }

    method DeleteUserIdentity(u: int, external: bool, kind: string, provider: string) returns (ok: bool)
      modifies this`idents
      ensures (Value(), ok) == Unlink(old(Value()), u, external, kind, provider)
    {
      if kind != "ldap" && kind != "oidc" {
        return false;
      }
      var mine := GetUserExternalIdentities(u);
      var targetExists := false;
      var rest := mine;
      while rest != {}
        invariant rest <= mine && !targetExists
        invariant forall i | i in mine && i !in rest :: !(i.kind == kind && i.provider == provider)
      {
        var i :| i in rest;
        if i.kind == kind && i.provider == provider {
          targetExists := true;
          break;
        }
        rest := rest - {i};
      }
      assert targetExists <==> HasIdent(Value(), u, kind, provider);
      if external && targetExists && |mine| <= 1 {
        return false;
      }
      idents := set i | i in idents && !(i.user == u && i.kind == kind && i.provider == provider);
      return true;
    }
  }

  // --- runs ---

  datatype Action =
    | DoLogin(mode: string, profile: Profile, faults: Faults)
    | DoLink(user: int, kind: string, provider: string, uid: string)
    | DoUnlink(user: int, kind: string, provider: string)
    | CreateUser(account: User)
    | UpdateUser(user: int, username: string, name: string, email: string)
    | DeleteUser(user: int)

  ghost function Apply(db: Db, a: Action): Db
    requires Wf(db)
  {
    match a
    case DoLogin(mode, p, f) => Login(db, mode, p, f).0
    case DoLink(u, kind, provider, uid) => Link(db, u, kind, provider, uid).0
    case DoUnlink(u, kind, provider) =>
      if u !in db.users then db else Unlink(db, u, db.users[u].external, kind, provider).0
    case CreateUser(account) =>
      if !Free(db.users, db.next, account.username, account.email) then db
      else db.(users := db.users[db.next := account], next := db.next + 1)
    case UpdateUser(u, username, name, email) =>
      if u !in db.users || !Free(db.users, u, username, email) then db
      else db.(users := db.users[u := User(username, name, email, db.users[u].external)])
    case DeleteUser(u) =>
      db.(users := db.users - {u}, idents := set i | i in db.idents && i.user != u)
  }

  lemma {:induction false} StepKeepsWf(db: Db, a: Action)
    requires Wf(db)
    ensures Wf(Apply(db, a))
  {
    match a
    case DoLogin(mode, p, f) =>
      LoginKeepsWf(db, mode, p, f);
    case _ =>
  }

  lemma SyncKeepsWf(db: Db, u: int, p: Profile, f: Faults)
    requires Wf(db) && u in db.users
    ensures Wf(Sync(db, u, p, f).0)
  {
  }

  lemma LoginKeepsWf(db: Db, mode: string, p: Profile, f: Faults)
    requires Wf(db)
    ensures Wf(Login(db, mode, p, f).0)
  {
    var owner := Owner(db, p.kind, p.provider, p.uid);
    if owner.Some? {
      SyncKeepsWf(db, owner.value, p, f);
    } else if MatchByEmail(db, mode, p).Found? {
      var u := MatchByEmail(db, mode, p).user;
      AdoptKeepsWf(db, Ident(u, p.kind, p.provider, p.uid));
      SyncKeepsWf(db.(idents := db.idents + {Ident(u, p.kind, p.provider, p.uid)}), u, p, f);
    } else {
      CreateKeepsWf(db, p, f);
    }
  }

  lemma AdoptKeepsWf(db: Db, i: Ident)
    requires Wf(db) && i.user in db.users && Owner(db, i.kind, i.provider, i.uid) == None
    ensures Wf(db.(idents := db.idents + {i}))
  {
  }

  lemma CreateKeepsWf(db: Db, p: Profile, f: Faults)
    requires Wf(db) && Owner(db, p.kind, p.provider, p.uid) == None
    ensures Wf(CreateAndLink(db, p, f).0)
  {
  }
}
