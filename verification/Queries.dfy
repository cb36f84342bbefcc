/** The read side: role and permission checks, feature evaluation, and how they agree. */
module Queries {

  import opened Rows
  import opened AuthModel
  import opened StoreInvariant

  // ---- Roles and permissions -------------------------------------------------------------

  function GetRoleObject(db: Db, user: nat, tenant: nat): Option<Role> {
    match First(db.members, SeatIs(user, tenant))
    case None => None
    case Some(m) => First(db.roles, RoleWithId(m.role))
  }

  function GetRole(db: Db, user: nat, tenant: nat): Option<string> {
    match GetRoleObject(db, user, tenant)
    case None => None
    case Some(r) => Some(r.slug)
  }

  function RoleAmong(id: nat, slugs: seq<string>): Role -> bool {
    (r: Role) => r.id == id && r.slug in slugs
  }

  function SlugJoin(db: Db, user: nat, tenant: nat, slugs: seq<string>): Membership -> bool {
    (m: Membership) => SeatIs(user, tenant)(m) && Exists(db.roles, RoleAmong(m.role, slugs))
  }

  /** `has_role`; the caller is None when anonymous. */
  predicate HasRole(db: Db, caller: Option<User>, tenant: nat, slugs: seq<string>) {
    caller.Some? && (caller.value.isSuperuser || Exists(db.members, SlugJoin(db, caller.value.id, tenant, slugs)))
  }

  function PermissionNamed(id: nat, code: string): Permission -> bool {
    (p: Permission) => p.id == id && p.code == code
  }

  function GrantTo(permissions: seq<Permission>, role: nat, code: string): Grant -> bool {
    (g: Grant) => g.role == role && Exists(permissions, PermissionNamed(g.permission, code))
  }

  function CodeJoin(db: Db, user: nat, tenant: nat, code: string): Membership -> bool {
    (m: Membership) => SeatIs(user, tenant)(m) && Exists(db.grants, GrantTo(db.permissions, m.role, code))
  }

  predicate HasPermission(db: Db, caller: Option<User>, tenant: nat, code: string) {
    caller.Some? && (caller.value.isSuperuser || Exists(db.members, CodeJoin(db, caller.value.id, tenant, code)))
  }

  /** `role.permissions.values_list("code")`. */
  function CodesOf(grants: seq<Grant>, permissions: seq<Permission>, role: nat): seq<string> {
    if grants == [] then []
    else
      var rest, g := CodesOf(grants[..|grants| - 1], permissions, role), grants[|grants| - 1];
      match First(permissions, (p: Permission) => p.id == g.permission)
      case Some(p) => if g.role == role then rest + [p.code] else rest
      case None => rest
  }

  function GetUserPermissions(db: Db, user: nat, tenant: nat): seq<string> {
    match First(db.members, SeatIs(user, tenant))
    case None => []
    case Some(m) => CodesOf(db.grants, db.permissions, m.role)
  }

  ghost predicate Granted(db: Db, role: nat, code: string) {
    exists g, p | g in db.grants && p in db.permissions :: g.role == role && g.permission == p.id && p.code == code
  }

  /** The join over permissions, grants and memberships, as a statement about rows. */
  lemma GrantedJoin(db: Db, role: nat, code: string)
    ensures Exists(db.grants, GrantTo(db.permissions, role, code)) <==> Granted(db, role, code)
  {
    if g :| g in db.grants && GrantTo(db.permissions, role, code)(g) {
      var p :| p in db.permissions && PermissionNamed(g.permission, code)(p);
    }
    if g, p :| g in db.grants && p in db.permissions && g.role == role && g.permission == p.id && p.code == code {
      assert PermissionNamed(g.permission, code)(p);
      assert GrantTo(db.permissions, role, code)(g);
    }
  }

  /** The one membership of a user in a tenant. */
  lemma TheSeat(db: Db, user: nat, tenant: nat, m: Membership)
    requires Inv(db) && m in db.members && SeatIs(user, tenant)(m)
    ensures First(db.members, SeatIs(user, tenant)) == Some(m)
  {
    SameRow(db.members, MemberSeat, m, First(db.members, SeatIs(user, tenant)).value);
  }

  lemma TheRole(db: Db, r: Role)
    requires Inv(db) && r in db.roles
    ensures First(db.roles, RoleWithId(r.id)) == Some(r)
  {
    SameRow(db.roles, RoleId, r, First(db.roles, RoleWithId(r.id)).value);
  }

  /** A membership has a role object, in its own tenant. */
  lemma SeatHasRole(db: Db, user: nat, tenant: nat)
    requires Inv(db)
    ensures var seat := First(db.members, SeatIs(user, tenant)); var r := GetRoleObject(db, user, tenant);
      && (seat.Some? <==> r.Some?)
      && (r.Some? ==> r.value in db.roles && r.value.id == seat.value.role && r.value.tenant == tenant)
  {
    var seat := First(db.members, SeatIs(user, tenant));
    if seat.Some? {
      assert SeatIs(user, tenant)(seat.value) && Seated(seat.value, db.roles, db.users);
      var r :| r in db.roles && r.id == seat.value.role && r.tenant == seat.value.tenant;
      TheRole(db, r);
    }
  }

  /** For a non-superuser, `has_role` says that the fetched role is one of those asked for. */
  lemma HasRoleIsLookup(db: Db, u: User, tenant: nat, slugs: seq<string>)
    requires Inv(db) && !u.isSuperuser
    ensures var r := GetRole(db, u.id, tenant); HasRole(db, Some(u), tenant, slugs) <==> r.Some? && r.value in slugs
  {
    var seat, p := First(db.members, SeatIs(u.id, tenant)), SlugJoin(db, u.id, tenant, slugs);
    SeatHasRole(db, u.id, tenant);
    if m :| m in db.members && p(m) {
      TheSeat(db, u.id, tenant, m);
      assert Exists(db.roles, RoleAmong(m.role, slugs));
      var r :| r in db.roles && RoleAmong(m.role, slugs)(r);
      TheRole(db, r);
    } else if seat.Some? {
      assert !p(seat.value);
      var r := GetRoleObject(db, u.id, tenant).value;
      assert SeatIs(u.id, tenant)(seat.value);
      assert r in db.roles && r.id == seat.value.role;
    }
  }

  lemma {:induction false} CodesOfRows(grants: seq<Grant>, permissions: seq<Permission>, role: nat, code: string)
    requires PermissionsOk(permissions)
    ensures code in CodesOf(grants, permissions, role) <==>
      exists g, p | g in grants && p in permissions :: g.role == role && g.permission == p.id && p.code == code
  {
    if grants != [] {
      var n := |grants| - 1;
      var g, init := grants[n], grants[..n];
      assert grants == init + [g];
      CodesOfRows(init, permissions, role, code);
      var found := First(permissions, (p: Permission) => p.id == g.permission);
      if p :| p in permissions && g.permission == p.id {
        SameRow(permissions, PermissionId, p, found.value);
      }
    }
  }

  /** No code is listed twice. */
  lemma {:induction false} CodesOfDistinct(grants: seq<Grant>, permissions: seq<Permission>, role: nat)
    requires PermissionsOk(permissions) && Distinct(grants, GrantItself)
    ensures Distinct(CodesOf(grants, permissions, role), Itself)
  {
    if grants != [] {
      var n := |grants| - 1;
      var g, init := grants[n], grants[..n];
      CodesOfDistinct(init, permissions, role);
      var found := First(permissions, (p: Permission) => p.id == g.permission);
      if found.Some? && g.role == role {
        CodesOfRows(init, permissions, role, found.value.code);
        assert forall h | h in init :: GrantItself(h) != GrantItself(g);
        forall h, p | h in init && p in permissions && h.role == role && h.permission == p.id
          ensures p.code != found.value.code
        {
          if p.code == found.value.code {
            SameRow(permissions, PermissionCode, p, found.value);
          }
        }
      }
    }
  }

  /** For a non-superuser, `has_permission` says that the code is in the fetched list. */
  lemma HasPermissionIsLookup(db: Db, u: User, tenant: nat, code: string)
    requires Inv(db) && !u.isSuperuser
    ensures HasPermission(db, Some(u), tenant, code) <==> code in GetUserPermissions(db, u.id, tenant)
  {
    var seat, q := First(db.members, SeatIs(u.id, tenant)), CodeJoin(db, u.id, tenant, code);
    if m :| m in db.members && q(m) {
      TheSeat(db, u.id, tenant, m);
      GrantedJoin(db, m.role, code);
      CodesOfRows(db.grants, db.permissions, m.role, code);
    } else if seat.Some? {
      assert SeatIs(u.id, tenant)(seat.value) && !q(seat.value);
      GrantedJoin(db, seat.value.role, code);
      CodesOfRows(db.grants, db.permissions, seat.value.role, code);
    }
  }

  /** Who holds one of some roles, in terms of rows: nobody anonymous, every superuser, and otherwise the users
      with a membership in the tenant whose role is one of them. */
  lemma HasRoleExact(db: Db, caller: Option<User>, tenant: nat, slugs: seq<string>)
    ensures HasRole(db, caller, tenant, slugs) <==>
      caller.Some? && (
        caller.value.isSuperuser ||
        exists m, r | m in db.members && r in db.roles ::
          m.user == caller.value.id && m.tenant == tenant && m.role == r.id && r.slug in slugs)
  {
    if caller.Some? {
      var user := caller.value.id;
      forall m, r | m in db.members && r in db.roles && RoleAmong(m.role, slugs)(r) && SeatIs(user, tenant)(m)
        ensures SlugJoin(db, user, tenant, slugs)(m)
      {
      }
      if m :| m in db.members && SlugJoin(db, user, tenant, slugs)(m) {
        assert SeatIs(user, tenant)(m) && Exists(db.roles, RoleAmong(m.role, slugs));
        var r :| r in db.roles && RoleAmong(m.role, slugs)(r);
      }
    }
  }

  /** Who holds a permission, likewise: nobody anonymous, every superuser, and otherwise the users with a membership
      in the tenant whose role has been granted a permission of that code. */
  lemma HasPermissionExact(db: Db, caller: Option<User>, tenant: nat, code: string)
    ensures HasPermission(db, caller, tenant, code) <==>
      caller.Some? && (
        caller.value.isSuperuser ||
        exists m | m in db.members :: m.user == caller.value.id && m.tenant == tenant && Granted(db, m.role, code))
  {
    if caller.Some? {
      var user := caller.value.id;
      forall m | m in db.members && SeatIs(user, tenant)(m)
        ensures CodeJoin(db, user, tenant, code)(m) <==> Granted(db, m.role, code)
      {
        GrantedJoin(db, m.role, code);
      }
      assert forall m | m in db.members && m.user == user && m.tenant == tenant :: SeatIs(user, tenant)(m);
    }
  }

  /** The fetched role object is the row that the user's membership in the tenant refers to. */
  lemma RoleObjectExact(db: Db, user: nat, tenant: nat)
    requires Inv(db)
    ensures GetRoleObject(db, user, tenant).None? <==>
      forall m | m in db.members :: !(m.user == user && m.tenant == tenant)
    ensures forall m, r | m in db.members && r in db.roles && m.user == user && m.tenant == tenant && m.role == r.id ::
      GetRoleObject(db, user, tenant) == Some(r)
  {
    SeatHasRole(db, user, tenant);
    assert forall m | m in db.members && m.user == user && m.tenant == tenant :: SeatIs(user, tenant)(m);
    forall m, r | m in db.members && r in db.roles && m.user == user && m.tenant == tenant && m.role == r.id
      ensures GetRoleObject(db, user, tenant) == Some(r)
    {
      TheSeat(db, user, tenant, m);
      TheRole(db, r);
    }
  }

  /** The fetched codes are those granted to the role of the user's membership in the tenant, each once. */
  lemma UserPermissionsExact(db: Db, user: nat, tenant: nat)
    requires Inv(db)
    ensures forall code :: code in GetUserPermissions(db, user, tenant) <==>
      exists m | m in db.members :: m.user == user && m.tenant == tenant && Granted(db, m.role, code)
    ensures Distinct(GetUserPermissions(db, user, tenant), Itself)
  {
    var anyone := User(user, "", "", "", "", true, false, true);
    forall code
      ensures code in GetUserPermissions(db, user, tenant) <==>
        exists m | m in db.members :: m.user == user && m.tenant == tenant && Granted(db, m.role, code)
    {
      HasPermissionIsLookup(db, anyone, tenant, code);
      HasPermissionExact(db, Some(anyone), tenant, code);
    }
    var seat := First(db.members, SeatIs(user, tenant));
    if seat.Some? {
      CodesOfDistinct(db.grants, db.permissions, seat.value.role);
    }
  }

  /** The fetched role is the slug of the role that the user's membership in the tenant refers to. */
  lemma GetRoleExact(db: Db, user: nat, tenant: nat, slug: string)
    requires Inv(db)
    ensures GetRole(db, user, tenant) == Some(slug) <==>
      exists m, r | m in db.members && r in db.roles ::
        m.user == user && m.tenant == tenant && m.role == r.id && r.slug == slug
  {
    forall m, r | m in db.members && r in db.roles && m.role == r.id && SeatIs(user, tenant)(m)
      ensures GetRole(db, user, tenant) == Some(r.slug)
    {
      RoleOfSeat(db, m, r);
    }
    SeatHasRole(db, user, tenant);
    if GetRole(db, user, tenant) == Some(slug) {
      var m, r := First(db.members, SeatIs(user, tenant)).value, GetRoleObject(db, user, tenant).value;
      assert SeatIs(user, tenant)(m) && m in db.members && r in db.roles && m.role == r.id;
    }
  }

  /** A lookup depends on the membership row and the role row only. */
  lemma RoleOfSeat(db: Db, m: Membership, r: Role)
    requires Inv(db) && m in db.members && r in db.roles && m.role == r.id
    ensures GetRole(db, m.user, m.tenant) == Some(r.slug)
  {
    assert SeatIs(m.user, m.tenant)(m);
    TheSeat(db, m.user, m.tenant, m);
    TheRole(db, r);
  }

  /** Stores with the same seat for the user, and no role lost, answer the same. */
  lemma SameSeat(db: Db, db': Db, user: nat, tenant: nat)
    requires Inv(db) && Inv(db') && forall r | r in db.roles :: r in db'.roles
    requires forall m | m in db.members && SeatIs(user, tenant)(m) ::
      exists n | n in db'.members :: SeatIs(user, tenant)(n) && n.role == m.role
    requires forall n | n in db'.members && SeatIs(user, tenant)(n) ::
      exists m | m in db.members :: SeatIs(user, tenant)(m)
    ensures GetRole(db', user, tenant) == GetRole(db, user, tenant)
  {
    match First(db.members, SeatIs(user, tenant))
    case Some(m) =>
      SeatHasRole(db, user, tenant);
      var r := GetRoleObject(db, user, tenant).value;
      var n :| n in db'.members && SeatIs(user, tenant)(n) && n.role == m.role;
      RoleOfSeat(db', n, r);
      RoleOfSeat(db, m, r);
    case None =>
      assert forall n | n in db'.members :: !SeatIs(user, tenant)(n);
  }

  // ---- Feature flags ---------------------------------------------------------------------

  predicate IsFeatureActive(flags: seq<Flag>, tenant: Option<nat>, name: string) {
    var own := if tenant.Some? then First(flags, FlagIs(tenant, name)) else None;
    if own.Some? then own.value.isActive
    else
      var global := First(flags, FlagIs(None, name));
      global.Some? && global.value.isActive
  }

  /** A Python dictionary in insertion order. */
  type Dict = seq<(string, bool)>

  /** `d[name] = active`: an existing entry keeps its place. */
  function Put(d: Dict, name: string, active: bool): Dict {
    if d == [] then [(name, active)]
    else if d[0].0 == name then [(name, active)] + d[1..]
    else [d[0]] + Put(d[1..], name, active)
  }

  /** `{ff.name: ff.is_active for ff in flags}`. */
  function DictOf(flags: seq<Flag>): Dict {
    if flags == [] then []
    else Put(DictOf(flags[..|flags| - 1]), flags[|flags| - 1].name, flags[|flags| - 1].isActive)
  }

  /** `{**d, **over}`. */
  function Merge(d: Dict, over: Dict): Dict {
    if over == [] then d
    else Put(Merge(d, over[..|over| - 1]), over[|over| - 1].0, over[|over| - 1].1)
  }

  function ActiveNames(d: Dict): seq<string> {
    if d == [] then [] else (if d[0].1 then [d[0].0] else []) + ActiveNames(d[1..])
  }

  function GetActiveFeatures(flags: seq<Flag>, tenant: Option<nat>): seq<string> {
    var global := DictOf(Where(flags, FlagOf(None)));
    ActiveNames(if tenant.Some? then Merge(global, DictOf(Where(flags, FlagOf(tenant)))) else global)
  }

  /** The entry of `name`. */
  function Entry(d: Dict, name: string): Option<bool> {
    if d == [] then None else if d[0].0 == name then Some(d[0].1) else Entry(d[1..], name)
  }

  function Itself(s: string): string { s }

  function NameOf(e: (string, bool)): string { e.0 }

  lemma {:induction false} PutEntry(d: Dict, name: string, active: bool, other: string)
    requires Distinct(d, NameOf)
    ensures Distinct(Put(d, name, active), NameOf)
    ensures forall e | e in Put(d, name, active) :: e.0 == name || e in d
    ensures Entry(Put(d, name, active), other) == if other == name then Some(active) else Entry(d, other)
  {
    if d != [] && d[0].0 != name {
      PutEntry(d[1..], name, active, other);
      assert forall e | e in d[1..] :: NameOf(e) != NameOf(d[0]);
    }
  }

  lemma {:induction false} MergeEntry(d: Dict, over: Dict, name: string)
    requires Distinct(d, NameOf) && Distinct(over, NameOf)
    ensures Distinct(Merge(d, over), NameOf)
    ensures Entry(Merge(d, over), name) == if Entry(over, name).Some? then Entry(over, name) else Entry(d, name)
  {
    if over != [] {
      var init, e := over[..|over| - 1], over[|over| - 1];
      assert over == init + [e];
      MergeEntry(d, init, name);
      PutEntry(Merge(d, init), e.0, e.1, name);
      EntryAppend(init, e, name);
    }
  }

  lemma {:induction false} EntryAppend(d: Dict, e: (string, bool), name: string)
    requires Distinct(d + [e], NameOf)
    ensures Entry(d + [e], name) == if e.0 == name then Some(e.1) else Entry(d, name)
  {
    if d == [] {
      assert [e][1..] == [];
    } else {
      assert (d + [e])[1..] == d[1..] + [e];
      assert NameOf((d + [e])[0]) != NameOf((d + [e])[|d|]);
      EntryAppend(d[1..], e, name);
    }
  }

  /** `queryset.filter(p).last()`. */
  function Last<T(!new)>(rows: seq<T>, p: T -> bool): (r: Option<T>)
    ensures r.Some? ==> r.value in rows && p(r.value)
    ensures r.None? ==> forall x | x in rows :: !p(x)
  {
    if rows == [] then None
    else if p(rows[|rows| - 1]) then Some(rows[|rows| - 1])
    else Last(rows[..|rows| - 1], p)
  }

  lemma {:induction false} WhereAppend<T(!new)>(rows: seq<T>, x: T, p: T -> bool)
    ensures Where(rows + [x], p) == Where(rows, p) + if p(x) then [x] else []
  {
    if rows == [] {
      assert [x][1..] == [];
    } else {
      assert (rows + [x])[1..] == rows[1..] + [x];
      WhereAppend(rows[1..], x, p);
    }
  }

  lemma LastAppend<T(!new)>(rows: seq<T>, x: T, p: T -> bool)
    ensures Last(rows + [x], p) == if p(x) then Some(x) else Last(rows, p)
  {
    assert (rows + [x])[..|rows|] == rows;
  }

  lemma DictAppend(flags: seq<Flag>, f: Flag)
    ensures DictOf(flags + [f]) == Put(DictOf(flags), f.name, f.isActive)
  {
    assert (flags + [f])[..|flags|] == flags;
  }

  /** Building the dictionary lets the last row of a name win. */
  lemma {:induction false} DictLastWins(flags: seq<Flag>, tenant: Option<nat>, name: string)
    ensures var d := DictOf(Where(flags, FlagOf(tenant))); var last := Last(flags, FlagIs(tenant, name));
      Distinct(d, NameOf) && Entry(d, name) == if last.Some? then Some(last.value.isActive) else None
  {
    if flags != [] {
      var n := |flags| - 1;
      var init, f := flags[..n], flags[n];
      DictLastWins(init, tenant, name);
      assert flags == init + [f];
      WhereAppend(init, f, FlagOf(tenant));
      LastAppend(init, f, FlagIs(tenant, name));
      var w := Where(init, FlagOf(tenant));
      if FlagOf(tenant)(f) {
        DictAppend(w, f);
        PutEntry(DictOf(w), f.name, f.isActive, name);
      } else {
        assert w + [] == w;
      }
    }
  }

  lemma {:induction false} ActiveNamesRows(d: Dict)
    ensures forall name :: name in ActiveNames(d) <==> (name, true) in d
  {
    if d != [] {
      ActiveNamesRows(d[1..]);
      assert d == [d[0]] + d[1..];
    }
  }

  lemma {:induction false} EntryRow(d: Dict, name: string, active: bool)
    requires Distinct(d, NameOf)
    ensures Entry(d, name) == Some(active) <==> (name, active) in d
  {
    if d != [] {
      EntryRow(d[1..], name, active);
      assert forall e | e in d[1..] :: NameOf(e) != NameOf(d[0]);
      assert d == [d[0]] + d[1..];
    }
  }

  lemma {:induction false} ActiveNamesDistinct(d: Dict)
    requires Distinct(d, NameOf)
    ensures Distinct(ActiveNames(d), Itself)
  {
    if d != [] {
      ActiveNamesDistinct(d[1..]);
      if d[0].1 {
        ActiveNamesRows(d[1..]);
        assert forall e | e in d[1..] :: NameOf(e) != NameOf(d[0]);
        DistinctPrepend(d[0].0, ActiveNames(d[1..]), Itself);
      } else {
        assert [] + ActiveNames(d[1..]) == ActiveNames(d[1..]);
      }
    }
  }

  lemma ActiveNamesEntry(d: Dict, name: string)
    requires Distinct(d, NameOf)
    ensures name in ActiveNames(d) <==> Entry(d, name) == Some(true)
    ensures Distinct(ActiveNames(d), Itself)
  {
    ActiveNamesRows(d);
    EntryRow(d, name, true);
    ActiveNamesDistinct(d);
  }

  /** The point query with the last matching row in place of the first. */
  predicate LastRowActive(flags: seq<Flag>, tenant: Option<nat>, name: string) {
    var own := if tenant.Some? then Last(flags, FlagIs(tenant, name)) else None;
    if own.Some? then own.value.isActive
    else
      var global := Last(flags, FlagIs(None, name));
      global.Some? && global.value.isActive
  }

  /** On any flag table the merged list answers by last rows, and lists no name twice. */
  lemma MergedListIsLastRow(flags: seq<Flag>, tenant: Option<nat>, name: string)
    ensures name in GetActiveFeatures(flags, tenant) <==> LastRowActive(flags, tenant, name)
    ensures Distinct(GetActiveFeatures(flags, tenant), Itself)
  {
    var global := DictOf(Where(flags, FlagOf(None)));
    DictLastWins(flags, None, name);
    if tenant.Some? {
      var own := DictOf(Where(flags, FlagOf(tenant)));
      DictLastWins(flags, tenant, name);
      MergeEntry(global, own, name);
      ActiveNamesEntry(Merge(global, own), name);
    } else {
      ActiveNamesEntry(global, name);
    }
  }

  /** The scope whose rows decide a name for a tenant: its own if it has such a row, else the global one. */
  function DecidingScope(flags: seq<Flag>, tenant: Option<nat>, name: string): Option<nat> {
    if Exists(flags, FlagIs(tenant, name)) then tenant else None
  }

  /** The first and the last row of the deciding scope hold the same value, or there is none. */
  predicate EndsAlike(flags: seq<Flag>, tenant: Option<nat>, name: string) {
    var scope := DecidingScope(flags, tenant, name);
    var first, last := First(flags, FlagIs(scope, name)), Last(flags, FlagIs(scope, name));
    first.Some? ==> last.Some? && first.value.isActive == last.value.isActive
  }

  /** On any flag table the merged list and the point query agree about a name exactly when the first and
      the last row that decide it hold the same value. */
  lemma MergedListExact(flags: seq<Flag>, tenant: Option<nat>, name: string)
    ensures (name in GetActiveFeatures(flags, tenant) <==> IsFeatureActive(flags, tenant, name)) <==>
      EndsAlike(flags, tenant, name)
  {
    MergedListIsLastRow(flags, tenant, name);
  }

  /** The merged list and the point query agree on every name when no (tenant, name) repeats. */
  lemma MergedListIsPointQuery(flags: seq<Flag>, tenant: Option<nat>, name: string)
    requires FlagsOk(flags)
    ensures name in GetActiveFeatures(flags, tenant) <==> IsFeatureActive(flags, tenant, name)
    ensures Distinct(GetActiveFeatures(flags, tenant), Itself)
  {
    MergedListIsLastRow(flags, tenant, name);
    FirstIsLast(flags, tenant, name);
    FirstIsLast(flags, None, name);
  }

  lemma FirstIsLast(flags: seq<Flag>, tenant: Option<nat>, name: string)
    requires FlagsOk(flags)
    ensures First(flags, FlagIs(tenant, name)) == Last(flags, FlagIs(tenant, name))
  {
    var first, last := First(flags, FlagIs(tenant, name)), Last(flags, FlagIs(tenant, name));
    if first.Some? {
      SameRow(flags, FlagName, first.value, last.value);
    }
  }

  /** A feature is on exactly when an active row of its name is the tenant's own, or is global while the tenant has
      no row of that name. */
  lemma FeatureExact(flags: seq<Flag>, tenant: Option<nat>, name: string)
    requires FlagsOk(flags)
    ensures IsFeatureActive(flags, tenant, name) <==>
      exists f | f in flags :: f.name == name && f.isActive &&
        (f.tenant == tenant || (f.tenant == None && forall g | g in flags && g.tenant == tenant :: g.name != name))
  {
    var own, global := First(flags, FlagIs(tenant, name)), First(flags, FlagIs(None, name));
    if f :| f in flags && f.name == name && (f.tenant == tenant || f.tenant == None) {
      var scope := f.tenant;
      assert FlagIs(scope, name)(f);
      SameRow(flags, FlagName, f, First(flags, FlagIs(scope, name)).value);
    }
    if own.Some? {
      assert FlagIs(tenant, name)(own.value);
      forall f | f in flags && f.name == name && f.tenant == tenant ensures f == own.value {
        SameRow(flags, FlagName, f, own.value);
      }
    } else {
      assert forall g | g in flags && g.tenant == tenant :: g.name == name ==> FlagIs(tenant, name)(g);
      forall f | f in flags && f.name == name && f.tenant == None ensures global == Some(f) {
        assert FlagIs(None, name)(f);
        SameRow(flags, FlagName, f, global.value);
      }
    }
  }

  /** Two global rows with one name, which the database allows, make them disagree. */
  lemma DuplicateGlobalFlags(tenant: Option<nat>)
    ensures var flags := [Flag(3, None, "f", true, 0, 0), Flag(4, None, "f", false, 0, 0)];
      IsFeatureActive(flags, tenant, "f") && "f" !in GetActiveFeatures(flags, tenant)
  {
    var f, g := Flag(3, None, "f", true, 0, 0), Flag(4, None, "f", false, 0, 0);
    var flags := [f, g];
    MergedListIsLastRow(flags, tenant, "f");
    assert FlagIs(None, "f")(f) && FlagIs(None, "f")(g);
    assert flags[1] == g && flags[0] == f;
    if tenant.Some? {
      assert !FlagIs(tenant, "f")(f) && !FlagIs(tenant, "f")(g);
    }
  }
}
