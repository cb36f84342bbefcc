/** The data migration from role names to role rows, and its rollback. */
module RoleMigration {

  import opened Rows
  import opened Text
  import opened AuthModel
  import opened Services
  import opened StoreInvariant

  /** A membership while both columns exist: the old role name and the new reference. */
  datatype Utr = Utr(id: nat, user: nat, tenant: nat, oldRole: string, role: Option<nat>)

  /** The slug that an old role name stands for, before looking at the roles that exist. */
  function Cleaned(oldRole: string): string {
    Lower(Strip(if oldRole == "" then "member" else oldRole))
  }

  /** The role that the migration links: the named one, else the tenant's member role. */
  function LinkedRole(roles: seq<Role>, tenant: nat, oldRole: string): Option<Role> {
    match First(roles, RoleIs(tenant, Cleaned(oldRole)))
    case Some(r) => Some(r)
    case None => First(roles, RoleIs(tenant, "member"))
  }

  function Relinked(roles: seq<Role>, u: Utr): Utr {
    match LinkedRole(roles, u.tenant, u.oldRole)
    case Some(r) => u.(role := Some(r.id))
    case None => u.(role := None)
  }

  function RolledBackRow(roles: seq<Role>, u: Utr): Utr {
    if u.role.None? then u
    else match First(roles, RoleWithId(u.role.value))
      case Some(r) => u.(oldRole := r.slug)
      case None => u
  }

  /** The three role names that the old column allowed. */
  predicate IsDefaultSlug(s: string) {
    s == "owner" || s == "admin" || s == "member"
  }

  ghost predicate EveryTenantHasDefaults(tenants: seq<Tenant>, roles: seq<Role>) {
    forall t, slug | t in tenants && IsDefaultSlug(slug) :: Exists(roles, RoleIs(t.id, slug))
  }

  /** The tables that the migration works on, updated in place row by row. */
  class MigrationState {
    var tenants: seq<Tenant>
    var roles: seq<Role>
    var members: array<Utr>
    var nextId: nat

    /** Roles are unique by id and by tenant and slug, as the schema demands. */
    ghost predicate Valid()
      reads this
    {
      Distinct(roles, RoleId) && Distinct(roles, RoleName) && Below(roles, RoleId, nextId)
    }

    constructor (tenants: seq<Tenant>, roles: seq<Role>, members: array<Utr>, nextId: nat)
      requires Distinct(roles, RoleId) && Distinct(roles, RoleName) && Below(roles, RoleId, nextId)
      ensures this.tenants == tenants && this.roles == roles && this.members == members && this.nextId == nextId
      ensures Valid()
    {
      this.tenants, this.roles, this.members, this.nextId := tenants, roles, members, nextId;
    }

    /** `Role.objects.get_or_create` for a default role of a tenant. */
    method GetOrCreateRole(tenant: nat, d: DefaultRole, now: nat)
      requires Valid()
      modifies this`roles, this`nextId
      ensures Valid() && old(roles) <= roles
      ensures roles == old(roles) ||
        roles == old(roles) + [Role(old(nextId), tenant, d.name, d.slug, true, d.weight, now)]
      ensures roles == old(roles) <==> Exists(old(roles), RoleIs(tenant, d.slug))
      ensures Exists(roles, RoleIs(tenant, d.slug))
    {
      if First(roles, RoleIs(tenant, d.slug)).None? {
        var r := Role(nextId, tenant, d.name, d.slug, true, d.weight, now);
        assert forall q | q in roles :: !RoleIs(tenant, d.slug)(q);
        DistinctAppend(roles, RoleId, r);
        DistinctAppend(roles, RoleName, r);
        roles := roles + [r];
        nextId := nextId + 1;
        assert RoleIs(tenant, d.slug)(r) && r in roles;
      }
    }

    /** The inner loop of `migrate_roles`: the default roles of one tenant. */
    method CreateDefaultsFor(t: Tenant, now: nat)
      requires Valid()
      modifies this`roles, this`nextId
      ensures Valid() && old(roles) <= roles
      ensures forall k | 0 <= k < |DEFAULT_ROLES| :: Exists(roles, RoleIs(t.id, DEFAULT_ROLES[k].slug))
      ensures forall r | r in roles && r !in old(roles) :: DefaultRow(r)
    {
      for j := 0 to |DEFAULT_ROLES|
        invariant Valid() && old(roles) <= roles
        invariant forall k | 0 <= k < j :: Exists(roles, RoleIs(t.id, DEFAULT_ROLES[k].slug))
        invariant forall r | r in roles && r !in old(roles) :: DefaultRow(r)
      {
        ghost var before := roles;
        GetOrCreateRole(t.id, DEFAULT_ROLES[j], now);
        assert DEFAULT_ROLES[j] in DEFAULT_ROLES;
        StillThere(before, roles, t.id, j);
      }
    }

    /** The outer loop: the default roles of every tenant. */
    method CreateDefaults(now: nat)
      requires Valid()
      modifies this`roles, this`nextId
      ensures Valid() && old(roles) <= roles && EveryTenantHasDefaults(tenants, roles)
      ensures forall r | r in roles && r !in old(roles) :: DefaultRow(r)
    {
      for i := 0 to |tenants|
        invariant Valid() && old(roles) <= roles
        invariant EveryTenantHasDefaults(tenants[..i], roles)
        invariant forall r | r in roles && r !in old(roles) :: DefaultRow(r)
      {
        ghost var before := roles;
        CreateDefaultsFor(tenants[i], now);
        DefaultsGrow(tenants[..i], tenants[i], before, roles);
        assert tenants[..i + 1] == tenants[..i] + [tenants[i]];
      }
      assert tenants[..|tenants|] == tenants;
    }

    /** Second loop: every membership is linked to its role. */
    method Relink()
      modifies members
      ensures forall i | 0 <= i < members.Length :: members[i] == Relinked(roles, old(members[i]))
    {
      for i := 0 to members.Length
        invariant forall k | i <= k < members.Length :: members[k] == old(members[k])
        invariant forall k | 0 <= k < i :: members[k] == Relinked(roles, old(members[k]))
      {
        members[i] := RelinkRow(members[i]);
      }
    }

    /** The body of that loop. */
    method RelinkRow(u: Utr) returns (v: Utr)
      ensures v == Relinked(roles, u)
    {
      var oldSlug := u.oldRole;
      if oldSlug == "" {
        oldSlug := "member";
      }
      oldSlug := Lower(Strip(oldSlug));
      var role := First(roles, RoleIs(u.tenant, oldSlug));
      if role.None? {
        role := First(roles, RoleIs(u.tenant, "member"));
      }
      v := u.(role := if role.Some? then Some(role.value.id) else None);
    }

    method MigrateRoles(now: nat)
      requires Valid()
      modifies this`roles, this`nextId, members
      ensures Valid() && old(roles) <= roles && EveryTenantHasDefaults(tenants, roles)
      ensures forall r | r in roles && r !in old(roles) :: DefaultRow(r)
      ensures forall i | 0 <= i < members.Length :: members[i] == Relinked(roles, old(members[i]))
    {
      CreateDefaults(now);
      Relink();
    }

    method RollbackRoles()
      modifies members
      ensures forall i | 0 <= i < members.Length :: members[i] == RolledBackRow(roles, old(members[i]))
    {
      for i := 0 to members.Length
        invariant forall k | i <= k < members.Length :: members[k] == old(members[k])
        invariant forall k | 0 <= k < i :: members[k] == RolledBackRow(roles, old(members[k]))
      {
        var u := members[i];
        if u.role.Some? {
          var r := First(roles, RoleWithId(u.role.value));
          if r.Some? {
            members[i] := u.(oldRole := r.value.slug);
          }
        }
      }
    }

    /** The migration applied and reversed on one state: every membership ends with the name that its old
        name means. Where the role table starts empty, as in the migration that creates it, the names that
        come back unchanged are exactly owner, admin and member. */
    method MigrateAndRollBack(now: nat)
      requires Valid() && forall i | 0 <= i < members.Length :: IsTenant(tenants, members[i].tenant)
      modifies this`roles, this`nextId, members
      ensures Valid() && old(roles) <= roles && EveryTenantHasDefaults(tenants, roles)
      ensures forall i | 0 <= i < members.Length ::
        var was := old(members[i]);
        members[i] == was.(role := Relinked(roles, was).role, oldRole := MeantSlug(roles, was))
      ensures old(roles) == [] ==> forall i | 0 <= i < members.Length ::
        members[i].oldRole == old(members[i]).oldRole <==> IsDefaultSlug(old(members[i]).oldRole)
    {
      MigrateRoles(now);
      label linked:
      RollbackRoles();
      forall i | 0 <= i < members.Length
        ensures var was := old(members[i]);
          members[i] == was.(role := Relinked(roles, was).role, oldRole := MeantSlug(roles, was))
        ensures old(roles) == [] ==>
          (members[i].oldRole == old(members[i]).oldRole <==> IsDefaultSlug(old(members[i]).oldRole))
      {
        var was := old(members[i]);
        assert old@linked(members[i]) == Relinked(roles, was);
        MigrationPreservesMeaning(tenants, roles, was);
        if old(roles) == [] {
          RoundTrip(tenants, roles, was);
        }
      }
    }
  }

  /** A row that the migration creates: a default role with its name and weight. */
  predicate DefaultRow(r: Role) {
    r.isDefault && IsDefaultSlug(r.slug) && DefaultRole(r.slug, r.name, r.weight) in DEFAULT_ROLES
  }

  lemma ExistsMore(before: seq<Role>, after: seq<Role>, p: Role -> bool)
    requires before <= after && Exists(before, p)
    ensures Exists(after, p)
  {
    var i :| 0 <= i < |before| && p(before[i]);
    assert after[i] == before[i];
  }

  lemma StillThere(before: seq<Role>, after: seq<Role>, tenant: nat, j: nat)
    requires before <= after && j <= |DEFAULT_ROLES|
    requires forall k | 0 <= k < j :: Exists(before, RoleIs(tenant, DEFAULT_ROLES[k].slug))
    ensures forall k | 0 <= k < j :: Exists(after, RoleIs(tenant, DEFAULT_ROLES[k].slug))
  {
    forall k | 0 <= k < j ensures Exists(after, RoleIs(tenant, DEFAULT_ROLES[k].slug)) {
      ExistsMore(before, after, RoleIs(tenant, DEFAULT_ROLES[k].slug));
    }
  }

  lemma DefaultsGrow(tenants: seq<Tenant>, t: Tenant, before: seq<Role>, after: seq<Role>)
    requires before <= after && EveryTenantHasDefaults(tenants, before)
    requires forall k | 0 <= k < |DEFAULT_ROLES| :: Exists(after, RoleIs(t.id, DEFAULT_ROLES[k].slug))
    ensures EveryTenantHasDefaults(tenants + [t], after)
  {
    forall s, slug | s in tenants + [t] && IsDefaultSlug(slug) ensures Exists(after, RoleIs(s.id, slug)) {
      if s in tenants {
        ExistsMore(before, after, RoleIs(s.id, slug));
      } else {
        var k := if slug == "owner" then 0 else if slug == "admin" then 1 else 2;
        assert DEFAULT_ROLES[k].slug == slug && Exists(after, RoleIs(t.id, DEFAULT_ROLES[k].slug));
      }
    }
  }

  // ---- What the migration means ----------------------------------------------------------

  /** The slug that a membership ends up with. */
  function MeantSlug(roles: seq<Role>, u: Utr): string {
    if Exists(roles, RoleIs(u.tenant, Cleaned(u.oldRole))) then Cleaned(u.oldRole) else "member"
  }

  /** After the migration every membership has a role of its own tenant, whose slug is the stripped,
      lower-cased old name, or `member` when that is empty or unknown; rolling back writes that slug. */
  lemma MigrationPreservesMeaning(tenants: seq<Tenant>, roles: seq<Role>, u: Utr)
    requires Distinct(roles, RoleId) && EveryTenantHasDefaults(tenants, roles) && IsTenant(tenants, u.tenant)
    ensures var v := Relinked(roles, u);
      && v == u.(role := v.role) && v.role.Some?
      && (exists r | r in roles :: r.id == v.role.value && r.tenant == u.tenant && r.slug == MeantSlug(roles, u))
      && RolledBackRow(roles, v) == v.(oldRole := MeantSlug(roles, u))
  {
    var t :| t in tenants && t.id == u.tenant;
    assert IsDefaultSlug("member") && Exists(roles, RoleIs(t.id, "member"));
    var r := LinkedRole(roles, u.tenant, u.oldRole).value;
    assert r.tenant == u.tenant && r.slug == MeantSlug(roles, u);
    SameRow(roles, RoleId, r, First(roles, RoleWithId(r.id)).value);
  }

  /** The row is linked to the tenant's role with that slug, and to nothing when it has none. */
  ghost predicate LinkedTo(roles: seq<Role>, tenant: nat, slug: string, link: Option<nat>) {
    && (forall r | r in roles && r.tenant == tenant && r.slug == slug :: link == Some(r.id))
    && ((forall r | r in roles :: !(r.tenant == tenant && r.slug == slug)) ==> link == None)
  }

  lemma FirstLinks(roles: seq<Role>, tenant: nat, slug: string)
    requires Distinct(roles, RoleName)
    ensures var r := First(roles, RoleIs(tenant, slug));
      LinkedTo(roles, tenant, slug, if r.Some? then Some(r.value.id) else None)
  {
    var found := First(roles, RoleIs(tenant, slug));
    forall r | r in roles && r.tenant == tenant && r.slug == slug ensures found == Some(r) {
      assert RoleIs(tenant, slug)(r);
      SameRow(roles, RoleName, r, found.value);
    }
    if found.Some? {
      assert RoleIs(tenant, slug)(found.value);
    }
  }

  /** Rolling back writes the slug of the linked role, and leaves an unlinked row as it is. */
  lemma RollbackExact(roles: seq<Role>, u: Utr, tenant: nat, slug: string)
    requires Distinct(roles, RoleId) && LinkedTo(roles, tenant, slug, u.role)
    ensures RolledBackRow(roles, u) ==
      if exists r | r in roles :: r.tenant == tenant && r.slug == slug then u.(oldRole := slug) else u
  {
    if r :| r in roles && r.tenant == tenant && r.slug == slug {
      assert RoleWithId(r.id)(r);
      SameRow(roles, RoleId, r, First(roles, RoleWithId(r.id)).value);
    }
  }

  /** What an old name is linked to, character by character, and what rolling back makes of it. Around the name there
      may be spaces, and its letters may be of either case: the role with the lower-case slug is linked if the tenant
      has one, and otherwise its member role. */
  lemma RelinkByCharacter(roles: seq<Role>, u: Utr, pre: string, w: string, post: string, slug: string)
    requires Distinct(roles, RoleId) && Distinct(roles, RoleName)
    requires u.oldRole == pre + w + post && Blank(pre) && Trimmed(w) && Blank(post) && LowerOf(w, slug)
    ensures var v, known := Relinked(roles, u), exists r | r in roles :: r.tenant == u.tenant && r.slug == slug;
      && v == u.(role := v.role) && LinkedTo(roles, u.tenant, if known then slug else "member", v.role)
      && (known ==> RolledBackRow(roles, v) == v.(oldRole := slug))
      && (!known ==> RolledBackRow(roles, v).oldRole in ["member", u.oldRole])
  {
    StripPadded(pre, w, post);
    assert Lower(w) == slug;
    assert u.oldRole != "" by {
      assert |u.oldRole| >= |w|;
    }
    FirstLinks(roles, u.tenant, slug);
    FirstLinks(roles, u.tenant, "member");
    var v, known := Relinked(roles, u), exists r | r in roles :: r.tenant == u.tenant && r.slug == slug;
    RollbackExact(roles, v, u.tenant, if known then slug else "member");
  }

  /** An empty name is linked to the member role; spaces alone are too, unless the tenant has a role with the empty
      slug. */
  lemma RelinkBlank(roles: seq<Role>, u: Utr)
    requires Distinct(roles, RoleName) && Blank(u.oldRole)
    ensures var v, unnamed := Relinked(roles, u), exists r | r in roles :: r.tenant == u.tenant && r.slug == "";
      v == u.(role := v.role) &&
      LinkedTo(roles, u.tenant, if u.oldRole != "" && unnamed then "" else "member", v.role)
  {
    if u.oldRole == "" {
      CleanedDefault("member");
    } else {
      StripBlank(u.oldRole);
      assert Lower("") == "";
      FirstLinks(roles, u.tenant, "");
    }
    FirstLinks(roles, u.tenant, "member");
  }

  lemma StripNothing(s: string)
    requires s != "" && !IsSpace(s[0]) && !IsSpace(s[|s| - 1])
    ensures Strip(s) == s
  {
  }

  lemma CleanedDefault(s: string)
    requires IsDefaultSlug(s)
    ensures Cleaned(s) == s
  {
    StripNothing(s);
    assert Lower(s) == s;
  }

  /** When the roles are the ones the migration itself creates, the slug is the cleaned name if that
      is owner, admin or member, and `member` otherwise. */
  lemma MeantDefault(tenants: seq<Tenant>, roles: seq<Role>, u: Utr)
    requires EveryTenantHasDefaults(tenants, roles) && IsTenant(tenants, u.tenant)
    requires forall r | r in roles :: DefaultRow(r)
    ensures MeantSlug(roles, u) == if IsDefaultSlug(Cleaned(u.oldRole)) then Cleaned(u.oldRole) else "member"
  {
    var c := Cleaned(u.oldRole);
    if IsDefaultSlug(c) {
      var t :| t in tenants && t.id == u.tenant;
      assert Exists(roles, RoleIs(t.id, c));
    } else {
      assert forall r | r in roles :: DefaultRow(r) && !RoleIs(u.tenant, c)(r);
    }
  }

  /** Rolling the migration back is then the identity on exactly the rows that held one of the three
      names. */
  lemma RoundTrip(tenants: seq<Tenant>, roles: seq<Role>, u: Utr)
    requires Distinct(roles, RoleId) && EveryTenantHasDefaults(tenants, roles) && IsTenant(tenants, u.tenant)
    requires forall r | r in roles :: DefaultRow(r)
    ensures RolledBackRow(roles, Relinked(roles, u)).oldRole == u.oldRole <==> IsDefaultSlug(u.oldRole)
  {
    MigrationPreservesMeaning(tenants, roles, u);
    MeantDefault(tenants, roles, u);
    if IsDefaultSlug(u.oldRole) {
      CleanedDefault(u.oldRole);
    }
  }
}
