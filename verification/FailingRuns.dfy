/** Short runs from the empty store in which the code breaks a promise, one for each way. */
module FailingRuns {

  import opened Rows
  import opened Text
  import opened AuthModel
  import opened Slugs
  import opened Services
  import opened StoreInvariant
  import opened AuditReplay
  import opened Seeding
  import opened Runs
  import opened SeedIdempotence
  import opened ServiceEffects
  import TwoLogs

  // ---- Running step by step --------------------------------------------------------------

  /** The steps may be taken, keep the log in both readings, and lead to `db`. */
  ghost predicate Leads(steps: seq<Step>, db: Db) {
    AlwaysEnabled(steps) && Allowed(true, EMPTY, steps) && Exec(EMPTY, steps) == db
  }

  lemma LeadsOn(steps: seq<Step>, db: Db, s: Step)
    requires Leads(steps, db) && Enabled(db, s.call) && !Leaks(db, s) && Plain(db, s.call)
    ensures Leads(steps + [s], Next(db, s))
  {
    OneMoreStep(steps, db, s);
    assert (steps + [s])[..|steps|] == steps;
  }

  lemma OneMoreStep(steps: seq<Step>, db: Db, s: Step)
    requires AlwaysEnabled(steps) && Exec(EMPTY, steps) == db && Enabled(db, s.call)
    ensures AlwaysEnabled(steps + [s]) && Exec(EMPTY, steps + [s]) == Next(db, s)
  {
    var all := steps + [s];
    assert all[..|steps|] == steps;
    assert forall n | 0 <= n < |steps| :: all[..n] == steps[..n];
  }

  /** Whatever reading the last step breaks is broken after the run. */
  lemma BreaksAt(exact: bool, steps: seq<Step>, db: Db, s: Step)
    requires Leads(steps, db) && Enabled(db, s.call)
    requires Leaks(db, s) || (exact && !Plain(db, s.call))
    ensures AlwaysEnabled(steps + [s])
    ensures var db' := Exec(EMPTY, steps + [s]); Inv(db') && !LogOk(exact, db')
  {
    OneMoreStep(steps, db, s);
    RunInv(steps);
    AllowedCanonically(steps);
    RunSound(exact, steps);
    StepExact(exact, db, s);
  }

  lemma {:induction false} AllowedCanonically(steps: seq<Step>)
    requires Allowed(true, EMPTY, steps)
    ensures Allowed(false, EMPTY, steps)
  {
    if steps != [] {
      AllowedCanonically(steps[..|steps| - 1]);
    }
  }

  // ---- A tenant --------------------------------------------------------------------------

  /** Creating a tenant with a one-letter host in a store without tenants and domains. */
  lemma FirstTenant(db: Db, slug: string, now: nat)
    requires Inv(db) && db.tenants == [] && db.domains == [] && IsSlug(slug) && |slug| <= 100
    ensures var out := CreateTenant(db, "T", slug, "h", true, now);
      && out.result.Ok? && out.db.tenants == [Tenant(db.nextId, "T", slug, slug, true)]
      && out.db.users == db.users && out.db.members == db.members
      && HasDefaultRole(out.db.roles, db.nextId, DEFAULT_ROLES[2])
  {
    CleanArguments(db, slug, now);
    FirstInsert(db, slug, now);
  }

  /** Arguments that are already trimmed and lower-case. */
  lemma CleanArguments(db: Db, slug: string, now: nat)
    requires IsSlug(slug)
    ensures CreateTenant(db, "T", slug, "h", true, now) == InsertTenant(db, "T", slug, "h", true, now)
  {
    ValidateSlugFixed(slug);
    assert Strip("h") == "h" && Lower("h") == "h" && Strip("T") == "T";
  }

  lemma FirstInsert(db: Db, slug: string, now: nat)
    requires Inv(db) && db.tenants == [] && db.domains == [] && IsSlug(slug) && |slug| <= 100
    ensures var out := InsertTenant(db, "T", slug, "h", true, now);
      && out.result.Ok? && out.db.tenants == [Tenant(db.nextId, "T", slug, slug, true)]
      && out.db.users == db.users && out.db.members == db.members
      && HasDefaultRole(out.db.roles, db.nextId, DEFAULT_ROLES[2])
  {
    var t, db1 := Tenant(db.nextId, "T", slug, slug, true), db.(nextId := db.nextId + 1);
    AddTenantKeeps(db1, t, now);
    InsertedFirst(db, slug, now);
    assert t in AddTenant(db1, t, now).tenants && DEFAULT_ROLES[2] in DEFAULT_ROLES;
    assert HasDefaultRole(AddTenant(db1, t, now).roles, t.id, DEFAULT_ROLES[2]);
  }

  lemma LeadsToTenant(steps: seq<Step>, db: Db, slug: string, now: nat)
    requires Leads(steps, db) && db.tenants == [] && db.domains == [] && IsSlug(slug) && |slug| <= 100
    ensures var s := Step(CreateTenantCall("T", slug, "h", true), now); var db' := Next(db, s);
      && Leads(steps + [s], db') && db'.tenants == [Tenant(db.nextId, "T", slug, slug, true)]
      && db'.users == db.users && db'.members == db.members
      && HasDefaultRole(db'.roles, db.nextId, DEFAULT_ROLES[2])
  {
    RunInv(steps);
    FirstTenant(db, slug, now);
    LeadsOn(steps, db, Step(CreateTenantCall("T", slug, "h", true), now));
  }

  // ---- A seed that fails late ------------------------------------------------------------

  const TAKEN: seq<Step> := [Step(CreateTenantCall("T", "tenant2", "h", true), 0)]

  /** A tenant with the slug of the second demo tenant makes `seed` fail after it has inserted the first. */
  lemma SeedLeaks()
    ensures var steps := TAKEN + [Step(SeedCall, 1)];
      && AlwaysEnabled(steps) && Leaks(Exec(EMPTY, TAKEN), Step(SeedCall, 1))
      && var db := Exec(EMPTY, steps); Inv(db) && !LogOk(false, db)
  {
    TenantWord("tenant2");
    LeadsToTenant([], EMPTY, "tenant2", 0);
    assert [] + [TAKEN[0]] == TAKEN;
    RunInv(TAKEN);
    var db := Exec(EMPTY, TAKEN);
    SlugTaken(db, db.tenants[0]);
    SeedLeaksExactly(db, 1);
    BreaksAt(false, TAKEN, db, Step(SeedCall, 1));
  }

  lemma SlugTaken(db: Db, t: Tenant)
    requires db.tenants == [t] && t.id == 3 && t.slug == "tenant2"
    ensures SeedFailsLate(db)
  {
    assert t in db.tenants;
    assert t.slug[6] != DEMO_TENANTS[0].slug[6];
  }

  // ---- A host that its column refuses ----------------------------------------------------

  /** 254 letters, one more than the column takes. */
  const LONG_HOST: string := seq(254, i => 'h')

  /** Creating a tenant with a long host sends the tenant's roles and then gives the tenant up. */
  lemma LongHostLeaks()
    ensures var s := Step(CreateTenantCall("T", "acme", LONG_HOST, true), 0);
      && AlwaysEnabled([s]) && Leaks(EMPTY, s)
      && var db := Exec(EMPTY, [s]); Inv(db) && db.tenants == [] && !LogOk(false, db)
  {
    var s := Step(CreateTenantCall("T", "acme", LONG_HOST, true), 0);
    EmptyInv();
    LongHostText();
    LateFor("T", "acme", LONG_HOST);
    BreaksAt(false, [], EMPTY, s);
    assert [] + [s] == [s];
    GivenBack(EMPTY, "T", "acme", LONG_HOST, 0);
  }

  lemma LongHostText()
    ensures |LONG_HOST| == 254 && Clean(LONG_HOST) && Strip(LONG_HOST) == LONG_HOST && Lower(LONG_HOST) == LONG_HOST
    ensures Strip("T") == "T" && Storable("T", 255) && IsSlug("acme") && Normal("acme") == "acme"
  {
    WordIsSlug("acme");
    ValidateSlugFixed("acme");
    assert LONG_HOST[0] == 'h' && LONG_HOST[253] == 'h';
  }

  lemma LateFor(name: string, slug: string, host: string)
    requires |host| > HOST_LIMIT && Clean(host) && Strip(host) == host && Lower(host) == host
    requires Strip(name) == name && Storable(name, 255) && IsSlug(slug) && Normal(slug) == slug && |slug| <= 100
    ensures DomainFailsLate(EMPTY, name, slug, host)
  {
  }

  lemma GivenBack(db: Db, name: string, schemaName: string, domain: string, now: nat)
    requires Inv(db) && DomainFailsLate(db, name, schemaName, domain)
    ensures CreateTenant(db, name, schemaName, domain, true, now).db.tenants == db.tenants
  {
    CreateTenantExact(db, name, schemaName, domain, true, now);
  }

  // ---- A code that the lookup refuses ----------------------------------------------------

  lemma {:induction false} OnlyDefaultSlugs(db: Db, tenant: nat, defaults: seq<DefaultRole>, now: nat)
    ensures forall r | r in EnsureRoles(db, tenant, defaults, now).roles ::
      r in db.roles || exists d | d in defaults :: r.slug == d.slug
  {
    if defaults != [] {
      var init, d := defaults[..|defaults| - 1], defaults[|defaults| - 1];
      assert defaults == init + [d];
      OnlyDefaultSlugs(db, tenant, init, now);
    }
  }

  /** A role asked for with a code that holds a zero character: the call raises and the role stays. */
  lemma UncleanCodeKeepsRole()
    ensures var db := Exec(EMPTY, [Step(CreateTenantCall("T", "acme", "h", true), 0)]);
      var out := CreateRole(db, 3, "R", "r", 0, ["\0"], 1);
      out.result.Err? && out.db.roles != db.roles
  {
    var s := Step(CreateTenantCall("T", "acme", "h", true), 0);
    WordIsSlug("acme");
    EmptyInv();
    LeadsToTenant([], EMPTY, "acme", 0);
    assert [] + [s] == [s];
    RunInv([s]);
    var db := Exec(EMPTY, [s]);
    assert db.tenants[0] in db.tenants;
    NoSuchRole(EMPTY, "acme", 0);
    CreateRoleAllOrNothing(db, 3, "R", "r", 0, ["\0"], 1);
    assert "\0"[0] == '\0' && !Clean("\0") && "\0" in ["\0"];
    assert !AllClean(["\0"]);
    assert RoleStorable("R", "r", 0);
    var r := Role(db.nextId, 3, "R", "r", false, 0, 1);
    assert CreateRole(db, 3, "R", "r", 0, ["\0"], 1).db == AddRole(db, r);
    assert |AddRole(db, r).roles| == |db.roles| + 1;
  }

  lemma NoSuchRole(db: Db, slug: string, now: nat)
    requires Inv(db) && db.tenants == [] && db.domains == [] && db.roles == [] && IsSlug(slug) && |slug| <= 100
    ensures forall r | r in CreateTenant(db, "T", slug, "h", true, now).db.roles :: r.slug != "r"
  {
    CleanArguments(db, slug, now);
    var t, db1 := Tenant(db.nextId, "T", slug, slug, true), db.(nextId := db.nextId + 1);
    OnlyDefaultSlugs(db1.(tenants := db.tenants + [t]), t.id, DEFAULT_ROLES, now);
    InsertedFirst(db, slug, now);
    assert forall d | d in DEFAULT_ROLES :: |d.slug| > 1;
  }

  lemma InsertedFirst(db: Db, slug: string, now: nat)
    requires db.tenants == [] && db.domains == [] && IsSlug(slug) && |slug| <= 100
    ensures var t, db1 := Tenant(db.nextId, "T", slug, slug, true), db.(nextId := db.nextId + 1);
      InsertTenant(db, "T", slug, "h", true, now).db == AddDomain(AddTenant(db1, t, now), t.id, "h", true)
  {
    assert TenantInsertable(db, "T", slug, "h");
  }

  // ---- A flag that is not spelled as it is stored ----------------------------------------

  /** The values that the toggle view hands over for "on", besides the Boolean itself. */
  lemma MisspeltFlagBreaksLog(raw: RawFlag)
    requires raw in [RawInt(1), RawFloat(1.0, false), RawText("t"), RawText("1")]
    ensures var steps := [Step(SetFeatureCall(None, "f", raw), 0)];
      && AlwaysEnabled(steps)
      && var db := Exec(EMPTY, steps); Inv(db) && !LogOk(true, db)
  {
    EmptyInv();
    assert Allowed(true, EMPTY, []);
    assert RawString(raw) != "True";
    var s := Step(SetFeatureCall(None, "f", raw), 0);
    BreaksAt(true, [], EMPTY, s);
    assert [] + [s] == [s];
  }

  // ---- A seated user ---------------------------------------------------------------------

  const BOSS := User(3, "deleted_x", "boss@x", "", "", true, false, true)
  const STAFFER := User(4, "staffer", "staffer@x", "", "", true, false, true)

  /** Two users, a tenant, and a membership of the second that the first assigned. */
  const SEATED: seq<Step> := [
    Step(RegisterUserCall("deleted_x", "boss@x", false), 0),
    Step(RegisterUserCall("staffer", "staffer@x", false), 1),
    Step(CreateTenantCall("T", "acme", "h", true), 2),
    Step(AssignRoleCall(4, 5, "member", Some(3)), 3)]

  lemma OneUser()
    ensures Leads(SEATED[..1], EMPTY.(users := [BOSS], nextId := 4))
  {
    LeadsOn([], EMPTY, SEATED[0]);
    assert [] + [SEATED[0]] == SEATED[..1];
    assert Next(EMPTY, SEATED[0]).users == [BOSS];
  }

  lemma TwoUsers()
    ensures var db := Exec(EMPTY, SEATED[..2]);
      && Leads(SEATED[..2], db) && db.users == [BOSS, STAFFER] && db.nextId == 5
      && db.tenants == [] && db.domains == [] && db.members == []
  {
    OneUser();
    var one := EMPTY.(users := [BOSS], nextId := 4);
    LeadsOn(SEATED[..1], one, SEATED[1]);
    assert SEATED[..1] + [SEATED[1]] == SEATED[..2];
    assert BOSS.username[0] != STAFFER.username[0] && BOSS.email[0] != STAFFER.email[0];
    assert Next(one, SEATED[1]).users == [BOSS, STAFFER];
  }

  lemma UsersAndTenant()
    ensures var db := Exec(EMPTY, SEATED[..3]);
      && Leads(SEATED[..3], db) && db.users == [BOSS, STAFFER] && db.members == []
      && HasDefaultRole(db.roles, 5, DEFAULT_ROLES[2])
  {
    TwoUsers();
    WordIsSlug("acme");
    LeadsToTenant(SEATED[..2], Exec(EMPTY, SEATED[..2]), "acme", 2);
    assert SEATED[..2] + [Step(CreateTenantCall("T", "acme", "h", true), 2)] == SEATED[..3];
  }

  lemma SeatedRun()
    ensures var db := Exec(EMPTY, SEATED);
      && Leads(SEATED, db) && db.users == [BOSS, STAFFER]
      && exists m | m in db.members :: SeatIs(4, 5)(m) && m.assignedBy == Some(3)
  {
    UsersAndTenant();
    var three := Exec(EMPTY, SEATED[..3]);
    assert BOSS in three.users && STAFFER in three.users && IsUser(three.users, 3) && IsUser(three.users, 4);
    LeadsOn(SEATED[..3], three, SEATED[3]);
    assert SEATED[..3] + [SEATED[3]] == SEATED;
    var q :| q in three.roles && q.tenant == 5 && q.slug == "member";
    assert RoleIs(5, "member")(q);
    var db := Next(three, SEATED[3]);
    var m := db.members[0];
    assert m in db.members && SeatIs(4, 5)(m) && m.assignedBy == Some(3);
  }

  // ---- Erasures of the seated user -------------------------------------------------------

  /** Anonymizing with a placeholder name that is taken rolls back a deletion that was already sent. */
  lemma AnonymizeLeaks()
    ensures var last := Step(AnonymizeCall(STAFFER, "x"), 4);
      && AlwaysEnabled(SEATED + [last]) && Leaks(Exec(EMPTY, SEATED), last)
      && var db := Exec(EMPTY, SEATED + [last]); Inv(db) && !LogOk(false, db)
  {
    SeatedRun();
    var db := Exec(EMPTY, SEATED);
    assert "deleted_" + "x" == BOSS.username;
    assert BOSS in db.users && OtherNamed(4, "deleted_x")(BOSS) && STAFFER in db.users;
    var m :| m in db.members && SeatIs(4, 5)(m);
    assert HeldBy(4)(m);
    BreaksAt(false, SEATED, db, Step(AnonymizeCall(STAFFER, "x"), 4));
  }

  /** Deleting the user who assigned a role of another one nulls the reference without a delta. */
  lemma HardDeleteBreaksLog()
    ensures var steps := SEATED + [Step(HardDeleteCall(3), 4)];
      && AlwaysEnabled(steps)
      && var db := Exec(EMPTY, steps); Inv(db) && !LogOk(true, db)
  {
    SeatedRun();
    var db := Exec(EMPTY, SEATED);
    assert BOSS in db.users && IsUser(db.users, 3);
    BreaksAt(true, SEATED, db, Step(HardDeleteCall(3), 4));
  }

  /** Anonymizing the seated user empties the seat, and the events go on showing its role. */
  lemma ErasureBreaksEvents()
    ensures var steps := SEATED + [Step(AnonymizeCall(STAFFER, "y"), 4)];
      AlwaysEnabled(steps) && !TwoLogs.Agree(Exec(EMPTY, steps), 4, 5)
  {
    SeatedRun();
    var db, last := Exec(EMPTY, SEATED), Step(AnonymizeCall(STAFFER, "y"), 4);
    assert STAFFER in db.users;
    OneMoreStep(SEATED, db, last);
    assert (SEATED + [last])[..|SEATED|] == SEATED;
    var m :| m in db.members && SeatIs(4, 5)(m);
    assert ("deleted_" + "y")[8] != BOSS.username[8];
    assert TwoLogs.ErasesSilently(db, last.call, 4, 5);
    TwoLogs.RunAgreesExactly(SEATED + [last], 4, 5);
  }
}
