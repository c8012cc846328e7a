/**
 What the digest collects and what the attention screen shows, as
 `apps/selfhost/src/digest-collect.ts` decides.
 */
module DigestCollect {
  import opened Common

  /** What one read gave: a value, or the words of its failure. */
  type Read<T> = Result<T, string>

  /** One configured migration, and what each read about it would give. */
  datatype Mapping = Mapping(
    id: string, tenant: string,
    status: Read<Option<string>>, deletions: Read<seq<string>>, moves: Read<seq<string>>, failures: Read<seq<string>>,
    autoApplied: Read<nat>, sharingOpen: Read<nat>, graceEnded: Option<Read<seq<string>>>)

  /** What the rules module decides by a status, and what the decision queue of a tenant would give. */
  datatype Deps = Deps(reports: Option<string> -> bool, decisions: string -> Read<nat>)

  /** What `summariseQueues` is handed for one migration. */
  datatype Report = Report(
    id: string, status: Option<string>, deletions: seq<string>, moves: seq<string>, failures: seq<string>,
    autoApplied: nat, sharingOpen: nat, graceEnded: seq<string>, pendingDecisions: nat, blindSpots: seq<string>)

  function Or<T>(read: Read<T>, fallback: T): T { if read.Ok? then read.value else fallback }

  /** What a failed read puts among the blind spots. */
  function Spot<T>(what: string, read: Read<T>): seq<string> {
    if read.Ok? then [] else [what + ": " + read.error]
  }

  predicate Reportable(m: Mapping, deps: Deps) { deps.reports(Or(m.status, None)) }

  // ---------------------------------------------------------------------
  // What should be collected
  // ---------------------------------------------------------------------

  /** A reportable migration with no reportable one of its tenant before it. */
  predicate CarriesDecisions(mappings: seq<Mapping>, k: nat, deps: Deps)
    requires k < |mappings|
  {
    Reportable(mappings[k], deps) && mappings[k].tenant !in TenantsBefore(mappings, k, deps)
  }

  /** The tenants with a reportable migration among the first `k`. */
  function TenantsBefore(mappings: seq<Mapping>, k: nat, deps: Deps): set<string>
    requires k <= |mappings|
  {
    set j | 0 <= j < k && Reportable(mappings[j], deps) :: mappings[j].tenant
  }

  function OwnSpots(m: Mapping): seq<string> {
    Spot("the migration's own status", m.status) + Spot("the deletions queue", m.deletions)
      + Spot("the moves queue", m.moves)
    + Spot("the failures queue", m.failures) + Spot("the auto-apply record", m.autoApplied)
    + Spot("the sharing checklist", m.sharingOpen)
    + (if m.graceEnded.Some? then Spot("the grace periods", m.graceEnded.value) else [])
  }

  function DecisionSpots(tenant: string, deps: Deps): seq<string> { Spot("the decision queue", deps.decisions(tenant)) }

  function ReportOf(m: Mapping, carries: bool, deps: Deps): Report {
    Report(m.id, Or(m.status, None), Or(m.deletions, []), Or(m.moves, []), Or(m.failures, []),
           Or(m.autoApplied, 0), Or(m.sharingOpen, 0), if m.graceEnded.Some? then Or(m.graceEnded.value, []) else [],
           if carries then Or(deps.decisions(m.tenant), 0) else 0,
           if carries then OwnSpots(m) + DecisionSpots(m.tenant, deps) else OwnSpots(m))
  }

  /** The reports of the first `n` migrations. */
  function Reports(mappings: seq<Mapping>, n: nat, deps: Deps): seq<Report>
    requires n <= |mappings|
  {
    if n == 0 then []
    else
      var before := Reports(mappings, n - 1, deps);
      if Reportable(mappings[n - 1], deps)
      then before + [ReportOf(mappings[n - 1], CarriesDecisions(mappings, n - 1, deps), deps)]
      else before
  }

  // ---------------------------------------------------------------------
  // What a report tells
  // ---------------------------------------------------------------------

  /** A field is what its read gave, and its fallback when the read failed. */
  predicate IsRead<T(==)>(field: T, read: Read<T>, fallback: T) {
    match read
    case Ok(value) => field == value
    case Err(_) => field == fallback
  }

  /** A failed read is told in these words, and one that did not fail not at all. */
  predicate IsTold<T>(spots: seq<string>, what: string, read: Read<T>) {
    match read
    case Ok(_) => spots == []
    case Err(message) => spots == [what + ": " + message]
  }

  /** The blind spots of a migration, read for read. */
  ghost predicate TellsFailures(spots: seq<string>, m: Mapping, first: bool, deps: Deps) {
    exists a, b, c, d, e, f, g, h :: AreSpotsOf(spots, m, first, deps, a, b, c, d, e, f, g, h)
  }

  ghost predicate AreSpotsOf(spots: seq<string>, m: Mapping, first: bool, deps: Deps, status: seq<string>,
                             deletions: seq<string>, moves: seq<string>, failures: seq<string>,
                             autoApplied: seq<string>, sharing: seq<string>, grace: seq<string>,
                             decisions: seq<string>) {
    && spots == status + deletions + moves + failures + autoApplied + sharing + grace + decisions
    && IsTold(status, "the migration's own status", m.status)
    && IsTold(deletions, "the deletions queue", m.deletions)
    && IsTold(moves, "the moves queue", m.moves)
    && IsTold(failures, "the failures queue", m.failures)
    && IsTold(autoApplied, "the auto-apply record", m.autoApplied)
    && IsTold(sharing, "the sharing checklist", m.sharingOpen)
    && (match m.graceEnded case None => grace == [] case Some(read) => IsTold(grace, "the grace periods", read))
    && (if first then IsTold(decisions, "the decision queue", deps.decisions(m.tenant)) else decisions == [])
  }

  /** A report has each read of its migration in the field for it; the decisions are in the first of a tenant alone. */
  ghost predicate Tells(r: Report, m: Mapping, first: bool, deps: Deps) {
    && r.id == m.id
    && IsRead(r.status, m.status, None)
    && IsRead(r.deletions, m.deletions, [])
    && IsRead(r.moves, m.moves, [])
    && IsRead(r.failures, m.failures, [])
    && IsRead(r.autoApplied, m.autoApplied, 0)
    && IsRead(r.sharingOpen, m.sharingOpen, 0)
    && (match m.graceEnded case None => r.graceEnded == [] case Some(read) => IsRead(r.graceEnded, read, []))
    && (if first then IsRead(r.pendingDecisions, deps.decisions(m.tenant), 0) else r.pendingDecisions == 0)
    && TellsFailures(r.blindSpots, m, first, deps)
  }

  lemma ReportTells(m: Mapping, carries: bool, deps: Deps)
    ensures Tells(ReportOf(m, carries, deps), m, carries, deps)
  {
    var grace := if m.graceEnded.Some? then Spot("the grace periods", m.graceEnded.value) else [];
    assert AreSpotsOf(ReportOf(m, carries, deps).blindSpots, m, carries, deps,
                      Spot("the migration's own status", m.status), Spot("the deletions queue", m.deletions),
                      Spot("the moves queue", m.moves), Spot("the failures queue", m.failures),
                      Spot("the auto-apply record", m.autoApplied), Spot("the sharing checklist", m.sharingOpen),
                      grace, if carries then DecisionSpots(m.tenant, deps) else []);
  }

  /** A migration is reported by its status, and as one without a status when that could not be read. */
  predicate IsReported(m: Mapping, deps: Deps) {
    match m.status
    case Ok(status) => deps.reports(status)
    case Err(_) => deps.reports(None)
  }

  /** The positions of the migrations that are reported among the first `n`, in order. */
  ghost predicate AreReported(mappings: seq<Mapping>, n: nat, deps: Deps, at: seq<nat>)
    requires n <= |mappings|
  {
    && (forall j :: 0 <= j < |at| ==> at[j] < n && IsReported(mappings[at[j]], deps))
    && (forall k: nat :: k < n && IsReported(mappings[k], deps) ==> k in at)
    && (forall i, j :: 0 <= i < j < |at| ==> at[i] < at[j])
  }

  /** None of these migrations is of the tenant. */
  ghost predicate NoneOf(mappings: seq<Mapping>, at: seq<nat>, tenant: string) {
    forall i :: 0 <= i < |at| && at[i] < |mappings| ==> mappings[at[i]].tenant != tenant
  }

  /** The `j`th report is that of the `j`th of the positions. */
  ghost predicate TellsOf(reports: seq<Report>, mappings: seq<Mapping>, at: seq<nat>, j: nat, deps: Deps)
    requires j < |at| && j < |reports| && at[j] < |mappings|
  {
    Tells(reports[j], mappings[at[j]], NoneOf(mappings, at[..j], mappings[at[j]].tenant), deps)
  }

  /**
   There is a report for each migration that is reported, in their order; and
   it tells the reads of that one, with the decisions of its tenant when no
   migration of the tenant is reported before it.
   */
  lemma ReportsTellTheReads(mappings: seq<Mapping>, n: nat, deps: Deps) returns (at: seq<nat>)
    requires n <= |mappings|
    ensures AreReported(mappings, n, deps, at) && |at| == |Reports(mappings, n, deps)|
    ensures forall j: nat :: j < |at| ==> TellsOf(Reports(mappings, n, deps), mappings, at, j, deps)
  {
    hide *;
    at := [];
    NothingReported(mappings, deps);
    for k := 0 to n
      invariant AreReported(mappings, k, deps, at) && |at| == |Reports(mappings, k, deps)|
      invariant forall j: nat :: j < |at| ==> at[j] < k && TellsOf(Reports(mappings, k, deps), mappings, at, j, deps)
    {
      ReportsThen(mappings, k, deps);
      OneMoreReported(mappings, k, deps, at);
      if Reportable(mappings[k], deps) {
        var carries, reports := CarriesDecisions(mappings, k, deps), Reports(mappings, k, deps);
        OneMoreTold(mappings, k, deps, at, reports, ReportOf(mappings[k], carries, deps));
        at := at + [k];
      }
    }
  }

  lemma NothingReported(mappings: seq<Mapping>, deps: Deps)
    ensures Reports(mappings, 0, deps) == [] && AreReported(mappings, 0, deps, [])
  {
  }

  lemma ReportsThen(mappings: seq<Mapping>, n: nat, deps: Deps)
    requires n < |mappings|
    ensures var reports := Reports(mappings, n, deps);
            Reports(mappings, n + 1, deps) ==
            if Reportable(mappings[n], deps)
            then reports + [ReportOf(mappings[n], CarriesDecisions(mappings, n, deps), deps)] else reports
  {
  }

  lemma OneMoreReported(mappings: seq<Mapping>, n: nat, deps: Deps, at: seq<nat>)
    requires n < |mappings| && AreReported(mappings, n, deps, at)
    ensures AreReported(mappings, n + 1, deps, if Reportable(mappings[n], deps) then at + [n] else at)
  {
    assert IsReported(mappings[n], deps) <==> Reportable(mappings[n], deps);
    hide IsReported;
    hide Reportable;
    if Reportable(mappings[n], deps) {
      var more := at + [n];
      forall k: nat | k < n + 1 && IsReported(mappings[k], deps)
        ensures k in more
      {
        assert k < n ==> k in at;
        assert more[|at|] == n;
      }
    }
  }

  lemma OneMoreTold(mappings: seq<Mapping>, n: nat, deps: Deps, at: seq<nat>, reports: seq<Report>, report: Report)
    requires n < |mappings| && AreReported(mappings, n, deps, at) && Reportable(mappings[n], deps)
    requires |at| == |reports| && report == ReportOf(mappings[n], CarriesDecisions(mappings, n, deps), deps)
    requires forall j: nat :: j < |at| ==> TellsOf(reports, mappings, at, j, deps)
    ensures forall j: nat :: j < |at| + 1 ==>
              (at + [n])[j] <= n && TellsOf(reports + [report], mappings, at + [n], j, deps)
  {
    FirstOfItsTenant(mappings, n, deps, at);
    ReportTells(mappings[n], CarriesDecisions(mappings, n, deps), deps);
    hide Tells;
    hide ReportOf;
    hide NoneOf;
    hide CarriesDecisions;
    var more := at + [n];
    forall j: nat | j < |at| + 1
      ensures more[j] <= n && TellsOf(reports + [report], mappings, more, j, deps)
    {
      if j < |at| {
        assert more[..j] == at[..j];
        assert TellsOf(reports, mappings, at, j, deps);
      } else {
        assert more[..j] == at;
      }
    }
  }

  lemma FirstOfItsTenant(mappings: seq<Mapping>, n: nat, deps: Deps, at: seq<nat>)
    requires n < |mappings| && AreReported(mappings, n, deps, at) && Reportable(mappings[n], deps)
    ensures CarriesDecisions(mappings, n, deps) <==> NoneOf(mappings, at, mappings[n].tenant)
  {
    if j :| 0 <= j < n && Reportable(mappings[j], deps) && mappings[j].tenant == mappings[n].tenant {
      assert IsReported(mappings[j], deps);
      var i :| 0 <= i < |at| && at[i] == j;
    }
  }

  // ---------------------------------------------------------------------
  // The collectors
  // ---------------------------------------------------------------------

  method Guarded<T>(what: string, read: Read<T>, fallback: T, blindSpots: seq<string>)
    returns (value: T, spots: seq<string>)
    ensures value == Or(read, fallback) && spots == blindSpots + Spot(what, read)
  {
    if read.Ok? { return read.value, blindSpots; }
    return fallback, blindSpots + [what + ": " + read.error];
  }

  method CollectAttention(mappings: seq<Mapping>, deps: Deps) returns (out: seq<Report>)
    ensures out == Reports(mappings, |mappings|, deps)
  {
    out := [];
    var decisionsCountedFor: set<string> := {};
    for k := 0 to |mappings|
      invariant out == Reports(mappings, k, deps)
      invariant decisionsCountedFor == TenantsBefore(mappings, k, deps)
    {
      var m := mappings[k];
      var status, spots := Guarded("the migration's own status", m.status, None, []);
      if deps.reports(status) {
        var first := m.tenant !in decisionsCountedFor;
        var report := ReadQueues(m, status, spots, first, deps);
        decisionsCountedFor := decisionsCountedFor + {m.tenant};
        out := out + [report];
      }
    }
  }

  /** The reads of one migration that reports, after that of its status. */
  method ReadQueues(m: Mapping, status: Option<string>, statusSpots: seq<string>, first: bool, deps: Deps)
    returns (r: Report)
    requires status == Or(m.status, None) && statusSpots == Spot("the migration's own status", m.status)
    ensures r == ReportOf(m, first, deps)
  {
    var deletions, spots := Guarded("the deletions queue", m.deletions, [], statusSpots);
    var moves, failures, autoApplied, sharingOpen;
    moves, spots := Guarded("the moves queue", m.moves, [], spots);
    failures, spots := Guarded("the failures queue", m.failures, [], spots);
    autoApplied, spots := Guarded("the auto-apply record", m.autoApplied, 0, spots);
    sharingOpen, spots := Guarded("the sharing checklist", m.sharingOpen, 0, spots);
    var graceEnded: seq<string> := [];
    if m.graceEnded.Some? { graceEnded, spots := Guarded("the grace periods", m.graceEnded.value, [], spots); }
    var pendingDecisions: nat := 0;
    if first { pendingDecisions, spots := Guarded("the decision queue", deps.decisions(m.tenant), 0, spots); }
    return Report(m.id, status, deletions, moves, failures, autoApplied, sharingOpen, graceEnded, pendingDecisions,
           spots);
  }

  /** What waits on the organisation; absent stands for none. */
  datatype TenantAttention = TenantAttention(pendingDecisions: Option<nat>, blindSpots: Option<seq<string>>)

  /** Every tenant once, in the order they are met. */
  function Tenants(mappings: seq<Mapping>, n: nat): (r: seq<string>)
    requires n <= |mappings|
    ensures forall t :: t in r <==> t in AllTenants(mappings, n)
  {
    if n == 0 then []
    else
      var before := Tenants(mappings, n - 1);
      var t := mappings[n - 1].tenant;
      if t in before then before else before + [t]
  }

  function AllTenants(mappings: seq<Mapping>, n: nat): set<string>
    requires n <= |mappings|
  {
    set j | 0 <= j < n :: mappings[j].tenant
  }

  /** The decisions that wait on some tenants; a queue that was not read adds none. */
  function Decisions(tenants: seq<string>, deps: Deps): nat {
    if tenants == [] then 0
    else Decisions(tenants[..|tenants| - 1], deps) + Or(deps.decisions(tenants[|tenants| - 1]), 0)
  }

  function Unread(tenants: seq<string>, deps: Deps): seq<string> {
    if tenants == [] then []
    else Unread(tenants[..|tenants| - 1], deps) + DecisionSpots(tenants[|tenants| - 1], deps)
  }

  function OrganisationOf(mappings: seq<Mapping>, deps: Deps): TenantAttention {
    var tenants := Tenants(mappings, |mappings|);
    TenantAttention(if Decisions(tenants, deps) > 0 then Some(Decisions(tenants, deps)) else None,
                    if Unread(tenants, deps) != [] then Some(Unread(tenants, deps)) else None)
  }

  method CollectTenantAttention(mappings: seq<Mapping>, deps: Deps) returns (r: TenantAttention)
    ensures r == OrganisationOf(mappings, deps)
  {
    hide Decisions;
    hide Unread;
    NoTenants(deps);
    var seen: set<string> := {};
    var pendingDecisions: nat := 0;
    var blindSpots: seq<string> := [];
    for k := 0 to |mappings|
      invariant seen == AllTenants(mappings, k)
      invariant pendingDecisions == Decisions(Tenants(mappings, k), deps)
      invariant blindSpots == Unread(Tenants(mappings, k), deps)
    {
      var t := mappings[k].tenant;
      assert AllTenants(mappings, k + 1) == AllTenants(mappings, k) + {t};
      if t !in seen {
        seen := seen + {t};
        DecisionsOfOneMore(Tenants(mappings, k), t, deps);
        var read := deps.decisions(t);
        if read.Ok? {
          pendingDecisions := pendingDecisions + read.value;
        } else {
          blindSpots := blindSpots + ["the decision queue" + ": " + read.error];
        }
      }
    }
    return TenantAttention(if pendingDecisions > 0 then Some(pendingDecisions) else None,
                           if blindSpots != [] then Some(blindSpots) else None);
  }

  lemma NoTenants(deps: Deps)
    ensures Decisions([], deps) == 0 && Unread([], deps) == []
  {
  }

  datatype Screen = Screen(mappings: seq<Report>, tenant: Option<TenantAttention>)

  /** `attentionForScreen`; `organisation` is what reading it would give, should it be read. */
  function AttentionForScreen(reported: seq<Report>, shown: seq<Report>,
                              organisation: Read<TenantAttention>): Read<Screen> {
    if |reported| > 0 then Ok(Screen(shown, None))
    else if organisation.Err? then Err(organisation.error)
    else
      var wants := organisation.value.pendingDecisions.Some? || organisation.value.blindSpots.Some?;
      Ok(Screen(shown, if wants then Some(organisation.value) else None))
  }

  // ---------------------------------------------------------------------
  // Conservation
  // ---------------------------------------------------------------------

  function Total(reports: seq<Report>): nat {
    if reports == [] then 0 else Total(reports[..|reports| - 1]) + reports[|reports| - 1].pendingDecisions
  }

  function Spots(reports: seq<Report>): nat {
    if reports == [] then 0 else Spots(reports[..|reports| - 1]) + |reports[|reports| - 1].blindSpots|
  }

  /** A list that names each of some tenants once. */
  ghost predicate Lists(tenants: seq<string>, which: set<string>) {
    NoRepeats(tenants) && forall t :: t in tenants <==> t in which
  }

  /** The tenants whose decisions are read, in order. */
  function Carried(mappings: seq<Mapping>, n: nat, deps: Deps): seq<string>
    requires n <= |mappings|
  {
    if n == 0 then []
    else
      var before := Carried(mappings, n - 1, deps);
      if CarriesDecisions(mappings, n - 1, deps) then before + [mappings[n - 1].tenant] else before
  }

  lemma DecisionsOfOneMore(tenants: seq<string>, t: string, deps: Deps)
    ensures Decisions(tenants + [t], deps) == Decisions(tenants, deps) + Or(deps.decisions(t), 0)
    ensures Unread(tenants + [t], deps) == Unread(tenants, deps) + DecisionSpots(t, deps)
  {
    assert (tenants + [t])[..|tenants|] == tenants;
  }

  lemma OneMoreReport(reports: seq<Report>, r: Report)
    ensures Total(reports + [r]) == Total(reports) + r.pendingDecisions
    ensures Spots(reports + [r]) == Spots(reports) + |r.blindSpots|
  {
    assert (reports + [r])[..|reports|] == reports;
  }

  lemma {:induction false} CarriedLists(mappings: seq<Mapping>, n: nat, deps: Deps)
    requires n <= |mappings|
    ensures Lists(Carried(mappings, n, deps), TenantsBefore(mappings, n, deps))
  {
    if n == 0 {
    } else {
      CarriedLists(mappings, n - 1, deps);
      hide Reportable;
      hide TenantsBefore;
    }
  }

  lemma {:induction false} TotalOfTheFirst(mappings: seq<Mapping>, n: nat, deps: Deps)
    requires n <= |mappings|
    ensures Total(Reports(mappings, n, deps)) == Decisions(Carried(mappings, n, deps), deps)
  {
    if n == 0 {
    } else {
      TotalOfTheFirst(mappings, n - 1, deps);
      var m := mappings[n - 1];
      hide TenantsBefore;
      hide Total;
      hide Decisions;
      DecisionsOfOneMore(Carried(mappings, n - 1, deps), m.tenant, deps);
      if Reportable(m, deps) {
        OneMoreReport(Reports(mappings, n - 1, deps), ReportOf(m, CarriesDecisions(mappings, n - 1, deps), deps));
      }
    }
  }

  lemma {:induction false} TenantsList(mappings: seq<Mapping>, n: nat)
    requires n <= |mappings|
    ensures Lists(Tenants(mappings, n), AllTenants(mappings, n))
  {
    if n == 0 {
    } else {
      TenantsList(mappings, n - 1);
    }
  }

  function Without(s: seq<string>, k: nat): seq<string>
    requires k < |s|
  {
    s[..k] + s[k + 1..]
  }

  lemma {:induction false} TakeOut(tenants: seq<string>, k: nat, deps: Deps)
    requires k < |tenants|
    ensures Decisions(tenants, deps) == Decisions(Without(tenants, k), deps) + Or(deps.decisions(tenants[k]), 0)
    ensures |Unread(tenants, deps)| == |Unread(Without(tenants, k), deps)| + |DecisionSpots(tenants[k], deps)|
    decreases |tenants|
  {
    var last, short := tenants[|tenants| - 1], tenants[..|tenants| - 1];
    assert tenants == short + [last];
    if k == |tenants| - 1 {
      assert Without(tenants, k) == short;
    } else {
      TakeOut(short, k, deps);
      assert Without(tenants, k) == Without(short, k) + [last];
      DecisionsOfOneMore(Without(short, k), last, deps);
    }
    DecisionsOfOneMore(short, last, deps);
  }

  /** The same tenants listed in two orders wait on the same decisions. */
  lemma {:induction false} OrderIsNothing(a: seq<string>, b: seq<string>, which: set<string>, deps: Deps)
    requires Lists(a, which) && Lists(b, which)
    ensures Decisions(a, deps) == Decisions(b, deps) && |Unread(a, deps)| == |Unread(b, deps)|
    decreases |a|
  {
    if a == [] {
      FirstIsIn(b);
    } else {
      var last := a[|a| - 1];
      var k := Position(b, last);
      TakeOut(a, |a| - 1, deps);
      TakeOut(b, k, deps);
      OrderIsNothing(Without(a, |a| - 1), Without(b, k), which - {last}, deps);
    }
  }

  lemma FirstIsIn(s: seq<string>)
    ensures s == [] || exists t :: t in s
  {
    if s != [] { assert s[0] in s; }
  }

  lemma Position(s: seq<string>, t: string) returns (k: nat)
    requires t in s
    ensures k < |s| && s[k] == t
  {
    k :| k < |s| && s[k] == t;
  }

  /**
   The decisions in the reports are those of the tenants that have a reportable
   migration, each counted once, whatever order the tenants are listed in.
   */
  lemma DecisionsAreCountedOnce(mappings: seq<Mapping>, deps: Deps, tenants: seq<string>)
    requires Lists(tenants, TenantsBefore(mappings, |mappings|, deps))
    ensures Total(Reports(mappings, |mappings|, deps)) == Decisions(tenants, deps)
  {
    CarriedLists(mappings, |mappings|, deps);
    TotalOfTheFirst(mappings, |mappings|, deps);
    OrderIsNothing(tenants, Carried(mappings, |mappings|, deps), TenantsBefore(mappings, |mappings|, deps), deps);
  }

  function Pending(t: TenantAttention): nat { if t.pendingDecisions.Some? then t.pendingDecisions.value else 0 }

  lemma {:induction false} DecisionsOfBoth(a: seq<string>, b: seq<string>, deps: Deps)
    ensures Decisions(a + b, deps) == Decisions(a, deps) + Decisions(b, deps)
    decreases |b|
  {
    if b == [] {
      assert a + b == a;
    } else {
      var short, last := b[..|b| - 1], b[|b| - 1];
      DecisionsOfBoth(a, short, deps);
      assert a + b == (a + short) + [last];
      assert b == short + [last];
      DecisionsOfOneMore(a + short, last, deps);
      DecisionsOfOneMore(short, last, deps);
    }
  }

  /** What the organisation's count has beyond the reports' is what waits on the tenants that report nothing. */
  lemma OrganisationCountsTheRest(mappings: seq<Mapping>, deps: Deps, silent: seq<string>)
    requires Lists(silent, AllTenants(mappings, |mappings|) - TenantsBefore(mappings, |mappings|, deps))
    ensures Pending(OrganisationOf(mappings, deps))
            == Total(Reports(mappings, |mappings|, deps)) + Decisions(silent, deps)
  {
    var n := |mappings|;
    var carried := Carried(mappings, n, deps);
    CarriedLists(mappings, n, deps);
    TotalOfTheFirst(mappings, n, deps);
    TenantsList(mappings, n);
    DecisionsOfBoth(carried, silent, deps);
    BothList(carried, silent, TenantsBefore(mappings, n, deps), AllTenants(mappings, n));
    OrderIsNothing(Tenants(mappings, n), carried + silent, AllTenants(mappings, n), deps);
  }

  lemma BothList(a: seq<string>, b: seq<string>, some: set<string>, all: set<string>)
    requires Lists(a, some) && Lists(b, all - some) && some <= all
    ensures Lists(a + b, all)
  {
    var both := a + b;
    forall i, j | 0 <= i < j < |both|
      ensures both[i] != both[j]
    {
      if i < |a| && j >= |a| {
        assert a[i] in some && b[j - |a|] in all - some;
      }
    }
  }

  /** The two collectors agree when every tenant has a reportable migration. */
  lemma CollectorsAgree(mappings: seq<Mapping>, deps: Deps)
    requires forall k :: 0 <= k < |mappings| ==> mappings[k].tenant in TenantsBefore(mappings, |mappings|, deps)
    ensures Pending(OrganisationOf(mappings, deps)) == Total(Reports(mappings, |mappings|, deps))
  {
    OrganisationCountsTheRest(mappings, deps, []);
  }

  // ---------------------------------------------------------------------
  // Blind spots
  // ---------------------------------------------------------------------

  function One(failed: bool): nat { if failed then 1 else 0 }

  /** How many of the reads of a migration itself failed. */
  function FailedReads(m: Mapping): nat {
    One(m.status.Err?) + One(m.deletions.Err?) + One(m.moves.Err?) + One(m.failures.Err?) + One(m.autoApplied.Err?)
    + One(m.sharingOpen.Err?) + One(m.graceEnded.Some? && m.graceEnded.value.Err?)
  }

  function AllFailedReads(mappings: seq<Mapping>, n: nat, deps: Deps): nat
    requires n <= |mappings|
  {
    if n == 0 then 0
    else
      AllFailedReads(mappings, n - 1, deps)
      + if Reportable(mappings[n - 1], deps) then FailedReads(mappings[n - 1]) else 0
  }

  /** The tenants of a list whose queue could not be read. */
  function FailedTenants(tenants: seq<string>, deps: Deps): nat {
    if tenants == [] then 0
    else FailedTenants(tenants[..|tenants| - 1], deps) + One(deps.decisions(tenants[|tenants| - 1]).Err?)
  }

  lemma {:induction false} UnreadIsTheFailed(tenants: seq<string>, deps: Deps)
    ensures |Unread(tenants, deps)| == FailedTenants(tenants, deps)
    decreases |tenants|
  {
    if tenants == [] {
    } else {
      UnreadIsTheFailed(tenants[..|tenants| - 1], deps);
    }
  }

  lemma OwnSpotsAreTheFailures(m: Mapping)
    ensures |OwnSpots(m)| == FailedReads(m)
  {
    assert forall s, r: Read<seq<string>> :: |Spot(s, r)| == One(r.Err?);
  }

  lemma ReportSpots(m: Mapping, carries: bool, deps: Deps)
    ensures |ReportOf(m, carries, deps).blindSpots| ==
            FailedReads(m) + if carries then |DecisionSpots(m.tenant, deps)| else 0
  {
    OwnSpotsAreTheFailures(m);
    hide OwnSpots;
    hide FailedReads;
  }

  lemma {:induction false} SpotsOfTheFirst(mappings: seq<Mapping>, n: nat, deps: Deps)
    requires n <= |mappings|
    ensures Spots(Reports(mappings, n, deps))
            == AllFailedReads(mappings, n, deps) + |Unread(Carried(mappings, n, deps), deps)|
  {
    if n == 0 {
    } else {
      SpotsOfTheFirst(mappings, n - 1, deps);
      var m := mappings[n - 1];
      var carries := CarriesDecisions(mappings, n - 1, deps);
      ReportSpots(m, carries, deps);
      assert carries ==> Reportable(m, deps);
      hide CarriesDecisions;
      hide Reportable;
      hide FailedReads;
      hide ReportOf;
      hide DecisionSpots;
      hide Spots;
      hide Unread;
      DecisionsOfOneMore(Carried(mappings, n - 1, deps), m.tenant, deps);
      if Reportable(m, deps) {
        OneMoreReport(Reports(mappings, n - 1, deps), ReportOf(m, carries, deps));
      }
    }
  }

  /**
   The reports have one blind spot for each failed read of a migration that
   reports, and one for each of their tenants whose queue could not be read.
   */
  lemma BlindSpotsAreTheFailures(mappings: seq<Mapping>, deps: Deps, tenants: seq<string>)
    requires Lists(tenants, TenantsBefore(mappings, |mappings|, deps))
    ensures Spots(Reports(mappings, |mappings|, deps))
            == AllFailedReads(mappings, |mappings|, deps) + FailedTenants(tenants, deps)
  {
    SpotsOfTheFirst(mappings, |mappings|, deps);
    CarriedLists(mappings, |mappings|, deps);
    OrderIsNothing(tenants, Carried(mappings, |mappings|, deps), TenantsBefore(mappings, |mappings|, deps), deps);
    UnreadIsTheFailed(tenants, deps);
  }

  // ---------------------------------------------------------------------
  // The screen
  // ---------------------------------------------------------------------

  lemma {:induction false} SomethingReports(mappings: seq<Mapping>, n: nat, deps: Deps)
    requires n <= |mappings|
    ensures Reports(mappings, n, deps) == [] <==> TenantsBefore(mappings, n, deps) == {}
  {
    if n == 0 {
    } else {
      SomethingReports(mappings, n - 1, deps);
    }
  }

  /**
   The screen has the organisation on it exactly when no migration reports and
   some tenant has a decision waiting or a queue that could not be read,
   whatever part of the reports is shown.
   */
  lemma ScreenShowsTheOrganisation(mappings: seq<Mapping>, shown: seq<Report>, deps: Deps)
    ensures var reported := Reports(mappings, |mappings|, deps);
            var screen := AttentionForScreen(reported, shown, Ok(OrganisationOf(mappings, deps)));
            && screen.Ok? && screen.value.mappings == shown
            && (screen.value.tenant.Some? <==>
                (forall k :: 0 <= k < |mappings| ==> !Reportable(mappings[k], deps))
                && exists k :: 0 <= k < |mappings| && deps.decisions(mappings[k].tenant) != Ok(0))
  {
    var n := |mappings|;
    var tenants := Tenants(mappings, n);
    SomethingReports(mappings, n, deps);
    NothingWaits(tenants, deps);
    if k :| 0 <= k < n && Reportable(mappings[k], deps) {
      assert mappings[k].tenant in TenantsBefore(mappings, n, deps);
    }
    if k :| 0 <= k < n && deps.decisions(mappings[k].tenant) != Ok(0) {
      assert mappings[k].tenant in AllTenants(mappings, n);
    }
    if t :| t in tenants && deps.decisions(t) != Ok(0) {
      assert t in AllTenants(mappings, n);
    }
  }

  lemma {:induction false} NothingWaits(tenants: seq<string>, deps: Deps)
    ensures (Decisions(tenants, deps) == 0 && Unread(tenants, deps) == [])
            <==> (forall t :: t in tenants ==> deps.decisions(t) == Ok(0))
    decreases |tenants|
  {
    if tenants == [] {
    } else {
      var short, last := tenants[..|tenants| - 1], tenants[|tenants| - 1];
      NothingWaits(short, deps);
      assert tenants == short + [last];
    }
  }

  /** No decision is on the whole screen twice: it is on a migration's report or the organisation's, never on both. */
  lemma ScreenCountsOnce(mappings: seq<Mapping>, deps: Deps, tenants: seq<string>)
    requires var reporting := TenantsBefore(mappings, |mappings|, deps);
             Lists(tenants, if reporting != {} then reporting else AllTenants(mappings, |mappings|))
    ensures var reported := Reports(mappings, |mappings|, deps);
            var screen := AttentionForScreen(reported, reported, Ok(OrganisationOf(mappings, deps)));
            screen.Ok? &&
            Total(screen.value.mappings) + (if screen.value.tenant.Some? then Pending(screen.value.tenant.value) else 0)
            == Decisions(tenants, deps)
  {
    var n := |mappings|;
    SomethingReports(mappings, n, deps);
    if Reports(mappings, n, deps) != [] {
      DecisionsAreCountedOnce(mappings, deps, tenants);
    } else {
      TenantsList(mappings, n);
      OrderIsNothing(tenants, Tenants(mappings, n), AllTenants(mappings, n), deps);
    }
  }

  /** What waits on the organisation is read when no migration reports, and then its failure is the screen's. */
  lemma ScreenReadsTheOrganisation(mappings: seq<Mapping>, shown: seq<Report>, deps: Deps, message: string)
    ensures var screen := AttentionForScreen(Reports(mappings, |mappings|, deps), shown, Err(message));
            if exists k :: 0 <= k < |mappings| && IsReported(mappings[k], deps) then screen == Ok(Screen(shown, None))
            else screen == Err(message)
  {
    var n := |mappings|;
    SomethingReports(mappings, n, deps);
    if k :| 0 <= k < n && IsReported(mappings[k], deps) {
      assert Reportable(mappings[k], deps);
      assert mappings[k].tenant in TenantsBefore(mappings, n, deps);
    }
    if t :| t in TenantsBefore(mappings, n, deps) {
      var k :| 0 <= k < n && Reportable(mappings[k], deps) && mappings[k].tenant == t;
      assert IsReported(mappings[k], deps);
    }
  }

  /** An organisation's words: one for each of its tenants whose queue could not be read, and those alone. */
  lemma {:induction false} UnreadTellsEach(tenants: seq<string>, deps: Deps, words: string)
    ensures words in Unread(tenants, deps) <==>
            exists k :: 0 <= k < |tenants| && deps.decisions(tenants[k]).Err?
                        && words == "the decision queue: " + deps.decisions(tenants[k]).error
    decreases |tenants|
  {
    if tenants == [] {
    } else {
      var short, last := tenants[..|tenants| - 1], tenants[|tenants| - 1];
      UnreadTellsEach(short, deps, words);
      assert "the decision queue: " == "the decision queue" + ": ";
      assert words in Unread(tenants, deps) <==> words in Unread(short, deps) || words in DecisionSpots(last, deps);
    }
  }
}
