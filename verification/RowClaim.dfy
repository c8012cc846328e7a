/**
 Which database row each migration owns, over every boot of an upgraded
 appliance: `claimLegacyMappingRows` in `apps/selfhost/src/config-dir.ts` and
 the row upsert that follows it in `apps/selfhost/src/index.ts`.
 */
module RowClaim {
  import opened Common

  /** A tenant id is a UUID: 36 characters. */
  type Tenant = t: string | |t| == 36 witness seq(36, _ => '0')

  /** What a config file describes; its identity is both ids. */
  datatype Migration = Migration(tenant: Tenant, mappingId: string)

  /** A row id: the hash of a seed, which tells seeds apart, or a seed's first bytes dressed as a UUID. */
  datatype Id = Hashed(seed: string) | Dressed(hex: seq<int>)

  function MappingSeed(m: Migration): string { m.tenant + ":mapping:" + m.mappingId }

  /** The two hex digits of each byte. */
  function Hex(bytes: string): (r: seq<int>)
    ensures |r| == 2 * |bytes|
  {
    if bytes == "" then [] else [bytes[0] as int / 16, bytes[0] as int % 16] + Hex(bytes[1..])
  }

  /** `uuidFromString` of the mapping's seed. */
  function FreshId(m: Migration): Id { Hashed(MappingSeed(m)) }

  /** `legacyUuidFromString`: the first sixteen bytes, the thirteenth digit given up to the version. */
  function LegacyId(m: Migration): Id {
    var hex := Hex(MappingSeed(m))[..32];
    Dressed(hex[..12] + [4] + hex[13..])
  }

  /** Tenant ids are of one length, so the seed tells migrations apart. */
  lemma SeedIsInjective(m: Migration, n: Migration)
    requires MappingSeed(m) == MappingSeed(n)
    ensures m == n
  {
    var s := MappingSeed(m);
    assert s[..36] == m.tenant && s[..36] == n.tenant;
    assert s[36 + 9..] == m.mappingId && MappingSeed(n)[36 + 9..] == n.mappingId;
  }

  lemma {:induction false} HexOfPrefix(a: string, b: string)
    ensures Hex(a + b) == Hex(a) + Hex(b)
  {
    if a == "" {
      assert a + b == b;
    } else {
      assert (a + b)[1..] == a[1..] + b;
      HexOfPrefix(a[1..], b);
    }
  }

  /** The legacy id says nothing but the tenant: every mapping of a tenant had the same. */
  lemma LegacyIdIsShared(m: Migration, n: Migration)
    requires m.tenant == n.tenant
    ensures LegacyId(m) == LegacyId(n)
  {
    HexOfPrefix(m.tenant, ":mapping:" + m.mappingId);
    HexOfPrefix(n.tenant, ":mapping:" + n.mappingId);
    assert MappingSeed(m) == m.tenant + (":mapping:" + m.mappingId);
    assert MappingSeed(n) == n.tenant + (":mapping:" + n.mappingId);
    assert Hex(MappingSeed(m))[..32] == Hex(m.tenant)[..32] == Hex(MappingSeed(n))[..32];
  }

  lemma {:induction false} HexDigits(bytes: string, k: nat)
    requires k < |bytes|
    ensures Hex(bytes)[2 * k] == bytes[k] as int / 16 && Hex(bytes)[2 * k + 1] == bytes[k] as int % 16
  {
    if k > 0 { HexDigits(bytes[1..], k - 1); }
  }

  /** The old id is the tenant id's first sixteen bytes, high digit before low, with a 4 for the thirteenth digit. */
  lemma LegacyIdIsOfTheTenant(m: Migration, k: nat)
    requires k < 32
    ensures LegacyId(m).Dressed? && |LegacyId(m).hex| == 32
    ensures var byte := m.tenant[k / 2] as int;
            LegacyId(m).hex[k] == if k == 12 then 4 else if k % 2 == 0 then byte / 16 else byte % 16
  {
    HexDigits(MappingSeed(m), k / 2);
    assert MappingSeed(m)[k / 2] == m.tenant[k / 2];
  }

  // ---------------------------------------------------------------------
  // The configs of one boot
  // ---------------------------------------------------------------------

  function MappingIdOf(m: Migration): string { m.mappingId }

  ghost predicate Distinct(config: seq<Migration>) { NoKeyTwice(config, MappingIdOf) }

  datatype LoadFault = Invalid(file: nat) | Duplicate(mappingId: string)

  /** `loadConfigDir`, the files already read and parsed; `None` is a file that does not parse. */
  method LoadConfigDir(files: seq<Option<Migration>>) returns (r: Result<seq<Migration>, LoadFault>)
    ensures r.Ok? <==> (forall k :: 0 <= k < |files| ==> files[k].Some?)
                       && forall i, j :: 0 <= i < j < |files| ==> files[i].value.mappingId != files[j].value.mappingId
    ensures r.Ok? ==>
              && |r.value| == |files| && Distinct(r.value)
              && forall k :: 0 <= k < |files| ==> files[k] == Some(r.value[k])
  {
    var loaded: seq<Migration> := [];
    var seen: set<string> := {};
    for k := 0 to |files|
      invariant |loaded| == k && forall i :: 0 <= i < k ==> files[i] == Some(loaded[i])
      invariant Distinct(loaded)
      invariant forall id :: id in seen <==> exists i :: 0 <= i < k && loaded[i].mappingId == id
    {
      if files[k].None? { return Err(Invalid(k)); }
      var m := files[k].value;
      if m.mappingId in seen {
        var i :| 0 <= i < k && loaded[i].mappingId == m.mappingId;
        assert files[i].value.mappingId == files[k].value.mappingId;
        return Err(Duplicate(m.mappingId));
      }
      seen := seen + {m.mappingId};
      loaded := loaded + [m];
    }
    return Ok(loaded);
  }

  // ---------------------------------------------------------------------
  // The rows
  // ---------------------------------------------------------------------

  datatype Row = Row(tenant: Tenant, name: Option<string>)

  type Rows = map<Id, Row>

  /** What a query in a tenant's scope finds under an id. */
  function RowFor(rows: Rows, tenant: Tenant, id: Id): Option<Row> {
    if id in rows && rows[id].tenant == tenant then Some(rows[id]) else None
  }

  datatype Owned = Fresh | Legacy | Neither

  function Owner(rows: Rows, claimed: set<Id>, m: Migration): Owned {
    if RowFor(rows, m.tenant, FreshId(m)).Some? then Fresh
    else if LegacyId(m) in claimed then Neither
    else
      match RowFor(rows, m.tenant, LegacyId(m))
      case None => Neither
      case Some(row) => if row.name.None? || row.name.value == m.mappingId then Legacy else Neither
  }

  function Resolved(rows: Rows, claimed: set<Id>, m: Migration): Id {
    if Owner(rows, claimed, m).Legacy? then LegacyId(m) else FreshId(m)
  }

  /** The rows after a claim: the legacy row carries the mapping's name. */
  function Claimed(rows: Rows, claimed: set<Id>, m: Migration): Rows {
    if Owner(rows, claimed, m).Legacy? then rows[LegacyId(m) := rows[LegacyId(m)].(name := Some(m.mappingId))] else rows
  }

  function ClaimedIds(rows: Rows, claimed: set<Id>, m: Migration): set<Id> {
    if Owner(rows, claimed, m).Legacy? then claimed + {LegacyId(m)} else claimed
  }

  /** A boot's claims in order: the rows after them and the id each mapping is keyed by. */
  function ClaimAll(rows: Rows, claimed: set<Id>, config: seq<Migration>): (Rows, seq<Id>)
    decreases |config|
  {
    if config == [] then (rows, [])
    else
      var m := config[0];
      var rest := ClaimAll(Claimed(rows, claimed, m), ClaimedIds(rows, claimed, m), config[1..]);
      (rest.0, [Resolved(rows, claimed, m)] + rest.1)
  }

  /** One turn of the loop over a boot's claims. */
  lemma ClaimsGoOn(rows: Rows, claimed: set<Id>, config: seq<Migration>, k: nat, resolved: seq<Id>)
    requires k < |config|
    ensures var m := config[k];
            var rest := ClaimAll(rows, claimed, config[k..]);
            var more := ClaimAll(Claimed(rows, claimed, m), ClaimedIds(rows, claimed, m), config[k + 1..]);
            rest.0 == more.0 && resolved + rest.1 == resolved + [Resolved(rows, claimed, m)] + more.1
  {
    hide Resolved;
    hide Claimed;
    hide ClaimedIds;
    assert config[k..][1..] == config[k + 1..];
  }

  class Database {
    var rows: Rows

    constructor (rows: Rows)
      ensures this.rows == rows
    {
      this.rows := rows;
    }

    /** The transaction of one claim. */
    method ClaimOne(m: Migration, claimedThisBoot: set<Id>) returns (owned: Owned)
      modifies this
      ensures owned == Owner(old(rows), claimedThisBoot, m)
      ensures rows == Claimed(old(rows), claimedThisBoot, m)
    {
      if RowFor(rows, m.tenant, FreshId(m)).Some? { return Fresh; }
      var legacyId := LegacyId(m);
      if legacyId in claimedThisBoot { return Neither; }
      var row := RowFor(rows, m.tenant, legacyId);
      if row.None? { return Neither; }
      if row.value.name == Some(m.mappingId) {
        assert rows == rows[legacyId := row.value];
        return Legacy;
      }
      if row.value.name.Some? { return Neither; }
      rows := rows[legacyId := rows[legacyId].(name := Some(m.mappingId))];
      return Legacy;
    }

    /** `claimLegacyMappingRows`. */
    method ClaimLegacyMappingRows(mappings: seq<Migration>) returns (resolved: seq<Id>)
      modifies this
      ensures (rows, resolved) == ClaimAll(old(rows), {}, mappings)
    {
      hide Resolved;
      hide Claimed;
      hide LegacyId;
      hide Owner;
      resolved := [];
      var claimedThisBoot: set<Id> := {};
      ghost var all := ClaimAll(rows, {}, mappings);
      assert mappings[0..] == mappings && [] + all.1 == all.1;
      for k := 0 to |mappings|
        invariant var rest := ClaimAll(rows, claimedThisBoot, mappings[k..]);
                  ClaimAll(old(rows), {}, mappings) == (rest.0, resolved + rest.1)
      {
        ghost var before := rows;
        ClaimsGoOn(before, claimedThisBoot, mappings, k, resolved);
        var owned := ClaimOne(mappings[k], claimedThisBoot);
        var id := if owned.Legacy? then LegacyId(mappings[k]) else FreshId(mappings[k]);
        assert id == Resolved(before, claimedThisBoot, mappings[k]) by {
          ResolvedIs(before, claimedThisBoot, mappings[k]);
        }
        if owned.Legacy? {
          claimedThisBoot := claimedThisBoot + {LegacyId(mappings[k])};
        }
        resolved := resolved + [id];
      }
      assert resolved + [] == resolved;
    }

    /** The row upsert: inserted, or its name filled in where it has none. Another tenant's row is refused. */
    method EnsureRow(m: Migration, id: Id)
      modifies this
      ensures rows == Upserted(old(rows), m, id)
    {
      if id !in rows {
        rows := rows[id := Row(m.tenant, Some(m.mappingId))];
      } else if rows[id].tenant == m.tenant && rows[id].name.None? {
        rows := rows[id := rows[id].(name := Some(m.mappingId))];
      }
    }
  }

  /**
   A migration keeps the old row exactly when it has no row of its own, none
   before it in the boot took the old one, and that is its tenant's and has no
   name or this migration's; it is then given the name, and nothing else moves.
   */
  lemma ClaimRule(rows: Rows, claimed: set<Id>, m: Migration)
    ensures var fresh', legacy := FreshId(m), LegacyId(m);
            var own := fresh' in rows && rows[fresh'].tenant == m.tenant;
            var old' := legacy in rows && rows[legacy].tenant == m.tenant
                        && (rows[legacy].name == None || rows[legacy].name == Some(m.mappingId));
            if !own && old' && legacy !in claimed
            then && Resolved(rows, claimed, m) == legacy
                 && Claimed(rows, claimed, m) == rows[legacy := Row(m.tenant, Some(m.mappingId))]
                 && ClaimedIds(rows, claimed, m) == claimed + {legacy}
            else && Resolved(rows, claimed, m) == fresh'
                 && Claimed(rows, claimed, m) == rows && ClaimedIds(rows, claimed, m) == claimed
  {
  }

  lemma ResolvedIs(rows: Rows, claimed: set<Id>, m: Migration)
    ensures Resolved(rows, claimed, m) == if Owner(rows, claimed, m).Legacy? then LegacyId(m) else FreshId(m)
  {
  }

  function Upserted(rows: Rows, m: Migration, id: Id): Rows {
    if id !in rows then rows[id := Row(m.tenant, Some(m.mappingId))]
    else if rows[id].tenant == m.tenant && rows[id].name.None? then rows[id := rows[id].(name := Some(m.mappingId))]
    else rows
  }

  // ---------------------------------------------------------------------
  // Boots, crashes and config edits
  // ---------------------------------------------------------------------

  /** A boot under way: its configs in file order, and what it has resolved of them so far. */
  datatype Boot = Boot(config: seq<Migration>, claimed: set<Id>, resolved: seq<Id>)

  datatype Resolution = Resolution(m: Migration, id: Id)

  /** The database, the process if it runs, and every resolution any boot has made. */
  datatype State = State(rows: Rows, boot: Option<Boot>, log: set<Resolution>)

  /** A process starts on some configs, claims for the next of them, writes a row it resolved, or is gone. */
  datatype Event = Start(config: seq<Migration>) | Claim | Ensure(k: nat) | Crash

  ghost predicate Can(s: State, e: Event) {
    match e
    case Start(config) => s.boot.None? && Distinct(config)
    case Claim => s.boot.Some? && |s.boot.value.resolved| < |s.boot.value.config|
    case Ensure(k) => s.boot.Some? && |s.boot.value.resolved| == |s.boot.value.config| && k < |s.boot.value.config|
    case Crash => s.boot.Some?
  }

  ghost function Next(s: State, e: Event): State
    requires Can(s, e)
  {
    match e
    case Start(config) => s.(boot := Some(Boot(config, {}, [])))
    case Crash => s.(boot := None)
    case Claim =>
      var b := s.boot.value;
      var m := b.config[|b.resolved|];
      var id := Resolved(s.rows, b.claimed, m);
      State(Claimed(s.rows, b.claimed, m),
            Some(Boot(b.config, ClaimedIds(s.rows, b.claimed, m), b.resolved + [id])),
            s.log + {Resolution(m, id)})
    case Ensure(k) =>
      var b := s.boot.value;
      s.(rows := Upserted(s.rows, b.config[k], b.resolved[k]))
  }

  /** Before the first boot of the new version: rows under legacy ids only, named or not. */
  ghost predicate Init(s: State) {
    s.boot.None? && s.log == {} && forall id :: id in s.rows ==> id.Dressed?
  }

  /** A migration that resolved to its new id has its row, or the legacy row is not its to claim. */
  ghost predicate StaysFresh(rows: Rows, m: Migration) {
    || FreshId(m) in rows
    || RowFor(rows, m.tenant, LegacyId(m)).None?
    || (rows[LegacyId(m)].name.Some? && rows[LegacyId(m)].name.value != m.mappingId)
  }

  ghost predicate StaysLegacy(rows: Rows, m: Migration) {
    && FreshId(m) !in rows
    && LegacyId(m) in rows
    && rows[LegacyId(m)] == Row(m.tenant, Some(m.mappingId))
  }

  ghost predicate LogHolds(rows: Rows, log: set<Resolution>) {
    && (forall r :: r in log ==> if r.id.Hashed? then r.id == FreshId(r.m) && StaysFresh(rows, r.m)
                                 else r.id == LegacyId(r.m) && StaysLegacy(rows, r.m))
    && (forall m :: FreshId(m) in rows ==>
         rows[FreshId(m)] == Row(m.tenant, Some(m.mappingId)) && Resolution(m, FreshId(m)) in log)
  }

  ghost predicate BootHolds(s: State) {
    s.boot.Some? ==>
      var b := s.boot.value;
      && Distinct(b.config)
      && |b.resolved| <= |b.config|
      && (forall k :: 0 <= k < |b.resolved| ==> Resolution(b.config[k], b.resolved[k]) in s.log)
      && (forall id :: id in b.claimed ==>
           exists k :: 0 <= k < |b.resolved| && b.resolved[k] == id && id == LegacyId(b.config[k]))
  }

  ghost predicate Inv(s: State) {
    LogHolds(s.rows, s.log) && BootHolds(s)
  }

  lemma ClaimKeepsLog(rows: Rows, claimed: set<Id>, log: set<Resolution>, m: Migration)
    requires LogHolds(rows, log)
    requires LegacyId(m) in claimed && RowFor(rows, m.tenant, LegacyId(m)).Some? ==>
               rows[LegacyId(m)].name.Some? && rows[LegacyId(m)].name.value != m.mappingId
    ensures LogHolds(Claimed(rows, claimed, m), log + {Resolution(m, Resolved(rows, claimed, m))})
  {
    hide MappingSeed;
    hide LegacyId;
    var id, after := Resolved(rows, claimed, m), Claimed(rows, claimed, m);
    var more := log + {Resolution(m, id)};
    forall r | r in more
      ensures if r.id.Hashed? then r.id == FreshId(r.m) && StaysFresh(after, r.m)
              else r.id == LegacyId(r.m) && StaysLegacy(after, r.m)
    {
      LegacyIsDressed(m);
      LegacyIsDressed(r.m);
    }
    forall n | FreshId(n) in after
      ensures after[FreshId(n)] == Row(n.tenant, Some(n.mappingId)) && Resolution(n, FreshId(n)) in more
    {
      LegacyIsDressed(m);
    }
  }

  lemma LegacyIsDressed(m: Migration)
    ensures LegacyId(m).Dressed? && FreshId(m).Hashed?
  {
  }

  lemma EnsureKeepsLog(rows: Rows, log: set<Resolution>, r: Resolution)
    requires LogHolds(rows, log) && r in log
    ensures LogHolds(Upserted(rows, r.m, r.id), log)
  {
    hide MappingSeed;
    hide LegacyId;
    var after := Upserted(rows, r.m, r.id);
    forall n | FreshId(n) == FreshId(r.m)
      ensures n == r.m
    {
      FreshIsInjective(n, r.m);
    }
    forall q | q in log
      ensures if q.id.Hashed? then q.id == FreshId(q.m) && StaysFresh(after, q.m)
              else q.id == LegacyId(q.m) && StaysLegacy(after, q.m)
    {
      LegacyIsDressed(q.m);
    }
  }

  lemma FreshIsInjective(m: Migration, n: Migration)
    requires FreshId(m) == FreshId(n)
    ensures m == n
  {
    SeedIsInjective(m, n);
  }

  lemma InvHolds(s: State, e: Event)
    requires Inv(s) && Can(s, e)
    ensures Inv(Next(s, e))
  {
    hide LogHolds;
    hide LegacyId;
    match e
    case Claim => ClaimKeepsInv(s);
    case Ensure(k) =>
      var b := s.boot.value;
      EnsureKeepsLog(s.rows, s.log, Resolution(b.config[k], b.resolved[k]));
    case _ =>
  }

  lemma ClaimKeepsInv(s: State)
    requires Inv(s) && Can(s, Claim)
    ensures Inv(Next(s, Claim))
  {
    hide MappingSeed;
    hide LegacyId;
    var b := s.boot.value;
    var n := |b.resolved|;
    var m := b.config[n];
    if LegacyId(m) in b.claimed {
      var k :| 0 <= k < n && b.resolved[k] == LegacyId(m) && LegacyId(m) == LegacyId(b.config[k]);
      var r := Resolution(b.config[k], b.resolved[k]);
      assert r in s.log;
      LegacyIsDressed(m);
      assert StaysLegacy(s.rows, r.m);
      assert b.config[k].mappingId != m.mappingId;
    }
    ClaimKeepsLog(s.rows, b.claimed, s.log, m);
    var next := Next(s, Claim).boot.value;
    forall id | id in next.claimed
      ensures exists k :: 0 <= k < |next.resolved| && next.resolved[k] == id && id == LegacyId(next.config[k])
    {
      if id in b.claimed {
        var k :| 0 <= k < n && b.resolved[k] == id && id == LegacyId(b.config[k]);
        assert next.resolved[k] == id;
      } else {
        assert next.resolved[n] == id;
      }
    }
  }

  // ---------------------------------------------------------------------
  // Every run
  // ---------------------------------------------------------------------

  ghost predicate IsRun(states: seq<State>, events: seq<Event>) {
    && |states| == |events| + 1
    && Init(states[0])
    && forall k :: 0 <= k < |events| ==> Can(states[k], events[k]) && states[k + 1] == Next(states[k], events[k])
  }

  lemma {:induction false} InvAlways(states: seq<State>, events: seq<Event>, k: nat)
    requires IsRun(states, events) && k < |states|
    ensures Inv(states[k])
  {
    hide Inv;
    if k == 0 {
      InitHolds(states[0]);
    } else {
      InvAlways(states, events, k - 1);
      InvHolds(states[k - 1], events[k - 1]);
    }
  }

  lemma InitHolds(s: State)
    requires Init(s)
    ensures Inv(s)
  {
  }

  /** The migration a step is for: the next one of a claim, or the one whose row is written. */
  function Concerns(s: State, e: Event): Option<Migration>
    requires Can(s, e)
  {
    match e
    case Claim => Some(s.boot.value.config[|s.boot.value.resolved|])
    case Ensure(k) => Some(s.boot.value.config[k])
    case _ => None
  }

  /** A row that a step writes is its migration's: new, or of its tenant and without a name until then. */
  lemma StepWritesItsOwn(s: State, e: Event, id: Id)
    requires Inv(s) && Can(s, e) && id in Next(s, e).rows && (id in s.rows ==> Next(s, e).rows[id] != s.rows[id])
    ensures var m := Concerns(s, e);
            && m.Some?
            && Next(s, e).rows[id] == Row(m.value.tenant, Some(m.value.mappingId))
            && (id in s.rows ==> s.rows[id] == Row(m.value.tenant, None))
  {
    hide LegacyId;
    hide MappingSeed;
    hide LogHolds;
  }

  /** No row is lost, moves to another tenant or changes a name it has. */
  ghost predicate Keeps(before: Rows, after: Rows) {
    forall id :: id in before ==>
      && id in after
      && after[id].tenant == before[id].tenant
      && (before[id].name.Some? ==> after[id].name == before[id].name)
  }

  lemma StepKeeps(s: State, e: Event)
    requires Inv(s) && Can(s, e)
    ensures Keeps(s.rows, Next(s, e).rows) && s.log <= Next(s, e).log
  {
    hide LegacyId;
    hide MappingSeed;
  }

  lemma {:induction false} RunKeeps(states: seq<State>, events: seq<Event>, j: nat, k: nat)
    requires IsRun(states, events) && j <= k < |states|
    ensures Keeps(states[j].rows, states[k].rows) && states[j].log <= states[k].log
    decreases k - j
  {
    hide Inv;
    hide Keeps;
    hide Next;
    hide Can;
    if j == k {
      KeepsItself(states[k].rows);
    } else {
      RunKeeps(states, events, j, k - 1);
      InvAlways(states, events, k - 1);
      StepKeeps(states[k - 1], events[k - 1]);
      KeepsOn(states[j].rows, states[k - 1].rows, states[k].rows);
    }
  }

  lemma KeepsItself(rows: Rows)
    ensures Keeps(rows, rows)
  {
  }

  lemma KeepsOn(a: Rows, b: Rows, c: Rows)
    requires Keeps(a, b) && Keeps(b, c)
    ensures Keeps(a, c)
  {
  }

  lemma OneIdEach(rows: Rows, log: set<Resolution>, r: Resolution, q: Resolution)
    requires LogHolds(rows, log) && r in log && q in log
    ensures r.m == q.m <==> r.id == q.id
  {
    hide LegacyId;
    hide MappingSeed;
    LegacyIsDressed(r.m);
    LegacyIsDressed(q.m);
    if FreshId(r.m) == FreshId(q.m) { FreshIsInjective(r.m, q.m); }
  }

  /**
   Over any run of boots, crashes and config edits, two resolutions anywhere
   in it are of one migration exactly when they are to one id: a migration
   keeps the id it first resolved to, and never shares it.
   */
  lemma OwnershipIsStable(states: seq<State>, events: seq<Event>, j: nat, k: nat, r: Resolution, q: Resolution)
    requires IsRun(states, events) && j < |states| && k < |states| && r in states[j].log && q in states[k].log
    ensures r.m == q.m <==> r.id == q.id
  {
    hide LogHolds;
    var last := |states| - 1;
    RunKeeps(states, events, j, last);
    RunKeeps(states, events, k, last);
    InvAlways(states, events, last);
    OneIdEach(states[last].rows, states[last].log, r, q);
  }

  /**
   From then on a row a migration resolved to, once there, carries that
   migration's tenant and name and no other's.
   */
  lemma RowIsItsOwners(states: seq<State>, events: seq<Event>, j: nat, k: nat, r: Resolution)
    requires IsRun(states, events) && j <= k < |states| && r in states[j].log && r.id in states[k].rows
    ensures states[k].rows[r.id] == Row(r.m.tenant, Some(r.m.mappingId))
  {
    hide LegacyId;
    hide MappingSeed;
    RunKeeps(states, events, j, k);
    InvAlways(states, events, k);
    LegacyIsDressed(r.m);
  }

  /** A row's name is given at most once: it is null until then, and the same ever after. */
  lemma NameIsGivenOnce(states: seq<State>, events: seq<Event>, i: nat, j: nat, k: nat, id: Id)
    requires IsRun(states, events) && i <= j <= k < |states|
    requires id in states[i].rows && id in states[j].rows && states[i].rows[id].name != states[j].rows[id].name
    ensures id in states[j].rows && id in states[k].rows
    ensures states[i].rows[id].name == None && states[k].rows[id].name == states[j].rows[id].name
  {
    RunKeeps(states, events, i, j);
    RunKeeps(states, events, j, k);
  }

  // ---------------------------------------------------------------------
  // The loop is the run of its claims
  // ---------------------------------------------------------------------

  /** The boot's remaining claims, made without a crash between them. */
  ghost function ClaimsMade(s: State): State
    requires s.boot.Some?
    decreases if |s.boot.value.config| <= |s.boot.value.resolved| then 0
              else |s.boot.value.config| - |s.boot.value.resolved|
  {
    if Can(s, Claim) then ClaimsMade(Next(s, Claim)) else s
  }

  /** What `claimLegacyMappingRows` does is what a boot's claims do, one after another. */
  lemma {:induction false} LoopIsItsClaims(s: State)
    requires s.boot.Some? && |s.boot.value.resolved| <= |s.boot.value.config|
    ensures var b := s.boot.value;
            var t := ClaimsMade(s);
            var loop := ClaimAll(s.rows, b.claimed, b.config[|b.resolved|..]);
            && t.boot.Some?
            && t.rows == loop.0
            && t.boot.value.config == b.config
            && t.boot.value.resolved == b.resolved + loop.1
    decreases |s.boot.value.config| - |s.boot.value.resolved|
  {
    hide LegacyId;
    hide MappingSeed;
    var b := s.boot.value;
    var n := |b.resolved|;
    if n < |b.config| {
      assert b.config[n..][1..] == b.config[n + 1..];
      LoopIsItsClaims(Next(s, Claim));
      var m := b.config[n];
      var rest := ClaimAll(Claimed(s.rows, b.claimed, m), ClaimedIds(s.rows, b.claimed, m), b.config[n + 1..]);
      var id := Resolved(s.rows, b.claimed, b.config[n]);
      assert b.resolved + [id] + rest.1 == b.resolved + ([id] + rest.1);
    }
  }
}
