/** Schema migration: a version row with a dirty flag, rewritten around every script. */
module Migrator {
  import opened Wrappers

  /** What the two scripts of a migration step do to the schema. */
  datatype Step<!S> = Step(up: S -> S, down: S -> S)

  /** The database: its schema, and the one row of the migrations table. */
  datatype Db<S> = Db(schema: S, version: int, dirty: bool)

  // ---------------------------------------------------------------- what a version means

  /** The base schema with the first k up scripts applied. */
  function UpTo<S>(steps: seq<Step<S>>, base: S, k: nat): S
    requires k <= |steps|
  {
    if k == 0 then base else steps[k - 1].up(UpTo(steps, base, k - 1))
  }

  /** Down script k undoes up script k on the schema it is written for. */
  predicate Undone<S(==)>(steps: seq<Step<S>>, base: S, k: nat)
    requires k < |steps|
  {
    steps[k].down(UpTo(steps, base, k + 1)) == UpTo(steps, base, k)
  }

  /** The scripts a way down from version v to a target goes through all undo; no demand for
      a way up. */
  predicate UndoneBetween<S(==)>(steps: seq<Step<S>>, base: S, target: int, v: int) {
    forall k: nat :: target <= k < v && k < |steps| ==> Undone(steps, base, k)
  }

  predicate UndoneFrom<S(==)>(steps: seq<Step<S>>, base: S, m: nat) {
    UndoneBetween(steps, base, m, |steps|)
  }

  /** A clean version says exactly which scripts make up the schema. */
  ghost predicate Consistent<S(!new)>(steps: seq<Step<S>>, base: S, db: Db<S>) {
    !db.dirty ==> 0 <= db.version <= |steps| && db.schema == UpTo(steps, base, db.version)
  }

  // ---------------------------------------------------------------- planning

  /** A script to run and the version recorded for it. */
  datatype Planned = Planned(index: nat, up: bool, version: int)

  datatype Plan = Scripts(scripts: seq<Planned>) | TargetTooHigh | TargetTooLow | IndexOutOfRange

  /** From version v to target, one adjacent version at a time. */
  function Route(v: nat, target: nat): seq<Planned> {
    if v <= target then seq(target - v, i requires 0 <= i < target - v => Planned(v + i, true, v + i + 1))
    else seq(v - target, i requires 0 <= i < v - target => Planned(v - i - 1, false, v - i - 1))
  }

  function PlanFor(current: int, target: int, count: nat): Plan {
    if target > current then
      if target > count then TargetTooHigh
      else if current < 0 then IndexOutOfRange
      else Scripts(Route(current, target))
    else if target < current then
      if target < 0 then TargetTooLow
      else if target > count then TargetTooHigh
      else if current > count then IndexOutOfRange
      else Scripts(Route(current, target))
    else Scripts([])
  }

  /** `mapMigrationsUp` */
  method MapMigrationsUp(current: int, target: int, count: nat) returns (r: Plan)
    requires current < target
    ensures r == PlanFor(current, target, count)
  {
    if target > count { return TargetTooHigh; }
    if current < 0 { return IndexOutOfRange; }
    var steps: seq<Planned> := [];
    for c := current to target
      invariant steps == Route(current, target)[..c - current]
    {
      steps := steps + [Planned(c, true, c + 1)];
    }
    r := Scripts(steps);
  }

  /** `mapMigrationsDown` */
  method MapMigrationsDown(current: int, target: int, count: nat) returns (r: Plan)
    requires target < current
    ensures r == PlanFor(current, target, count)
  {
    if target < 0 { return TargetTooLow; }
    if target > count { return TargetTooHigh; }
    if current > count { return IndexOutOfRange; }
    var steps: seq<Planned> := [];
    var c := current;
    while c > target
      invariant target <= c <= current
      invariant steps == Route(current, target)[..current - c]
    {
      steps := steps + [Planned(c - 1, false, c - 1)];
      c := c - 1;
    }
    r := Scripts(steps);
  }

  /** A route has |target - v| scripts, each moving the recorded version by one. */
  lemma RouteIsAdjacent(v: nat, target: nat)
    ensures var r := Route(v, target);
            && |r| == (if v <= target then target - v else v - target)
            && (forall i :: 0 <= i < |r| ==> r[i].up == (v < target))
            && (forall i :: 0 <= i < |r| ==> r[i].index == if r[i].up then r[i].version - 1 else r[i].version)
            && (forall i :: 0 <= i < |r| ==> r[i].version == if r[i].up then v + i + 1 else v - i - 1)
            && (r != [] ==> r[|r| - 1].version == target)
  {
  }

  /** When there is a plan, and what is said when there is none. */
  lemma PlanExactly(current: int, target: int, count: nat)
    ensures PlanFor(current, target, count).Scripts? <==>
              target == current
              || (0 <= target <= count && (if target > current then current >= 0 else current <= count))
    ensures PlanFor(current, target, count).TargetTooHigh? <==> target != current && target > count
    ensures PlanFor(current, target, count).TargetTooLow? <==> target < current && target < 0
  {
  }

  // ---------------------------------------------------------------- one step

  /** Where a step stops. A version write is atomic, but its failure may be reported after
      it took effect; a failing script leaves any schema behind. */
  datatype Fault<S> =
    | NoFault
    | MarkDirtyFails(written: bool)
    | ReadFails
    | ScriptFails(left: S)
    | MarkCleanFails(cleaned: bool)

  function Script<S>(steps: seq<Step<S>>, p: Planned): S -> S
    requires p.index < |steps|
  {
    if p.up then steps[p.index].up else steps[p.index].down
  }

  function StepResult<S>(steps: seq<Step<S>>, p: Planned, fault: Fault<S>, db: Db<S>): Db<S>
    requires p.index < |steps|
  {
    match fault
    case NoFault => Db(Script(steps, p)(db.schema), p.version, false)
    case MarkDirtyFails(written) => if written then Db(db.schema, p.version, true) else db
    case ReadFails => Db(db.schema, p.version, true)
    case ScriptFails(left) => Db(left, p.version, true)
    case MarkCleanFails(cleaned) => Db(Script(steps, p)(db.schema), p.version, !cleaned)
  }

  /** The scripts of a plan in order, up to the first step that stops. */
  function RunAll<S>(steps: seq<Step<S>>, plan: seq<Planned>, fault: nat -> Fault<S>, i: nat, db: Db<S>): Db<S>
    requires forall p :: p in plan ==> p.index < |steps|
    decreases |plan| - i
  {
    if i >= |plan| then db
    else
      var next := StepResult(steps, plan[i], fault(i), db);
      if fault(i).NoFault? then RunAll(steps, plan, fault, i + 1, next) else next
  }

  /** Every step of a route takes a consistent database to a consistent one. */
  lemma StepConsistent<S(!new)>(steps: seq<Step<S>>, base: S, v: nat, target: nat, i: nat, fault: Fault<S>, db: Db<S>)
    requires v <= |steps| && target <= |steps| && UndoneBetween(steps, base, target, v)
    requires i < |Route(v, target)|
    requires !db.dirty && Consistent(steps, base, db)
    requires db.version == if v <= target then v + i else v - i
    ensures var p := Route(v, target)[i];
            var next := StepResult(steps, p, fault, db);
            && Consistent(steps, base, next)
            && (fault.NoFault? ==> !next.dirty && next.version == p.version)
  {
    RouteIsAdjacent(v, target);
    var p := Route(v, target)[i];
    if p.up {
      assert UpTo(steps, base, p.version) == steps[p.index].up(UpTo(steps, base, p.index));
    } else {
      assert Undone(steps, base, p.index);
    }
  }

  /** Wherever a run along a route stops, the database is consistent; a run without faults
      ends clean at the target. */
  lemma {:induction false} RunConsistent<S(!new)>(
      steps: seq<Step<S>>, base: S, v: nat, target: nat, fault: nat -> Fault<S>, i: nat, db: Db<S>)
    requires v <= |steps| && target <= |steps| && UndoneBetween(steps, base, target, v)
    requires i <= |Route(v, target)|
    requires forall p :: p in Route(v, target) ==> p.index < |steps|
    requires !db.dirty && Consistent(steps, base, db)
    requires db.version == if v <= target then v + i else v - i
    ensures var end := RunAll(steps, Route(v, target), fault, i, db);
            && Consistent(steps, base, end)
            && ((forall j :: i <= j < |Route(v, target)| ==> fault(j).NoFault?) ==> !end.dirty && end.version == target)
    decreases |Route(v, target)| - i
  {
    hide Route, UpTo, UndoneBetween, Consistent, StepResult;
    RouteIsAdjacent(v, target);
    var plan := Route(v, target);
    if i < |plan| {
      StepConsistent(steps, base, v, target, i, fault(i), db);
      if fault(i).NoFault? {
        RunConsistent(steps, base, v, target, fault, i + 1, StepResult(steps, plan[i], fault(i), db));
      }
    }
  }

  /** The schema after the first i scripts from version v towards the target. */
  function SchemaAfter<S>(steps: seq<Step<S>>, v: nat, target: nat, i: nat, schema: S): S
    requires v <= |steps| && target <= |steps| && i <= (if v <= target then target - v else v - target)
  {
    if i == 0 then schema
    else if v <= target then steps[v + i - 1].up(SchemaAfter(steps, v, target, i - 1, schema))
    else steps[v - i].down(SchemaAfter(steps, v, target, i - 1, schema))
  }

  lemma {:induction false} RunUntil<S>(
      steps: seq<Step<S>>, v: nat, target: nat, fault: nat -> Fault<S>, i: nat, schema: S)
    requires v <= |steps| && target <= |steps| && i < |Route(v, target)|
    requires forall p :: p in Route(v, target) ==> p.index < |steps|
    requires forall j :: 0 <= j < i ==> fault(j).NoFault?
    ensures i <= (if v <= target then target - v else v - target)
    ensures RunAll(steps, Route(v, target), fault, 0, Db(schema, v, false))
         == RunAll(steps, Route(v, target), fault, i,
                   Db(SchemaAfter(steps, v, target, i, schema), if v <= target then v + i else v - i, false))
  {
    hide Route, RunAll, Script;
    RouteIsAdjacent(v, target);
    if i > 0 {
      var here := SchemaAfter(steps, v, target, i - 1, schema);
      RunUntil(steps, v, target, fault, i - 1, schema);
      RunStep(steps, Route(v, target), fault, i - 1,
              Db(here, if v <= target then v + i - 1 else v - i + 1, false));
      ScriptIs(steps, Route(v, target)[i - 1]);
    }
  }

  lemma ScriptIs<S>(steps: seq<Step<S>>, p: Planned)
    requires p.index < |steps|
    ensures Script(steps, p) == if p.up then steps[p.index].up else steps[p.index].down
  {
  }

  lemma RunStep<S>(steps: seq<Step<S>>, plan: seq<Planned>, fault: nat -> Fault<S>, i: nat, db: Db<S>)
    requires (forall p :: p in plan ==> p.index < |steps|) && i < |plan|
    ensures fault(i).NoFault? ==>
              RunAll(steps, plan, fault, i, db)
                == RunAll(steps, plan, fault, i + 1, StepResult(steps, plan[i], fault(i), db))
    ensures !fault(i).NoFault? ==>
              RunAll(steps, plan, fault, i, db) == StepResult(steps, plan[i], fault(i), db)
  {
  }

  /** Where a run is left that stops at its step i, for every way of stopping: the version in a
      dirty row is the one the stopped step was to reach. */
  lemma StoppedRun<S>(steps: seq<Step<S>>, v: nat, target: nat, fault: nat -> Fault<S>, i: nat, schema: S)
    requires v <= |steps| && target <= |steps| && i < |Route(v, target)|
    requires forall p :: p in Route(v, target) ==> p.index < |steps|
    requires (forall j :: 0 <= j < i ==> fault(j).NoFault?) && !fault(i).NoFault?
    ensures i < (if v <= target then target - v else v - target)
    ensures var here := SchemaAfter(steps, v, target, i, schema);
            var from, to := if v <= target then v + i else v - i, if v <= target then v + i + 1 else v - i - 1;
            RunAll(steps, Route(v, target), fault, 0, Db(schema, v, false))
              == match fault(i)
                 case MarkDirtyFails(written) => if written then Db(here, to, true) else Db(here, from, false)
                 case ReadFails => Db(here, to, true)
                 case ScriptFails(left) => Db(left, to, true)
                 case MarkCleanFails(cleaned) => Db(SchemaAfter(steps, v, target, i + 1, schema), to, !cleaned)
  {
    hide Route, RunAll, Script;
    RouteIsAdjacent(v, target);
    RunUntil(steps, v, target, fault, i, schema);
    RunStep(steps, Route(v, target), fault, i,
            Db(SchemaAfter(steps, v, target, i, schema), if v <= target then v + i else v - i, false));
    ScriptIs(steps, Route(v, target)[i]);
  }

  // ---------------------------------------------------------------- one call

  datatype Outcome = Finished | NothingToMigrate | DirtyTable | Refused(plan: Plan) | Stopped | NotPrepared

  /** One call of `Migrate`: target, whether the preparation fails, where the steps stop. */
  datatype Call<!S> = Call(target: int, prepared: bool, fault: nat -> Fault<S>)

  function PlanScripts(p: Plan): seq<Planned> {
    if p.Scripts? then p.scripts else []
  }

  lemma NoRoute(v: int, count: nat)
    ensures PlanFor(v, v, count) == Scripts([])
  {
  }

  lemma PlanInRange(current: int, target: int, count: nat)
    ensures forall p :: p in PlanScripts(PlanFor(current, target, count)) ==> p.index < count
  {
  }

  function MigrateResult<S>(steps: seq<Step<S>>, call: Call<S>, db: Db<S>): Db<S> {
    if !call.prepared || db.dirty then db
    else
      PlanInRange(db.version, call.target, |steps|);
      RunAll(steps, PlanScripts(PlanFor(db.version, call.target, |steps|)), call.fault, 0, db)
  }

  class DbMigrator<!S> {
    var schema: S
    var version: int
    var dirty: bool
    ghost var executed: seq<Planned>

    constructor (schema: S)
      ensures Contents() == Db(schema, 0, false) && executed == []
    {
      this.schema, this.version, this.dirty, this.executed := schema, 0, false, [];
    }

    function Contents(): Db<S>
      reads this
    {
      Db(schema, version, dirty)
    }

    method SetMigrationVersion(version: int, dirty: bool)
      modifies this`version, this`dirty
      ensures this.version == version && this.dirty == dirty
    {
      this.version, this.dirty := version, dirty;
    }

    /** `migrateStep`: mark dirty, read and run the script, mark clean. */
    method MigrateStep(steps: seq<Step<S>>, p: Planned, fault: Fault<S>) returns (ok: bool)
      requires p.index < |steps|
      modifies this
      ensures Contents() == StepResult(steps, p, fault, old(Contents()))
      ensures ok == fault.NoFault?
      ensures executed == old(executed) + (if fault.NoFault? || fault.MarkCleanFails? then [p] else [])
    {
      if fault.MarkDirtyFails? {
        if fault.written { SetMigrationVersion(p.version, true); }
        return false;
      }
      SetMigrationVersion(p.version, true);
      if fault.ReadFails? { return false; }
      if fault.ScriptFails? {
        schema := fault.left;
        return false;
      }
      schema := Script(steps, p)(schema);
      executed := executed + [p];
      if fault.MarkCleanFails? {
        if fault.cleaned { SetMigrationVersion(p.version, false); }
        return false;
      }
      SetMigrationVersion(p.version, false);
      return true;
    }

    /** `Migrate`: refuses a dirty table, plans, and runs step by step until one stops. A
        finished call has executed exactly its route. */
    method Migrate(steps: seq<Step<S>>, call: Call<S>) returns (r: Outcome)
      modifies this
      ensures Contents() == MigrateResult(steps, call, old(Contents()))
      ensures r.NotPrepared? <==> !call.prepared
      ensures r.DirtyTable? <==> call.prepared && old(dirty)
      ensures r.Finished? ==> executed == old(executed) + PlanScripts(PlanFor(old(version), call.target, |steps|))
      ensures r.NothingToMigrate? <==> call.prepared && !old(dirty) && call.target == old(version)
      ensures r.Finished? ==>
                var plan := PlanScripts(PlanFor(old(version), call.target, |steps|));
                forall i :: 0 <= i < |plan| ==> call.fault(i).NoFault?
      ensures r.Refused? ==> r.plan == PlanFor(old(version), call.target, |steps|)
      ensures r.Stopped? ==>
                var plan := PlanScripts(PlanFor(old(version), call.target, |steps|));
                old(executed) <= executed <= old(executed) + plan
      ensures r.Finished? || r.Stopped? || executed == old(executed)
    {
      hide StepResult, Script, Route, PlanFor;
      if !call.prepared { return NotPrepared; }
      if dirty { return DirtyTable; }
      PlanInRange(version, call.target, |steps|);
      ghost var plan := PlanFor(version, call.target, |steps|);
      ghost var before := executed;
      var planned: Plan;
      if call.target > version {
        planned := MapMigrationsUp(version, call.target, |steps|);
      } else if call.target < version {
        planned := MapMigrationsDown(version, call.target, |steps|);
      } else {
        NoRoute(version, |steps|);
        return NothingToMigrate;
      }
      if !planned.Scripts? { return Refused(planned); }
      var todo := planned.scripts;
      var i := 0;
      while i < |todo|
        invariant i <= |todo|
        invariant RunAll(steps, todo, call.fault, 0, old(Contents())) == RunAll(steps, todo, call.fault, i, Contents())
        invariant executed == before + todo[..i]
        invariant forall j :: 0 <= j < i ==> call.fault(j).NoFault?
      {
        var ok := MigrateStep(steps, todo[i], call.fault(i));
        if !ok { return Stopped; }
        i := i + 1;
      }
      assert todo[..|todo|] == todo;
      return Finished;
    }
  }

  // ---------------------------------------------------------------- all runs

  /** Any number of calls, with any targets, stopping anywhere. */
  function Run<S>(steps: seq<Step<S>>, calls: seq<Call<S>>, db: Db<S>): Db<S> {
    if calls == [] then db
    else MigrateResult(steps, calls[|calls| - 1], Run(steps, calls[..|calls| - 1], db))
  }

  lemma CallConsistent<S(!new)>(steps: seq<Step<S>>, base: S, call: Call<S>, db: Db<S>)
    requires UndoneBetween(steps, base, call.target, db.version) && Consistent(steps, base, db)
    ensures Consistent(steps, base, MigrateResult(steps, call, db))
  {
    if call.prepared && !db.dirty && call.target != db.version && PlanFor(db.version, call.target, |steps|).Scripts? {
      PlanInRange(db.version, call.target, |steps|);
      RunConsistent(steps, base, db.version, call.target, call.fault, 0, db);
    }
  }

  predicate TargetsFrom<S>(calls: seq<Call<S>>, m: nat) {
    forall i :: 0 <= i < |calls| ==> calls[i].target >= m
  }

  /** Over every run from an empty migrations table whose targets stay at m or above: a clean
      version k means that the schema is exactly the first k up scripts applied to the base. */
  lemma {:induction false} RunIsConsistent<S(!new)>(steps: seq<Step<S>>, base: S, m: nat, calls: seq<Call<S>>)
    requires UndoneFrom(steps, base, m) && TargetsFrom(calls, m)
    ensures Consistent(steps, base, Run(steps, calls, Db(base, 0, false)))
  {
    hide Undone;
    if calls != [] {
      var n := |calls| - 1;
      RunIsConsistent(steps, base, m, calls[..n]);
      var db := Run(steps, calls[..n], Db(base, 0, false));
      if !db.dirty { CallConsistent(steps, base, calls[n], db); }
    }
  }

  function FaultFree<S>(target: int): Call<S> {
    Call(target, true, _ => NoFault)
  }

  /** Up to version k + 1 and back to k. */
  function UpAndBack<S>(k: nat): seq<Call<S>> {
    [FaultFree(k + 1), FaultFree(k)]
  }

  lemma BackOne<S>(steps: seq<Step<S>>, k: nat, schema: S)
    requires k < |steps|
    ensures MigrateResult(steps, FaultFree(k), Db(schema, k + 1, false)) == Db(steps[k].down(schema), k, false)
  {
    assert Route(k + 1, k) == [Planned(k, false, k)];
    OneStep(steps, Planned(k, false, k), Db(schema, k + 1, false));
  }

  lemma UpAndBackResult<S(!new)>(steps: seq<Step<S>>, base: S, k: nat)
    requires k < |steps|
    ensures Run(steps, UpAndBack(k), Db(base, 0, false)) == Db(steps[k].down(UpTo(steps, base, k + 1)), k, false)
  {
    hide MigrateResult;
    var calls, empty := UpAndBack<S>(k), Db(base, 0, false);
    assert calls[..1] == [calls[0]] && calls[..1][..0] == [];
    CallReachesTarget(steps, base, calls[0], empty);
    assert Run(steps, calls[..1], empty) == Db(UpTo(steps, base, k + 1), k + 1, false);
    BackOne(steps, k, UpTo(steps, base, k + 1));
  }

  lemma OneStep<S>(steps: seq<Step<S>>, p: Planned, db: Db<S>)
    requires p.index < |steps|
    ensures RunAll(steps, [p], _ => NoFault, 0, db) == StepResult(steps, p, NoFault, db)
  {
    var fault: nat -> Fault<S> := _ => NoFault;
    assert RunAll(steps, [p], fault, 1, StepResult(steps, p, NoFault, db)) == StepResult(steps, p, NoFault, db);
  }

  /** Exactly when versions can be trusted: all runs with targets at m or above are consistent
      if and only if the down scripts from m on undo their up scripts. */
  lemma RunsConsistentExactly<S(!new)>(steps: seq<Step<S>>, base: S, m: nat)
    ensures (forall calls: seq<Call<S>> :: TargetsFrom(calls, m) ==>
               Consistent(steps, base, Run(steps, calls, Db(base, 0, false))))
       <==> UndoneFrom(steps, base, m)
  {
    hide UpTo, Run;
    if UndoneFrom(steps, base, m) {
      forall calls: seq<Call<S>> | TargetsFrom(calls, m)
        ensures Consistent(steps, base, Run(steps, calls, Db(base, 0, false)))
      {
        RunIsConsistent(steps, base, m, calls);
      }
    } else {
      var k: nat :| m <= k < |steps| && !Undone(steps, base, k);
      UpAndBackResult(steps, base, k);
      assert TargetsFrom(UpAndBack<S>(k), m);
    }
  }

  /** Once dirty, the database is never touched again by any later call. */
  lemma {:induction false} DirtyBlocks<S(!new)>(steps: seq<Step<S>>, calls: seq<Call<S>>, db: Db<S>)
    requires db.dirty
    ensures Run(steps, calls, db) == db
  {
    if calls != [] {
      DirtyBlocks(steps, calls[..|calls| - 1], db);
    }
  }

  /** A prepared call without faults reaches every target between 0 and the number of steps,
      upwards always and downwards where the scripts on the way undo. */
  lemma CallReachesTarget<S(!new)>(steps: seq<Step<S>>, base: S, call: Call<S>, db: Db<S>)
    requires UndoneBetween(steps, base, call.target, db.version) && Consistent(steps, base, db) && !db.dirty
    requires call.prepared && 0 <= call.target <= |steps| && forall i :: call.fault(i).NoFault?
    ensures MigrateResult(steps, call, db) == Db(UpTo(steps, base, call.target), call.target, false)
  {
    PlanInRange(db.version, call.target, |steps|);
    RunConsistent(steps, base, db.version, call.target, call.fault, 0, db);
  }
}
