/** The migration scripts the program ships, and which versions can be trusted under them. */
module ShippedMigrations {
  import opened Migrator

  /** Tables by name, and the columns that later scripts touch, with whether they take nulls. */
  datatype Schema = Schema(tables: set<string>, columns: map<string, bool>)

  const NO_TABLES: Schema := Schema({}, map[])

  const CREATED: set<string> := {
    "cfg_admin", "cfg_application", "cfg_user", "cfg_account", "cfg_hardware_security_module",
    "cfg_hardware_security_module_slot", "system_referential_integrity_entry"}

  /** What the first down script of either dialect drops: five of the names are plural. */
  const DROPPED: set<string> := {
    "cfg_admins", "cfg_applications", "cfg_users", "cfg_accounts", "cfg_hardware_security_modules",
    "cfg_hardware_security_module_slot", "system_referential_integrity_entry"}

  const CHAIN: string := "cfg_application.chain_id"
  const DEFAULT_CHAIN: string := "cfg_application.default_chain_id"
  const SLOT: string := "cfg_hardware_security_module_slot.slot"
  const PIN: string := "cfg_hardware_security_module_slot.pin"
  const CONFIGURATION: string := "cfg_hardware_security_module_slot.configuration"

  function CreateTables(s: Schema, columns: map<string, bool>): Schema {
    Schema(s.tables + CREATED, s.columns + columns)
  }

  /** The slot table is dropped with its columns. */
  function DropTables(s: Schema): Schema {
    Schema(s.tables - DROPPED, s.columns - {SLOT, PIN, CONFIGURATION})
  }

  const POSTGRES_COLUMNS: map<string, bool> := map[SLOT := false, PIN := false, CHAIN := false]

  function AddConfiguration(s: Schema): Schema {
    s.(columns := s.columns[CONFIGURATION := true][PIN := true][SLOT := true])
  }

  function DropConfiguration(s: Schema): Schema {
    s.(columns := (s.columns - {CONFIGURATION})[PIN := false][SLOT := false])
  }

  function RenameChain(s: Schema): Schema {
    s.(columns := (s.columns - {CHAIN})[DEFAULT_CHAIN := false])
  }

  function RenameChainBack(s: Schema): Schema {
    s.(columns := (s.columns - {DEFAULT_CHAIN})[CHAIN := false])
  }

  /** The three steps for PostgreSQL. */
  const POSTGRES: seq<Step<Schema>> := [
    Step((s: Schema) => CreateTables(s, POSTGRES_COLUMNS), (s: Schema) => DropTables(s)),
    Step((s: Schema) => AddConfiguration(s), (s: Schema) => DropConfiguration(s)),
    Step((s: Schema) => RenameChain(s), (s: Schema) => RenameChainBack(s))]

  const SQLITE_COLUMNS: map<string, bool> :=
    map[SLOT := true, PIN := true, CONFIGURATION := true, DEFAULT_CHAIN := false]

  /** The one step for SQLite. */
  const SQLITE: seq<Step<Schema>> := [
    Step((s: Schema) => CreateTables(s, SQLITE_COLUMNS), (s: Schema) => DropTables(s))]

  /** After the first down script five tables are still there. */
  lemma FirstStepIsNotUndone()
    ensures !Undone(POSTGRES, NO_TABLES, 0) && !Undone(SQLITE, NO_TABLES, 0)
  {
    assert "cfg_admin" in DropTables(CreateTables(NO_TABLES, POSTGRES_COLUMNS)).tables;
    assert "cfg_admin" in DropTables(CreateTables(NO_TABLES, SQLITE_COLUMNS)).tables;
    assert UpTo(POSTGRES, NO_TABLES, 1) == CreateTables(NO_TABLES, POSTGRES_COLUMNS);
    assert UpTo(SQLITE, NO_TABLES, 1) == CreateTables(NO_TABLES, SQLITE_COLUMNS);
  }

  lemma LaterStepsAreUndone()
    ensures Undone(POSTGRES, NO_TABLES, 1) && Undone(POSTGRES, NO_TABLES, 2)
  {
    var first := CreateTables(NO_TABLES, POSTGRES_COLUMNS);
    assert UpTo(POSTGRES, NO_TABLES, 1) == first;
    assert DropConfiguration(AddConfiguration(first)) == first;
    var second := AddConfiguration(first);
    assert UpTo(POSTGRES, NO_TABLES, 2) == second;
    assert RenameChainBack(RenameChain(second)) == second;
  }

  /** Under the shipped scripts all runs with targets at m or above are consistent if and
      only if m is at least 1: only a way down to version 0 leaves tables behind. */
  lemma ShippedRunsConsistentExactly(m: nat)
    ensures (forall calls: seq<Call<Schema>> :: TargetsFrom(calls, m) ==>
               Consistent(POSTGRES, NO_TABLES, Run(POSTGRES, calls, Db(NO_TABLES, 0, false))))
       <==> m >= 1
    ensures (forall calls: seq<Call<Schema>> :: TargetsFrom(calls, m) ==>
               Consistent(SQLITE, NO_TABLES, Run(SQLITE, calls, Db(NO_TABLES, 0, false))))
       <==> m >= 1
  {
    hide Undone, Run, Consistent, TargetsFrom, POSTGRES, SQLITE;
    FirstStepIsNotUndone();
    LaterStepsAreUndone();
    StepCounts();
    RunsConsistentExactly(POSTGRES, NO_TABLES, m);
    RunsConsistentExactly(SQLITE, NO_TABLES, m);
  }

  lemma StepCounts()
    ensures |POSTGRES| == 3 && |SQLITE| == 1
  {
  }
}
