/** Applications, modules, slots, users and accounts, and the hand-written referential
    integrity entries between them. */
module Registry {
  import opened Wrappers

  type Id = string

  /** A UUID in the code; here the next unused number, since one is never issued twice. */
  type InternalId = nat

  datatype Kind = AccountKind | ApplicationKind | ModuleKind | SlotKind | UserKind

  datatype Entry = Entry(resource: InternalId, kind: Kind, parent: InternalId, parentKind: Kind)

  datatype UserId = UserId(application: Id, id: Id)

  datatype AccountId = AccountId(application: Id, user: Id, address: Id)

  datatype Slot = Slot(internal: InternalId, application: Id, hsmModule: Id, slot: Option<Id>)

  datatype State = State(
    applications: map<Id, InternalId>,
    modules: map<Id, InternalId>,
    slots: map<Id, Slot>,
    users: map<UserId, InternalId>,
    accounts: map<AccountId, InternalId>,
    entries: set<Entry>,
    next: InternalId)

  datatype Result = Done | InvalidArgument | AlreadyExists | NotFound | PreconditionFailed | Internal

  /** The registry after an operation, and what the caller is told. */
  datatype Applied = Applied(state: State, result: Result)

  // ---------------------------------------------------------------- operations on values

  predicate HasChildren(entries: set<Entry>, parent: InternalId, kind: Kind) {
    exists e :: e in entries && e.parent == parent && e.parentKind == kind
  }

  function WithoutResource(entries: set<Entry>, resource: InternalId, kind: Kind): set<Entry> {
    set e | e in entries && !(e.resource == resource && e.kind == kind)
  }

  function WithoutAddress(
      accounts: map<AccountId, InternalId>, application: Id, address: Id): map<AccountId, InternalId>
  {
    map a | a in accounts && !(a.application == application && a.address == address) :: accounts[a]
  }

  /** What the module says when a key is to be removed from it. */
  datatype HsmRemoval = KeyRemoved | KeyMissing | RemovalFailed

  datatype Op =
    | CreateApplication(id: Id)
    | DeleteApplication(id: Id)
    | CreateModule(id: Id)
    | DeleteModule(id: Id)
    | CreateSlot(id: Id, application: Id, hsmModule: Id, slot: Option<Id>, reachable: bool)
    | DeleteSlot(id: Id)
    | CreateUser(user: UserId, rolesValid: bool)
    | DeleteUser(user: UserId)
    | CreateAccount(account: AccountId)
    | DeleteAccount(account: AccountId)
    | EnableAccounts(user: UserId, addresses: seq<Id>, known: Option<seq<Id>>)
    | DeleteAllAccounts(application: Id, address: Id, hsm: HsmRemoval)

  /** The unique keys of the slot table. */
  predicate SlotConflict(slots: map<Id, Slot>, id: Id, s: Slot) {
    || id in slots
    || exists j :: j in slots && (slots[j].application == s.application
                                  || (s.slot.Some? && slots[j].hsmModule == s.hsmModule && slots[j].slot == s.slot))
  }

  /** The resolver finds the application, its slot and the slot's module. */
  predicate HasSlot(s: State, application: Id) {
    && application in s.applications
    && exists j :: j in s.slots && s.slots[j].application == application && s.slots[j].hsmModule in s.modules
  }

  function CreateUserStep(s: State, u: UserId): Applied {
    var n := s.(next := s.next + 1);
    if u.application !in s.applications then Applied(n, PreconditionFailed)
    else
      var link := Entry(s.next, UserKind, s.applications[u.application], ApplicationKind);
      var linked := n.(entries := s.entries + {link});
      // the entry is written first and is not taken back when the user exists already
      if u in s.users then Applied(linked, AlreadyExists)
      else Applied(linked.(users := s.users[u := s.next]), Done)
  }

  function CreateAccountStep(s: State, a: AccountId): Applied {
    var n := s.(next := s.next + 1);
    var u := UserId(a.application, a.user);
    if u !in s.users then Applied(n, PreconditionFailed)
    else
      var linked := n.(entries := s.entries + {Entry(s.next, AccountKind, s.users[u], UserKind)});
      if a in s.accounts then Applied(linked, AlreadyExists)
      else Applied(linked.(accounts := s.accounts[a := s.next]), Done)
  }

  /** Slot creation runs in a transaction: on failure nothing is stored. */
  function CreateSlotStep(
      s: State, id: Id, application: Id, hsmModule: Id, slot: Option<Id>, reachable: bool): Applied
  {
    if hsmModule !in s.modules || !reachable then Applied(s, PreconditionFailed)
    else
      var n := s.(next := s.next + 1);
      var row := Slot(s.next, application, hsmModule, slot);
      if application !in s.applications then Applied(n, PreconditionFailed)
      else if SlotConflict(s.slots, id, row) then Applied(n, AlreadyExists)
      else Applied(n.(slots := s.slots[id := row],
               entries := s.entries + {Entry(s.next, SlotKind, s.applications[application], ApplicationKind),
                                       Entry(s.next, SlotKind, s.modules[hsmModule], ModuleKind)}), Done)
  }

  function AllKnown(addresses: seq<Id>, known: seq<Id>): bool {
    forall a :: a in addresses ==> a in known
  }

  /** Creates the accounts one after the other; those that exist already are passed over. */
  function EnableFrom(s: State, u: UserId, addresses: seq<Id>): State {
    if addresses == [] then s
    else
      var n := |addresses| - 1;
      CreateAccountStep(EnableFrom(s, u, addresses[..n]), AccountId(u.application, u.id, addresses[n])).state
  }

  function Apply(s: State, op: Op): Applied {
    match op
    case CreateApplication(id) =>
      var n := s.(next := s.next + 1);
      if id in s.applications then Applied(n, AlreadyExists)
      else Applied(n.(applications := s.applications[id := s.next]), Done)
    case DeleteApplication(id) =>
      if id !in s.applications then Applied(s, NotFound)
      else if HasChildren(s.entries, s.applications[id], ApplicationKind) then Applied(s, PreconditionFailed)
      else Applied(s.(applications := s.applications - {id},
               entries := WithoutResource(s.entries, s.applications[id], ApplicationKind)), Done)
    case CreateModule(id) =>
      var n := s.(next := s.next + 1);
      if id in s.modules then Applied(n, AlreadyExists)
      else Applied(n.(modules := s.modules[id := s.next]), Done)
    case DeleteModule(id) =>
      if id !in s.modules then Applied(s, NotFound)
      else if HasChildren(s.entries, s.modules[id], ModuleKind) then Applied(s, PreconditionFailed)
      else Applied(s.(modules := s.modules - {id},
               entries := WithoutResource(s.entries, s.modules[id], ModuleKind)), Done)
    case CreateSlot(id, application, hsmModule, slot, reachable) =>
      CreateSlotStep(s, id, application, hsmModule, slot, reachable)
    case DeleteSlot(id) =>
      if id !in s.slots then Applied(s, NotFound)
      else if HasChildren(s.entries, s.slots[id].internal, SlotKind) then Applied(s, PreconditionFailed)
      else Applied(s.(slots := s.slots - {id},
               entries := WithoutResource(s.entries, s.slots[id].internal, SlotKind)), Done)
    case CreateUser(u, rolesValid) => if rolesValid then CreateUserStep(s, u) else Applied(s, InvalidArgument)
    case DeleteUser(u) =>
      if u !in s.users then Applied(s, NotFound)
      else if HasChildren(s.entries, s.users[u], UserKind) then Applied(s, PreconditionFailed)
      else Applied(s.(users := s.users - {u},
               entries := WithoutResource(s.entries, s.users[u], UserKind)), Done)
    case CreateAccount(a) => CreateAccountStep(s, a)
    case DeleteAccount(a) =>
      if a !in s.accounts then Applied(s, NotFound)
      else if HasChildren(s.entries, s.accounts[a], AccountKind) then Applied(s, PreconditionFailed)
      else Applied(s.(accounts := s.accounts - {a},
               entries := WithoutResource(s.entries, s.accounts[a], AccountKind)), Done)
    case EnableAccounts(u, addresses, known) =>
      if addresses == [] then Applied(s, InvalidArgument)
      else if u !in s.users then Applied(s, NotFound)
      else if !HasSlot(s, u.application) then Applied(s, Internal)
      else if known.None? then Applied(s, Internal)
      else if !AllKnown(addresses, known.value) then Applied(s, PreconditionFailed)
      else Applied(EnableFrom(s, u, addresses), Done)
    case DeleteAllAccounts(application, address, hsm) =>
      if !HasSlot(s, application) || hsm.RemovalFailed? then Applied(s, Internal)
      else if hsm.KeyMissing? then Applied(s, NotFound)
      // the integrity entries of the removed accounts stay behind
      else Applied(s.(accounts := WithoutAddress(s.accounts, application, address)), Done)
  }

  // ---------------------------------------------------------------- invariant

  predicate UsersLinked(s: State) {
    forall u :: u in s.users ==>
      && u.application in s.applications
      && Entry(s.users[u], UserKind, s.applications[u.application], ApplicationKind) in s.entries
  }

  predicate SlotsLinked(s: State) {
    forall j :: j in s.slots ==>
      && s.slots[j].application in s.applications && s.slots[j].hsmModule in s.modules
      && Entry(s.slots[j].internal, SlotKind, s.applications[s.slots[j].application], ApplicationKind) in s.entries
      && Entry(s.slots[j].internal, SlotKind, s.modules[s.slots[j].hsmModule], ModuleKind) in s.entries
  }

  predicate AccountsLinked(s: State) {
    forall a :: a in s.accounts ==>
      && UserId(a.application, a.user) in s.users
      && Entry(s.accounts[a], AccountKind, s.users[UserId(a.application, a.user)], UserKind) in s.entries
  }

  predicate Below<K>(m: map<K, InternalId>, next: InternalId) {
    forall i :: i in m ==> m[i] < next
  }

  /** Only issued internal ids are in use. */
  predicate Issued(s: State) {
    && Below(s.applications, s.next) && Below(s.modules, s.next)
    && Below(s.users, s.next) && Below(s.accounts, s.next)
    && Below(SlotIds(s.slots), s.next)
    && EntriesIssued(s.entries, s.next)
  }

  predicate EntriesIssued(entries: set<Entry>, next: InternalId) {
    forall e :: e in entries ==> e.resource < next
  }

  predicate Injective<K>(m: map<K, InternalId>) {
    forall i, j :: i in m && j in m && m[i] == m[j] ==> i == j
  }

  function SlotIds(slots: map<Id, Slot>): map<Id, InternalId> {
    map j | j in slots :: slots[j].internal
  }

  /** No two resources of a kind that has parents share an internal id. */
  predicate Unique(s: State) {
    Injective(s.users) && Injective(s.accounts) && Injective(SlotIds(s.slots))
  }

  /** Every live user, slot and account has live parents, and an entry that names each
      parent's current internal id. */
  predicate Inv(s: State) {
    UsersLinked(s) && SlotsLinked(s) && AccountsLinked(s) && Issued(s) && Unique(s)
  }

  const EMPTY: State := State(map[], map[], map[], map[], map[], {}, 0)

  lemma Inserted<K>(m: map<K, InternalId>, k: K, next: InternalId)
    requires Below(m, next)
    ensures Below(m[k := next], next + 1)
    ensures Injective(m) ==> Injective(m[k := next])
  {
  }

  lemma Restricted<K>(m: map<K, InternalId>, k: map<K, InternalId>, next: InternalId)
    requires Shrinks(m, k)
    ensures Below(m, next) ==> Below(k, next)
    ensures Injective(m) ==> Injective(k)
  {
  }

  predicate IsCreate(op: Op) {
    op.CreateApplication? || op.CreateModule? || op.CreateSlot? || op.CreateUser? || op.CreateAccount?
  }

  predicate IsDelete(op: Op) {
    || op.DeleteApplication? || op.DeleteModule? || op.DeleteSlot? || op.DeleteUser? || op.DeleteAccount?
    || op.DeleteAllAccounts?
  }

  predicate Extends<K>(m: map<K, InternalId>, n: map<K, InternalId>) {
    forall k :: k in m ==> k in n && n[k] == m[k]
  }

  /** Links of unchanged rows survive when parents and entries are only added. */
  lemma LinksSurvive(s: State, t: State)
    requires Extends(s.applications, t.applications) && Extends(s.modules, t.modules)
    requires Extends(s.users, t.users) && s.entries <= t.entries
    ensures UsersLinked(s) && s.users == t.users ==> UsersLinked(t)
    ensures SlotsLinked(s) && s.slots == t.slots ==> SlotsLinked(t)
    ensures AccountsLinked(s) && s.accounts == t.accounts ==> AccountsLinked(t)
  {
  }

  lemma CreateUserLinked(s: State, u: UserId)
    requires UsersLinked(s)
    ensures UsersLinked(CreateUserStep(s, u).state)
  {
  }

  lemma CreateAccountLinked(s: State, a: AccountId)
    requires AccountsLinked(s)
    ensures AccountsLinked(CreateAccountStep(s, a).state)
  {
  }

  lemma CreateSlotLinked(s: State, id: Id, application: Id, hsmModule: Id, slot: Option<Id>, reachable: bool)
    requires SlotsLinked(s)
    ensures SlotsLinked(CreateSlotStep(s, id, application, hsmModule, slot, reachable).state)
  {
    hide SlotConflict;
  }

  /** Nothing is lost from the parent tables and the entries. */
  predicate Grows(s: State, t: State) {
    && Extends(s.applications, t.applications) && Extends(s.modules, t.modules)
    && Extends(s.users, t.users) && s.entries <= t.entries
  }

  lemma CreateSlotGrows(s: State, id: Id, application: Id, hsmModule: Id, slot: Option<Id>, reachable: bool)
    ensures var t := CreateSlotStep(s, id, application, hsmModule, slot, reachable).state;
            Grows(s, t) && s.users == t.users && s.accounts == t.accounts
  {
    hide SlotConflict;
  }

  lemma CreateUserGrows(s: State, u: UserId)
    ensures var t := CreateUserStep(s, u).state; Grows(s, t) && s.slots == t.slots && s.accounts == t.accounts
  {
  }

  lemma CreateAccountGrows(s: State, a: AccountId)
    ensures var t := CreateAccountStep(s, a).state; Grows(s, t) && s.users == t.users && s.slots == t.slots
  {
  }

  lemma CreateGrows(s: State, op: Op)
    requires IsCreate(op)
    ensures var t := Apply(s, op).state;
            && Grows(s, t)
            && (op.CreateUser? || s.users == t.users)
            && (op.CreateSlot? || s.slots == t.slots)
            && (op.CreateAccount? || s.accounts == t.accounts)
  {
    hide CreateSlotStep, CreateUserStep, CreateAccountStep;
    match op
    case CreateSlot(id, a, m, slot, reachable) => CreateSlotGrows(s, id, a, m, slot, reachable);
    case CreateUser(u, _) => CreateUserGrows(s, u);
    case CreateAccount(a) => CreateAccountGrows(s, a);
    case CreateApplication(_) =>
    case CreateModule(_) =>
  }

  lemma CreateLinked(s: State, op: Op)
    requires Inv(s) && IsCreate(op)
    ensures var t := Apply(s, op).state; UsersLinked(t) && SlotsLinked(t) && AccountsLinked(t)
  {
    hide UsersLinked, SlotsLinked, AccountsLinked, Issued, Unique, Extends;
    hide CreateSlotStep, CreateUserStep, CreateAccountStep;
    CreateGrows(s, op);
    LinksSurvive(s, Apply(s, op).state);
    match op
    case CreateUser(u, _) => CreateUserLinked(s, u);
    case CreateAccount(a) => CreateAccountLinked(s, a);
    case CreateSlot(id, a, m, slot, reachable) => CreateSlotLinked(s, id, a, m, slot, reachable);
    case _ =>
  }

  lemma CreateSlotIssued(s: State, id: Id, application: Id, hsmModule: Id, slot: Option<Id>, reachable: bool)
    requires Issued(s)
    ensures Issued(CreateSlotStep(s, id, application, hsmModule, slot, reachable).state)
  {
    hide SlotConflict, Below, SlotIds;
    NextIssued(s);
    Inserted(SlotIds(s.slots), id, s.next);
    SlotInserted(s.slots, id, Slot(s.next, application, hsmModule, slot));
  }

  lemma CreateUserIssued(s: State, u: UserId)
    requires Issued(s)
    ensures Issued(CreateUserStep(s, u).state)
  {
    hide Below, SlotIds;
    NextIssued(s);
    Inserted(s.users, u, s.next);
  }

  lemma CreateAccountIssued(s: State, a: AccountId)
    requires Issued(s)
    ensures Issued(CreateAccountStep(s, a).state)
  {
    hide Below, SlotIds;
    NextIssued(s);
    Inserted(s.accounts, a, s.next);
  }

  lemma NextIssued(s: State)
    requires Issued(s)
    ensures Issued(s.(next := s.next + 1))
  {
  }

  lemma CreateIssued(s: State, op: Op)
    requires Issued(s) && IsCreate(op)
    ensures Issued(Apply(s, op).state)
  {
    hide Below, SlotIds, EntriesIssued, CreateSlotStep, CreateUserStep, CreateAccountStep;
    NextIssued(s);
    match op
    case CreateApplication(id) => Inserted(s.applications, id, s.next);
    case CreateModule(id) => Inserted(s.modules, id, s.next);
    case CreateSlot(id, a, m, slot, reachable) => CreateSlotIssued(s, id, a, m, slot, reachable);
    case CreateUser(u, _) => CreateUserIssued(s, u);
    case CreateAccount(a) => CreateAccountIssued(s, a);
  }

  lemma CreateUnique(s: State, op: Op)
    requires Inv(s) && IsCreate(op)
    ensures Unique(Apply(s, op).state)
  {
    hide UsersLinked, SlotsLinked, AccountsLinked, Below, Injective, SlotIds, SlotConflict;
    match op
    case CreateSlot(id, a, m, slot, _) =>
      Inserted(SlotIds(s.slots), id, s.next);
      SlotInserted(s.slots, id, Slot(s.next, a, m, slot));
    case CreateUser(u, _) => Inserted(s.users, u, s.next);
    case CreateAccount(a) => Inserted(s.accounts, a, s.next);
    case _ =>
  }

  lemma SlotInserted(slots: map<Id, Slot>, id: Id, row: Slot)
    ensures SlotIds(slots[id := row]) == SlotIds(slots)[id := row.internal]
  {
  }

  lemma SlotsDistinct(s: State)
    requires Unique(s)
    ensures forall i, j :: i in s.slots && j in s.slots && s.slots[i].internal == s.slots[j].internal ==> i == j
  {
    assert forall i :: i in s.slots ==> i in SlotIds(s.slots) && SlotIds(s.slots)[i] == s.slots[i].internal;
  }

  lemma DeleteUsersLinked(s: State, op: Op)
    requires Inv(s) && IsDelete(op)
    ensures UsersLinked(Apply(s, op).state)
  {
    hide SlotsLinked, AccountsLinked, Issued, HasSlot, SlotIds;
  }

  lemma DeleteSlotsLinked(s: State, op: Op)
    requires Inv(s) && IsDelete(op)
    ensures SlotsLinked(Apply(s, op).state)
  {
    hide UsersLinked, AccountsLinked, Issued, Unique, HasSlot;
    SlotsDistinct(s);
  }

  lemma DeleteAccountsLinked(s: State, op: Op)
    requires Inv(s) && IsDelete(op)
    ensures AccountsLinked(Apply(s, op).state)
  {
    hide UsersLinked, SlotsLinked, Issued, HasSlot, SlotIds;
  }

  predicate Shrinks<K>(m: map<K, InternalId>, k: map<K, InternalId>) {
    k.Keys <= m.Keys && forall i :: i in k ==> k[i] == m[i]
  }

  lemma SlotRemoved(slots: map<Id, Slot>, id: Id)
    ensures Shrinks(SlotIds(slots), SlotIds(slots - {id}))
  {
  }

  lemma Same<K>(m: map<K, InternalId>)
    ensures Shrinks(m, m)
  {
  }

  lemma Removed<K>(m: map<K, InternalId>, k: K)
    ensures Shrinks(m, m - {k})
  {
  }

  lemma AddressRemoved(accounts: map<AccountId, InternalId>, application: Id, address: Id)
    ensures Shrinks(accounts, WithoutAddress(accounts, application, address))
  {
  }

  lemma FewerEntries(entries: set<Entry>)
    ensures forall r, k :: WithoutResource(entries, r, k) <= entries
  {
  }

  lemma DeleteShrinks(s: State, op: Op)
    requires IsDelete(op)
    ensures var t := Apply(s, op).state;
            && Shrinks(s.applications, t.applications) && Shrinks(s.modules, t.modules)
            && Shrinks(s.users, t.users) && Shrinks(s.accounts, t.accounts)
            && Shrinks(SlotIds(s.slots), SlotIds(t.slots))
            && t.entries <= s.entries && t.next == s.next
  {
    hide HasSlot, HasChildren, SlotIds, WithoutResource, WithoutAddress, Shrinks;
    FewerEntries(s.entries);
    Same(s.applications);
    Same(s.modules);
    Same(s.users);
    Same(s.accounts);
    Same(SlotIds(s.slots));
    match op
    case DeleteSlot(id) => SlotRemoved(s.slots, id);
    case DeleteApplication(id) => Removed(s.applications, id);
    case DeleteModule(id) => Removed(s.modules, id);
    case DeleteUser(u) => Removed(s.users, u);
    case DeleteAccount(a) => Removed(s.accounts, a);
    case DeleteAllAccounts(application, address, _) => AddressRemoved(s.accounts, application, address);
  }

  lemma DeleteIds(s: State, op: Op)
    requires Inv(s) && IsDelete(op)
    ensures Issued(Apply(s, op).state) && Unique(Apply(s, op).state)
  {
    hide UsersLinked, SlotsLinked, AccountsLinked, Below, Injective, Apply, Shrinks;
    var t := Apply(s, op).state;
    DeleteShrinks(s, op);
    Restricted(s.applications, t.applications, s.next);
    Restricted(s.modules, t.modules, s.next);
    Restricted(s.users, t.users, s.next);
    Restricted(s.accounts, t.accounts, s.next);
    Restricted(SlotIds(s.slots), SlotIds(t.slots), s.next);
  }

  lemma OneStepKeeps(s: State, op: Op)
    requires Inv(s) && (IsCreate(op) || IsDelete(op))
    ensures Inv(Apply(s, op).state)
  {
    hide Apply, UsersLinked, SlotsLinked, AccountsLinked, Issued, Unique;
    if IsCreate(op) {
      CreateLinked(s, op);
      CreateIssued(s, op);
      CreateUnique(s, op);
    } else {
      DeleteUsersLinked(s, op);
      DeleteSlotsLinked(s, op);
      DeleteAccountsLinked(s, op);
      DeleteIds(s, op);
    }
  }

  lemma {:induction false} EnableKeeps(s: State, u: UserId, addresses: seq<Id>)
    requires Inv(s)
    ensures Inv(EnableFrom(s, u, addresses))
  {
    hide Inv, CreateAccountStep;
    if addresses != [] {
      var n := |addresses| - 1;
      EnableKeeps(s, u, addresses[..n]);
      OneStepKeeps(EnableFrom(s, u, addresses[..n]), CreateAccount(AccountId(u.application, u.id, addresses[n])));
    }
  }

  lemma StepKeeps(s: State, op: Op)
    requires Inv(s)
    ensures Inv(Apply(s, op).state)
  {
    hide Inv, CreateSlotStep, CreateUserStep, CreateAccountStep;
    match op
    case EnableAccounts(u, addresses, _) => EnableKeeps(s, u, addresses);
    case _ => OneStepKeeps(s, op);
  }

  function Run(s: State, ops: seq<Op>): State {
    if ops == [] then s else Apply(Run(s, ops[..|ops| - 1]), ops[|ops| - 1]).state
  }

  /** Every sequential run keeps the invariant, whatever operations it is made of. */
  lemma {:induction false} RunKeeps(s: State, ops: seq<Op>)
    requires Inv(s)
    ensures Inv(Run(s, ops))
  {
    hide Inv, Apply;
    if ops != [] {
      RunKeeps(s, ops[..|ops| - 1]);
      StepKeeps(Run(s, ops[..|ops| - 1]), ops[|ops| - 1]);
    }
  }

  lemma EmptyIsConsistent()
    ensures Inv(EMPTY)
  {
  }

  // ---------------------------------------------------------------- protection of parents

  /** The live resources that would be orphaned. */
  predicate HasLiveChild(s: State, op: Op) {
    match op
    case DeleteApplication(id) =>
      || (exists u :: u in s.users && u.application == id)
      || (exists j :: j in s.slots && s.slots[j].application == id)
    case DeleteModule(id) => exists j :: j in s.slots && s.slots[j].hsmModule == id
    case DeleteUser(u) => exists a :: a in s.accounts && UserId(a.application, a.user) == u
    case _ => false
  }

  /** After any run, ids deleted and reused included, no parent with a live child can be
      deleted: the call is refused and changes nothing. */
  lemma ParentsProtected(ops: seq<Op>, op: Op)
    requires HasLiveChild(Run(EMPTY, ops), op)
    ensures Apply(Run(EMPTY, ops), op) == Applied(Run(EMPTY, ops), PreconditionFailed)
  {
    EmptyIsConsistent();
    RunKeeps(EMPTY, ops);
    RefusedWithLiveChild(Run(EMPTY, ops), op);
  }

  lemma RefusedWithLiveChild(s: State, op: Op)
    requires Inv(s) && HasLiveChild(s, op)
    ensures Apply(s, op) == Applied(s, PreconditionFailed)
  {
    match op
    case DeleteApplication(id) =>
      if u :| u in s.users && u.application == id {
        assert Entry(s.users[u], UserKind, s.applications[id], ApplicationKind) in s.entries;
      } else {
        var j :| j in s.slots && s.slots[j].application == id;
        assert Entry(s.slots[j].internal, SlotKind, s.applications[id], ApplicationKind) in s.entries;
      }
    case DeleteModule(id) =>
      var j :| j in s.slots && s.slots[j].hsmModule == id;
      assert Entry(s.slots[j].internal, SlotKind, s.modules[id], ModuleKind) in s.entries;
    case DeleteUser(u) =>
      var a :| a in s.accounts && UserId(a.application, a.user) == u;
      assert Entry(s.accounts[a], AccountKind, s.users[u], UserKind) in s.entries;
    case _ =>
  }

  // ---------------------------------------------------------------- entries that stay behind

  predicate Absent<K>(m: map<K, InternalId>, id: InternalId) {
    forall i :: i in m ==> m[i] != id
  }

  /** An entry of a resource that is not live, and never will be: internal ids are not reused. */
  predicate Stale(s: State, e: Entry) {
    && e in s.entries && e.resource < s.next
    && (e.kind == ApplicationKind ==> Absent(s.applications, e.resource))
    && (e.kind == ModuleKind ==> Absent(s.modules, e.resource))
    && (e.kind == SlotKind ==> Absent(SlotIds(s.slots), e.resource))
    && (e.kind == UserKind ==> Absent(s.users, e.resource))
    && (e.kind == AccountKind ==> Absent(s.accounts, e.resource))
  }

  /** A user that a stale entry names as its parent. */
  ghost predicate PinnedUser(s: State, u: UserId) {
    u in s.users && exists e :: Stale(s, e) && e.parent == s.users[u] && e.parentKind == UserKind
  }

  ghost predicate PinnedApplication(s: State, id: Id) {
    id in s.applications
    && exists e :: Stale(s, e) && e.parent == s.applications[id] && e.parentKind == ApplicationKind
  }

  lemma AbsentStays<K>(m: map<K, InternalId>, k: K, next: InternalId, id: InternalId)
    requires id < next
    ensures Absent(m, id) ==> Absent(m[k := next], id)
  {
  }

  lemma StaleStaysCreate(s: State, op: Op, e: Entry)
    requires Stale(s, e) && IsCreate(op)
    ensures Stale(Apply(s, op).state, e)
  {
    hide SlotConflict, Absent, SlotIds;
    match op
    case CreateSlot(id, a, m, slot, _) =>
      AbsentStays(SlotIds(s.slots), id, s.next, e.resource);
      SlotInserted(s.slots, id, Slot(s.next, a, m, slot));
    case CreateUser(u, _) => AbsentStays(s.users, u, s.next, e.resource);
    case CreateAccount(a) => AbsentStays(s.accounts, a, s.next, e.resource);
    case CreateApplication(id) => AbsentStays(s.applications, id, s.next, e.resource);
    case CreateModule(id) => AbsentStays(s.modules, id, s.next, e.resource);
  }

  lemma AbsentFromLess<K>(m: map<K, InternalId>, k: map<K, InternalId>, id: InternalId)
    requires Shrinks(m, k)
    ensures Absent(m, id) ==> Absent(k, id)
  {
  }

  /** Deletes take away entries of live resources only. */
  lemma DeleteLeavesStaleEntry(s: State, op: Op, e: Entry)
    requires Stale(s, e) && IsDelete(op)
    ensures e in Apply(s, op).state.entries
  {
    hide HasSlot, HasChildren;
    assert forall j :: j in s.slots ==> j in SlotIds(s.slots) && SlotIds(s.slots)[j] == s.slots[j].internal;
  }

  lemma StaleStaysDelete(s: State, op: Op, e: Entry)
    requires Stale(s, e) && IsDelete(op)
    ensures Stale(Apply(s, op).state, e)
  {
    hide Apply, Absent, Shrinks;
    var t := Apply(s, op).state;
    DeleteLeavesStaleEntry(s, op, e);
    DeleteShrinks(s, op);
    AbsentFromLess(s.applications, t.applications, e.resource);
    AbsentFromLess(s.modules, t.modules, e.resource);
    AbsentFromLess(s.users, t.users, e.resource);
    AbsentFromLess(s.accounts, t.accounts, e.resource);
    AbsentFromLess(SlotIds(s.slots), SlotIds(t.slots), e.resource);
  }

  lemma {:induction false} StaleStaysEnable(s: State, u: UserId, addresses: seq<Id>, e: Entry)
    requires Stale(s, e)
    ensures Stale(EnableFrom(s, u, addresses), e)
    ensures EnableFrom(s, u, addresses).users == s.users
    ensures EnableFrom(s, u, addresses).applications == s.applications
  {
    hide Stale;
    if addresses != [] {
      var n := |addresses| - 1;
      StaleStaysEnable(s, u, addresses[..n], e);
      var a := AccountId(u.application, u.id, addresses[n]);
      StaleStaysCreate(EnableFrom(s, u, addresses[..n]), CreateAccount(a), e);
    }
  }

  /** The users and applications that an entry names as its parent. */
  predicate ParentsStay(s: State, t: State, e: Entry) {
    && (forall u :: u in s.users && e.parent == s.users[u] && e.parentKind == UserKind ==>
          u in t.users && t.users[u] == s.users[u])
    && (forall i :: i in s.applications && e.parent == s.applications[i] && e.parentKind == ApplicationKind ==>
          i in t.applications && t.applications[i] == s.applications[i])
  }

  lemma DeleteSparesParents(s: State, op: Op, e: Entry)
    requires e in s.entries && IsDelete(op)
    ensures ParentsStay(s, Apply(s, op).state, e)
  {
    hide HasSlot, WithoutResource;
    match op
    case DeleteApplication(_) =>
    case DeleteUser(_) =>
    case _ =>
  }

  lemma CreateSparesParents(s: State, op: Op, e: Entry)
    requires IsCreate(op)
    ensures ParentsStay(s, Apply(s, op).state, e)
  {
    hide Apply;
    CreateGrows(s, op);
  }

  lemma EnableHolds(s: State, u: UserId, addresses: seq<Id>, known: Option<seq<Id>>, e: Entry)
    requires Stale(s, e)
    ensures var t := Apply(s, EnableAccounts(u, addresses, known)).state; Stale(t, e) && ParentsStay(s, t, e)
  {
    hide Stale, HasSlot, AllKnown, EnableFrom, CreateAccountStep;
    StaleStaysEnable(s, u, addresses, e);
  }

  /** No operation ever removes a stale entry, or the user or application it names. */
  lemma PinHolds(s: State, op: Op, e: Entry)
    requires Stale(s, e)
    ensures Stale(Apply(s, op).state, e)
    ensures ParentsStay(s, Apply(s, op).state, e)
  {
    hide Stale, Apply, ParentsStay;
    StaleIsEntry(s, e);
    if IsCreate(op) {
      StaleStaysCreate(s, op, e);
      CreateSparesParents(s, op, e);
    } else if IsDelete(op) {
      StaleStaysDelete(s, op, e);
      DeleteSparesParents(s, op, e);
    } else {
      EnableHolds(s, op.user, op.addresses, op.known, e);
    }
  }

  lemma StaleIsEntry(s: State, e: Entry)
    requires Stale(s, e)
    ensures e in s.entries
  {
  }

  /** A pinned user can never be deleted: it is still there, and still pinned, after any run. */
  lemma {:induction false} PinnedUserStays(s: State, u: UserId, ops: seq<Op>)
    requires PinnedUser(s, u)
    ensures PinnedUser(Run(s, ops), u) && Run(s, ops).users[u] == s.users[u]
  {
    hide Apply, Stale;
    if ops != [] {
      PinnedUserStays(s, u, ops[..|ops| - 1]);
      var mid := Run(s, ops[..|ops| - 1]);
      var e :| Stale(mid, e) && e.parent == mid.users[u] && e.parentKind == UserKind;
      PinHolds(mid, ops[|ops| - 1], e);
    }
  }

  lemma {:induction false} PinnedApplicationStays(s: State, id: Id, ops: seq<Op>)
    requires PinnedApplication(s, id)
    ensures PinnedApplication(Run(s, ops), id) && Run(s, ops).applications[id] == s.applications[id]
  {
    hide Apply, Stale;
    if ops != [] {
      PinnedApplicationStays(s, id, ops[..|ops| - 1]);
      var mid := Run(s, ops[..|ops| - 1]);
      var e :| Stale(mid, e) && e.parent == mid.applications[id] && e.parentKind == ApplicationKind;
      PinHolds(mid, ops[|ops| - 1], e);
    }
  }

  /** Bulk removal pins every user it takes an account from. */
  lemma BulkRemovalPins(s: State, application: Id, address: Id, a: AccountId)
    requires Inv(s) && HasSlot(s, application)
    requires a in s.accounts && a.application == application && a.address == address
    ensures PinnedUser(Apply(s, DeleteAllAccounts(application, address, KeyRemoved)).state, UserId(application, a.user))
  {
    hide SlotsLinked, UsersLinked;
    var t := Apply(s, DeleteAllAccounts(application, address, KeyRemoved)).state;
    var e := Entry(s.accounts[a], AccountKind, s.users[UserId(a.application, a.user)], UserKind);
    assert Stale(t, e);
  }

  /** Creating a user that exists already pins its application. */
  lemma DuplicateUserPins(s: State, u: UserId)
    requires Inv(s) && u in s.users
    ensures PinnedApplication(Apply(s, CreateUser(u, true)).state, u.application)
  {
    hide SlotsLinked, AccountsLinked;
    var t := Apply(s, CreateUser(u, true)).state;
    var e := Entry(s.next, UserKind, s.applications[u.application], ApplicationKind);
    assert Stale(t, e);
  }

  /** Creating, or enabling again, an account that exists already pins its user. */
  lemma DuplicateAccountPins(s: State, a: AccountId)
    requires Inv(s) && a in s.accounts
    ensures PinnedUser(Apply(s, CreateAccount(a)).state, UserId(a.application, a.user))
  {
    hide SlotsLinked, UsersLinked;
    var t := Apply(s, CreateAccount(a)).state;
    var e := Entry(s.next, AccountKind, s.users[UserId(a.application, a.user)], UserKind);
    assert Stale(t, e);
  }
}
