/** When a delete is refused: every integrity entry is either the link of a live resource or
    one that stays behind, so refusals have exactly two reasons. */
module Deletions {
  import opened Wrappers
  import opened Registry

  predicate UserLink(s: State, u: UserId, e: Entry) {
    && u in s.users && u.application in s.applications
    && e == Entry(s.users[u], UserKind, s.applications[u.application], ApplicationKind)
  }

  predicate AccountLink(s: State, a: AccountId, e: Entry) {
    && a in s.accounts && UserId(a.application, a.user) in s.users
    && e == Entry(s.accounts[a], AccountKind, s.users[UserId(a.application, a.user)], UserKind)
  }

  predicate SlotLink(s: State, j: Id, e: Entry) {
    && j in s.slots && s.slots[j].application in s.applications && s.slots[j].hsmModule in s.modules
    && (|| e == Entry(s.slots[j].internal, SlotKind, s.applications[s.slots[j].application], ApplicationKind)
        || e == Entry(s.slots[j].internal, SlotKind, s.modules[s.slots[j].hsmModule], ModuleKind))
  }

  /** The entry of a live resource, naming its parent as it is now. */
  ghost predicate Linked(s: State, e: Entry) {
    (exists u :: UserLink(s, u, e)) || (exists a :: AccountLink(s, a, e)) || (exists j :: SlotLink(s, j, e))
  }

  /** An entry left behind by a user or an account; slots leave none. */
  predicate LeftBehind(s: State, e: Entry) {
    && Stale(s, e)
    && ((e.kind == UserKind && e.parentKind == ApplicationKind) || (e.kind == AccountKind && e.parentKind == UserKind))
  }

  ghost predicate Accounted(s: State) {
    && Injective(s.applications) && Injective(s.modules)
    && forall e :: e in s.entries ==> Linked(s, e) || LeftBehind(s, e)
  }

  // ---------------------------------------------------------------- creation

  lemma LinkedGrows(s: State, t: State, e: Entry)
    requires Linked(s, e) && Grows(s, t)
    requires Extends(s.accounts, t.accounts) && forall j :: j in s.slots ==> j in t.slots && t.slots[j] == s.slots[j]
    ensures Linked(t, e)
  {
    if u :| UserLink(s, u, e) {
      assert UserLink(t, u, e);
    } else if a :| AccountLink(s, a, e) {
      assert AccountLink(t, a, e);
    } else {
      var j :| SlotLink(s, j, e);
      assert SlotLink(t, j, e);
    }
  }

  lemma CreateKeepsRows(s: State, op: Op)
    requires IsCreate(op)
    ensures var t := Apply(s, op).state;
            && Extends(s.accounts, t.accounts)
            && forall j :: j in s.slots ==> j in t.slots && t.slots[j] == s.slots[j]
  {
    hide SlotConflict;
    if op.CreateSlot? && op.id in s.slots {
      IdConflict(s.slots, op.id, Slot(s.next, op.application, op.hsmModule, op.slot));
    }
  }

  lemma IdConflict(slots: map<Id, Slot>, id: Id, row: Slot)
    requires id in slots
    ensures SlotConflict(slots, id, row)
  {
  }

  lemma CreateKeepsParentIds(s: State, op: Op)
    requires Inv(s) && IsCreate(op) && Injective(s.applications) && Injective(s.modules)
    ensures var t := Apply(s, op).state; Injective(t.applications) && Injective(t.modules)
  {
    hide UsersLinked, SlotsLinked, AccountsLinked, Unique, Injective, SlotConflict, Below, EntriesIssued;
    match op
    case CreateApplication(id) => Inserted(s.applications, id, s.next);
    case CreateModule(id) => Inserted(s.modules, id, s.next);
    case _ =>
  }

  /** What a create adds is the link of the new resource, or is left behind by one that
      was not added. */
  lemma NewEntry(s: State, op: Op, e: Entry)
    requires Inv(s) && IsCreate(op) && e in Apply(s, op).state.entries && e !in s.entries
    ensures Linked(Apply(s, op).state, e) || LeftBehind(Apply(s, op).state, e)
  {
    match op
    case CreateUser(u, _) => NewUserEntry(s, u, e);
    case CreateAccount(a) => NewAccountEntry(s, a, e);
    case CreateSlot(id, application, hsmModule, slot, reachable) =>
      NewSlotEntry(s, id, application, hsmModule, slot, reachable, e);
    case _ =>
  }

  lemma NewUserEntry(s: State, u: UserId, e: Entry)
    requires Below(s.users, s.next) && e in CreateUserStep(s, u).state.entries && e !in s.entries
    ensures Linked(CreateUserStep(s, u).state, e) || LeftBehind(CreateUserStep(s, u).state, e)
  {
    var t := CreateUserStep(s, u).state;
    if u !in s.users { assert UserLink(t, u, e); }
  }

  lemma NewAccountEntry(s: State, a: AccountId, e: Entry)
    requires Below(s.accounts, s.next) && e in CreateAccountStep(s, a).state.entries && e !in s.entries
    ensures Linked(CreateAccountStep(s, a).state, e) || LeftBehind(CreateAccountStep(s, a).state, e)
  {
    var t := CreateAccountStep(s, a).state;
    if a !in s.accounts { assert AccountLink(t, a, e); }
  }

  lemma NewSlotEntry(s: State, id: Id, application: Id, hsmModule: Id, slot: Option<Id>, reachable: bool, e: Entry)
    requires var t := CreateSlotStep(s, id, application, hsmModule, slot, reachable).state;
             e in t.entries && e !in s.entries
    ensures Linked(CreateSlotStep(s, id, application, hsmModule, slot, reachable).state, e)
  {
    hide SlotConflict;
    assert SlotLink(CreateSlotStep(s, id, application, hsmModule, slot, reachable).state, id, e);
  }

  lemma CreateAccounted(s: State, op: Op)
    requires Inv(s) && Accounted(s) && IsCreate(op)
    ensures Accounted(Apply(s, op).state)
  {
    hide Apply, Inv, Linked, Stale, Injective, Grows;
    var t := Apply(s, op).state;
    CreateGrows(s, op);
    CreateKeepsRows(s, op);
    CreateKeepsParentIds(s, op);
    forall e | e in t.entries ensures Linked(t, e) || LeftBehind(t, e) {
      if e !in s.entries {
        NewEntry(s, op, e);
      } else if Linked(s, e) {
        LinkedGrows(s, t, e);
      } else {
        StaleStaysCreate(s, op, e);
      }
    }
  }

  // ---------------------------------------------------------------- deletion

  /** A link survives every delete but that of its own resource, which takes the entry along,
      and bulk removal, which leaves it behind. */
  lemma LinkAfterDelete(s: State, op: Op, e: Entry)
    requires Inv(s) && IsDelete(op) && Linked(s, e) && e in Apply(s, op).state.entries
    ensures Linked(Apply(s, op).state, e) || LeftBehind(Apply(s, op).state, e)
  {
    if u :| UserLink(s, u, e) {
      UserLinkAfterDelete(s, op, u, e);
    } else if a :| AccountLink(s, a, e) {
      AccountLinkAfterDelete(s, op, a, e);
    } else {
      var j :| SlotLink(s, j, e);
      SlotLinkAfterDelete(s, op, j, e);
    }
  }

  lemma UserLinkAfterDelete(s: State, op: Op, u: UserId, e: Entry)
    requires IsDelete(op) && UserLink(s, u, e) && e in s.entries && e in Apply(s, op).state.entries
    ensures UserLink(Apply(s, op).state, u, e)
  {
    hide HasSlot;
  }

  lemma SlotLinkAfterDelete(s: State, op: Op, j: Id, e: Entry)
    requires IsDelete(op) && SlotLink(s, j, e) && e in s.entries && e in Apply(s, op).state.entries
    requires SlotsLinked(s)
    ensures SlotLink(Apply(s, op).state, j, e)
  {
    hide HasSlot;
  }

  lemma AccountLinkAfterDelete(s: State, op: Op, a: AccountId, e: Entry)
    requires Inv(s) && IsDelete(op) && AccountLink(s, a, e) && e in s.entries && e in Apply(s, op).state.entries
    ensures AccountLink(Apply(s, op).state, a, e) || LeftBehind(Apply(s, op).state, e)
  {
    hide HasSlot, UsersLinked, SlotsLinked, AccountsLinked;
  }

  lemma DeleteAccounted(s: State, op: Op)
    requires Inv(s) && Accounted(s) && IsDelete(op)
    ensures Accounted(Apply(s, op).state)
  {
    hide Apply, Inv, Linked, Stale, Injective, Shrinks;
    var t := Apply(s, op).state;
    DeleteShrinks(s, op);
    Restricted(s.applications, t.applications, s.next);
    Restricted(s.modules, t.modules, s.next);
    forall e | e in t.entries ensures Linked(t, e) || LeftBehind(t, e) {
      if Linked(s, e) {
        LinkAfterDelete(s, op, e);
      } else {
        StaleStaysDelete(s, op, e);
      }
    }
  }

  /** The entries that link the resource a delete is about to its parents. */
  predicate OwnLink(s: State, op: Op, e: Entry) {
    match op
    case DeleteUser(u) => UserLink(s, u, e)
    case DeleteAccount(a) => AccountLink(s, a, e)
    case DeleteSlot(j) => SlotLink(s, j, e)
    case _ => false
  }

  /** A link belongs to one resource. */
  lemma LinkOfResource(s: State, e: Entry)
    requires Inv(s) && Accounted(s) && e in s.entries
    ensures e.kind != ApplicationKind && e.kind != ModuleKind
    ensures forall u :: u in s.users && e.kind == UserKind && e.resource == s.users[u] ==> UserLink(s, u, e)
    ensures forall a :: a in s.accounts && e.kind == AccountKind && e.resource == s.accounts[a] ==> AccountLink(s, a, e)
    ensures forall j :: j in s.slots && e.kind == SlotKind && e.resource == s.slots[j].internal ==> SlotLink(s, j, e)
  {
    hide UsersLinked, SlotsLinked, AccountsLinked, Issued;
    SlotsDistinct(s);
    if LeftBehind(s, e) {
      assert forall j :: j in s.slots ==> j in SlotIds(s.slots) && SlotIds(s.slots)[j] == s.slots[j].internal;
    }
  }

  /** A delete that is done takes away exactly the links of its own resource; one that is not
      done, and bulk removal, take away nothing. */
  lemma RemovedEntriesExactly(s: State, op: Op, e: Entry)
    requires Inv(s) && Accounted(s) && IsDelete(op) && e in s.entries
    ensures e !in Apply(s, op).state.entries <==> Apply(s, op).result == Done && OwnLink(s, op, e)
  {
    hide UsersLinked, SlotsLinked, AccountsLinked, Issued, Unique, Injective, Linked, LeftBehind, HasSlot, HasChildren;
    LinkOfResource(s, e);
    match op
    case DeleteUser(_) =>
    case DeleteAccount(_) =>
    case DeleteSlot(_) =>
    case DeleteApplication(_) =>
    case DeleteModule(_) =>
    case DeleteAllAccounts(_, _, _) =>
  }

  // ---------------------------------------------------------------- runs

  lemma {:induction false} EnableAccounted(s: State, u: UserId, addresses: seq<Id>)
    requires Inv(s) && Accounted(s)
    ensures Inv(EnableFrom(s, u, addresses)) && Accounted(EnableFrom(s, u, addresses))
  {
    hide Inv, Accounted, CreateAccountStep;
    if addresses != [] {
      var n := |addresses| - 1;
      var op := Op.CreateAccount(AccountId(u.application, u.id, addresses[n]));
      EnableAccounted(s, u, addresses[..n]);
      CreateAccounted(EnableFrom(s, u, addresses[..n]), op);
      StepKeeps(EnableFrom(s, u, addresses[..n]), op);
    }
  }

  lemma {:induction false} RunAccounted(ops: seq<Op>)
    ensures Inv(Run(EMPTY, ops)) && Accounted(Run(EMPTY, ops))
  {
    hide Inv, Accounted;
    if ops == [] {
      EmptyIsConsistent();
      EmptyIsAccounted();
    } else {
      var n := |ops| - 1;
      RunAccounted(ops[..n]);
      StepAccounted(Run(EMPTY, ops[..n]), ops[n]);
    }
  }

  lemma EmptyIsAccounted()
    ensures Accounted(EMPTY)
  {
  }

  lemma StepAccounted(s: State, op: Op)
    requires Inv(s) && Accounted(s)
    ensures Inv(Apply(s, op).state) && Accounted(Apply(s, op).state)
  {
    hide Inv, Accounted, CreateSlotStep, CreateUserStep, CreateAccountStep, EnableFrom;
    StepKeeps(s, op);
    match op
    case EnableAccounts(u, addresses, _) => EnableAccounted(s, u, addresses);
    case _ => if IsCreate(op) { CreateAccounted(s, op); } else { DeleteAccounted(s, op); }
  }

  // ---------------------------------------------------------------- exact refusals

  predicate IsSingleDelete(op: Op) {
    op.DeleteApplication? || op.DeleteModule? || op.DeleteSlot? || op.DeleteUser? || op.DeleteAccount?
  }

  predicate Exists(s: State, op: Op)
    requires IsSingleDelete(op)
  {
    match op
    case DeleteApplication(id) => id in s.applications
    case DeleteModule(id) => id in s.modules
    case DeleteSlot(id) => id in s.slots
    case DeleteUser(u) => u in s.users
    case DeleteAccount(a) => a in s.accounts
  }

  ghost predicate Pinned(s: State, op: Op) {
    match op
    case DeleteApplication(id) => PinnedApplication(s, id)
    case DeleteUser(u) => PinnedUser(s, u)
    case _ => false
  }

  /** The entry that makes a delete fail shows a live child or a pin. */
  lemma RefusalHasReason(s: State, op: Op, e: Entry)
    requires Inv(s) && Accounted(s) && IsSingleDelete(op) && Exists(s, op) && e in s.entries
    requires match op
             case DeleteApplication(id) => e.parent == s.applications[id] && e.parentKind == ApplicationKind
             case DeleteModule(id) => e.parent == s.modules[id] && e.parentKind == ModuleKind
             case DeleteSlot(_) => e.parentKind == SlotKind
             case DeleteUser(u) => e.parent == s.users[u] && e.parentKind == UserKind
             case DeleteAccount(_) => e.parentKind == AccountKind
    ensures HasLiveChild(s, op) || Pinned(s, op)
  {
    hide UsersLinked, SlotsLinked, AccountsLinked, Issued, Stale;
  }

  /** A delete is refused if and only if the resource has a live child or is pinned by an entry
      left behind. */
  ghost function DeleteResult(s: State, op: Op): Result
    requires IsSingleDelete(op)
  {
    if !Exists(s, op) then NotFound
    else if HasLiveChild(s, op) || Pinned(s, op) then PreconditionFailed
    else Done
  }

  /** Modules, slots and accounts are never pinned, and slots and accounts have no children. */
  lemma ReasonsAreExact(s: State, op: Op)
    requires Inv(s) && Accounted(s) && IsSingleDelete(op)
    ensures Apply(s, op).result == DeleteResult(s, op)
  {
    hide Inv, Accounted, HasLiveChild;
    if Exists(s, op) {
      if Apply(s, op).result == PreconditionFailed {
        var (parent, kind) := match op
          case DeleteApplication(id) => (s.applications[id], ApplicationKind)
          case DeleteModule(id) => (s.modules[id], ModuleKind)
          case DeleteSlot(id) => (s.slots[id].internal, SlotKind)
          case DeleteUser(u) => (s.users[u], UserKind)
          case DeleteAccount(a) => (s.accounts[a], AccountKind);
        var e :| e in s.entries && e.parent == parent && e.parentKind == kind;
        RefusalHasReason(s, op, e);
      } else if HasLiveChild(s, op) {
        RefusedWithLiveChild(s, op);
      }
    }
  }

  /** After any run, ids deleted and reused included. */
  lemma RefusedExactly(ops: seq<Op>, op: Op)
    requires IsSingleDelete(op)
    ensures Apply(Run(EMPTY, ops), op).result == DeleteResult(Run(EMPTY, ops), op)
  {
    hide Run, Inv, Accounted;
    RunAccounted(ops);
    ReasonsAreExact(Run(EMPTY, ops), op);
  }
}
