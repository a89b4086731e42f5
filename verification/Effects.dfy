/** What the operations do to the tables, said row by row and not by the steps that do it. */
module Effects {
  import opened Wrappers
  import opened Registry
  import opened Deletions

  /** An internal id that no resource has and no entry is about. */
  predicate Fresh(s: State, id: InternalId) {
    && id !in s.applications.Values && id !in s.modules.Values && id !in s.users.Values && id !in s.accounts.Values
    && (forall j :: j in s.slots ==> s.slots[j].internal != id)
    && (forall e :: e in s.entries ==> e.resource != id)
  }

  lemma NextIsFresh(s: State)
    requires Inv(s)
    ensures Fresh(s, s.next)
  {
    hide UsersLinked, SlotsLinked, AccountsLinked, Unique;
    assert forall j :: j in s.slots ==> j in SlotIds(s.slots) && SlotIds(s.slots)[j] == s.slots[j].internal;
  }

  // ---------------------------------------------------------------- creates

  /** Done exactly when the id was not taken: then it is live under a fresh internal id, and
      nothing else has changed. */
  predicate ApplicationStored(s: State, t: State, id: Id, r: Result) {
    && (r == Done <==> id !in s.applications) && (r == Done || r == AlreadyExists)
    && t.applications == (if r == Done then s.applications[id := s.next] else s.applications)
    && Fresh(s, s.next) && t.next == s.next + 1
    && t.modules == s.modules && t.slots == s.slots && t.users == s.users && t.accounts == s.accounts
    && t.entries == s.entries
  }

  predicate ModuleStored(s: State, t: State, id: Id, r: Result) {
    && (r == Done <==> id !in s.modules) && (r == Done || r == AlreadyExists)
    && t.modules == (if r == Done then s.modules[id := s.next] else s.modules)
    && Fresh(s, s.next) && t.next == s.next + 1
    && t.applications == s.applications && t.slots == s.slots && t.users == s.users && t.accounts == s.accounts
    && t.entries == s.entries
  }

  /** Done exactly when module and application are live, the module answers, and neither id,
      application nor, where there is one, the place in the module is taken. Two entries come
      with the row. */
  predicate SlotStored(
      s: State, t: State, id: Id, application: Id, hsmModule: Id, slot: Option<Id>, reachable: bool, r: Result)
  {
    && (r == Done <==>
          && hsmModule in s.modules && reachable && application in s.applications && id !in s.slots
          && forall j :: j in s.slots ==>
               && s.slots[j].application != application
               && !(slot.Some? && s.slots[j].hsmModule == hsmModule && s.slots[j].slot == slot))
    && t.slots == (if r == Done then s.slots[id := Slot(s.next, application, hsmModule, slot)] else s.slots)
    && (r == Done ==>
          t.entries == s.entries + {Entry(s.next, SlotKind, s.applications[application], ApplicationKind),
                                    Entry(s.next, SlotKind, s.modules[hsmModule], ModuleKind)})
    && (r != Done ==> t.entries == s.entries)
    && Fresh(s, s.next) && (r == Done ==> t.next == s.next + 1)
    && t.applications == s.applications && t.modules == s.modules && t.users == s.users && t.accounts == s.accounts
  }

  /** Done exactly when the roles are valid, the application is live and the user is not. The
      entry is written as soon as the application is found. */
  predicate UserStored(s: State, t: State, u: UserId, rolesValid: bool, r: Result) {
    && (r == Done <==> rolesValid && u.application in s.applications && u !in s.users)
    && t.users == (if r == Done then s.users[u := s.next] else s.users)
    && t.entries == (if rolesValid && u.application in s.applications
                     then s.entries + {Entry(s.next, UserKind, s.applications[u.application], ApplicationKind)}
                     else s.entries)
    && Fresh(s, s.next) && (r == Done ==> t.next == s.next + 1)
    && t.applications == s.applications && t.modules == s.modules && t.slots == s.slots && t.accounts == s.accounts
  }

  predicate AccountStored(s: State, t: State, a: AccountId, r: Result) {
    var u := UserId(a.application, a.user);
    && (r == Done <==> u in s.users && a !in s.accounts)
    && t.accounts == (if r == Done then s.accounts[a := s.next] else s.accounts)
    && t.entries == (if u in s.users then s.entries + {Entry(s.next, AccountKind, s.users[u], UserKind)} else s.entries)
    && Fresh(s, s.next) && t.next == s.next + 1
    && t.applications == s.applications && t.modules == s.modules && t.slots == s.slots && t.users == s.users
  }

  lemma ApplicationIsStored(s: State, id: Id)
    requires Inv(s)
    ensures var a := Apply(s, CreateApplication(id)); ApplicationStored(s, a.state, id, a.result)
  {
    hide Inv, Fresh;
    NextIsFresh(s);
  }

  lemma ModuleIsStored(s: State, id: Id)
    requires Inv(s)
    ensures var a := Apply(s, CreateModule(id)); ModuleStored(s, a.state, id, a.result)
  {
    hide Inv, Fresh;
    NextIsFresh(s);
  }

  lemma SlotIsStored(s: State, id: Id, application: Id, hsmModule: Id, slot: Option<Id>, reachable: bool)
    requires Inv(s)
    ensures var a := Apply(s, CreateSlot(id, application, hsmModule, slot, reachable));
            SlotStored(s, a.state, id, application, hsmModule, slot, reachable, a.result)
  {
    hide Inv, Fresh, SlotConflict;
    NextIsFresh(s);
    SlotDone(s, id, application, hsmModule, slot, reachable);
  }

  lemma UserIsStored(s: State, u: UserId, rolesValid: bool)
    requires Inv(s)
    ensures var a := Apply(s, CreateUser(u, rolesValid)); UserStored(s, a.state, u, rolesValid, a.result)
  {
    hide Inv, Fresh;
    NextIsFresh(s);
  }

  lemma AccountIsStored(s: State, a: AccountId)
    requires Inv(s)
    ensures var x := CreateAccountStep(s, a); AccountStored(s, x.state, a, x.result)
  {
    hide Inv, Fresh;
    NextIsFresh(s);
  }

  lemma SlotDone(s: State, id: Id, application: Id, hsmModule: Id, slot: Option<Id>, reachable: bool)
    ensures CreateSlotStep(s, id, application, hsmModule, slot, reachable).result == Done <==>
              && hsmModule in s.modules && reachable && application in s.applications && id !in s.slots
              && forall j :: j in s.slots ==>
                   && s.slots[j].application != application
                   && !(slot.Some? && s.slots[j].hsmModule == hsmModule && s.slots[j].slot == slot)
  {
  }

  /** A user creation as a whole: its steps, what it stores, and what it keeps. */
  lemma UserCreation(s: State, u: UserId, rolesValid: bool)
    requires Inv(s) && Accounted(s)
    ensures var a := Apply(s, CreateUser(u, rolesValid));
            && a == (if rolesValid then CreateUserStep(s, u) else Applied(s, InvalidArgument))
            && Inv(a.state) && Accounted(a.state) && UserStored(s, a.state, u, rolesValid, a.result)
  {
    hide Inv, Accounted, UserStored, CreateUserStep;
    UserIsStored(s, u, rolesValid);
    StepAccounted(s, CreateUser(u, rolesValid));
  }

  lemma AccountCreation(s: State, a: AccountId)
    requires Inv(s) && Accounted(s)
    ensures var x := CreateAccountStep(s, a);
            Inv(x.state) && Accounted(x.state) && AccountStored(s, x.state, a, x.result)
  {
    hide Inv, Accounted, AccountStored, CreateAccountStep;
    AccountIsStored(s, a);
    StepAccounted(s, CreateAccount(a));
  }

  lemma SlotCreation(s: State, id: Id, application: Id, hsmModule: Id, slot: Option<Id>, reachable: bool)
    requires Inv(s) && Accounted(s)
    ensures var a := Apply(s, CreateSlot(id, application, hsmModule, slot, reachable));
            && a == CreateSlotStep(s, id, application, hsmModule, slot, reachable)
            && Inv(a.state) && Accounted(a.state)
            && SlotStored(s, a.state, id, application, hsmModule, slot, reachable, a.result)
  {
    hide Inv, Accounted, SlotStored, CreateSlotStep;
    SlotIsStored(s, id, application, hsmModule, slot, reachable);
    StepAccounted(s, CreateSlot(id, application, hsmModule, slot, reachable));
  }

  lemma ApplicationCreation(s: State, id: Id)
    requires Inv(s) && Accounted(s)
    ensures var a := Apply(s, CreateApplication(id));
            Inv(a.state) && Accounted(a.state) && ApplicationStored(s, a.state, id, a.result)
  {
    hide Inv, Accounted, ApplicationStored;
    ApplicationIsStored(s, id);
    StepAccounted(s, CreateApplication(id));
  }

  lemma ModuleCreation(s: State, id: Id)
    requires Inv(s) && Accounted(s)
    ensures var a := Apply(s, CreateModule(id));
            Inv(a.state) && Accounted(a.state) && ModuleStored(s, a.state, id, a.result)
  {
    hide Inv, Accounted, ModuleStored;
    ModuleIsStored(s, id);
    StepAccounted(s, CreateModule(id));
  }

  // ---------------------------------------------------------------- enabling

  /** What enabling leaves: an account for every address, the accounts there were, and no
      others; nothing else is touched. */
  ghost predicate Enabled(s: State, t: State, u: UserId, addresses: seq<Id>) {
    && (forall i :: 0 <= i < |addresses| ==> AccountId(u.application, u.id, addresses[i]) in t.accounts)
    && (forall a :: a in s.accounts ==> a in t.accounts && t.accounts[a] == s.accounts[a])
    && (forall a :: a in t.accounts && a !in s.accounts ==>
          a.application == u.application && a.user == u.id && a.address in addresses && t.accounts[a] >= s.next)
    && t.applications == s.applications && t.modules == s.modules && t.slots == s.slots && t.users == s.users
    && t.next >= s.next
  }

  lemma EnabledStep(s: State, t: State, u: UserId, addresses: seq<Id>)
    requires addresses != [] && u in s.users
    requires var n := |addresses| - 1;
             && Enabled(s, t, u, addresses[..n])
    ensures var n := |addresses| - 1;
            Enabled(s, CreateAccountStep(t, AccountId(u.application, u.id, addresses[n])).state, u, addresses)
  {
    var n := |addresses| - 1;
    assert addresses == addresses[..n] + [addresses[n]];
  }

  lemma {:induction false} EnableEffect(s: State, u: UserId, addresses: seq<Id>)
    requires u in s.users
    ensures Enabled(s, EnableFrom(s, u, addresses), u, addresses)
  {
    if addresses != [] {
      hide Enabled, CreateAccountStep;
      var n := |addresses| - 1;
      EnableEffect(s, u, addresses[..n]);
      EnabledStep(s, EnableFrom(s, u, addresses[..n]), u, addresses);
    }
  }

  // ---------------------------------------------------------------- unique slots

  predicate SamePlace(x: Slot, y: Slot) {
    x.hsmModule == y.hsmModule && x.slot == y.slot
  }

  /** No two slots serve one application, or stand at one place of one module. */
  predicate SlotsUnique(slots: map<Id, Slot>) {
    && (forall i, j :: i in slots && j in slots && slots[i].application == slots[j].application ==> i == j)
    && (forall i, j :: i in slots && j in slots && slots[i].slot.Some? && SamePlace(slots[i], slots[j]) ==> i == j)
  }

  lemma SlotsStayUnique(s: State, op: Op)
    requires SlotsUnique(s.slots)
    ensures SlotsUnique(Apply(s, op).state.slots)
  {
    hide CreateUserStep, CreateAccountStep, HasSlot, HasChildren;
    match op
    case CreateSlot(id, a, m, slot, reachable) => SlotDone(s, id, a, m, slot, reachable);
    case CreateUser(u, _) => CreateUserGrows(s, u);
    case CreateAccount(a) => CreateAccountGrows(s, a);
    case EnableAccounts(u, addresses, _) => if u in s.users { EnableEffect(s, u, addresses); }
    case _ =>
  }

  /** After every run. */
  lemma {:induction false} RunSlotsUnique(ops: seq<Op>)
    ensures SlotsUnique(Run(EMPTY, ops).slots)
  {
    hide Apply, SlotsUnique;
    if ops == [] {
      NoSlots();
    } else {
      var n := |ops| - 1;
      RunSlotsUnique(ops[..n]);
      SlotsStayUnique(Run(EMPTY, ops[..n]), ops[n]);
    }
  }

  lemma NoSlots()
    ensures SlotsUnique(EMPTY.slots)
  {
  }
}
