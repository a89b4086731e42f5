/** The use cases over the stored tables, in the order in which they read and write them. */
module RegistryStore {
  import opened Wrappers
  import opened Registry
  import opened Deletions
  import opened Effects

  class Store {
    var applications: map<Id, InternalId>
    var modules: map<Id, InternalId>
    var slots: map<Id, Slot>
    var users: map<UserId, InternalId>
    var accounts: map<AccountId, InternalId>
    var entries: set<Entry>
    var next: InternalId

    constructor ()
      ensures Contents() == EMPTY && Valid()
    {
      EmptyIsConsistent();
      EmptyIsAccounted();
      applications, modules, slots, users, accounts := map[], map[], map[], map[], map[];
      entries, next := {}, 0;
    }

    function Contents(): State
      reads this
    {
      State(applications, modules, slots, users, accounts, entries, next)
    }

    /** Live resources have live parents and current entries, and every entry is accounted for. */
    ghost predicate Valid()
      reads this
    {
      Inv(Contents()) && Accounted(Contents())
    }

    method NewInternalResourceId() returns (id: InternalId)
      modifies this`next
      ensures id == old(next) && next == old(next) + 1
    {
      id := next;
      next := next + 1;
    }

    // -------------------------------------------------------------- integrity entries

    method CreateEntry(e: Entry) returns (r: Result)
      modifies this`entries
      ensures entries == old(entries) + {e}
      ensures r == if e in old(entries) then AlreadyExists else Done
    {
      if e in entries { return AlreadyExists; }
      entries := entries + {e};
      return Done;
    }

    method ListMyChildrenEntries(parent: InternalId, kind: Kind) returns (children: set<Entry>)
      ensures forall e :: e in children <==> e in entries && e.parent == parent && e.parentKind == kind
    {
      children := set e | e in entries && e.parent == parent && e.parentKind == kind;
    }

    method DeleteMyEntriesIfAny(resource: InternalId, kind: Kind)
      modifies this`entries
      ensures entries == WithoutResource(old(entries), resource, kind)
    {
      entries := set e | e in entries && !(e.resource == resource && e.kind == kind);
    }

    /** The check all `removeAllDependencies` make: refused while any entry names the resource
        as its parent, else its own entries go. */
    method RemoveDependencies(resource: InternalId, kind: Kind) returns (r: Result)
      modifies this`entries
      ensures r == if HasChildren(old(entries), resource, kind) then PreconditionFailed else Done
      ensures entries == if r == Done then WithoutResource(old(entries), resource, kind) else old(entries)
    {
      var children := ListMyChildrenEntries(resource, kind);
      if children != {} {
        ghost var e :| e in children;
        return PreconditionFailed;
      }
      DeleteMyEntriesIfAny(resource, kind);
      return Done;
    }

    // -------------------------------------------------------------- applications and modules

    method CreateApplication(id: Id) returns (r: Result)
      requires Valid()
      modifies this
      ensures Applied(Contents(), r) == Apply(old(Contents()), Op.CreateApplication(id))
      ensures Valid()
      ensures ApplicationStored(old(Contents()), Contents(), id, r)
    {
      hide Inv, Accounted, ApplicationStored;
      ApplicationCreation(Contents(), id);
      var internal := NewInternalResourceId();
      if id in applications { return AlreadyExists; }
      applications := applications[id := internal];
      return Done;
    }

    method DeleteApplication(id: Id) returns (r: Result)
      requires Valid()
      modifies this
      ensures Applied(Contents(), r) == Apply(old(Contents()), Op.DeleteApplication(id))
      ensures Valid()
      ensures r == DeleteResult(old(Contents()), Op.DeleteApplication(id))
      ensures r == Done ==> id in old(applications) && applications == old(applications) - {id}
      ensures r != Done ==> applications == old(applications) && entries == old(entries)
      ensures unchanged(this`modules, this`slots, this`users, this`accounts, this`next)
    {
      hide Inv, Accounted;
      StepAccounted(Contents(), Op.DeleteApplication(id));
      ReasonsAreExact(Contents(), Op.DeleteApplication(id));
      if id !in applications { return NotFound; }
      r := RemoveDependencies(applications[id], ApplicationKind);
      if r != Done { return; }
      applications := applications - {id};
    }

    method CreateHSMModule(id: Id) returns (r: Result)
      requires Valid()
      modifies this
      ensures Applied(Contents(), r) == Apply(old(Contents()), CreateModule(id))
      ensures Valid()
      ensures ModuleStored(old(Contents()), Contents(), id, r)
    {
      hide Inv, Accounted, ModuleStored;
      ModuleCreation(Contents(), id);
      var internal := NewInternalResourceId();
      if id in modules { return AlreadyExists; }
      modules := modules[id := internal];
      return Done;
    }

    method DeleteHSMModule(id: Id) returns (r: Result)
      requires Valid()
      modifies this
      ensures Applied(Contents(), r) == Apply(old(Contents()), DeleteModule(id))
      ensures Valid()
      ensures r == DeleteResult(old(Contents()), DeleteModule(id))
      ensures r == Done ==> id in old(modules) && modules == old(modules) - {id}
      ensures r != Done ==> modules == old(modules) && entries == old(entries)
      ensures unchanged(this`applications, this`slots, this`users, this`accounts, this`next)
    {
      hide Inv, Accounted;
      StepAccounted(Contents(), DeleteModule(id));
      ReasonsAreExact(Contents(), DeleteModule(id));
      if id !in modules { return NotFound; }
      r := RemoveDependencies(modules[id], ModuleKind);
      if r != Done { return; }
      modules := modules - {id};
    }

    // -------------------------------------------------------------- slots

    method AddApplicationDependency(internal: InternalId, application: Id) returns (r: Result)
      modifies this`entries
      ensures r == if application in applications then Done else PreconditionFailed
      ensures entries == if r == Done
                         then old(entries) + {Entry(internal, SlotKind, applications[application], ApplicationKind)}
                         else old(entries)
    {
      if application !in applications { return PreconditionFailed; }
      var _ := CreateEntry(Entry(internal, SlotKind, applications[application], ApplicationKind));
      return Done;
    }

    method AddHSMModuleDependency(internal: InternalId, hsmModule: Id) returns (r: Result)
      modifies this`entries
      ensures r == if hsmModule in modules then Done else PreconditionFailed
      ensures entries == if r == Done
                         then old(entries) + {Entry(internal, SlotKind, modules[hsmModule], ModuleKind)}
                         else old(entries)
    {
      if hsmModule !in modules { return PreconditionFailed; }
      var _ := CreateEntry(Entry(internal, SlotKind, modules[hsmModule], ModuleKind));
      return Done;
    }

    /** `CreateHSMSlot` behind its transactional decorator: a failure rolls the tables back. */
    method CreateHSMSlot(id: Id, application: Id, hsmModule: Id, slot: Option<Id>, reachable: bool) returns (r: Result)
      requires Valid()
      modifies this
      ensures Applied(Contents(), r)
           == Apply(old(Contents()), Op.CreateSlot(id, application, hsmModule, slot, reachable))
      ensures Valid()
      ensures SlotStored(old(Contents()), Contents(), id, application, hsmModule, slot, reachable, r)
    {
      hide Inv, Accounted, SlotStored, Apply, SlotConflict;
      SlotCreation(Contents(), id, application, hsmModule, slot, reachable);
      if hsmModule !in modules || !reachable { return PreconditionFailed; }
      var slotsBefore, entriesBefore := slots, entries;
      r := CreateSlot(id, application, hsmModule, slot);
      if r != Done {
        slots, entries := slotsBefore, entriesBefore;
      } else {
        assert entries == old(entries) + {Entry(old(next), SlotKind, applications[application], ApplicationKind),
                                          Entry(old(next), SlotKind, modules[hsmModule], ModuleKind)};
      }
    }

    /** `createSlot`: both entries first, the row last. */
    method CreateSlot(id: Id, application: Id, hsmModule: Id, slot: Option<Id>) returns (r: Result)
      requires hsmModule in modules
      modifies this`slots, this`entries, this`next
      ensures next == old(next) + 1
      ensures var row := Slot(old(next), application, hsmModule, slot);
              r == if application !in applications then PreconditionFailed
                   else if SlotConflict(old(slots), id, row) then AlreadyExists else Done
      ensures r == Done ==>
                && slots == old(slots)[id := Slot(old(next), application, hsmModule, slot)]
                && entries == old(entries) + {Entry(old(next), SlotKind, applications[application], ApplicationKind)}
                                           + {Entry(old(next), SlotKind, modules[hsmModule], ModuleKind)}
    {
      var internal := NewInternalResourceId();
      r := AddApplicationDependency(internal, application);
      if r != Done { return; }
      r := AddHSMModuleDependency(internal, hsmModule);
      if r != Done { return; }
      var row := Slot(internal, application, hsmModule, slot);
      if SlotConflict(slots, id, row) { return AlreadyExists; }
      slots := slots[id := row];
    }

    method DeleteHSMSlot(id: Id) returns (r: Result)
      requires Valid()
      modifies this
      ensures Applied(Contents(), r) == Apply(old(Contents()), Op.DeleteSlot(id))
      ensures Valid()
      ensures r == DeleteResult(old(Contents()), Op.DeleteSlot(id))
      ensures r == Done ==> id in old(slots) && slots == old(slots) - {id}
      ensures r != Done ==> slots == old(slots) && entries == old(entries)
      ensures unchanged(this`applications, this`modules, this`users, this`accounts, this`next)
    {
      hide Inv, Accounted;
      StepAccounted(Contents(), Op.DeleteSlot(id));
      ReasonsAreExact(Contents(), Op.DeleteSlot(id));
      if id !in slots { return NotFound; }
      r := RemoveDependencies(slots[id].internal, SlotKind);
      if r != Done { return; }
      slots := slots - {id};
    }

    // -------------------------------------------------------------- users

    method AddUserToApplicationDependency(internal: InternalId, application: Id) returns (r: Result)
      modifies this`entries
      ensures r == if application in applications then Done else PreconditionFailed
      ensures entries == if r == Done
                         then old(entries) + {Entry(internal, UserKind, applications[application], ApplicationKind)}
                         else old(entries)
    {
      if application !in applications { return PreconditionFailed; }
      var _ := CreateEntry(Entry(internal, UserKind, applications[application], ApplicationKind));
      return Done;
    }

    /** `CreateUser`: the entry is written before the row, outside any transaction. */
    method CreateUser(u: UserId, rolesValid: bool) returns (r: Result)
      requires Valid()
      modifies this
      ensures Applied(Contents(), r) == Apply(old(Contents()), Op.CreateUser(u, rolesValid))
      ensures Valid()
      ensures UserStored(old(Contents()), Contents(), u, rolesValid, r)
    {
      hide Inv, Accounted, UserStored, Apply;
      UserCreation(Contents(), u, rolesValid);
      if !rolesValid { return InvalidArgument; }
      var internal := NewInternalResourceId();
      r := AddUserToApplicationDependency(internal, u.application);
      if r != Done { return; }
      if u in users { return AlreadyExists; }
      users := users[u := internal];
    }

    method DeleteUser(u: UserId) returns (r: Result)
      requires Valid()
      modifies this
      ensures Applied(Contents(), r) == Apply(old(Contents()), Op.DeleteUser(u))
      ensures Valid()
      ensures r == DeleteResult(old(Contents()), Op.DeleteUser(u))
      ensures r == Done ==> u in old(users) && users == old(users) - {u}
      ensures r != Done ==> users == old(users) && entries == old(entries)
      ensures unchanged(this`applications, this`modules, this`slots, this`accounts, this`next)
    {
      hide Inv, Accounted;
      StepAccounted(Contents(), Op.DeleteUser(u));
      ReasonsAreExact(Contents(), Op.DeleteUser(u));
      if u !in users { return NotFound; }
      r := RemoveDependencies(users[u], UserKind);
      if r != Done { return; }
      users := users - {u};
    }

    // -------------------------------------------------------------- accounts

    method AddAccountToUserDependency(internal: InternalId, a: AccountId) returns (r: Result)
      modifies this`entries
      ensures r == if UserId(a.application, a.user) in users then Done else PreconditionFailed
      ensures entries == if r == Done then
                           old(entries) + {Entry(internal, AccountKind, users[UserId(a.application, a.user)], UserKind)}
                         else old(entries)
    {
      var u := UserId(a.application, a.user);
      if u !in users { return PreconditionFailed; }
      var _ := CreateEntry(Entry(internal, AccountKind, users[u], UserKind));
      return Done;
    }

    method CreateAccount(a: AccountId) returns (r: Result)
      requires Valid()
      modifies this
      ensures Applied(Contents(), r) == CreateAccountStep(old(Contents()), a)
      ensures Valid()
      ensures AccountStored(old(Contents()), Contents(), a, r)
    {
      hide Inv, Accounted, AccountStored, Apply;
      AccountCreation(Contents(), a);
      var internal := NewInternalResourceId();
      r := AddAccountToUserDependency(internal, a);
      if r != Done { return; }
      if a in accounts { return AlreadyExists; }
      accounts := accounts[a := internal];
    }

    method DeleteAccount(a: AccountId) returns (r: Result)
      requires Valid()
      modifies this
      ensures Applied(Contents(), r) == Apply(old(Contents()), Op.DeleteAccount(a))
      ensures Valid()
      ensures r == DeleteResult(old(Contents()), Op.DeleteAccount(a))
      ensures r == Done ==> a in old(accounts) && accounts == old(accounts) - {a}
      ensures r != Done ==> accounts == old(accounts) && entries == old(entries)
      ensures unchanged(this`applications, this`modules, this`slots, this`users, this`next)
    {
      hide Inv, Accounted;
      StepAccounted(Contents(), Op.DeleteAccount(a));
      ReasonsAreExact(Contents(), Op.DeleteAccount(a));
      if a !in accounts { return NotFound; }
      r := RemoveDependencies(accounts[a], AccountKind);
      if r != Done { return; }
      accounts := accounts - {a};
    }

    method ContainsAddress(items: seq<Id>, address: Id) returns (found: bool)
      ensures found <==> address in items
    {
      for i := 0 to |items|
        invariant address !in items[..i]
      {
        if items[i] == address { return true; }
      }
      return false;
    }

    method AreAddressesValid(items: seq<Id>, addresses: seq<Id>) returns (valid: bool)
      ensures valid == AllKnown(addresses, items)
    {
      for i := 0 to |addresses|
        invariant AllKnown(addresses[..i], items)
      {
        var found := ContainsAddress(items, addresses[i]);
        if !found { return false; }
      }
      return true;
    }

    /** `EnableAccounts`: every address is checked before any account is created; accounts that
        exist already are passed over, and no other failure can occur. */
    method EnableAccounts(u: UserId, addresses: seq<Id>, known: Option<seq<Id>>) returns (r: Result)
      requires Valid()
      modifies this
      ensures Applied(Contents(), r) == Apply(old(Contents()), Op.EnableAccounts(u, addresses, known))
      ensures Valid()
      ensures r == Done <==>
                && addresses != [] && u in old(users) && HasSlot(old(Contents()), u.application) && known.Some?
                && forall a :: a in addresses ==> a in known.value
      ensures r == Done ==> Enabled(old(Contents()), Contents(), u, addresses)
      ensures r != Done ==> Contents() == old(Contents())
    {
      hide Inv, Accounted;
      StepAccounted(Contents(), Op.EnableAccounts(u, addresses, known));
      hide CreateAccountStep, HasSlot, Enabled;
      if addresses == [] { return InvalidArgument; }
      if u !in users { return NotFound; }
      EnableEffect(Contents(), u, addresses);
      if !HasSlot(Contents(), u.application) { return Internal; }
      if known.None? { return Internal; }
      var valid := AreAddressesValid(known.value, addresses);
      if !valid { return PreconditionFailed; }
      var allAdded := true;
      for i := 0 to |addresses|
        invariant Contents() == EnableFrom(old(Contents()), u, addresses[..i])
        invariant Valid() && u in users && allAdded
      {
        assert addresses[..i + 1][..i] == addresses[..i];
        AccountStepOfLiveUser(Contents(), AccountId(u.application, u.id, addresses[i]));
        var created := CreateAccount(AccountId(u.application, u.id, addresses[i]));
        if created != Done && created != AlreadyExists {
          allAdded := false;
        }
      }
      assert addresses[..|addresses|] == addresses;
      return if allAdded then Done else Internal;
    }

    /** `DeleteAllAccountsForAddress`: rows only, the integrity entries are not touched. */
    method DeleteAllAccountsForAddress(application: Id, address: Id, hsm: HsmRemoval) returns (r: Result)
      requires Valid()
      modifies this
      ensures Applied(Contents(), r) == Apply(old(Contents()), DeleteAllAccounts(application, address, hsm))
      ensures Valid()
      ensures r != Done ==> accounts == old(accounts)
      ensures r == Done ==> forall a ::
                a in accounts <==> a in old(accounts) && !(a.application == application && a.address == address)
      ensures forall a :: a in accounts ==> a in old(accounts) && accounts[a] == old(accounts)[a]
      ensures unchanged(this`applications, this`modules, this`slots, this`users, this`entries, this`next)
    {
      hide Inv, Accounted;
      StepAccounted(Contents(), DeleteAllAccounts(application, address, hsm));
      if !HasSlot(Contents(), application) || hsm.RemovalFailed? { return Internal; }
      if hsm.KeyMissing? { return NotFound; }
      accounts := WithoutAddress(accounts, application, address);
      return Done;
    }
  }

  lemma AccountStepOfLiveUser(s: State, a: AccountId)
    requires UserId(a.application, a.user) in s.users
    ensures CreateAccountStep(s, a).state.users == s.users
    ensures CreateAccountStep(s, a).result == Done || CreateAccountStep(s, a).result == AlreadyExists
  {
  }
}
