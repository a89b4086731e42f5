/** Nested transactions: one storage transaction owned by the outermost call, after-commit
    callbacks, and the handling of errors and panics on every path. */
module TransactionalManager {
  import opened Wrappers

  type Store = map<nat, int>

  /** A transactional function as far as the manager can see it: the writes and registrations
      it performs, the nested calls it makes, and how it ends. It may decide by what it reads
      from the open transaction, and by what a nested call returned: a response, nothing, or
      a failure. */
  datatype Op =
    | Write(key: nat, val: int)
    | Register(callback: nat)
    | Choose(test: Store -> bool, yes: seq<Op>, no: seq<Op>)
    | Nested(body: Body, onResponse: seq<Op>, onNothing: seq<Op>, onFailure: seq<Op>)
    | Fail
    | Panic

  datatype Body = Body(ops: seq<Op>, response: nat)

  datatype End = Done | Failed | Panicked

  // ---------------------------------------------------------------- one flat transaction

  /** What a body amounts to without any nesting. */
  datatype Trace = Trace(writes: seq<(nat, int)>, callbacks: seq<nat>, end: End)

  function Then(a: Trace, b: Trace): Trace {
    if a.end == Done then Trace(a.writes + b.writes, a.callbacks + b.callbacks, b.end) else a
  }

  /** How the caller of a nested call goes on. A nested panic is recovered and returned as
      success without a response. */
  function Continuation(op: Op, end: End): seq<Op>
    requires op.Nested?
  {
    match end
    case Done => op.onResponse
    case Panicked => op.onNothing
    case Failed => op.onFailure
  }

  function FlatOp(s: Store, op: Op): Trace
    decreases op
  {
    match op
    case Write(k, v) => Trace([(k, v)], [], Done)
    case Register(cb) => Trace([], [cb], Done)
    case Fail => Trace([], [], Failed)
    case Panic => Trace([], [], Panicked)
    case Choose(test, yes, no) => Flat(s, if test(s) then yes else no)
    case Nested(body, _, _, _) =>
      var t := Flat(s, body.ops);
      Then(t.(end := Done), Flat(Apply(s, t.writes), Continuation(op, t.end)))
  }

  function Flat(s: Store, ops: seq<Op>): Trace
    decreases ops
  {
    if ops == [] then Trace([], [], Done)
    else
      var t := FlatOp(s, ops[0]);
      Then(t, Flat(Apply(s, t.writes), ops[1..]))
  }

  function Apply(s: Store, writes: seq<(nat, int)>): Store
    decreases writes
  {
    if writes == [] then s else Apply(s[writes[0].0 := writes[0].1], writes[1..])
  }

  lemma {:induction false} ApplyAppend(s: Store, a: seq<(nat, int)>, b: seq<(nat, int)>)
    ensures Apply(s, a + b) == Apply(Apply(s, a), b)
    decreases a
  {
    if a == [] {
      assert a + b == b;
    } else {
      assert (a + b)[1..] == a[1..] + b;
      ApplyAppend(s[a[0].0 := a[0].1], a[1..], b);
    }
  }

  lemma ThenAssociative(a: Trace, b: Trace, c: Trace)
    ensures Then(Then(a, b), c) == Then(a, Then(b, c))
  {
  }

  lemma ThenNothing(t: Trace)
    ensures Then(Trace([], [], Done), t) == t
    ensures Then(t, Trace([], [], Done)) == t
  {
    assert [] + t.writes == t.writes && [] + t.callbacks == t.callbacks;
    assert t.writes + [] == t.writes && t.callbacks + [] == t.callbacks;
  }

  /** Bodies one after the other: the second starts from what the first has written. */
  lemma {:induction false} FlatAppend(s: Store, a: seq<Op>, b: seq<Op>)
    ensures Flat(s, a + b) == Then(Flat(s, a), Flat(Apply(s, Flat(s, a).writes), b))
    decreases a
  {
    hide FlatOp;
    if a == [] {
      assert a + b == b;
      ThenNothing(Flat(s, b));
    } else {
      assert (a + b)[1..] == a[1..] + b;
      var t := FlatOp(s, a[0]);
      var next := Apply(s, t.writes);
      FlatAppend(next, a[1..], b);
      ApplyAppend(s, t.writes, Flat(next, a[1..]).writes);
      ThenAssociative(t, Flat(next, a[1..]), Flat(Apply(s, Flat(s, a).writes), b));
    }
  }

  lemma FlatOne(s: Store, op: Op)
    ensures Flat(s, [op]) == FlatOp(s, op)
  {
    hide FlatOp;
    assert [op][1..] == [];
    ThenNothing(FlatOp(s, op));
  }

  /** Equal pieces in the middle of a body may be exchanged. */
  lemma SameMiddle(s: Store, before: seq<Op>, m: seq<Op>, l: seq<Op>, after: seq<Op>)
    requires forall x :: Flat(x, m) == Flat(x, l)
    ensures Flat(s, before + m + after) == Flat(s, before + l + after)
  {
    hide Flat, Then;
    FlatAppend(s, before + m, after);
    FlatAppend(s, before, m);
    FlatAppend(s, before + l, after);
    FlatAppend(s, before, l);
  }

  /** Nesting is transparent: a panic-free nested call whose failure is passed on is the same
      as its operations, and what the caller does with the response, in place of the call. */
  lemma NestedIsInlined(s: Store, before: seq<Op>, body: Body, next: seq<Op>, nothing: seq<Op>, after: seq<Op>)
    requires forall x :: Flat(x, body.ops).end != Panicked
    ensures Flat(s, before + [Nested(body, next, nothing, [Fail])] + after)
         == Flat(s, before + (body.ops + next) + after)
  {
    var nested := Nested(body, next, nothing, [Fail]);
    forall x: Store ensures Flat(x, [nested]) == Flat(x, body.ops + next) {
      TransparentOp(x, body, next, nothing);
    }
    SameMiddle(s, before, [nested], body.ops + next, after);
  }

  /** A decision that always falls the same way is the branch it takes. */
  lemma ChoiceIsBranch(
      s: Store, before: seq<Op>, test: Store -> bool, yes: seq<Op>, no: seq<Op>, after: seq<Op>, taken: bool)
    requires forall x :: test(x) == taken
    ensures Flat(s, before + [Choose(test, yes, no)] + after)
         == Flat(s, before + (if taken then yes else no) + after)
  {
    forall x: Store ensures Flat(x, [Choose(test, yes, no)]) == Flat(x, if taken then yes else no) {
      FlatOne(x, Choose(test, yes, no));
    }
    SameMiddle(s, before, [Choose(test, yes, no)], if taken then yes else no, after);
  }

  lemma TransparentOp(s: Store, body: Body, next: seq<Op>, nothing: seq<Op>)
    requires Flat(s, body.ops).end != Panicked
    ensures Flat(s, [Nested(body, next, nothing, [Fail])]) == Flat(s, body.ops + next)
  {
    var t := Flat(s, body.ops);
    FlatOne(s, Nested(body, next, nothing, [Fail]));
    FlatAppend(s, body.ops, next);
    FlatOne(Apply(s, t.writes), Fail);
    assert t.writes + [] == t.writes && t.callbacks + [] == t.callbacks;
  }

  /** A panic inside a nested call is lost: the caller goes on without a response, and what the
      nested call had written and registered up to the panic stays part of the transaction. */
  lemma NestedPanicIsSuccess(
      s: Store, before: seq<Op>, done: seq<Op>, lost: seq<Op>, response: nat,
      next: seq<Op>, nothing: seq<Op>, failure: seq<Op>, after: seq<Op>)
    requires forall x :: Flat(x, done).end == Done
    ensures Flat(s, before + [Nested(Body(done + [Panic] + lost, response), next, nothing, failure)] + after)
         == Flat(s, before + (done + nothing) + after)
  {
    var nested := Nested(Body(done + [Panic] + lost, response), next, nothing, failure);
    forall x: Store ensures Flat(x, [nested]) == Flat(x, done + nothing) {
      PanickingOp(x, done, lost, response, next, nothing, failure);
    }
    SameMiddle(s, before, [nested], done + nothing, after);
  }

  lemma PanickingOp(
      s: Store, done: seq<Op>, lost: seq<Op>, response: nat, next: seq<Op>, nothing: seq<Op>, failure: seq<Op>)
    requires Flat(s, done).end == Done
    ensures Flat(s, [Nested(Body(done + [Panic] + lost, response), next, nothing, failure)])
         == Flat(s, done + nothing)
  {
    var t := Flat(s, done);
    FlatAppend(s, done + [Panic], lost);
    FlatAppend(s, done, [Panic]);
    FlatOne(Apply(s, t.writes), Panic);
    FlatOne(s, Nested(Body(done + [Panic] + lost, response), next, nothing, failure));
    FlatAppend(s, done, nothing);
    assert t.writes + [] == t.writes && t.callbacks + [] == t.callbacks;
  }

  // ---------------------------------------------------------------- storage

  datatype Event = BeginTried | CommitTried | RollbackTried | Ran(callback: nat)

  datatype CallbackEnd = Completed | Returned | Raised

  /** Which of the foreign calls fail. */
  datatype Faults = Faults(begin: bool, commit: bool, rollback: bool, callbacks: map<nat, CallbackEnd>)

  function CallbackResult(f: Faults, cb: nat): CallbackEnd {
    if cb in f.callbacks then f.callbacks[cb] else Completed
  }

  /** The database: committed state, the working copy of an open transaction, and every
      attempt made on it. */
  class TransactionalStorage {
    var committed: Store
    var working: Option<Store>
    var log: seq<Event>

    constructor (initial: Store)
      ensures committed == initial && working == None && log == []
    {
      committed, working, log := initial, None, [];
    }

    method BeginTransaction(f: Faults) returns (ok: bool)
      requires working.None?
      modifies this
      ensures committed == old(committed) && log == old(log) + [BeginTried] && ok == !f.begin
      ensures working == if ok then Some(committed) else None
    {
      log := log + [BeginTried];
      if f.begin { return false; }
      working := Some(committed);
      return true;
    }

    /** Fails on a closed transaction; an open one is closed in any case. */
    method CommitTransaction(f: Faults) returns (ok: bool)
      modifies this
      ensures log == old(log) + [CommitTried] && working == None
      ensures ok == (old(working).Some? && !f.commit)
      ensures committed == if ok then old(working).value else old(committed)
    {
      log := log + [CommitTried];
      ok := working.Some? && !f.commit;
      if ok { committed := working.value; }
      working := None;
    }

    method RollbackTransaction(f: Faults) returns (ok: bool)
      modifies this
      ensures log == old(log) + [RollbackTried] && working == None && committed == old(committed)
      ensures ok == (old(working).Some? && !f.rollback)
    {
      log := log + [RollbackTried];
      ok := working.Some? && !f.rollback;
      working := None;
    }
  }

  /** The callback registry of one transaction, shared by reference through the context. */
  class AfterCommitCallbacks {
    var callbacks: seq<nat>

    constructor ()
      ensures callbacks == []
    {
      callbacks := [];
    }

    method Add(cb: nat)
      modifies this
      ensures callbacks == old(callbacks) + [cb]
    {
      callbacks := callbacks + [cb];
    }
  }

  // ---------------------------------------------------------------- manager

  datatype Reason = BodyFailed | BeginFailed | CommitFailed | RolledBack | RollbackFailed | CallbackFailed

  datatype Outcome = Success(response: Option<nat>) | Failure(reason: Reason)

  /** The callbacks started: registration order, up to and including the first that fails. */
  function Started(f: Faults, cbs: seq<nat>): seq<nat> {
    if cbs == [] then []
    else if CallbackResult(f, cbs[0]) != Completed then [cbs[0]]
    else [cbs[0]] + Started(f, cbs[1..])
  }

  /** Callbacks start in registration order, every one but the last completes, and the
      registered ones are all started unless the last one started failed. */
  lemma {:induction false} StartedIsPrefix(f: Faults, cbs: seq<nat>)
    ensures Started(f, cbs) <= cbs
    ensures forall i :: 0 <= i < |Started(f, cbs)| - 1 ==> CallbackResult(f, Started(f, cbs)[i]) == Completed
    ensures CallbacksEnd(f, cbs) == Completed ==> Started(f, cbs) == cbs
    ensures CallbacksEnd(f, cbs) != Completed ==>
              Started(f, cbs) != []
              && CallbackResult(f, Started(f, cbs)[|Started(f, cbs)| - 1]) == CallbacksEnd(f, cbs)
  {
    if cbs != [] && CallbackResult(f, cbs[0]) == Completed {
      StartedIsPrefix(f, cbs[1..]);
      assert cbs == [cbs[0]] + cbs[1..];
    }
  }

  function Runs(cbs: seq<nat>): seq<Event> {
    seq(|cbs|, i requires 0 <= i < |cbs| => Ran(cbs[i]))
  }

  /** How the last started callback ended. */
  function CallbacksEnd(f: Faults, cbs: seq<nat>): CallbackEnd {
    if cbs == [] then Completed
    else if CallbackResult(f, cbs[0]) != Completed then CallbackResult(f, cbs[0])
    else CallbacksEnd(f, cbs[1..])
  }

  /** Everything an outermost call attempts on the storage, in order. */
  function Attempts(f: Faults, t: Trace): seq<Event> {
    if f.begin then [BeginTried]
    else if t.end != Done then [BeginTried, RollbackTried]
    else if f.commit then [BeginTried, CommitTried]
    else [BeginTried, CommitTried] + Runs(Started(f, t.callbacks))
         + (if CallbacksEnd(f, t.callbacks) == Raised then [RollbackTried] else [])
  }

  function NestedOutcome(t: Trace, response: nat): Outcome {
    match t.end
    case Done => Success(Some(response))
    case Failed => Failure(BodyFailed)
    case Panicked => Success(None)
  }

  /** The one condition under which anything is stored. */
  predicate Commits(f: Faults, t: Trace) {
    !f.begin && t.end == Done && !f.commit
  }

  function OutermostOutcome(f: Faults, t: Trace, response: nat): Outcome {
    if f.begin then Failure(BeginFailed)
    else match t.end
         case Failed => Failure(BodyFailed)
         case Panicked => Failure(if f.rollback then RollbackFailed else RolledBack)
         case Done =>
           if f.commit then Failure(CommitFailed)
           else match CallbacksEnd(f, t.callbacks)
                case Completed => Success(Some(response))
                case Returned => Failure(CallbackFailed)
                case Raised => Failure(RollbackFailed)
  }

  // ---------------------------------------------------------------- the log, event by event

  /** What an outermost call adds to the log, said without building it. One begin, in front; if
      it began, a commit next exactly when the body is done, and a rollback otherwise; callbacks
      only behind a commit that succeeded; a rollback behind a commit only at the end, after a
      callback that raised. */
  ghost predicate Ordered(log: seq<Event>, f: Faults, end: End) {
    && log != [] && log[0] == BeginTried
    && (f.begin ==> |log| == 1)
    && (!f.begin ==> |log| >= 2 && log[1] == if end == Done then CommitTried else RollbackTried)
    && (forall i :: 1 <= i < |log| ==> log[i] != BeginTried)
    && (forall i :: 2 <= i < |log| ==> log[i] != CommitTried)
    && (forall i :: 0 <= i < |log| && log[i].Ran? ==>
          i >= 2 && log[1] == CommitTried && !f.begin && end == Done && !f.commit)
    && (forall i :: 2 <= i < |log| && log[i] == RollbackTried ==>
          && i == |log| - 1 && i >= 3 && log[i - 1].Ran?
          && CallbackResult(f, log[i - 1].callback) == Raised)
    && (end != Done && !f.begin ==> |log| == 2)
  }

  /** The first n registered callbacks ran, right behind the commit, and no others; all but
      the last of them completed, and that one too if there was another to follow. */
  predicate RanFirst(log: seq<Event>, f: Faults, cbs: seq<nat>, n: nat) {
    && n <= |cbs| && |log| >= 2 + n
    && (forall i :: 0 <= i < n ==> log[2 + i] == Ran(cbs[i]))
    && (forall i :: 2 + n <= i < |log| ==> !log[i].Ran?)
    && (forall i :: 0 <= i < n - 1 ==> CallbackResult(f, cbs[i]) == Completed)
    && (n == |cbs| || (n > 0 && CallbackResult(f, cbs[n - 1]) != Completed))
  }

  ghost predicate RanInOrder(log: seq<Event>, f: Faults, cbs: seq<nat>) {
    exists n: nat :: RanFirst(log, f, cbs, n)
  }

  /** The four shapes the log can have. */
  lemma AttemptsShape(f: Faults, t: Trace)
    ensures f.begin ==> Attempts(f, t) == [BeginTried]
    ensures !f.begin && t.end != Done ==> Attempts(f, t) == [BeginTried, RollbackTried]
    ensures !f.begin && t.end == Done && f.commit ==> Attempts(f, t) == [BeginTried, CommitTried]
    ensures !f.begin && t.end == Done && !f.commit ==>
              var log, n := Attempts(f, t), |Started(f, t.callbacks)|;
              && log[..2] == [BeginTried, CommitTried]
              && |log| == 2 + n + (if CallbacksEnd(f, t.callbacks) == Raised then 1 else 0)
              && (forall i :: 0 <= i < n ==> log[2 + i] == Ran(Started(f, t.callbacks)[i]))
              && (CallbacksEnd(f, t.callbacks) == Raised ==> log[2 + n] == RollbackTried)
  {
    hide Started, CallbacksEnd;
  }

  lemma AttemptsOrdered(f: Faults, t: Trace)
    ensures Ordered(Attempts(f, t), f, t.end)
  {
    hide Attempts, Started, CallbacksEnd, CallbackResult;
    AttemptsShape(f, t);
    StartedIsPrefix(f, t.callbacks);
    var log := Attempts(f, t);
    if !f.begin && t.end == Done && !f.commit {
      var n := |Started(f, t.callbacks)|;
      assert log[0] == log[..2][0] && log[1] == log[..2][1];
      forall i | 2 <= i < 2 + n ensures log[i] == Ran(Started(f, t.callbacks)[i - 2]) {
        assert log[2 + (i - 2)] == Ran(Started(f, t.callbacks)[i - 2]);
      }
    }
  }

  lemma AttemptsRanInOrder(f: Faults, t: Trace)
    requires !f.begin && t.end == Done && !f.commit
    ensures RanInOrder(Attempts(f, t), f, t.callbacks)
  {
    hide Attempts, Started, CallbacksEnd, CallbackResult;
    AttemptsShape(f, t);
    StartedIsPrefix(f, t.callbacks);
    var started := Started(f, t.callbacks);
    assert forall i :: 0 <= i < |started| ==> started[i] == t.callbacks[i];
    assert RanFirst(Attempts(f, t), f, t.callbacks, |started|);
  }

  /** Writes take effect in order: the last one decides its key and leaves all others. */
  lemma LastWriteWins(s: Store, writes: seq<(nat, int)>, key: nat, val: int, other: nat)
    ensures key in Apply(s, writes + [(key, val)]) && Apply(s, writes + [(key, val)])[key] == val
    ensures other != key ==>
              && (other in Apply(s, writes + [(key, val)]) <==> other in Apply(s, writes))
              && (other in Apply(s, writes) ==> Apply(s, writes + [(key, val)])[other] == Apply(s, writes)[other])
    ensures Apply(s, []) == s
  {
    ApplyAppend(s, writes, [(key, val)]);
    ApplyOne(Apply(s, writes), key, val);
  }

  lemma ApplyOne(s: Store, key: nat, val: int)
    ensures Apply(s, [(key, val)]) == s[key := val]
  {
    assert [(key, val)][1..] == [];
  }

  /** What an outermost call answers: success exactly when everything went well, with the
      response of the body, and otherwise the first thing that did not. */
  lemma OutcomeExactly(f: Faults, t: Trace, response: nat)
    ensures OutermostOutcome(f, t, response).Success? <==>
              !f.begin && t.end == Done && !f.commit
              && forall i :: 0 <= i < |t.callbacks| ==> CallbackResult(f, t.callbacks[i]) == Completed
    ensures OutermostOutcome(f, t, response).Success? ==> OutermostOutcome(f, t, response).response == Some(response)
    ensures OutermostOutcome(f, t, response) == Failure(BeginFailed) <==> f.begin
    ensures OutermostOutcome(f, t, response) == Failure(BodyFailed) <==> !f.begin && t.end == Failed
    ensures OutermostOutcome(f, t, response) == Failure(CommitFailed) <==> !f.begin && t.end == Done && f.commit
    ensures OutermostOutcome(f, t, response) == Failure(RolledBack) <==> !f.begin && t.end == Panicked && !f.rollback
  {
    CompletedExactly(f, t.callbacks);
  }

  lemma {:induction false} CompletedExactly(f: Faults, cbs: seq<nat>)
    ensures CallbacksEnd(f, cbs) == Completed <==>
              forall i :: 0 <= i < |cbs| ==> CallbackResult(f, cbs[i]) == Completed
  {
    if cbs != [] {
      CompletedExactly(f, cbs[1..]);
      assert cbs == [cbs[0]] + cbs[1..];
    }
  }

  class TransactionalManager {
    const storage: TransactionalStorage

    constructor (storage: TransactionalStorage)
      ensures this.storage == storage
    {
      this.storage := storage;
    }

    /** `RegisterAfterCommitIfTransactionInProgress`: refused outside a transaction. */
    method RegisterAfterCommit(holder: AfterCommitCallbacks?, cb: nat) returns (registered: bool)
      modifies holder
      ensures registered == (holder != null)
      ensures holder != null ==> holder.callbacks == old(holder.callbacks) + [cb]
    {
      if holder == null { return false; }
      holder.Add(cb);
      return true;
    }

    /** The transactional function at work inside an open transaction. */
    method RunBody(holder: AfterCommitCallbacks, ops: seq<Op>, f: Faults) returns (end: End)
      requires storage.working.Some?
      modifies storage, holder
      ensures end == Flat(old(storage.working).value, ops).end
      ensures storage.working
           == Some(Apply(old(storage.working).value, Flat(old(storage.working).value, ops).writes))
      ensures holder.callbacks == old(holder.callbacks) + Flat(old(storage.working).value, ops).callbacks
      ensures storage.committed == old(storage.committed) && storage.log == old(storage.log)
      decreases ops
    {
      hide FlatOp;
      if ops == [] { return Done; }
      ghost var s := storage.working.value;
      ghost var t := FlatOp(s, ops[0]);
      end := RunOp(holder, ops[0], f);
      if end == Done {
        ApplyAppend(s, t.writes, Flat(Apply(s, t.writes), ops[1..]).writes);
        end := RunBody(holder, ops[1..], f);
      }
    }

    method RunOp(holder: AfterCommitCallbacks, op: Op, f: Faults) returns (end: End)
      requires storage.working.Some?
      modifies storage, holder
      ensures end == FlatOp(old(storage.working).value, op).end
      ensures storage.working
           == Some(Apply(old(storage.working).value, FlatOp(old(storage.working).value, op).writes))
      ensures holder.callbacks == old(holder.callbacks) + FlatOp(old(storage.working).value, op).callbacks
      ensures storage.committed == old(storage.committed) && storage.log == old(storage.log)
      decreases op
    {
      hide Flat;
      end := Done;
      ghost var s := storage.working.value;
      match op {
        case Write(k, v) =>
          assert Apply(s, [(k, v)]) == Apply(s[k := v], []);
          storage.working := Some(storage.working.value[k := v]);
        case Register(cb) => var _ := RegisterAfterCommit(holder, cb);
        case Fail => end := Failed;
        case Panic => end := Panicked;
        case Choose(test, yes, no) =>
          if test(storage.working.value) { end := RunBody(holder, yes, f); } else { end := RunBody(holder, no, f); }
        case Nested(body, onResponse, onNothing, onFailure) =>
          var r := ExecuteInTransaction(holder, body, f);
          ghost var t := Flat(s, body.ops);
          ApplyAppend(s, t.writes, Flat(Apply(s, t.writes), Continuation(op, t.end)).writes);
          match r {
            case Success(Some(_)) => end := RunBody(holder, onResponse, f);
            case Success(None) => end := RunBody(holder, onNothing, f);
            case Failure(_) => end := RunBody(holder, onFailure, f);
          }
      }
    }

    /** `ExecuteInTransaction`. The context carries the callback registry of the transaction in
        progress, if there is one. A nested call neither commits nor rolls back, and its panic
        comes back as success without a response. The outermost call refines one flat
        transaction: the store ends as the flat write sequence if body and commit succeed and
        as it began otherwise, with the stated attempts, callbacks only behind the commit. */
    method ExecuteInTransaction(context: AfterCommitCallbacks?, body: Body, f: Faults) returns (r: Outcome)
      requires context == null <==> storage.working.None?
      modifies storage, context
      ensures context != null ==>
                match Flat(old(storage.working).value, body.ops).end
                case Done => r == Success(Some(body.response))
                case Failed => r == Failure(BodyFailed)
                case Panicked => r == Success(None)
      ensures context != null ==>
                && r == NestedOutcome(Flat(old(storage.working).value, body.ops), body.response)
                && storage.working
                     == Some(Apply(old(storage.working).value, Flat(old(storage.working).value, body.ops).writes))
                && context.callbacks == old(context.callbacks) + Flat(old(storage.working).value, body.ops).callbacks
                && storage.committed == old(storage.committed) && storage.log == old(storage.log)
      ensures context == null ==>
                && r == OutermostOutcome(f, Flat(old(storage.committed), body.ops), body.response)
                && storage.committed
                     == (if Commits(f, Flat(old(storage.committed), body.ops))
                         then Apply(old(storage.committed), Flat(old(storage.committed), body.ops).writes)
                         else old(storage.committed))
                && storage.working.None?
                && storage.log == old(storage.log) + Attempts(f, Flat(old(storage.committed), body.ops))
                && Ordered(storage.log[|old(storage.log)|..], f, Flat(old(storage.committed), body.ops).end)
                && (!f.begin && Flat(old(storage.committed), body.ops).end == Done && !f.commit ==>
                      RanInOrder(storage.log[|old(storage.log)|..], f,
                                 Flat(old(storage.committed), body.ops).callbacks))
                && (storage.committed != old(storage.committed) ==>
                      !f.begin && Flat(old(storage.committed), body.ops).end == Done && !f.commit)
      decreases body
    {
      hide Apply, Flat, Ordered, RanInOrder;
      ghost var flat := Flat(storage.committed, body.ops);
      AttemptsOrdered(f, flat);
      if !f.begin && flat.end == Done && !f.commit { AttemptsRanInOrder(f, flat); }
      var ongoingTransaction := storage.working.Some?;
      var holder: AfterCommitCallbacks;
      if ongoingTransaction {
        holder := context;
      } else {
        var began := storage.BeginTransaction(f);
        if !began { return Failure(BeginFailed); }
        holder := new AfterCommitCallbacks();
      }
      var end := RunBody(holder, body.ops, f);
      if end == Panicked {
        if ongoingTransaction { return Success(None); }
        var rolledBack := storage.RollbackTransaction(f);
        return Failure(if rolledBack then RolledBack else RollbackFailed);
      }
      if end == Failed {
        if ongoingTransaction { return Failure(BodyFailed); }
        var _ := storage.RollbackTransaction(f);
        return Failure(BodyFailed);
      }
      if !ongoingTransaction {
        var committed := storage.CommitTransaction(f);
        if !committed { return Failure(CommitFailed); }
        assert holder.callbacks == Flat(old(storage.committed), body.ops).callbacks;
        var ended := RunCallbacks(holder.callbacks, f);
        if ended == Returned { return Failure(CallbackFailed); }
        if ended == Raised {
          // the deferred recovery rolls back, which a committed transaction refuses
          var rolledBack := storage.RollbackTransaction(f);
          return Failure(if rolledBack then RolledBack else RollbackFailed);
        }
      }
      return Success(Some(body.response));
    }

    /** The loop over the snapshot of registered callbacks. */
    method RunCallbacks(snapshot: seq<nat>, f: Faults) returns (end: CallbackEnd)
      modifies storage
      ensures storage.log == old(storage.log) + Runs(Started(f, snapshot))
      ensures end == CallbacksEnd(f, snapshot)
      ensures storage.committed == old(storage.committed) && storage.working == old(storage.working)
    {
      var i := 0;
      while i < |snapshot|
        invariant i <= |snapshot|
        invariant storage.log + Runs(Started(f, snapshot[i..])) == old(storage.log) + Runs(Started(f, snapshot))
        invariant CallbacksEnd(f, snapshot) == CallbacksEnd(f, snapshot[i..])
        invariant storage.committed == old(storage.committed) && storage.working == old(storage.working)
      {
        var cb := snapshot[i];
        ghost var rest := Started(f, snapshot[i + 1..]);
        assert snapshot[i..][1..] == snapshot[i + 1..];
        assert Runs([cb] + rest) == [Ran(cb)] + Runs(rest);
        assert Runs([cb]) == [Ran(cb)];
        storage.log := storage.log + [Ran(cb)];
        var result := CallbackResult(f, cb);
        if result != Completed { return result; }
        i := i + 1;
      }
      end := Completed;
    }
  }
}
