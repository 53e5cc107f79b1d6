/**
 The generic reconcile pass: add the cleanup finalizer, suspend, create, delete and release the finalizer.

 The API server is a store holding one named object, which may be deleted for good and created again. Users
 edit the store between passes and also while a pass is running, that is, after its Get and before its write.
 */
module Lifecycle {
  import opened Options
  import opened Conditions

  const CLEANUP := "greenhouse.sap/cleanup"
  const SUSPEND := "greenhouse.sap/suspend"
  const RECONCILE := "greenhouse.sap/reconcile"
  const READY := "Ready"
  const DELETE := "Delete"
  const SUSPENDED := "Suspended"

  datatype Status = Status(conditions: seq<Condition>, lastReconciledAt: string)

  /** A stored object. Uids and resource versions are drawn from one counter of the store. */
  datatype Object = Object(
    uid: nat, version: nat, deleting: bool, finalizers: seq<string>, annotations: map<string, string>, status: Status)

  datatype Store = Store(obj: Option<Object>, next: nat)

  /** What the pass asks of the object's type. */
  datatype Kind = Kind(canBeSuspended: bool, setsLastReconciledAt: bool)

  predicate HasCleanup(o: Object) {
    CLEANUP in o.finalizers
  }

  predicate IsDeleted(cs: seq<Condition>) {
    match Lookup(cs, DELETE)
    case None => false
    case Some(c) => c.IsTrue() && c.reason == "Deleted"
  }

  predicate Suspended(kind: Kind, o: Object) {
    SUSPEND in o.annotations && kind.canBeSuspended
  }

  // --- the API server ---

  /** Stores a new state of the object; one that is being deleted goes away with its last finalizer. */
  function Write(s: Store, o: Object): Store {
    if o.deleting && o.finalizers == [] then Store(None, s.next + 1)
    else Store(Some(o.(version := s.next)), s.next + 1)
  }

  function Without(fs: seq<string>, f: string): (r: seq<string>)
    ensures f !in r && forall g :: g != f ==> (g in r <==> g in fs)
  {
    if fs == [] then []
    else if fs[0] == f then Without(fs[1..], f)
    else [fs[0]] + Without(fs[1..], f)
  }

  datatype Edit =
    | Create(finalizers: seq<string>, annotations: map<string, string>)
    | Annotate(annotations: map<string, string>)
    | RequestDeletion
    | AddFinalizer(f: string)
    | DropFinalizer(f: string)
    | WriteCondition(e: Event)

  function ApplyEdit(s: Store, e: Edit): Store {
    match s.obj
    case None =>
      if e.Create? then
        Store(Some(Object(s.next, s.next, false, e.finalizers, e.annotations, Status([], ""))), s.next + 1)
      else s
    case Some(o) =>
      match e
      case Create(_, _) => s
      case Annotate(a) => Write(s, o.(annotations := a))
      case RequestDeletion => Write(s, o.(deleting := true))
      case AddFinalizer(f) =>
        if o.deleting || f in o.finalizers then s else Write(s, o.(finalizers := o.finalizers + [f]))
      case DropFinalizer(f) => Write(s, o.(finalizers := Without(o.finalizers, f)))
      case WriteCondition(ev) =>
        Write(s, o.(status := o.status.(conditions := Step(o.status.conditions, ev))))
  }

  function ApplyEdits(s: Store, es: seq<Edit>): Store {
    if es == [] then s else ApplyEdit(ApplyEdits(s, es[..|es| - 1]), es[|es| - 1])
  }

  /** An update of the finalizers of the object read as `base`; refused when the stored object is not that version. */
  function Update(s: Store, base: Object, finalizers: seq<string>, ok: bool): (r: (Store, bool)) {
    if ok && s.obj.Some? && s.obj.value.version == base.version
    then (Write(s, base.(finalizers := finalizers, status := s.obj.value.status)), true)
    else (s, false)
  }

  /**
   A JSON merge patch of the status, taken against the copy `base`: a field equal to the one of `base` is not
   sent, a condition list that differs replaces the stored list as a whole. It carries neither uid nor version.
   */
  function PatchStatus(s: Store, base: Object, status: Status, ok: bool): (r: (Store, bool)) {
    if ok && s.obj.Some? then
      var o := s.obj.value;
      (Write(s, o.(status := MergePatch(o.status, base.status, status))), true)
    else (s, false)
  }

  function MergePatch(stored: Status, base: Status, status: Status): Status {
    Status(
      if status.conditions == base.conditions then stored.conditions else status.conditions,
      if status.lastReconciledAt == base.lastReconciledAt then stored.lastReconciledAt else status.lastReconciledAt)
  }

  // --- one pass ---

  /** A controller's answer; any string other than the first two counts as pending. */
  datatype Verdict = Success | Failed | Pending

  /**
   What a pass meets: whether the Get and the final write succeed, what the controller's callback returns, the
   conditions the callback (and the status function, if there is one) writes, the clock, and the user edits
   that happen while the pass runs.
   */
  datatype Input = Input(
    getOk: bool, verdict: Verdict, err: Option<string>, statusFunc: bool, writes: seq<Event>,
    t0: Time, t1: Time, during: seq<Edit>, writeOk: bool)

  datatype Call = NoCall | EnsureSuspended | EnsureCreated | EnsureDeleted(verdict: Verdict)

  datatype Failure = NoError | ApiError | CallbackError(message: string)

  /** What a pass did: the object it read, the callback it made, whether its write was persisted, its error. */
  datatype Report = Report(seen: Option<Object>, call: Call, persisted: bool, err: Failure)

  datatype Outcome = Outcome(store: Store, report: Report)

  function Message(err: Option<string>): string {
    if err.Some? then err.value else ""
  }

  function SuspendState(err: Option<string>, now: Time): Condition {
    if err.Some? then FalseCondition(SUSPENDED, "ResourceSuspensionFailed", "failed to suspend resource: " + err.value, now)
    else TrueCondition(SUSPENDED, "ResourceSuspended", "resource is suspended", now)
  }

  function DeleteState(v: Verdict, err: Option<string>, now: Time): Condition {
    match v
    case Success => TrueCondition(DELETE, "Deleted", "resource is successfully deleted", now)
    case Failed => FalseCondition(DELETE, "FailingDeletion", "resource deletion failed: " + Message(err), now)
    case Pending => FalseCondition(DELETE, "PendingDeletion", "resource deletion is pending", now)
  }

  function CreateState(v: Verdict, err: Option<string>, now: Time): Condition {
    match v
    case Success => TrueCondition(READY, "Created", "resource is successfully created", now)
    case Failed => FalseCondition(READY, "FailingCreation", "resource creation failed" + Message(err), now)
    case Pending => UnknownCondition(READY, "PendingCreation", "resource creation is pending", now)
  }

  function AfterSuspend(o: Object, i: Input): Status {
    o.status.(conditions := SetOne(RunFrom(o.status.conditions, i.writes), SuspendState(i.err, i.t0), i.t0))
  }

  function AfterDelete(kind: Kind, o: Object, i: Input): Status {
    var pending := SetOne(o.status.conditions, DeleteState(Pending, None, i.t0), i.t0);
    var conditions := SetOne(RunFrom(pending, i.writes), DeleteState(i.verdict, i.err, i.t1), i.t1);
    Status(conditions, ReconciledAt(kind, o))
  }

  function AfterCreate(kind: Kind, o: Object, i: Input): Status {
    var written := RunFrom(RemoveType(o.status.conditions, SUSPENDED), i.writes);
    var conditions := if i.statusFunc then written else SetOne(written, CreateState(i.verdict, i.err, i.t0), i.t0);
    Status(conditions, ReconciledAt(kind, o))
  }

  function ReconciledAt(kind: Kind, o: Object): string {
    if !kind.setsLastReconciledAt then o.status.lastReconciledAt
    else if RECONCILE in o.annotations then o.annotations[RECONCILE]
    else ""
  }

  function ErrorOf(persisted: bool, err: Option<string>): Failure {
    if !persisted then ApiError else if err.Some? then CallbackError(err.value) else NoError
  }

  /** The final status patch of a pass that made the callback `call`. */
  function Finish(s: Store, o: Object, call: Call, status: Status, i: Input): Outcome {
    var (after, ok) := PatchStatus(s, o, status, i.writeOk);
    Outcome(after, Report(Some(o), call, ok, ErrorOf(ok, i.err)))
  }

  function Pass(kind: Kind, s: Store, i: Input): Outcome {
    var edited := ApplyEdits(s, i.during);
    if !i.getOk then Outcome(edited, Report(None, NoCall, false, ApiError))
    else if s.obj.None? then Outcome(edited, Report(None, NoCall, false, NoError))
    else
      var o := s.obj.value;
      if !o.deleting && !HasCleanup(o) then
        var (after, ok) := Update(edited, o, o.finalizers + [CLEANUP], i.writeOk);
        Outcome(after, Report(Some(o), NoCall, ok, ErrorOf(ok, None)))
      else if Suspended(kind, o) then Finish(edited, o, EnsureSuspended, AfterSuspend(o, i), i)
      else if o.deleting && !HasCleanup(o) then Outcome(edited, Report(Some(o), NoCall, false, NoError))
      else if o.deleting && IsDeleted(o.status.conditions) then
        var (after, ok) := Update(edited, o, Without(o.finalizers, CLEANUP), i.writeOk);
        Outcome(after, Report(Some(o), NoCall, ok, if i.writeOk && edited.obj.None? then NoError else ErrorOf(ok, None)))
      else if o.deleting then Finish(edited, o, EnsureDeleted(i.verdict), AfterDelete(kind, o, i), i)
      else Finish(edited, o, EnsureCreated, AfterCreate(kind, o, i), i)
  }

  // --- the pass as the source runs it, on an object in memory ---

  lemma SetSingle(after: seq<Condition>, before: seq<Condition>, c: Condition, now: Time)
    requires after == RunFrom(before, SetEvents([c], [now]))
    ensures after == SetOne(before, c, now)
  {
    var events := SetEvents([c], [now]);
    assert events == [Set(c, now)] && events[..0] == [];
  }

  class RuntimeObject {
    var obj: Object

    constructor (o: Object)
      ensures obj == o
    {
      obj := o;
    }

    method SetCondition(c: Condition, now: Time)
      modifies this
      ensures obj == old(obj).(status := old(obj).status.(
                                     conditions := SetOne(old(obj).status.conditions, c, now)))
    {
      var list := new StatusConditions();
      list.conditions := obj.status.conditions;
      list.SetConditions([c], [now]);
      SetSingle(list.conditions, obj.status.conditions, c, now);
      obj := obj.(status := obj.status.(conditions := list.conditions));
    }

    method RemoveCondition(t: string)
      modifies this
      ensures obj == old(obj).(status := old(obj).status.(
                                     conditions := RemoveType(old(obj).status.conditions, t)))
    {
      var list := new StatusConditions();
      list.conditions := obj.status.conditions;
      list.RemoveCondition(t);
      obj := obj.(status := obj.status.(conditions := list.conditions));
    }

    /** The condition writes of a callback or of the status function. */
    method Callback(writes: seq<Event>)
      modifies this
      ensures obj == old(obj).(status := old(obj).status.(
                                     conditions := RunFrom(old(obj).status.conditions, writes)))
    {
      for n := 0 to |writes|
        invariant obj == old(obj).(status := old(obj).status.(
                                         conditions := RunFrom(old(obj).status.conditions, writes[..n])))
      {
        assert writes[..n + 1][..n] == writes[..n];
        match writes[n] {
          case Set(c, now) => SetCondition(c, now);
          case Remove(t) => RemoveCondition(t);
        }
      }
      assert writes[..|writes|] == writes;
    }
  }

  class Controller {
    const kind: Kind
    var store: Store

    constructor (kind: Kind, s: Store)
      ensures this.kind == kind && store == s
    {
      this.kind, store := kind, s;
    }

    method PatchStatusOf(original: Object, r: RuntimeObject, i: Input) returns (ok: bool)
      modifies this`store
      ensures (store, ok) == PatchStatus(old(store), original, r.obj.status, i.writeOk)
      ensures ok <==> i.writeOk && old(store).obj.Some?
      ensures !ok ==> store == old(store)
      ensures ok ==>
                var before, after := old(store).obj.value, store.obj;
                (after.None? && before.deleting && before.finalizers == []) ||
                (&& after.Some? && after.value.version == old(store).next
                 && after.value == before.(version := after.value.version, status := after.value.status)
                 && after.value.status.conditions ==
                    (if r.obj.status.conditions == original.status.conditions then before.status.conditions
                     else r.obj.status.conditions)
                 && after.value.status.lastReconciledAt ==
                    (if r.obj.status.lastReconciledAt == original.status.lastReconciledAt then before.status.lastReconciledAt
                     else r.obj.status.lastReconciledAt))
    {
      ok := i.writeOk && store.obj.Some?;
      if ok {
        var stored := store.obj.value;
        var status := stored.status;
        if r.obj.status.conditions != original.status.conditions {
          status := status.(conditions := r.obj.status.conditions);
        }
        if r.obj.status.lastReconciledAt != original.status.lastReconciledAt {
          status := status.(lastReconciledAt := r.obj.status.lastReconciledAt);
        }
        store := Write(store, stored.(status := status));
      }
    }

    method UpdateFinalizers(r: RuntimeObject, i: Input) returns (ok: bool)
      modifies this`store
      ensures (store, ok) == Update(old(store), r.obj, r.obj.finalizers, i.writeOk)
      ensures ok <==> i.writeOk && old(store).obj.Some? && old(store).obj.value.version == r.obj.version
      ensures !ok ==> store == old(store)
      ensures ok ==> if r.obj.deleting && r.obj.finalizers == [] then store.obj.None?
                     else store.obj == Some(r.obj.(version := old(store).next, status := old(store).obj.value.status))
    {
      ok := i.writeOk && store.obj.Some? && store.obj.value.version == r.obj.version;
      if ok {
        store := Write(store, r.obj.(status := store.obj.value.status));
      }
    }

    /** One call of Reconcile; `i.during` takes place between the Get and the write. */
    method Reconcile(i: Input) returns (report: Report)
      modifies this`store
      ensures Outcome(store, report) == Pass(kind, old(store), i)
    {
      var got := store.obj;
      store := ApplyEdits(store, i.during);
      if !i.getOk {
        return Report(None, NoCall, false, ApiError);
      }
      if got.None? {
        return Report(None, NoCall, false, NoError);
      }
      var original := got.value;
      var r := new RuntimeObject(original);
      var shouldBeDeleted, hasFinalizer := original.deleting, HasCleanup(original);
      var ok;
      if !shouldBeDeleted && !hasFinalizer {
        r.obj := r.obj.(finalizers := r.obj.finalizers + [CLEANUP]);
        ok := UpdateFinalizers(r, i);
        return Report(Some(original), NoCall, ok, ErrorOf(ok, None));
      }
      if SUSPEND in original.annotations && kind.canBeSuspended {
        r.Callback(i.writes);
        r.SetCondition(SuspendState(i.err, i.t0), i.t0);
        ok := PatchStatusOf(original, r, i);
        return Report(Some(original), EnsureSuspended, ok, ErrorOf(ok, i.err));
      }
      var call;
      if shouldBeDeleted {
        if !hasFinalizer {
          return Report(Some(original), NoCall, false, NoError);
        }
        if IsDeleted(r.obj.status.conditions) {
          var gone := i.writeOk && store.obj.None?;
          r.obj := r.obj.(finalizers := Without(r.obj.finalizers, CLEANUP));
          ok := UpdateFinalizers(r, i);
          return Report(Some(original), NoCall, ok, if gone then NoError else ErrorOf(ok, None));
        }
        r.SetCondition(DeleteState(Pending, None, i.t0), i.t0);
        r.Callback(i.writes);
        r.SetCondition(DeleteState(i.verdict, i.err, i.t1), i.t1);
        call := EnsureDeleted(i.verdict);
      } else {
        r.RemoveCondition(SUSPENDED);
        r.Callback(i.writes);
        if !i.statusFunc {
          r.SetCondition(CreateState(i.verdict, i.err, i.t0), i.t0);
        }
        call := EnsureCreated;
      }
      if kind.setsLastReconciledAt {
        var at := if RECONCILE in original.annotations then original.annotations[RECONCILE] else "";
        r.obj := r.obj.(status := r.obj.status.(lastReconciledAt := at));
      }
      ok := PatchStatusOf(original, r, i);
      return Report(Some(original), call, ok, ErrorOf(ok, i.err));
    }
  }
}
