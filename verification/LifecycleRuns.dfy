/**
 Whole runs of the lifecycle: any sequence of reconcile passes and user edits, with callbacks that fail, writes
 that fail, and edits that land in the middle of a pass.

 The standing assumption is that callbacks and users leave the Delete and Suspended conditions and the cleanup
 finalizer to the controller (`Foreign`).
 */
module LifecycleRuns {
  import opened Options
  import opened Conditions
  import opened Lifecycle

  predicate ForeignEvent(e: Event) {
    TypeOf(e) != DELETE && TypeOf(e) != SUSPENDED
  }

  predicate ForeignEdit(e: Edit) {
    match e
    case Create(finalizers, _) => CLEANUP !in finalizers
    case AddFinalizer(f) => f != CLEANUP
    case DropFinalizer(f) => f != CLEANUP
    case WriteCondition(ev) => ForeignEvent(ev)
    case _ => true
  }

  predicate ForeignInput(i: Input) {
    && (forall n :: 0 <= n < |i.writes| ==> ForeignEvent(i.writes[n]))
    && (forall n :: 0 <= n < |i.during| ==> ForeignEdit(i.during[n]))
  }

  ghost predicate WellFormed(s: Store) {
    s.obj.Some? ==>
      && s.obj.value.uid <= s.obj.value.version < s.next
      && (s.obj.value.deleting ==> s.obj.value.finalizers != [])
  }

  // --- what user edits can do to the object a pass has read ---

  predicate Kept(o: Object, p: Object) {
    && p.uid == o.uid
    && (o.deleting ==> p.deleting)
    && (HasCleanup(p) <==> HasCleanup(o))
    && Lookup(p.status.conditions, DELETE) == Lookup(o.status.conditions, DELETE)
    && Lookup(p.status.conditions, SUSPENDED) == Lookup(o.status.conditions, SUSPENDED)
    && p.status.lastReconciledAt == o.status.lastReconciledAt
  }

  predicate Fresh(p: Object, n: nat) {
    && n <= p.uid && n <= p.version
    && !HasCleanup(p)
    && Lookup(p.status.conditions, DELETE) == None
    && Lookup(p.status.conditions, SUSPENDED) == None
  }

  /** `t` follows from `s` by user edits: the object is kept, or it had no cleanup finalizer and is gone or replaced. */
  ghost predicate Continues(s: Store, t: Store) {
    && s.next <= t.next && WellFormed(t)
    && match t.obj
       case None => s.obj.Some? ==> !HasCleanup(s.obj.value)
       case Some(p) =>
         || (s.obj.Some? && Kept(s.obj.value, p) && (p == s.obj.value || s.next <= p.version))
         || (Fresh(p, s.next) && (s.obj.Some? ==> !HasCleanup(s.obj.value)))
  }

  lemma EditContinues(s: Store, e: Edit)
    requires WellFormed(s) && ForeignEdit(e)
    ensures Continues(s, ApplyEdit(s, e))
  {
    if s.obj.Some? && e.WriteCondition? {
      StepOther(s.obj.value.status.conditions, e.e, DELETE);
      StepOther(s.obj.value.status.conditions, e.e, SUSPENDED);
    }
  }

  lemma {:induction false} EditsContinue(s: Store, es: seq<Edit>)
    requires WellFormed(s) && forall n :: 0 <= n < |es| ==> ForeignEdit(es[n])
    ensures Continues(s, ApplyEdits(s, es))
  {
    if es != [] {
      EditsContinue(s, es[..|es| - 1]);
      EditContinues(ApplyEdits(s, es[..|es| - 1]), es[|es| - 1]);
    }
  }

  // --- the conditions a pass computes ---

  lemma SuspendKeepsDelete(o: Object, i: Input)
    requires ForeignInput(i)
    ensures Lookup(AfterSuspend(o, i).conditions, DELETE) == Lookup(o.status.conditions, DELETE)
  {
    RunOther(o.status.conditions, i.writes, DELETE);
    SetLookup(RunFrom(o.status.conditions, i.writes), SuspendState(i.err, i.t0), i.t0, DELETE);
  }

  /** A delete pass computes the true Deleted condition exactly when the controller reports success. */
  lemma DeleteDecides(kind: Kind, o: Object, i: Input)
    requires ForeignInput(i)
    ensures IsDeleted(AfterDelete(kind, o, i).conditions) <==> i.verdict.Success?
    ensures Lookup(AfterDelete(kind, o, i).conditions, SUSPENDED) == Lookup(o.status.conditions, SUSPENDED)
  {
    var pending := SetOne(o.status.conditions, DeleteState(Pending, None, i.t0), i.t0);
    var written := RunFrom(pending, i.writes);
    SetLookup(written, DeleteState(i.verdict, i.err, i.t1), i.t1, DELETE);
    SetLookup(o.status.conditions, DeleteState(Pending, None, i.t0), i.t0, SUSPENDED);
    RunOther(pending, i.writes, SUSPENDED);
    SetLookup(written, DeleteState(i.verdict, i.err, i.t1), i.t1, SUSPENDED);
  }

  lemma CreateKeepsDelete(kind: Kind, o: Object, i: Input)
    requires ForeignInput(i)
    ensures Lookup(AfterCreate(kind, o, i).conditions, DELETE) == Lookup(o.status.conditions, DELETE)
    ensures Lookup(AfterCreate(kind, o, i).conditions, SUSPENDED) == None
  {
    var resumed := RemoveType(o.status.conditions, SUSPENDED);
    var written := RunFrom(resumed, i.writes);
    RemoveLookup(o.status.conditions, SUSPENDED, DELETE);
    RemoveLookup(o.status.conditions, SUSPENDED, SUSPENDED);
    RunOther(resumed, i.writes, DELETE);
    RunOther(resumed, i.writes, SUSPENDED);
    SetLookup(written, CreateState(i.verdict, i.err, i.t0), i.t0, DELETE);
    SetLookup(written, CreateState(i.verdict, i.err, i.t0), i.t0, SUSPENDED);
  }

  // --- what a pass owes the object it reads ---

  /** The first Delete condition, if there is one, is true with the reason Deleted. */
  ghost predicate MarkedDeleted(o: Object) {
    exists n :: First(o.status.conditions, "Delete", n)
                && o.status.conditions[n].status == "True" && o.status.conditions[n].reason == "Deleted"
  }

  predicate OnHold(kind: Kind, o: Object) {
    kind.canBeSuspended && "greenhouse.sap/suspend" in o.annotations
  }

  predicate HasFinalizer(o: Object) {
    "greenhouse.sap/cleanup" in o.finalizers
  }

  lemma {:induction false} FirstFound(cs: seq<Condition>, t: string)
    ensures Lookup(cs, t).Some? ==> exists n :: First(cs, t, n)
    ensures forall n :: First(cs, t, n) ==> Lookup(cs, t) == Some(cs[n])
  {
    forall n | First(cs, t, n) ensures Lookup(cs, t) == Some(cs[n]) {
      LookupAt(cs, t, n);
    }
    if cs != [] && cs[0].ctype != t && Lookup(cs, t).Some? {
      FirstFound(cs[1..], t);
      var n :| First(cs[1..], t, n);
      assert First(cs, t, n + 1);
    } else if Lookup(cs, t).Some? {
      assert First(cs, t, 0);
    }
  }

  lemma MarkedExactly(o: Object)
    ensures IsDeleted(o.status.conditions) <==> MarkedDeleted(o)
  {
    FirstFound(o.status.conditions, "Delete");
  }

  /** Which callback a pass makes, told by the fields of the object it reads and by nothing else. */
  lemma CallExactly(kind: Kind, s: Store, i: Input, o: Object)
    requires i.getOk && s.obj == Some(o)
    ensures var call := Pass(kind, s, i).report.call;
            && (call == EnsureCreated <==> HasFinalizer(o) && !o.deleting && !OnHold(kind, o))
            && (call == EnsureSuspended <==> OnHold(kind, o) && (o.deleting || HasFinalizer(o)))
            && (call.EnsureDeleted? <==> o.deleting && HasFinalizer(o) && !OnHold(kind, o) && !MarkedDeleted(o))
            && (call.EnsureDeleted? ==> call.verdict == i.verdict)
    ensures Pass(kind, s, i).report.seen == Some(o)
  {
    MarkedExactly(o);
  }

  /** A pass that reads nothing does nothing; a failing read is an error, a missing object is none. */
  lemma NothingRead(kind: Kind, s: Store, i: Input)
    requires !i.getOk || s.obj.None?
    ensures var r := Pass(kind, s, i).report;
            r.call == NoCall && !r.persisted && r.seen.None? && (r.err == NoError <==> i.getOk)
    ensures i.during == [] ==> Pass(kind, s, i).store == s
  {
  }

  /** What an undisturbed pass whose writes succeed leaves behind. */
  lemma UndisturbedPass(kind: Kind, s: Store, i: Input, o: Object)
    requires WellFormed(s) && i.getOk && i.writeOk && i.during == [] && s.obj == Some(o)
    ensures var after, r := Pass(kind, s, i).store.obj, Pass(kind, s, i).report;
            && (!o.deleting && !HasFinalizer(o) ==>
                r.err == NoError && after == Some(o.(version := s.next, finalizers := o.finalizers + ["greenhouse.sap/cleanup"])))
            && (r.call != NoCall ==>
                && r.persisted && after.Some?
                && after.value == o.(version := s.next, status := after.value.status)
                && r.err == (if i.err.None? then NoError else CallbackError(i.err.value)))
            && (o.deleting && !HasFinalizer(o) && !OnHold(kind, o) ==> r.err == NoError && Pass(kind, s, i).store == s)
    ensures o.deleting && HasFinalizer(o) && !OnHold(kind, o) && MarkedDeleted(o) ==>
              var after := Pass(kind, s, i).store.obj;
              && Pass(kind, s, i).report.err == NoError
              && (after.None? <==> forall f :: f in o.finalizers ==> f == "greenhouse.sap/cleanup")
              && (after.Some? ==>
                  && after.value == o.(version := s.next, finalizers := after.value.finalizers)
                  && forall f :: f in after.value.finalizers <==> f in o.finalizers && f != "greenhouse.sap/cleanup")
  {
    MarkedExactly(o);
    CallExactly(kind, s, i, o);
    ReleaseLeaves(o.finalizers);
  }

  lemma ReleaseLeaves(fs: seq<string>)
    ensures Without(fs, CLEANUP) == [] <==> forall f :: f in fs ==> f == "greenhouse.sap/cleanup"
  {
    var rest := Without(fs, CLEANUP);
    if rest != [] {
      assert rest[0] in rest;
    }
  }

  // --- one pass ---

  predicate Claims(s: Store, u: nat) {
    s.obj.Some? && s.obj.value.uid == u && IsDeleted(s.obj.value.status.conditions)
  }

  /** The pass called EnsureDeleted on object `u`, got Success, and its status patch was persisted. */
  predicate CleansUp(kind: Kind, s: Store, i: Input, u: nat) {
    var r := Pass(kind, s, i).report;
    r.call == EnsureDeleted(Success) && r.persisted && r.seen.Some? && r.seen.value.uid == u
  }

  /**
   The one pass whose patch can land on another object than the one it read: it suspends an object that is
   being deleted, no longer has the cleanup finalizer and carries the Deleted condition; while it runs that
   object goes away and one of the same name is created.
   */
  predicate StalePatch(kind: Kind, s: Store, i: Input) {
    && i.getOk && i.writeOk && Exposed(kind, s)
    && var o := s.obj.value;
    && AfterSuspend(o, i).conditions != o.status.conditions
    && var edited := ApplyEdits(s, i.during);
    && edited.obj.Some? && edited.obj.value.uid != o.uid
  }

  /** A pass that starts here can make a stale patch: what it would read is enough to tell. */
  predicate Exposed(kind: Kind, s: Store) {
    && s.obj.Some?
    && var o := s.obj.value;
    && o.deleting && !HasCleanup(o) && Suspended(kind, o) && IsDeleted(o.status.conditions)
  }

  /** After the pass an object claims to be cleaned up that did not claim so before and was not cleaned up by the pass. */
  predicate FalseClaim(kind: Kind, s: Store, i: Input) {
    var after := Pass(kind, s, i).store;
    && after.obj.Some?
    && var u := after.obj.value.uid;
    && Claims(after, u) && !Claims(s, u) && !CleansUp(kind, s, i, u)
  }

  lemma FalseClaimSuspending(kind: Kind, s: Store, i: Input)
    requires WellFormed(s) && ForeignInput(i) && i.getOk && s.obj.Some?
    requires (s.obj.value.deleting || HasCleanup(s.obj.value)) && Suspended(kind, s.obj.value)
    ensures FalseClaim(kind, s, i) <==> StalePatch(kind, s, i)
  {
    EditsContinue(s, i.during);
    SuspendKeepsDelete(s.obj.value, i);
  }

  lemma FalseClaimUnsuspended(kind: Kind, s: Store, i: Input)
    requires WellFormed(s) && ForeignInput(i) && i.getOk && s.obj.Some?
    requires HasCleanup(s.obj.value) && !Suspended(kind, s.obj.value)
    ensures !FalseClaim(kind, s, i)
  {
    EditsContinue(s, i.during);
    if s.obj.value.deleting {
      DeleteDecides(kind, s.obj.value, i);
    } else {
      CreateKeepsDelete(kind, s.obj.value, i);
    }
  }

  /** A pass that is not one of those rare ones makes no false claim, and each of those does. */
  lemma FalseClaimExactly(kind: Kind, s: Store, i: Input)
    requires WellFormed(s) && ForeignInput(i)
    ensures FalseClaim(kind, s, i) <==> StalePatch(kind, s, i)
  {
    if i.getOk && s.obj.Some? {
      var o := s.obj.value;
      if (o.deleting || HasCleanup(o)) && Suspended(kind, o) {
        FalseClaimSuspending(kind, s, i);
        return;
      } else if HasCleanup(o) {
        FalseClaimUnsuspended(kind, s, i);
        return;
      }
    }
    EditsContinue(s, i.during);
  }

  /** The store holds the object that was there, or a newer one; a deletion mark stays. */
  ghost predicate Framed(s: Store, after: Store) {
    && WellFormed(after) && s.next <= after.next
    && (after.obj.Some? ==>
        || s.next <= after.obj.value.uid
        || (s.obj.Some? && s.obj.value.uid == after.obj.value.uid &&
            (s.obj.value.deleting ==> after.obj.value.deleting)))
  }

  lemma PatchFramed(s: Store, edited: Store, status: Status, ok: bool)
    requires WellFormed(s) && s.obj.Some? && Continues(s, edited)
    ensures Framed(s, edited) && Framed(s, PatchStatus(edited, s.obj.value, status, ok).0)
  {
  }

  lemma UpdateFramed(s: Store, edited: Store, finalizers: seq<string>, ok: bool)
    requires WellFormed(s) && s.obj.Some? && Continues(s, edited)
    ensures Framed(s, Update(edited, s.obj.value, finalizers, ok).0)
  {
  }

  /** The writes a pass can end with: none, a finalizer update or a status patch. */
  ghost predicate EndsWithWrite(s: Store, edited: Store, after: Store)
    requires s.obj.Some?
  {
    || after == edited
    || (exists fs, ok :: after == Update(edited, s.obj.value, fs, ok).0)
    || (exists status, ok :: after == PatchStatus(edited, s.obj.value, status, ok).0)
  }

  lemma PassEnds(kind: Kind, s: Store, i: Input)
    requires s.obj.Some?
    ensures EndsWithWrite(s, ApplyEdits(s, i.during), Pass(kind, s, i).store)
  {
  }

  lemma PassFramed(kind: Kind, s: Store, i: Input)
    requires WellFormed(s) && ForeignInput(i)
    ensures Framed(s, Pass(kind, s, i).store)
  {
    EditsContinue(s, i.during);
    if s.obj.Some? {
      PassEnds(kind, s, i);
      WriteFramed(s, ApplyEdits(s, i.during), Pass(kind, s, i).store);
    }
  }

  lemma WriteFramed(s: Store, edited: Store, after: Store)
    requires WellFormed(s) && s.obj.Some? && Continues(s, edited) && EndsWithWrite(s, edited, after)
    ensures Framed(s, after)
  {
    if fs, ok :| after == Update(edited, s.obj.value, fs, ok).0 {
      UpdateFramed(s, edited, fs, ok);
    } else if status, ok :| after == PatchStatus(edited, s.obj.value, status, ok).0 {
      PatchFramed(s, edited, status, ok);
    } else {
      PatchFramed(s, edited, s.obj.value.status, false);
    }
  }

  /** A set condition is found with the status, reason and message it was set with. */
  lemma SetIsFound(cs: seq<Condition>, c: Condition, now: Time)
    ensures Lookup(SetOne(cs, c, now), c.ctype).Some? && Lookup(SetOne(cs, c, now), c.ctype).value.Equal(c)
  {
    SetLookup(cs, c, now, c.ctype);
  }

  /** The status holds the reconcile annotation, empty if there is none; kinds that do not record it keep what they had. */
  predicate Stamps(kind: Kind, o: Object, status: Status) {
    status.lastReconciledAt ==
    if !kind.setsLastReconciledAt then o.status.lastReconciledAt
    else if "greenhouse.sap/reconcile" in o.annotations then o.annotations["greenhouse.sap/reconcile"]
    else ""
  }

  /** A persisted delete pass shows the controller's verdict, whatever users did meanwhile, and stamps the annotation. */
  lemma DeleteShown(kind: Kind, s: Store, i: Input)
    requires WellFormed(s) && ForeignInput(i)
    requires Pass(kind, s, i).report.call.EnsureDeleted? && Pass(kind, s, i).report.persisted
    ensures var after := Pass(kind, s, i).store.obj;
            && after.Some? && ShowsDeleted(after.value.status.conditions, i)
            && Stamps(kind, s.obj.value, after.value.status)
  {
    EditsContinue(s, i.during);
    var pending := SetOne(s.obj.value.status.conditions, DeleteState(Pending, None, i.t0), i.t0);
    SetIsFound(RunFrom(pending, i.writes), DeleteState(i.verdict, i.err, i.t1), i.t1);
  }

  /** A persisted pass with a callback has patched the status of whatever object has the name. */
  lemma PersistedPatch(kind: Kind, s: Store, i: Input)
    requires WellFormed(s) && !Pass(kind, s, i).report.call.NoCall? && Pass(kind, s, i).report.persisted
    ensures s.obj.Some? && ApplyEdits(s, i.during).obj.Some?
    ensures var o, edited := s.obj.value, ApplyEdits(s, i.during);
            var call := Pass(kind, s, i).report.call;
            var status := if call.EnsureSuspended? then AfterSuspend(o, i)
                          else if call.EnsureCreated? then AfterCreate(kind, o, i) else AfterDelete(kind, o, i);
            && (call.EnsureSuspended? || HasCleanup(o))
            && Pass(kind, s, i).store == Write(edited, edited.obj.value.(
                                                         status := MergePatch(edited.obj.value.status, o.status, status)))
  {
  }

  /** The Ready condition found in the list says True, False or Unknown as the controller reports success, failure or neither. */
  predicate ShowsCreated(cs: seq<Condition>, i: Input) {
    var found := Lookup(cs, "Ready");
    && found.Some?
    && match i.verdict
       case Success =>
         found.value.status == "True" && found.value.reason == "Created" && found.value.message == "resource is successfully created"
       case Failed =>
         && found.value.status == "False" && found.value.reason == "FailingCreation"
         && found.value.message == "resource creation failed" + (if i.err.Some? then i.err.value else "")
       case Pending =>
         found.value.status == "Unknown" && found.value.reason == "PendingCreation" && found.value.message == "resource creation is pending"
  }

  /** The Delete condition found in the list is true exactly when the controller reports success. */
  predicate ShowsDeleted(cs: seq<Condition>, i: Input) {
    var found := Lookup(cs, "Delete");
    && found.Some?
    && match i.verdict
       case Success =>
         found.value.status == "True" && found.value.reason == "Deleted" && found.value.message == "resource is successfully deleted"
       case Failed =>
         && found.value.status == "False" && found.value.reason == "FailingDeletion"
         && found.value.message == "resource deletion failed: " + (if i.err.Some? then i.err.value else "")
       case Pending =>
         found.value.status == "False" && found.value.reason == "PendingDeletion" && found.value.message == "resource deletion is pending"
  }

  lemma CreatedIsSet(kind: Kind, o: Object, i: Input)
    requires !i.statusFunc
    ensures ShowsCreated(AfterCreate(kind, o, i).conditions, i)
  {
    var resumed := RemoveType(o.status.conditions, SUSPENDED);
    SetIsFound(RunFrom(resumed, i.writes), CreateState(i.verdict, i.err, i.t0), i.t0);
  }

  /**
   A persisted create pass with the default status shows the controller's verdict, unless it has nothing to send and a
   user has changed the Ready condition meanwhile; it stamps the annotation in any case.
   */
  lemma CreateShown(kind: Kind, s: Store, i: Input)
    requires WellFormed(s) && ForeignInput(i) && !i.statusFunc
    requires Pass(kind, s, i).report.call == EnsureCreated && Pass(kind, s, i).report.persisted
    ensures var o, after := s.obj.value, Pass(kind, s, i).store.obj;
            && after.Some? && Stamps(kind, o, after.value.status)
            && (ShowsCreated(after.value.status.conditions, i) <==>
                AfterCreate(kind, o, i).conditions != o.status.conditions
                || ShowsCreated(ApplyEdits(s, i.during).obj.value.status.conditions, i))
            && (i.during == [] ==> ShowsCreated(after.value.status.conditions, i))
  {
    PersistedPatch(kind, s, i);
    EditsContinue(s, i.during);
    CreatedIsSet(kind, s.obj.value, i);
  }

  /** The Suspended condition found in the list is true exactly when the callback had no error. */
  predicate ShowsSuspension(cs: seq<Condition>, i: Input) {
    var found := Lookup(cs, "Suspended");
    && found.Some?
    && match i.err
       case None =>
         found.value.status == "True" && found.value.reason == "ResourceSuspended" && found.value.message == "resource is suspended"
       case Some(message) =>
         && found.value.status == "False" && found.value.reason == "ResourceSuspensionFailed"
         && found.value.message == "failed to suspend resource: " + message
  }

  /**
   A persisted suspension pass shows its outcome exactly when it lands on the object it read or had conditions to send;
   otherwise a new object of the same name shows no suspension.
   */
  lemma SuspendShown(kind: Kind, s: Store, i: Input)
    requires WellFormed(s) && ForeignInput(i)
    requires Pass(kind, s, i).report.call == EnsureSuspended && Pass(kind, s, i).report.persisted
    ensures var o, after := s.obj.value, Pass(kind, s, i).store.obj;
            && after.Some?
            && (ShowsSuspension(after.value.status.conditions, i) <==>
                after.value.uid == o.uid || AfterSuspend(o, i).conditions != o.status.conditions)
  {
    PersistedPatch(kind, s, i);
    EditsContinue(s, i.during);
    SetIsFound(RunFrom(s.obj.value.status.conditions, i.writes), SuspendState(i.err, i.t0), i.t0);
  }

  /** What a history of calls leaves under a type depends only on what was there under that type. */
  lemma {:induction false} RunSame(cs: seq<Condition>, ds: seq<Condition>, h: seq<Event>, t: string)
    requires Lookup(cs, t) == Lookup(ds, t)
    ensures Lookup(RunFrom(cs, h), t) == Lookup(RunFrom(ds, h), t)
  {
    if h != [] {
      var g, e := h[..|h| - 1], h[|h| - 1];
      RunSame(cs, ds, g, t);
      match e
      case Set(c, now) =>
        SetLookup(RunFrom(cs, g), c, now, t);
        SetLookup(RunFrom(ds, g), c, now, t);
      case Remove(u) =>
        RemoveLookup(RunFrom(cs, g), u, t);
        RemoveLookup(RunFrom(ds, g), u, t);
    }
  }

  lemma SuspendKeepsWrites(o: Object, i: Input, t: string)
    requires t != "Suspended"
    ensures Lookup(AfterSuspend(o, i).conditions, t) == Lookup(RunFrom(o.status.conditions, i.writes), t)
  {
    SetLookup(RunFrom(o.status.conditions, i.writes), SuspendState(i.err, i.t0), i.t0, t);
  }

  lemma DeleteKeepsWrites(kind: Kind, o: Object, i: Input, t: string)
    requires t != "Delete"
    ensures Lookup(AfterDelete(kind, o, i).conditions, t) == Lookup(RunFrom(o.status.conditions, i.writes), t)
  {
    var pending := SetOne(o.status.conditions, DeleteState(Pending, None, i.t0), i.t0);
    SetLookup(o.status.conditions, DeleteState(Pending, None, i.t0), i.t0, t);
    RunSame(pending, o.status.conditions, i.writes, t);
    SetLookup(RunFrom(pending, i.writes), DeleteState(i.verdict, i.err, i.t1), i.t1, t);
  }

  lemma CreateKeepsWrites(kind: Kind, o: Object, i: Input, t: string)
    requires t != "Suspended" && (t == "Ready" ==> i.statusFunc)
    ensures Lookup(AfterCreate(kind, o, i).conditions, t) == Lookup(RunFrom(o.status.conditions, i.writes), t)
  {
    var resumed := RemoveType(o.status.conditions, SUSPENDED);
    RemoveLookup(o.status.conditions, SUSPENDED, t);
    RunSame(resumed, o.status.conditions, i.writes, t);
    SetLookup(RunFrom(resumed, i.writes), CreateState(i.verdict, i.err, i.t0), i.t0, t);
  }

  /** The conditions that a pass with this callback does not write itself. */
  predicate LeftToCallback(call: Call, statusFunc: bool, t: string) {
    match call
    case NoCall => false
    case EnsureSuspended => t != "Suspended"
    case EnsureCreated => t != "Suspended" && (t == "Ready" ==> statusFunc)
    case EnsureDeleted(_) => t != "Delete"
  }

  /** An undisturbed pass stores every condition its callback wrote, but for the one condition the pass writes itself. */
  lemma CallbackWritesStored(kind: Kind, s: Store, i: Input, o: Object, t: string)
    requires WellFormed(s) && i.getOk && i.writeOk && i.during == [] && s.obj == Some(o)
    requires LeftToCallback(Pass(kind, s, i).report.call, i.statusFunc, t)
    ensures Pass(kind, s, i).store.obj.Some?
    ensures Lookup(Pass(kind, s, i).store.obj.value.status.conditions, t) == Lookup(RunFrom(o.status.conditions, i.writes), t)
  {
    UndisturbedPass(kind, s, i, o);
    PersistedPatch(kind, s, i);
    match Pass(kind, s, i).report.call
    case EnsureSuspended => SuspendKeepsWrites(o, i, t);
    case EnsureCreated => CreateKeepsWrites(kind, o, i, t);
    case EnsureDeleted(_) => DeleteKeepsWrites(kind, o, i, t);
  }

  // --- runs ---

  datatype Step = User(e: Edit) | Reconcile(i: Input)

  predicate Foreign(st: Step) {
    match st
    case User(e) => ForeignEdit(e)
    case Reconcile(i) => ForeignInput(i)
  }

  ghost predicate AllForeign(run: seq<Step>) {
    forall n :: 0 <= n < |run| ==> Foreign(run[n])
  }

  function Do(kind: Kind, s: Store, st: Step): Store {
    match st
    case User(e) => ApplyEdit(s, e)
    case Reconcile(i) => Pass(kind, s, i).store
  }

  function After(kind: Kind, s: Store, run: seq<Step>): Store {
    if run == [] then s else Do(kind, After(kind, s, run[..|run| - 1]), run[|run| - 1])
  }

  /** Every step leaves a well-formed store, holding the object it found or a newer one. */
  lemma StepFramed(kind: Kind, s: Store, st: Step)
    requires WellFormed(s) && Foreign(st)
    ensures Framed(s, Do(kind, s, st))
  {
    match st
    case User(e) => EditContinues(s, e);
    case Reconcile(i) => PassFramed(kind, s, i);
  }

  lemma {:induction false} RunWellFormed(kind: Kind, s: Store, run: seq<Step>)
    requires WellFormed(s) && AllForeign(run)
    ensures WellFormed(After(kind, s, run)) && s.next <= After(kind, s, run).next
  {
    if run != [] {
      RunWellFormed(kind, s, run[..|run| - 1]);
      StepFramed(kind, After(kind, s, run[..|run| - 1]), run[|run| - 1]);
    }
  }

  /** Some pass of the run cleaned up object `u`. */
  ghost predicate CleanedUp(kind: Kind, s: Store, run: seq<Step>, u: nat) {
    exists n :: 0 <= n < |run| && CleanedUpAt(kind, s, run, u, n)
  }

  predicate CleanedUpAt(kind: Kind, s: Store, run: seq<Step>, u: nat, n: int)
    requires 0 <= n < |run|
  {
    run[n].Reconcile? && CleansUp(kind, After(kind, s, run[..n]), run[n].i, u)
  }

  ghost predicate NoStalePatch(kind: Kind, s: Store, run: seq<Step>) {
    forall n :: 0 <= n < |run| && run[n].Reconcile? ==> !StalePatchAt(kind, s, run, n)
  }

  predicate StalePatchAt(kind: Kind, s: Store, run: seq<Step>, n: int)
    requires 0 <= n < |run| && run[n].Reconcile?
  {
    StalePatch(kind, After(kind, s, run[..n]), run[n].i)
  }

  lemma NoStalePrefix(kind: Kind, s: Store, run: seq<Step>)
    requires run != [] && NoStalePatch(kind, s, run)
    ensures NoStalePatch(kind, s, run[..|run| - 1])
  {
    var prefix := run[..|run| - 1];
    forall m | 0 <= m < |prefix| && prefix[m].Reconcile? ensures !StalePatchAt(kind, s, prefix, m) {
      assert !StalePatchAt(kind, s, run, m) && prefix[..m] == run[..m];
    }
  }

  lemma CleanedUpLonger(kind: Kind, s: Store, run: seq<Step>, u: nat)
    requires run != [] && CleanedUp(kind, s, run[..|run| - 1], u)
    ensures CleanedUp(kind, s, run, u)
  {
    var prefix := run[..|run| - 1];
    var m :| 0 <= m < |prefix| && CleanedUpAt(kind, s, prefix, u, m);
    assert prefix[..m] == run[..m];
    assert CleanedUpAt(kind, s, run, u, m);
  }

  /** A step that makes an object claim to be cleaned up is the cleanup, or a stale patch. */
  lemma ClaimAppears(kind: Kind, s: Store, st: Step, u: nat)
    requires WellFormed(s) && Foreign(st) && Claims(Do(kind, s, st), u) && !Claims(s, u)
    ensures st.Reconcile? && (StalePatch(kind, s, st.i) || CleansUp(kind, s, st.i, u))
  {
    match st
    case User(e) => EditContinues(s, e);
    case Reconcile(i) => FalseClaimExactly(kind, s, i);
  }

  /** Without stale patches a stored Deleted condition is the record of a successful cleanup of that very object. */
  lemma {:induction false} ClaimsAreTrue(kind: Kind, s: Store, run: seq<Step>, u: nat)
    requires WellFormed(s) && AllForeign(run) && NoStalePatch(kind, s, run)
    requires !Claims(s, u)
    ensures Claims(After(kind, s, run), u) ==> CleanedUp(kind, s, run, u)
  {
    if run != [] && Claims(After(kind, s, run), u) {
      var n := |run| - 1;
      var prefix := run[..n];
      NoStalePrefix(kind, s, run);
      ClaimsAreTrue(kind, s, prefix, u);
      if Claims(After(kind, s, prefix), u) {
        CleanedUpLonger(kind, s, run, u);
      } else {
        RunWellFormed(kind, s, prefix);
        ClaimAppears(kind, After(kind, s, prefix), run[n], u);
        assert !StalePatchAt(kind, s, run, n) && CleanedUpAt(kind, s, run, u, n);
      }
    }
  }

  /** The step takes the cleanup finalizer off object `u`. */
  predicate Releases(before: Store, after: Store, u: nat) {
    && before.obj.Some? && before.obj.value.uid == u && HasCleanup(before.obj.value)
    && !(after.obj.Some? && after.obj.value.uid == u && HasCleanup(after.obj.value))
  }

  /** Only a pass that reads the true Deleted condition on a deleting object releases it. */
  lemma ReleaseNeedsClaim(kind: Kind, s: Store, st: Step, u: nat)
    requires WellFormed(s) && Foreign(st) && Releases(s, Do(kind, s, st), u)
    ensures st.Reconcile? && Claims(s, u) && s.obj.value.deleting && !Suspended(kind, s.obj.value)
  {
    match st
    case User(e) => EditContinues(s, e);
    case Reconcile(i) => EditsContinue(s, i.during);
  }

  /**
   In every run without a stale patch, whatever fails and whatever else users do, the cleanup finalizer comes off an
   object only after an earlier pass whose EnsureDeleted returned Success for that object and whose status patch was
   persisted.
   */
  lemma FinalizerSafety(kind: Kind, s: Store, run: seq<Step>, next: Step, u: nat)
    requires WellFormed(s) && !Claims(s, u)
    requires AllForeign(run) && Foreign(next) && NoStalePatch(kind, s, run)
    requires Releases(After(kind, s, run), Do(kind, After(kind, s, run), next), u)
    ensures CleanedUp(kind, s, run, u)
  {
    RunWellFormed(kind, s, run);
    ReleaseNeedsClaim(kind, After(kind, s, run), next, u);
    ClaimsAreTrue(kind, s, run, u);
  }

  // --- deletion makes progress ---

  /** 2: not cleaned up, 1: Deleted persisted, 0: finalizer gone. */
  function Rank(s: Store, u: nat): nat {
    if s.obj.Some? && s.obj.value.uid == u && HasCleanup(s.obj.value) then
      if IsDeleted(s.obj.value.status.conditions) then 1 else 2
    else 0
  }

  /** Object `u` exists or existed, and if it is still there it is being deleted. */
  predicate Deleting(s: Store, u: nat) {
    u < s.next && (s.obj.Some? && s.obj.value.uid == u ==> s.obj.value.deleting)
  }

  /** An unsuspended pass over `u` with EnsureDeleted success and no API error. */
  predicate GoodPass(kind: Kind, s: Store, st: Step, u: nat) {
    && st.Reconcile? && st.i.verdict.Success?
    && s.obj.Some? && s.obj.value.uid == u && !Suspended(kind, s.obj.value)
    && Pass(kind, s, st.i).report.err != ApiError
  }

  /** User edits keep the rank. */
  lemma EditsKeepRank(s: Store, t: Store, u: nat)
    requires Continues(s, t) && u < s.next
    ensures Rank(t, u) == Rank(s, u)
  {
  }

  lemma SuspendKeepsRank(kind: Kind, s: Store, i: Input, u: nat)
    requires WellFormed(s) && ForeignInput(i) && i.getOk && s.obj.Some? && s.obj.value.uid == u
    requires s.obj.value.deleting && Suspended(kind, s.obj.value)
    ensures Rank(Pass(kind, s, i).store, u) == Rank(s, u)
  {
    EditsContinue(s, i.during);
    SuspendKeepsDelete(s.obj.value, i);
  }

  lemma DeletePassRank(kind: Kind, s: Store, i: Input, u: nat)
    requires WellFormed(s) && ForeignInput(i) && i.getOk && s.obj.Some? && s.obj.value.uid == u
    requires s.obj.value.deleting && HasCleanup(s.obj.value) && !Suspended(kind, s.obj.value)
    ensures Rank(Pass(kind, s, i).store, u) <= Rank(s, u)
    ensures i.verdict.Success? && Pass(kind, s, i).report.err != ApiError ==> Rank(Pass(kind, s, i).store, u) < Rank(s, u)
  {
    EditsContinue(s, i.during);
    DeleteDecides(kind, s.obj.value, i);
  }

  /** No step ever raises the rank of an object being deleted, and a good pass lowers it. */
  lemma RankFalls(kind: Kind, s: Store, st: Step, u: nat)
    requires WellFormed(s) && Foreign(st) && Deleting(s, u)
    ensures Deleting(Do(kind, s, st), u)
    ensures Rank(Do(kind, s, st), u) <= Rank(s, u)
    ensures GoodPass(kind, s, st, u) && Rank(s, u) > 0 ==> Rank(Do(kind, s, st), u) < Rank(s, u)
  {
    StepFramed(kind, s, st);
    if s.obj.Some? && s.obj.value.uid == u {
      match st
      case User(e) =>
        EditContinues(s, e);
        EditsKeepRank(s, ApplyEdit(s, e), u);
      case Reconcile(i) =>
        EditsContinue(s, i.during);
        EditsKeepRank(s, ApplyEdits(s, i.during), u);
        if i.getOk && Suspended(kind, s.obj.value) {
          SuspendKeepsRank(kind, s, i, u);
        } else if i.getOk && HasCleanup(s.obj.value) {
          DeletePassRank(kind, s, i, u);
        }
    }
  }

  /** How many passes of the run are good ones for `u`. */
  function GoodPasses(kind: Kind, s: Store, run: seq<Step>, u: nat): nat {
    if run == [] then 0
    else
      var prefix := run[..|run| - 1];
      GoodPasses(kind, s, prefix, u) + if GoodPass(kind, After(kind, s, prefix), run[|run| - 1], u) then 1 else 0
  }

  /** Over any run the rank never rises, and every good pass lowers it until it is 0, so two of them release the object. */
  lemma {:induction false} RunRank(kind: Kind, s: Store, run: seq<Step>, u: nat)
    requires WellFormed(s) && AllForeign(run) && Deleting(s, u)
    ensures Deleting(After(kind, s, run), u)
    ensures Rank(After(kind, s, run), u) <= Rank(s, u)
    ensures Rank(After(kind, s, run), u) == 0 || Rank(After(kind, s, run), u) + GoodPasses(kind, s, run, u) <= Rank(s, u)
    ensures GoodPasses(kind, s, run, u) >= 2 ==> Rank(After(kind, s, run), u) == 0
  {
    if run != [] {
      var prefix := run[..|run| - 1];
      RunRank(kind, s, prefix, u);
      RunWellFormed(kind, s, prefix);
      RankFalls(kind, After(kind, s, prefix), run[|run| - 1], u);
    }
  }

  // --- suspension ---

  /** Every pass of the run that reads the object finds it suspended. */
  ghost predicate SuspendedThroughout(kind: Kind, s: Store, run: seq<Step>) {
    forall n :: 0 <= n < |run| ==> SuspendedAt(kind, s, run, n)
  }

  predicate SuspendedAt(kind: Kind, s: Store, run: seq<Step>, n: int)
    requires 0 <= n < |run|
  {
    var st := After(kind, s, run[..n]);
    run[n].Reconcile? && st.obj.Some? ==> Suspended(kind, st.obj.value)
  }

  /** The step, if it is a pass, calls neither EnsureCreated nor EnsureDeleted. */
  predicate Quiet(kind: Kind, s: Store, st: Step) {
    st.Reconcile? ==>
      var call := Pass(kind, s, st.i).report.call;
      call == NoCall || call == EnsureSuspended
  }

  predicate QuietAt(kind: Kind, s: Store, run: seq<Step>, n: int)
    requires 0 <= n < |run|
  {
    Quiet(kind, After(kind, s, run[..n]), run[n])
  }

  predicate ReleasesAt(kind: Kind, s: Store, run: seq<Step>, n: int, u: nat)
    requires 0 <= n < |run|
  {
    var before := After(kind, s, run[..n]);
    Releases(before, Do(kind, before, run[n]), u)
  }

  lemma SuspendedStep(kind: Kind, s: Store, st: Step, u: nat)
    requires WellFormed(s) && Foreign(st) && Rank(s, u) > 0
    requires st.Reconcile? ==> Suspended(kind, s.obj.value)
    ensures Rank(Do(kind, s, st), u) == Rank(s, u)
  {
    match st
    case User(e) => EditContinues(s, e);
    case Reconcile(i) =>
      EditsContinue(s, i.during);
      SuspendKeepsDelete(s.obj.value, i);
  }

  lemma SuspendedPrefix(kind: Kind, s: Store, run: seq<Step>)
    requires run != [] && SuspendedThroughout(kind, s, run)
    ensures SuspendedThroughout(kind, s, run[..|run| - 1])
  {
    var prefix := run[..|run| - 1];
    forall m | 0 <= m < |prefix| ensures SuspendedAt(kind, s, prefix, m) {
      assert SuspendedAt(kind, s, run, m) && prefix[..m] == run[..m];
    }
  }

  lemma SuspendedPass(kind: Kind, s: Store, run: seq<Step>, n: nat, u: nat)
    requires WellFormed(s) && AllForeign(run) && n < |run| && SuspendedAt(kind, s, run, n)
    ensures QuietAt(kind, s, run, n) && !ReleasesAt(kind, s, run, n, u)
  {
    RunWellFormed(kind, s, run[..n]);
    if ReleasesAt(kind, s, run, n, u) {
      ReleaseNeedsClaim(kind, After(kind, s, run[..n]), run[n], u);
    }
  }

  lemma {:induction false} SuspendedRank(kind: Kind, s: Store, run: seq<Step>, u: nat)
    requires WellFormed(s) && AllForeign(run) && SuspendedThroughout(kind, s, run) && Rank(s, u) > 0
    ensures Rank(After(kind, s, run), u) == Rank(s, u)
  {
    if run != [] {
      var prefix := run[..|run| - 1];
      SuspendedPrefix(kind, s, run);
      SuspendedRank(kind, s, prefix, u);
      RunWellFormed(kind, s, prefix);
      assert SuspendedAt(kind, s, run, |run| - 1);
      SuspendedStep(kind, After(kind, s, prefix), run[|run| - 1], u);
    }
  }

  /** While suspended, even when being deleted, no object is created, cleaned up or released, old or new, with or without the finalizer. */
  lemma SuspensionFreezes(kind: Kind, s: Store, run: seq<Step>, u: nat)
    requires WellFormed(s) && AllForeign(run) && SuspendedThroughout(kind, s, run)
    ensures forall n :: 0 <= n < |run| ==> QuietAt(kind, s, run, n) && !ReleasesAt(kind, s, run, n, u)
    ensures Rank(s, u) > 0 ==> Rank(After(kind, s, run), u) == Rank(s, u)
  {
    forall n | 0 <= n < |run| ensures QuietAt(kind, s, run, n) && !ReleasesAt(kind, s, run, n, u) {
      assert SuspendedAt(kind, s, run, n);
      SuspendedPass(kind, s, run, n, u);
    }
    if Rank(s, u) > 0 {
      SuspendedRank(kind, s, run, u);
    }
  }

  predicate Finalized(s: Store, u: nat) {
    s.obj.Some? && s.obj.value.uid == u && HasCleanup(s.obj.value)
  }

  /** The step is a pass that read object `u` without deletion mark, made no callback and stored it with the finalizer. */
  predicate AddsFinalizer(kind: Kind, s: Store, st: Step, u: nat) {
    && st.Reconcile?
    && var r := Pass(kind, s, st.i).report;
    && r.seen.Some? && r.seen.value.uid == u && !r.seen.value.deleting && !HasCleanup(r.seen.value)
    && r.call.NoCall? && r.persisted
  }

  predicate FinalizerAdded(kind: Kind, s: Store, run: seq<Step>, u: nat) {
    run != [] &&
    var prefix := run[..|run| - 1];
    (AddsFinalizer(kind, After(kind, s, prefix), run[|run| - 1], u) || FinalizerAdded(kind, s, prefix, u))
  }

  lemma StepFinalizes(kind: Kind, s: Store, st: Step, u: nat)
    requires WellFormed(s) && Foreign(st) && Finalized(Do(kind, s, st), u) && !Finalized(s, u)
    ensures AddsFinalizer(kind, s, st, u)
  {
    match st
    case User(e) => EditContinues(s, e);
    case Reconcile(i) => EditsContinue(s, i.during);
  }

  lemma {:induction false} FinalizedByPass(kind: Kind, s: Store, run: seq<Step>, u: nat)
    requires WellFormed(s) && AllForeign(run) && !Finalized(s, u) && Finalized(After(kind, s, run), u)
    ensures FinalizerAdded(kind, s, run, u)
  {
    var prefix := run[..|run| - 1];
    RunWellFormed(kind, s, prefix);
    if Finalized(After(kind, s, prefix), u) {
      FinalizedByPass(kind, s, prefix, u);
    } else {
      StepFinalizes(kind, After(kind, s, prefix), run[|run| - 1], u);
    }
  }

  /**
   In every run, EnsureCreated and EnsureDeleted are called for an object that had no finalizer at the start only after
   an earlier pass has stored the finalizer on it; EnsureCreated only if the pass reads no deletion mark.
   */
  lemma FinalizerComesFirst(kind: Kind, s: Store, run: seq<Step>, i: Input, u: nat)
    requires WellFormed(s) && AllForeign(run) && !Finalized(s, u)
    requires var r := Pass(kind, After(kind, s, run), i).report;
             r.seen.Some? && r.seen.value.uid == u && (r.call.EnsureCreated? || r.call.EnsureDeleted?)
    ensures FinalizerAdded(kind, s, run, u)
    ensures var r := Pass(kind, After(kind, s, run), i).report;
            HasCleanup(r.seen.value) && (r.call.EnsureCreated? <==> !r.seen.value.deleting)
  {
    FinalizedByPass(kind, s, run, u);
  }

  predicate ShowsSuspended(s: Store) {
    s.obj.Some? && Lookup(s.obj.value.status.conditions, SUSPENDED).Some?
  }

  predicate Persists(kind: Kind, s: Store, st: Step, c: Call) {
    st.Reconcile? && Pass(kind, s, st.i).report.call == c && Pass(kind, s, st.i).report.persisted
  }

  lemma CreatedHidesSuspended(kind: Kind, s: Store, i: Input)
    requires WellFormed(s) && ForeignInput(i) && Pass(kind, s, i).report.call == EnsureCreated
    ensures Pass(kind, s, i).report.persisted ==>
              Pass(kind, s, i).store.obj.Some? && !ShowsSuspended(Pass(kind, s, i).store)
    ensures !ShowsSuspended(s) ==> !ShowsSuspended(Pass(kind, s, i).store)
  {
    EditsContinue(s, i.during);
    CreateKeepsDelete(kind, s.obj.value, i);
  }

  lemma OthersKeepSuspended(kind: Kind, s: Store, i: Input)
    requires WellFormed(s) && ForeignInput(i) && !ShowsSuspended(s)
    requires !Pass(kind, s, i).report.call.EnsureCreated? && !Pass(kind, s, i).report.call.EnsureSuspended?
    ensures !ShowsSuspended(Pass(kind, s, i).store)
  {
    EditsContinue(s, i.during);
    if i.getOk && s.obj.Some? {
      DeleteDecides(kind, s.obj.value, i);
    }
  }

  /** Only a persisted suspension pass makes the Suspended condition appear, and a persisted create pass leaves none. */
  lemma SuspendedShown(kind: Kind, s: Store, st: Step)
    requires WellFormed(s) && Foreign(st)
    ensures ShowsSuspended(Do(kind, s, st)) && !ShowsSuspended(s) ==>
              Persists(kind, s, st, EnsureSuspended)
    ensures Persists(kind, s, st, EnsureCreated) ==>
              Do(kind, s, st).obj.Some? && !ShowsSuspended(Do(kind, s, st))
  {
    match st
    case User(e) => EditContinues(s, e);
    case Reconcile(i) =>
      match Pass(kind, s, i).report.call
      case EnsureCreated => CreatedHidesSuspended(kind, s, i);
      case EnsureSuspended => EditsContinue(s, i.during);
      case _ => if !ShowsSuspended(s) { OthersKeepSuspended(kind, s, i); }
  }

  /** Some suspension pass was persisted, and no create pass has been persisted since. */
  predicate SuspendedSince(kind: Kind, s: Store, run: seq<Step>) {
    run != [] &&
    var prefix, last := run[..|run| - 1], run[|run| - 1];
    var before := After(kind, s, prefix);
    Persists(kind, before, last, EnsureSuspended) ||
    (SuspendedSince(kind, s, prefix) && !Persists(kind, before, last, EnsureCreated))
  }

  /** A Suspended condition in the store means a persisted suspension pass with no persisted create pass since. */
  lemma {:induction false} ResumeClearsSuspended(kind: Kind, s: Store, run: seq<Step>)
    requires WellFormed(s) && AllForeign(run) && !ShowsSuspended(s)
    ensures ShowsSuspended(After(kind, s, run)) ==> SuspendedSince(kind, s, run)
  {
    if run != [] {
      var prefix := run[..|run| - 1];
      ResumeClearsSuspended(kind, s, prefix);
      RunWellFormed(kind, s, prefix);
      SuspendedShown(kind, After(kind, s, prefix), run[|run| - 1]);
    }
  }
}
