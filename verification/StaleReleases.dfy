/**
 When finalizer safety fails: a suspension pass whose status patch lands on a new object of the same name. Which stores
 allow it, which kinds of objects allow it, and a run in which it happens.
 */
module StaleReleases {
  import opened Options
  import opened Conditions
  import opened Lifecycle
  import opened LifecycleRuns

  // --- a run with a stale patch ---

  lemma AfterNext(kind: Kind, s: Store, run: seq<Step>, n: int)
    requires 0 <= n < |run|
    ensures After(kind, s, run[..n + 1]) == Do(kind, After(kind, s, run[..n]), run[n])
  {
    assert run[..n + 1][..n] == run[..n];
  }

  const PLAIN := Input(true, Success, None, false, [], 1, 1, [], true)

  /** Delete an object held by a second finalizer, suspend it, and replace it while the suspension pass runs. */
  const STALE_RUN: seq<Step> := [
    User(Create(["other"], map[])), Reconcile(PLAIN), User(RequestDeletion), Reconcile(PLAIN), Reconcile(PLAIN),
    User(Annotate(map[SUSPEND := "true"])), Reconcile(PLAIN.(during := [DropFinalizer("other"), Create([], map[])])),
    Reconcile(PLAIN), User(RequestDeletion), Reconcile(PLAIN)]

  /** A suspendable kind, with or without a record of the reconcile annotation. */
  function StaleKind(records: bool): Kind {
    Kind(true, records)
  }

  const DONE := Condition(DELETE, "True", "Deleted", 1, "resource is successfully deleted")
  const HELD := Condition(SUSPENDED, "True", "ResourceSuspended", 1, "resource is suspended")

  function StaleState(n: nat): Store
    requires n <= 10
  {
    var blank := Status([], "");
    var first := Object(0, if n == 0 then 0 else n - 1, n >= 3, ["other"], map[], blank);
    var second := Object(7, n + 1, n == 9, [CLEANUP], map[], Status([DONE, HELD], ""));
    if n == 0 then Store(None, 0)
    else if n == 1 then Store(Some(first), 1)
    else if n <= 3 then Store(Some(first.(finalizers := ["other", CLEANUP])), n)
    else if n == 4 then Store(Some(first.(finalizers := ["other", CLEANUP], status := Status([DONE], ""))), 4)
    else if n == 5 then Store(Some(first.(status := Status([DONE], ""))), 5)
    else if n == 6 then Store(Some(first.(annotations := map[SUSPEND := "true"], status := Status([DONE], ""))), 6)
    else if n == 7 then Store(Some(second.(version := 8, finalizers := [])), 9)
    else if n <= 9 then Store(Some(second), n + 2)
    else Store(None, 12)
  }

  predicate StaleStep(records: bool, n: nat)
    requires n < 10
  {
    && Do(StaleKind(records), StaleState(n), STALE_RUN[n]) == StaleState(n + 1)
    && (STALE_RUN[n].Reconcile? ==> !CleansUp(StaleKind(records), StaleState(n), STALE_RUN[n].i, 7))
  }

  lemma StaleDeletion(records: bool)
    ensures StaleStep(records, 0) && StaleStep(records, 1) && StaleStep(records, 2)
  {
    assert ["other"] + [CLEANUP] == ["other", CLEANUP];
  }

  lemma StaleCleanup(records: bool)
    ensures StaleStep(records, 3)
  {
    var pending := DeleteState(Pending, None, 1);
    assert RunFrom(SetOne([], pending, 1), []) == [pending] && [pending][1..] == [];
    assert SetOne([pending], DONE, 1) == [DONE];
    assert AfterDelete(StaleKind(records), StaleState(3).obj.value, PLAIN) == Status([DONE], "");
  }

  lemma StaleRelease(records: bool)
    ensures StaleStep(records, 4) && StaleStep(records, 5)
  {
    assert ["other", CLEANUP][1..] == [CLEANUP] && [CLEANUP][1..] == [];
    assert Without([CLEANUP], CLEANUP) == [];
    assert Without(["other", CLEANUP], CLEANUP) == ["other"];
  }

  lemma StaleReplacement(records: bool)
    ensures StaleStep(records, 6)
  {
    var es := [DropFinalizer("other"), Create([], map[])];
    assert es[..1] == [DropFinalizer("other")] && es[..1][..0] == [];
    assert Without(["other"], "other") == [];
    assert ApplyEdits(StaleState(6), es[..1]) == Store(None, 7);
    assert ApplyEdits(StaleState(6), es).obj == Some(Object(7, 7, false, [], map[], Status([], "")));
    assert [DONE][1..] == [] && |DELETE| != |SUSPENDED|;
    var i := STALE_RUN[6].i;
    assert AfterSuspend(StaleState(6).obj.value, i).conditions == SetOne([DONE], HELD, 1) == [DONE, HELD];
  }

  lemma StaleEnd(records: bool)
    ensures StaleStep(records, 7) && StaleStep(records, 8) && StaleStep(records, 9)
  {
    assert [] + [CLEANUP] == [CLEANUP] && [CLEANUP][1..] == [];
    assert Lookup([DONE, HELD], DELETE) == Some(DONE);
    assert Without([CLEANUP], CLEANUP) == [];
  }

  lemma StaleSteps(records: bool, n: nat)
    requires n < 10
    ensures StaleStep(records, n)
  {
    if n < 3 {
      StaleDeletion(records);
    } else if n == 3 {
      StaleCleanup(records);
    } else if n < 6 {
      StaleRelease(records);
    } else if n == 6 {
      StaleReplacement(records);
    } else {
      StaleEnd(records);
    }
  }

  lemma {:induction false} StaleStates(records: bool, n: nat)
    requires n <= 10
    ensures After(StaleKind(records), Store(None, 0), STALE_RUN[..n]) == StaleState(n)
  {
    if n > 0 {
      StaleStates(records, n - 1);
      AfterNext(StaleKind(records), Store(None, 0), STALE_RUN, n - 1);
      StaleSteps(records, n - 1);
    }
  }

  lemma StaleForeign(n: nat)
    requires n < |STALE_RUN|
    ensures Foreign(STALE_RUN[n])
  {
  }

  lemma StaleNeverCleaned(records: bool, n: nat)
    requires n < |STALE_RUN|
    ensures !CleanedUpAt(StaleKind(records), Store(None, 0), STALE_RUN, 7, n)
  {
    StaleStates(records, n);
    StaleSteps(records, n);
  }

  lemma StaleLastStep()
    ensures Releases(StaleState(9), StaleState(10), 7)
  {
  }

  /**
   Without the proviso on stale patches the finalizer does come off an object, here the one with uid 7, that no
   pass ever cleaned up: its Deleted condition is the one of its predecessor.
   */
  lemma StaleReleaseHappens(records: bool)
    ensures AllForeign(STALE_RUN)
    ensures Releases(After(StaleKind(records), Store(None, 0), STALE_RUN[..9]), After(StaleKind(records), Store(None, 0), STALE_RUN), 7)
    ensures !CleanedUp(StaleKind(records), Store(None, 0), STALE_RUN, 7)
  {
    forall n | 0 <= n < |STALE_RUN| ensures Foreign(STALE_RUN[n]) {
      StaleForeign(n);
    }
    forall n | 0 <= n < |STALE_RUN| ensures !CleanedUpAt(StaleKind(records), Store(None, 0), STALE_RUN, 7, n) {
      StaleNeverCleaned(records, n);
    }
    StaleStates(records, 9);
    StaleStates(records, 10);
    StaleLastStep();
    assert STALE_RUN[..10] == STALE_RUN;
  }

  // --- the stores that allow it ---

  function Drops(fs: seq<string>): seq<Edit> {
    seq(|fs|, n requires 0 <= n < |fs| => DropFinalizer(fs[n]))
  }

  /** What is left of a deleting object `o` once some finalizers have been dropped. */
  ghost predicate Draining(s: Store, t: Store, o: Object, dropped: seq<string>) {
    && s.next <= t.next
    && (t.obj.Some? ==>
      && t.obj.value.deleting && t.obj.value.finalizers != []
      && forall f :: f in t.obj.value.finalizers ==> f in o.finalizers && f !in dropped)
  }

  lemma {:induction false} Drain(s: Store, fs: seq<string>)
    requires WellFormed(s) && s.obj.Some? && s.obj.value.deleting
    ensures Draining(s, ApplyEdits(s, Drops(fs)), s.obj.value, fs)
  {
    if fs != [] {
      var most, last := fs[..|fs| - 1], fs[|fs| - 1];
      Drain(s, most);
      assert Drops(fs)[..|fs| - 1] == Drops(most);
      var t := ApplyEdits(s, Drops(most));
      assert ApplyEdits(s, Drops(fs)) == ApplyEdit(t, DropFinalizer(last));
      forall f | f in fs ensures f in most || f == last {
      }
    }
  }

  /** Let the object go and create a new one. */
  function Replacement(o: Object): seq<Edit> {
    Drops(o.finalizers) + [Create([], map[])]
  }

  lemma FirstIn(fs: seq<string>)
    requires fs != []
    ensures fs[0] in fs
  {
  }

  lemma Replaced(s: Store)
    requires WellFormed(s) && s.obj.Some? && s.obj.value.deleting
    ensures var t := ApplyEdits(s, Replacement(s.obj.value)); t.obj.Some? && t.obj.value.uid != s.obj.value.uid
  {
    var o := s.obj.value;
    Drain(s, o.finalizers);
    var t := ApplyEdits(s, Drops(o.finalizers));
    assert t.obj.None? by {
      match t.obj
      case None =>
      case Some(p) => FirstIn(p.finalizers); assert false;
    }
    assert Replacement(o)[..|o.finalizers|] == Drops(o.finalizers);
  }

  /** A suspension with the other outcome than the one on record. */
  function OtherOutcome(cs: seq<Condition>): Option<string> {
    match Lookup(cs, SUSPENDED)
    case None => None
    case Some(c) => if c.status == "True" then Some("failed") else None
  }

  function StaleInput(o: Object): Input {
    PLAIN.(err := OtherOutcome(o.status.conditions), during := Replacement(o))
  }

  /**
   Before a pass the store tells whether the pass can mark an object Deleted that was not cleaned up: exactly when it
   holds a suspended object that is being deleted, carries the true Deleted condition and is held by others only.
   */
  lemma ExposedExactly(kind: Kind, s: Store)
    requires WellFormed(s)
    ensures Exposed(kind, s) <==> exists i: Input :: ForeignInput(i) && FalseClaim(kind, s, i)
  {
    if Exposed(kind, s) {
      var o := s.obj.value;
      var i := StaleInput(o);
      forall n | 0 <= n < |i.during| ensures ForeignEdit(i.during[n]) {
        if n < |o.finalizers| {
          assert i.during[n] == DropFinalizer(o.finalizers[n]) && o.finalizers[n] in o.finalizers;
        }
      }
      Replaced(s);
      SetIsFound(o.status.conditions, SuspendState(i.err, i.t0), i.t0);
      FalseClaimExactly(kind, s, i);
      assert ForeignInput(i) && FalseClaim(kind, s, i);
    } else {
      forall i: Input | ForeignInput(i) ensures !FalseClaim(kind, s, i) {
        FalseClaimExactly(kind, s, i);
      }
    }
  }

  /** No pass of the run starts from such a store. */
  ghost predicate NeverExposed(kind: Kind, s: Store, run: seq<Step>) {
    forall n :: 0 <= n < |run| && run[n].Reconcile? ==> !ExposedAt(kind, s, run, n)
  }

  predicate ExposedAt(kind: Kind, s: Store, run: seq<Step>, n: int)
    requires 0 <= n < |run|
  {
    Exposed(kind, After(kind, s, run[..n]))
  }

  lemma NeverExposedSafety(kind: Kind, s: Store, run: seq<Step>, next: Step, u: nat)
    requires WellFormed(s) && !Claims(s, u)
    requires AllForeign(run) && Foreign(next) && NeverExposed(kind, s, run)
    requires Releases(After(kind, s, run), Do(kind, After(kind, s, run), next), u)
    ensures CleanedUp(kind, s, run, u)
  {
    forall n | 0 <= n < |run| && run[n].Reconcile? ensures !StalePatchAt(kind, s, run, n) {
      assert !ExposedAt(kind, s, run, n);
    }
    FinalizerSafety(kind, s, run, next, u);
  }

  // --- the kinds that allow it ---

  /** The run is one of foreign edits and passes whose last step releases `u`, which was not marked Deleted at the start. */
  ghost predicate ReleasingRun(kind: Kind, s: Store, run: seq<Step>, next: Step, u: nat) {
    && WellFormed(s) && !Claims(s, u) && AllForeign(run) && Foreign(next)
    && Releases(After(kind, s, run), Do(kind, After(kind, s, run), next), u)
  }

  /**
   The finalizer is safe in all runs of a kind of objects exactly when the kind cannot be suspended: then every object
   that is released was cleaned up by an earlier persisted pass.
   */
  lemma SafetyExactly(kind: Kind)
    ensures !kind.canBeSuspended <==>
            forall s: Store, run: seq<Step>, next: Step, u: nat ::
              ReleasingRun(kind, s, run, next, u) ==> CleanedUp(kind, s, run, u)
  {
    if kind.canBeSuspended {
      var s, run, next := Store(None, 0), STALE_RUN[..9], STALE_RUN[9];
      assert kind == StaleKind(kind.setsLastReconciledAt);
      StaleReleaseHappens(kind.setsLastReconciledAt);
      assert !CleanedUp(kind, s, run, 7) by {
        forall n | 0 <= n < |run| ensures !CleanedUpAt(kind, s, run, 7, n) {
          assert run[..n] == STALE_RUN[..n];
          assert !CleanedUpAt(kind, s, STALE_RUN, 7, n);
        }
      }
      AfterNext(kind, s, STALE_RUN, 9);
      assert STALE_RUN[..10] == STALE_RUN;
      assert ReleasingRun(kind, s, run, next, 7);
    } else {
      forall s: Store, run: seq<Step>, next: Step, u: nat | ReleasingRun(kind, s, run, next, u)
        ensures CleanedUp(kind, s, run, u)
      {
        FinalizerSafety(kind, s, run, next, u);
      }
    }
  }
}
