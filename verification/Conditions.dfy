/**
 Status condition lists: `StatusConditions.SetConditions`, the lookup by type and the removal by type,
 and what a list built by any history of those calls means.

 The clock is a parameter: every call carries the reading `metav1.Now()` would have returned.
 */
module Conditions {
  import opened Options

  /** A timestamp; `ZERO` is the zero value that `metav1.Time.IsZero` recognises. */
  type Time = nat

  const ZERO: Time := 0

  datatype Condition = Condition(ctype: string, status: string, reason: string, lastTransitionTime: Time, message: string)
  {
    /** Equality that ignores the transition time. */
    predicate Equal(other: Condition) {
      && ctype == other.ctype
      && status == other.status
      && reason == other.reason
      && message == other.message
    }

    predicate IsTrue() {
      status == "True"
    }
  }

  function TrueCondition(t: string, reason: string, message: string, now: Time): Condition {
    Condition(t, "True", reason, now, message)
  }

  function FalseCondition(t: string, reason: string, message: string, now: Time): Condition {
    Condition(t, "False", reason, now, message)
  }

  function UnknownCondition(t: string, reason: string, message: string, now: Time): Condition {
    Condition(t, "Unknown", reason, now, message)
  }

  /** The transition time a condition enters `SetConditions` with. */
  function Stamp(c: Condition, now: Time): Time {
    if c.lastTransitionTime == ZERO then now else c.lastTransitionTime
  }

  function Stamped(c: Condition, now: Time): Condition {
    c.(lastTransitionTime := Stamp(c, now))
  }

  /** What becomes of an entry when a condition of its type is set. */
  function Revise(current: Condition, c: Condition): Condition {
    if current.Equal(c) then current
    else if current.status == c.status then c.(lastTransitionTime := current.lastTransitionTime)
    else c
  }

  function SetOne(cs: seq<Condition>, c: Condition, now: Time): seq<Condition> {
    if cs == [] then [Stamped(c, now)]
    else if cs[0].ctype == c.ctype then [Revise(cs[0], Stamped(c, now))] + cs[1..]
    else [cs[0]] + SetOne(cs[1..], c, now)
  }

  function RemoveType(cs: seq<Condition>, t: string): seq<Condition> {
    if cs == [] then []
    else if cs[0].ctype == t then RemoveType(cs[1..], t)
    else [cs[0]] + RemoveType(cs[1..], t)
  }

  function Lookup(cs: seq<Condition>, t: string): Option<Condition> {
    if cs == [] then None
    else if cs[0].ctype == t then Some(cs[0])
    else Lookup(cs[1..], t)
  }

  ghost predicate UniqueTypes(cs: seq<Condition>) {
    forall i, j :: 0 <= i < j < |cs| ==> cs[i].ctype != cs[j].ctype
  }

  /** One call on a condition list. */
  datatype Event = Set(c: Condition, now: Time) | Remove(t: string)

  function TypeOf(e: Event): string {
    match e
    case Set(c, _) => c.ctype
    case Remove(t) => t
  }

  function Step(cs: seq<Condition>, e: Event): seq<Condition> {
    match e
    case Set(c, now) => SetOne(cs, c, now)
    case Remove(t) => RemoveType(cs, t)
  }

  function RunFrom(cs: seq<Condition>, h: seq<Event>): seq<Condition> {
    if h == [] then cs else Step(RunFrom(cs, h[..|h| - 1]), h[|h| - 1])
  }

  // --- single calls ---

  lemma {:induction false} SetLookup(cs: seq<Condition>, c: Condition, now: Time, t: string)
    ensures Lookup(SetOne(cs, c, now), t) ==
            if t != c.ctype then Lookup(cs, t)
            else match Lookup(cs, t)
              case None => Some(Stamped(c, now))
              case Some(current) => Some(Revise(current, Stamped(c, now)))
  {
    if cs != [] && cs[0].ctype != c.ctype {
      SetLookup(cs[1..], c, now, t);
    }
  }

  lemma {:induction false} RemoveLookup(cs: seq<Condition>, t: string, u: string)
    ensures Lookup(RemoveType(cs, t), u) == if u == t then None else Lookup(cs, u)
  {
    if cs != [] {
      RemoveLookup(cs[1..], t, u);
    }
  }

  lemma {:induction false} LookupNone(cs: seq<Condition>, t: string)
    ensures Lookup(cs, t).None? <==> forall i :: 0 <= i < |cs| ==> cs[i].ctype != t
  {
    if cs != [] {
      LookupNone(cs[1..], t);
      assert forall i :: 1 <= i < |cs| ==> cs[i] == cs[1..][i - 1];
    }
  }

  /** An entry in front of a list keeps types unique exactly when its type is not looked up there. */
  lemma UniqueCons(c: Condition, cs: seq<Condition>)
    ensures UniqueTypes([c] + cs) <==> UniqueTypes(cs) && Lookup(cs, c.ctype).None?
  {
    var all := [c] + cs;
    LookupNone(cs, c.ctype);
    assert forall i :: 0 < i < |all| ==> all[i] == cs[i - 1];
    if UniqueTypes(all) {
      forall i, j | 0 <= i < j < |cs| ensures cs[i].ctype != cs[j].ctype {
        assert all[i + 1].ctype != all[j + 1].ctype;
      }
      forall i | 0 <= i < |cs| ensures cs[i].ctype != c.ctype {
        assert all[0].ctype != all[i + 1].ctype;
      }
    }
  }

  lemma {:induction false} StepUnique(cs: seq<Condition>, e: Event)
    requires UniqueTypes(cs)
    ensures UniqueTypes(Step(cs, e))
  {
    if cs != [] {
      var head, rest := cs[0], cs[1..];
      assert cs == [head] + rest;
      UniqueCons(head, rest);
      StepUnique(rest, e);
      match e
      case Set(c, now) =>
        SetLookup(rest, c, now, head.ctype);
        if head.ctype == c.ctype {
          UniqueCons(Revise(head, Stamped(c, now)), rest);
        } else {
          UniqueCons(head, SetOne(rest, c, now));
        }
      case Remove(t) =>
        RemoveLookup(rest, t, head.ctype);
        UniqueCons(head, RemoveType(rest, t));
    }
  }

  /** A call that does not concern type `t` leaves what is looked up under `t` alone. */
  lemma StepOther(cs: seq<Condition>, e: Event, t: string)
    requires TypeOf(e) != t
    ensures Lookup(Step(cs, e), t) == Lookup(cs, t)
  {
    match e
    case Set(c, now) => SetLookup(cs, c, now, t);
    case Remove(u) => RemoveLookup(cs, u, t);
  }

  lemma {:induction false} RunOther(cs: seq<Condition>, h: seq<Event>, t: string)
    requires forall i :: 0 <= i < |h| ==> TypeOf(h[i]) != t
    ensures Lookup(RunFrom(cs, h), t) == Lookup(cs, t)
  {
    if h != [] {
      RunOther(cs, h[..|h| - 1], t);
      StepOther(RunFrom(cs, h[..|h| - 1]), h[|h| - 1], t);
    }
  }

  // --- whole histories ---

  /**
   `k` is the last call of the history about `t`, it sets a condition, and `i` is the first call of the
   unbroken block of sets of `t` with that status which ends at `k`.
   */
  ghost predicate Block(h: seq<Event>, t: string, i: int, k: int) {
    && 0 <= i <= k < |h| && h[k].Set?
    && (forall j :: i <= j < |h| && TypeOf(h[j]) == t ==> h[j].Set? && h[j].c.status == h[k].c.status)
    && TypeOf(h[i]) == t && TypeOf(h[k]) == t
    && (forall j :: k < j < |h| ==> TypeOf(h[j]) != t)
    && Opens(h, t, i)
  }

  /** The call before `i` about `t`, if any, is a removal or sets another status. */
  ghost predicate Opens(h: seq<Event>, t: string, i: int)
    requires 0 <= i < |h|
  {
    forall p :: 0 <= p < i && TypeOf(h[p]) == t && (forall j :: p < j < i ==> TypeOf(h[j]) != t) ==>
      h[p].Remove? || (h[i].Set? && h[p].c.status != h[i].c.status)
  }

  /** Lists built by any history have at most one entry per type. */
  lemma {:induction false} HistoryUnique(h: seq<Event>)
    ensures UniqueTypes(RunFrom([], h))
  {
    if h != [] {
      HistoryUnique(h[..|h| - 1]);
      StepUnique(RunFrom([], h[..|h| - 1]), h[|h| - 1]);
    }
  }

  /**
   A type is looked up exactly when the history ends in a block of sets of it. The entry is the last condition set, and
   its time is the one the first call of the block brought along or, if that is zero, the clock reading of that call.
   */
  lemma {:induction false} HistoryLookup(h: seq<Event>, t: string)
    ensures Lookup(RunFrom([], h), t).Some? <==> exists i, k :: Block(h, t, i, k)
    ensures forall i, k :: Block(h, t, i, k) ==>
              Lookup(RunFrom([], h), t) == Some(h[k].c.(
                lastTransitionTime := if h[i].c.lastTransitionTime == 0 then h[i].now else h[i].c.lastTransitionTime))
  {
    if h == [] {
      return;
    }
    var n := |h| - 1;
    var g, e := h[..n], h[n];
    HistoryLookup(g, t);
    var before := Lookup(RunFrom([], g), t);
    if TypeOf(e) != t {
      StepOther(RunFrom([], g), e, t);
      forall i, k ensures Block(h, t, i, k) <==> Block(g, t, i, k) {
        if Block(h, t, i, k) { assert k != n; BlockShrinks(h, t, i, k); }
        if Block(g, t, i, k) { BlockGrows(h, t, i, k); }
      }
    } else if e.Remove? {
      RemoveLookup(RunFrom([], g), t, t);
    } else {
      SetLookup(RunFrom([], g), e.c, e.now, t);
      if before.Some? {
        var i0, k0 :| Block(g, t, i0, k0);
        ExtendBlock(h, t, i0, k0);
      } else {
        FreshBlock(g, h, t);
      }
      forall i, k | Block(h, t, i, k)
        ensures Lookup(RunFrom([], h), t) == Some(h[k].c.(
                  lastTransitionTime := if h[i].c.lastTransitionTime == 0 then h[i].now else h[i].c.lastTransitionTime))
      {
        assert k == n;
        if before.Some? {
          var i0, k0 :| Block(g, t, i0, k0);
          ExtendBlock(h, t, i0, k0);
          BlockStartUnique(h, t, i, if h[k0].c.status == e.c.status then i0 else n, n);
        } else {
          FreshBlock(g, h, t);
          BlockStartUnique(h, t, i, n, n);
        }
      }
    }
  }

  lemma BlockShrinks(h: seq<Event>, t: string, i: int, k: int)
    requires h != [] && Block(h, t, i, k) && k < |h| - 1
    ensures Block(h[..|h| - 1], t, i, k)
  {
    var g := h[..|h| - 1];
    assert forall j :: 0 <= j < |g| ==> g[j] == h[j];
  }

  lemma BlockGrows(h: seq<Event>, t: string, i: int, k: int)
    requires h != [] && Block(h[..|h| - 1], t, i, k) && TypeOf(h[|h| - 1]) != t
    ensures Block(h, t, i, k)
  {
    var g := h[..|h| - 1];
    assert forall j :: 0 <= j < |g| ==> g[j] == h[j];
  }

  lemma BlockStartUnique(h: seq<Event>, t: string, i: int, j: int, k: int)
    requires Block(h, t, i, k) && Block(h, t, j, k)
    ensures i == j
  {
    if i != j {
      var lo, hi := if i < j then i else j, if i < j then j else i;
      var p := LastBefore(h, t, lo, hi);
    }
  }

  /** The last call about `t` in `[lo, hi)`, when there is one at `lo`. */
  lemma {:induction false} LastBefore(h: seq<Event>, t: string, lo: int, hi: int) returns (p: int)
    requires 0 <= lo < hi <= |h| && TypeOf(h[lo]) == t
    ensures lo <= p < hi && TypeOf(h[p]) == t && forall j :: p < j < hi ==> TypeOf(h[j]) != t
    decreases hi - lo
  {
    if TypeOf(h[hi - 1]) == t {
      p := hi - 1;
    } else {
      p := LastBefore(h, t, lo, hi - 1);
    }
  }

  /** A set that follows a block either prolongs it or, with another status, starts the next one. */
  lemma ExtendBlock(h: seq<Event>, t: string, i: int, k: int)
    requires h != [] && Block(h[..|h| - 1], t, i, k)
    requires TypeOf(h[|h| - 1]) == t && h[|h| - 1].Set?
    ensures Block(h, t, if h[k].c.status == h[|h| - 1].c.status then i else |h| - 1, |h| - 1)
  {
    var g := h[..|h| - 1];
    assert forall j :: 0 <= j < |g| ==> g[j] == h[j];
  }

  /** A set of a type that is not in the list opens a block of its own. */
  lemma FreshBlock(g: seq<Event>, h: seq<Event>, t: string)
    requires h != [] && g == h[..|h| - 1] && TypeOf(h[|h| - 1]) == t && h[|h| - 1].Set?
    requires !exists i, k :: Block(g, t, i, k)
    ensures Block(h, t, |h| - 1, |h| - 1)
  {
    var n := |h| - 1;
    forall p | 0 <= p < n && TypeOf(h[p]) == t && (forall j :: p < j < n ==> TypeOf(h[j]) != t)
      ensures h[p].Remove?
    {
      if h[p].Set? {
        var i := BlockStart(g, t, p);
      }
    }
  }

  /** Every last set of a type belongs to a block. */
  lemma {:induction false} BlockStart(h: seq<Event>, t: string, k: int) returns (i: int)
    requires 0 <= k < |h| && TypeOf(h[k]) == t && h[k].Set?
    requires forall j :: k < j < |h| ==> TypeOf(h[j]) != t
    ensures Block(h, t, i, k)
  {
    i := k;
    while !Opens(h, t, i)
      invariant 0 <= i <= k && TypeOf(h[i]) == t
      invariant forall j :: i <= j < |h| && TypeOf(h[j]) == t ==> h[j].Set? && h[j].c.status == h[k].c.status
      decreases i
    {
      var p :|
        && 0 <= p < i && TypeOf(h[p]) == t && (forall j :: p < j < i ==> TypeOf(h[j]) != t)
        && h[p].Set? && h[p].c.status == h[i].c.status;
      i := p;
    }
  }

  // --- the list as the source keeps it: a slice updated in place ---

  function SetEvents(toSet: seq<Condition>, clock: seq<Time>): seq<Event>
    requires |clock| == |toSet|
  {
    seq(|toSet|, i requires 0 <= i < |toSet| => Set(toSet[i], clock[i]))
  }

  /** The calls come in the order of the conditions, each with its own clock reading. */
  lemma SetEventsEach(a: seq<Condition>, b: seq<Condition>, ta: seq<Time>, tb: seq<Time>, c: Condition, now: Time)
    requires |ta| == |a| && |tb| == |b|
    ensures SetEvents(a + b, ta + tb) == SetEvents(a, ta) + SetEvents(b, tb)
    ensures SetEvents([c], [now]) == [Set(c, now)]
  {
    assert forall i :: 0 <= i < |a + b| ==>
      SetEvents(a + b, ta + tb)[i] == if i < |a| then SetEvents(a, ta)[i] else SetEvents(b, tb)[i - |a|];
  }

  /** The recursive meaning of setting a condition, read off at the position the loop stops at. */
  lemma {:induction false} SetOneAt(cs: seq<Condition>, c: Condition, now: Time, k: nat)
    requires k <= |cs| && forall i :: 0 <= i < k ==> cs[i].ctype != c.ctype
    requires k < |cs| ==> cs[k].ctype == c.ctype
    ensures SetOne(cs, c, now) ==
            if k < |cs| then cs[k := Revise(cs[k], Stamped(c, now))] else cs + [Stamped(c, now)]
  {
    if k > 0 {
      var rest := cs[1..];
      SetOneAt(rest, c, now, k - 1);
      assert cs == [cs[0]] + rest;
      if k < |cs| {
        assert rest[k - 1] == cs[k];
        assert [cs[0]] + rest[k - 1 := Revise(cs[k], Stamped(c, now))] == cs[k := Revise(cs[k], Stamped(c, now))];
      } else {
        assert [cs[0]] + (rest + [Stamped(c, now)]) == cs + [Stamped(c, now)];
      }
    } else if cs != [] {
      assert [Revise(cs[0], Stamped(c, now))] + cs[1..] == cs[0 := Revise(cs[0], Stamped(c, now))];
    }
  }

  lemma {:induction false} RemoveTypeSnoc(cs: seq<Condition>, c: Condition, t: string)
    ensures RemoveType(cs + [c], t) == if c.ctype == t then RemoveType(cs, t) else RemoveType(cs, t) + [c]
  {
    if cs == [] {
      assert cs + [c] == [c];
    } else {
      assert (cs + [c])[1..] == cs[1..] + [c];
      RemoveTypeSnoc(cs[1..], c, t);
    }
  }

  lemma {:induction false} LookupAt(cs: seq<Condition>, t: string, k: nat)
    requires k <= |cs| && forall i :: 0 <= i < k ==> cs[i].ctype != t
    requires k < |cs| ==> cs[k].ctype == t
    ensures Lookup(cs, t) == if k < |cs| then Some(cs[k]) else None
  {
    if k > 0 {
      LookupAt(cs[1..], t, k - 1);
    }
  }

  /** The first entry of a type. */
  predicate First(cs: seq<Condition>, t: string, k: int) {
    0 <= k < |cs| && cs[k].ctype == t && forall j :: 0 <= j < k ==> cs[j].ctype != t
  }

  /** Removal goes entry by entry: it drops those of the type and keeps the others in order. */
  lemma {:induction false} RemoveEach(a: seq<Condition>, b: seq<Condition>, c: Condition, t: string)
    ensures RemoveType(a + b, t) == RemoveType(a, t) + RemoveType(b, t)
    ensures RemoveType([c], t) == if c.ctype == t then [] else [c]
  {
    assert [c][1..] == [];
    if a == [] {
      assert a + b == b;
    } else {
      assert (a + b)[1..] == a[1..] + b;
      RemoveEach(a[1..], b, c, t);
    }
  }

  class StatusConditions {
    var conditions: seq<Condition>

    constructor ()
      ensures conditions == []
    {
      conditions := [];
    }

    /** One round of the outer loop: find the entry of the type, update it if it differs, append it if there is none. */
    method SetCondition(toSet: Condition, now: Time)
      modifies this
      ensures conditions == SetOne(old(conditions), toSet, now)
      ensures (forall k :: 0 <= k < |old(conditions)| ==> old(conditions)[k].ctype != toSet.ctype) ==>
                conditions == old(conditions) + [toSet.(
                  lastTransitionTime := if toSet.lastTransitionTime == 0 then now else toSet.lastTransitionTime)]
      ensures forall k :: First(old(conditions), toSet.ctype, k) ==>
                conditions == old(conditions)[k := toSet.(
                  lastTransitionTime := if old(conditions)[k].status == toSet.status then old(conditions)[k].lastTransitionTime
                                        else if toSet.lastTransitionTime == 0 then now else toSet.lastTransitionTime)]
    {
      var c := toSet;
      if c.lastTransitionTime == ZERO {
        c := c.(lastTransitionTime := now);
      }
      var idx := 0;
      while idx < |conditions| && conditions[idx].ctype != c.ctype
        invariant 0 <= idx <= |conditions| && conditions == old(conditions)
        invariant forall i :: 0 <= i < idx ==> conditions[i].ctype != c.ctype
      {
        idx := idx + 1;
      }
      SetOneAt(conditions, toSet, now, idx);
      if idx == |conditions| {
        conditions := conditions + [c];
      } else if !conditions[idx].Equal(c) {
        if conditions[idx].status == c.status {
          c := c.(lastTransitionTime := conditions[idx].lastTransitionTime);
        }
        conditions := conditions[idx := c];
      }
      assert forall k :: First(old(conditions), toSet.ctype, k) ==> k == idx;
    }

    method SetConditions(toSet: seq<Condition>, clock: seq<Time>)
      requires |clock| == |toSet|
      modifies this
      ensures conditions == RunFrom(old(conditions), SetEvents(toSet, clock))
    {
      ghost var events := SetEvents(toSet, clock);
      for n := 0 to |toSet|
        invariant conditions == RunFrom(old(conditions), events[..n])
      {
        SetCondition(toSet[n], clock[n]);
        assert events[..n + 1][..n] == events[..n];
      }
      assert events[..|toSet|] == events;
    }

    method GetConditionByType(t: string) returns (r: Option<Condition>)
      ensures r == Lookup(conditions, t)
      ensures r.None? <==> forall k :: 0 <= k < |conditions| ==> conditions[k].ctype != t
      ensures forall k :: First(conditions, t, k) ==> r == Some(conditions[k])
    {
      for i := 0 to |conditions|
        invariant forall j :: 0 <= j < i ==> conditions[j].ctype != t
      {
        if conditions[i].ctype == t {
          LookupAt(conditions, t, i);
          return Some(conditions[i]);
        }
      }
      LookupAt(conditions, t, |conditions|);
      return None;
    }

    method RemoveCondition(t: string)
      modifies this
      ensures conditions == RemoveType(old(conditions), t)
    {
      var cs := conditions;
      var kept := [];
      for i := 0 to |cs|
        invariant kept == RemoveType(cs[..i], t)
      {
        RemoveTypeSnoc(cs[..i], cs[i], t);
        assert cs[..i + 1] == cs[..i] + [cs[i]];
        if cs[i].ctype != t {
          kept := kept + [cs[i]];
        }
      }
      assert cs[..|cs|] == cs;
      conditions := kept;
    }
  }
}
