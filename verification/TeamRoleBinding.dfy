/**
 The per-cluster propagation status of a TeamRoleBinding. `SetPropagationStatus` overwrites the entry of a
 cluster unconditionally, where `SetConditions` compares first; per cluster the two compute the same list.
 */
module TeamRoleBinding {
  import opened Options
  import opened Conditions

  const RBAC_READY := "RBACReady"

  datatype PropagationStatus = PropagationStatus(clusterName: string, condition: Condition)

  /**
   One call on the status. `SetPropagationStatus` reads the clock when it builds the condition (`now`) and
   once more when it appends a new entry (`later`).
   */
  datatype Call =
    | SetStatus(cluster: string, status: string, reason: string, message: string, now: Time, later: Time)
    | RemoveStatus(cluster: string)

  function Written(c: Call, current: Option<Condition>): Condition
    requires c.SetStatus?
  {
    var at := match current
      case None => c.later
      case Some(entry) => if entry.status == c.status then entry.lastTransitionTime else c.now;
    Condition(RBAC_READY, c.status, c.reason, at, c.message)
  }

  function Apply(ps: seq<PropagationStatus>, c: Call): seq<PropagationStatus> {
    if ps == [] then
      if c.SetStatus? then [PropagationStatus(c.cluster, Written(c, None))] else []
    else if ps[0].clusterName != c.cluster then [ps[0]] + Apply(ps[1..], c)
    else if c.SetStatus? then [PropagationStatus(c.cluster, Written(c, Some(ps[0].condition)))] + ps[1..]
    else Apply(ps[1..], c)
  }

  function Run(h: seq<Call>): seq<PropagationStatus> {
    if h == [] then [] else Apply(Run(h[..|h| - 1]), h[|h| - 1])
  }

  /** The conditions recorded for one cluster, in list order. */
  function ForCluster(ps: seq<PropagationStatus>, cluster: string): seq<Condition> {
    if ps == [] then []
    else if ps[0].clusterName == cluster then [ps[0].condition] + ForCluster(ps[1..], cluster)
    else ForCluster(ps[1..], cluster)
  }

  ghost predicate UniqueClusters(ps: seq<PropagationStatus>) {
    forall i, j :: 0 <= i < j < |ps| ==> ps[i].clusterName != ps[j].clusterName
  }

  /**
   The calls about one cluster as calls on a condition list of its own, each stamped with the clock reading
   that counts: the second one for a cluster that has no entry yet.
   */
  function AsConditionCalls(h: seq<Call>, cluster: string): seq<Event> {
    if h == [] then []
    else
      var before := AsConditionCalls(h[..|h| - 1], cluster);
      var c := h[|h| - 1];
      if c.cluster != cluster then before
      else if c.RemoveStatus? then before + [Remove(RBAC_READY)]
      else
        var at := if RunFrom([], before) == [] then c.later else c.now;
        before + [Set(Condition(RBAC_READY, c.status, c.reason, at, c.message), at)]
  }

  lemma {:induction false} ForClusterAbsent(ps: seq<PropagationStatus>, cluster: string)
    ensures ForCluster(ps, cluster) == [] <==> forall i :: 0 <= i < |ps| ==> ps[i].clusterName != cluster
  {
    if ps != [] {
      ForClusterAbsent(ps[1..], cluster);
      assert forall i :: 1 <= i < |ps| ==> ps[i] == ps[1..][i - 1];
    }
  }

  /** A call changes only the entries of its own cluster. */
  lemma {:induction false} ApplyOther(ps: seq<PropagationStatus>, c: Call, cluster: string)
    requires c.cluster != cluster
    ensures ForCluster(Apply(ps, c), cluster) == ForCluster(ps, cluster)
  {
    if ps != [] {
      ApplyOther(ps[1..], c, cluster);
    }
  }

  lemma {:induction false} ApplyOwn(ps: seq<PropagationStatus>, c: Call)
    requires UniqueClusters(ps)
    ensures var mine := ForCluster(ps, c.cluster);
            && |mine| <= 1
            && ForCluster(Apply(ps, c), c.cluster) ==
               if c.RemoveStatus? then []
               else [Written(c, if mine == [] then None else Some(mine[0]))]
  {
    if ps != [] {
      ForClusterAbsent(ps[1..], c.cluster);
      ApplyOwn(ps[1..], c);
      if ps[0].clusterName == c.cluster {
        assert ForCluster(ps[1..], c.cluster) == [] by {
          assert forall i :: 0 <= i < |ps[1..]| ==> ps[1..][i] == ps[i + 1];
        }
      }
    }
  }

  lemma {:induction false} ApplyUnique(ps: seq<PropagationStatus>, c: Call)
    requires UniqueClusters(ps)
    ensures UniqueClusters(Apply(ps, c))
  {
    if ps != [] {
      ApplyUnique(ps[1..], c);
      if ps[0].clusterName != c.cluster {
        ApplyOther(ps[1..], c, ps[0].clusterName);
        ForClusterAbsent(ps[1..], ps[0].clusterName);
        ForClusterAbsent(Apply(ps[1..], c), ps[0].clusterName);
      }
    }
  }

  /** Cluster names stay unique over every history. */
  lemma {:induction false} HistoryUnique(h: seq<Call>)
    ensures UniqueClusters(Run(h))
  {
    if h != [] {
      HistoryUnique(h[..|h| - 1]);
      ApplyUnique(Run(h[..|h| - 1]), h[|h| - 1]);
    }
  }

  /** The list of one cluster: at most one condition, of the type RBACReady. */
  predicate Single(mine: seq<Condition>) {
    |mine| <= 1 && (mine != [] ==> mine[0].ctype == RBAC_READY)
  }

  lemma SetMatches(mine: seq<Condition>, c: Call)
    requires Single(mine) && c.SetStatus?
    ensures var at := if mine == [] then c.later else c.now;
            Step(mine, Set(Condition(RBAC_READY, c.status, c.reason, at, c.message), at)) ==
            [Written(c, if mine == [] then None else Some(mine[0]))]
  {
    if mine != [] {
      assert mine == [mine[0]] && mine[1..] == [];
    }
  }

  lemma RemoveMatches(mine: seq<Condition>)
    requires Single(mine)
    ensures Step(mine, Remove(RBAC_READY)) == []
  {
    if mine != [] {
      assert mine[1..] == [] && RemoveType([], RBAC_READY) == [];
      assert RemoveType(mine[1..], RBAC_READY) == [];
    }
  }

  lemma RunSnoc(h: seq<Event>, e: Event)
    ensures RunFrom([], h + [e]) == Step(RunFrom([], h), e)
  {
    assert (h + [e])[..|h|] == h;
  }

  /** Per cluster, every history leaves exactly what `SetConditions` would have left, transition time included. */
  lemma {:induction false} SameAsSetConditions(h: seq<Call>, cluster: string)
    ensures ForCluster(Run(h), cluster) == RunFrom([], AsConditionCalls(h, cluster))
    ensures Single(ForCluster(Run(h), cluster))
  {
    if h != [] {
      var g, c := h[..|h| - 1], h[|h| - 1];
      SameAsSetConditions(g, cluster);
      if c.cluster != cluster {
        ApplyOther(Run(g), c, cluster);
      } else {
        HistoryUnique(g);
        ApplyOwn(Run(g), c);
        var before, mine := AsConditionCalls(g, cluster), ForCluster(Run(g), cluster);
        if c.RemoveStatus? {
          RunSnoc(before, Remove(RBAC_READY));
          RemoveMatches(mine);
        } else {
          var at := if mine == [] then c.later else c.now;
          RunSnoc(before, Set(Condition(RBAC_READY, c.status, c.reason, at, c.message), at));
          SetMatches(mine, c);
        }
      }
    }
  }

  lemma {:induction false} ApplyAt(ps: seq<PropagationStatus>, c: Call, k: nat)
    requires c.SetStatus? && k <= |ps| && forall i :: 0 <= i < k ==> ps[i].clusterName != c.cluster
    requires k < |ps| ==> ps[k].clusterName == c.cluster
    ensures Apply(ps, c) ==
            if k < |ps| then ps[k := PropagationStatus(c.cluster, Written(c, Some(ps[k].condition)))]
            else ps + [PropagationStatus(c.cluster, Written(c, None))]
  {
    if k > 0 {
      var rest := ps[1..];
      ApplyAt(rest, c, k - 1);
      assert ps == [ps[0]] + rest;
      if k < |ps| {
        var written := PropagationStatus(c.cluster, Written(c, Some(ps[k].condition)));
        assert rest[k - 1] == ps[k];
        assert [ps[0]] + rest[k - 1 := written] == ps[k := written];
      } else {
        var added := PropagationStatus(c.cluster, Written(c, None));
        assert [ps[0]] + (rest + [added]) == ps + [added];
      }
    } else if ps != [] {
      var written := PropagationStatus(c.cluster, Written(c, Some(ps[0].condition)));
      assert [written] + ps[1..] == ps[0 := written];
    }
  }

  /** Removal goes entry by entry: it drops those of the cluster and keeps the others in order. */
  lemma {:induction false} RemoveSnoc(ps: seq<PropagationStatus>, p: PropagationStatus, cluster: string)
    ensures Apply(ps + [p], RemoveStatus(cluster)) ==
            Apply(ps, RemoveStatus(cluster)) + if p.clusterName == cluster then [] else [p]
  {
    if ps == [] {
      assert ps + [p] == [p];
    } else {
      assert (ps + [p])[1..] == ps[1..] + [p];
      RemoveSnoc(ps[1..], p, cluster);
    }
  }

  /** The first entry of a cluster. */
  predicate FirstOf(ps: seq<PropagationStatus>, cluster: string, k: int) {
    0 <= k < |ps| && ps[k].clusterName == cluster && forall j :: 0 <= j < k ==> ps[j].clusterName != cluster
  }

  class TeamRoleBinding {
    var propagationStatus: seq<PropagationStatus>

    method SetPropagationStatus(cluster: string, rbacReady: string, reason: string, message: string, now: Time, later: Time)
      modifies this
      ensures propagationStatus ==
              Apply(old(propagationStatus), SetStatus(cluster, rbacReady, reason, message, now, later))
      ensures (forall k :: 0 <= k < |old(propagationStatus)| ==> old(propagationStatus)[k].clusterName != cluster) ==>
                propagationStatus == old(propagationStatus)
                                     + [PropagationStatus(cluster, Condition("RBACReady", rbacReady, reason, later, message))]
      ensures forall k :: FirstOf(old(propagationStatus), cluster, k) ==>
                var current := old(propagationStatus)[k].condition;
                var at := if current.status == rbacReady then current.lastTransitionTime else now;
                propagationStatus == old(propagationStatus)[
                  k := PropagationStatus(cluster, Condition("RBACReady", rbacReady, reason, at, message))]
    {
      ghost var call := SetStatus(cluster, rbacReady, reason, message, now, later);
      var condition := Condition(RBAC_READY, rbacReady, reason, now, message);
      var ps := propagationStatus;
      for i := 0 to |ps|
        invariant forall j :: 0 <= j < i ==> ps[j].clusterName != cluster
        invariant propagationStatus == ps
      {
        if ps[i].clusterName != cluster {
          continue;
        }
        if ps[i].condition.status == rbacReady {
          condition := condition.(lastTransitionTime := ps[i].condition.lastTransitionTime);
        }
        ApplyAt(ps, call, i);
        propagationStatus := ps[i := ps[i].(condition := condition)];
        assert forall k :: FirstOf(ps, cluster, k) ==> k == i;
        return;
      }
      ApplyAt(ps, call, |ps|);
      condition := condition.(lastTransitionTime := later);
      propagationStatus := ps + [PropagationStatus(cluster, condition)];
    }

    method RemovePropagationStatus(cluster: string)
      modifies this
      ensures propagationStatus == Apply(old(propagationStatus), RemoveStatus(cluster))
    {
      var ps := propagationStatus;
      var kept := [];
      for i := 0 to |ps|
        invariant kept == Apply(ps[..i], RemoveStatus(cluster))
      {
        RemoveSnoc(ps[..i], ps[i], cluster);
        assert ps[..i + 1] == ps[..i] + [ps[i]];
        if ps[i].clusterName != cluster {
          kept := kept + [ps[i]];
        }
      }
      assert ps[..|ps|] == ps;
      propagationStatus := kept;
    }
  }
}
