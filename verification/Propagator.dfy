/** The Propagator as the source runs it: loops that write and delete entries of the destination's maps. */
module Propagators {
  import opened Options
  import opened StringOps
  import opened Propagation

  class Object {
    var labels: Strings
    var annotations: Strings

    function Snapshot(): Meta
      reads this
    {
      Meta(labels, annotations)
    }
  }

  /** labelKeysToPropagate and annotationKeysToPropagate, on the text of the annotation. */
  method KeysToPropagate(text: string) returns (ks: seq<string>)
    ensures ks == DeclaredKeys(text)
  {
    var annotation := TrimSpace(text);
    if annotation == "" {
      return [];
    }
    var parts := SplitComma(annotation);
    ks := [];
    for i := 0 to |parts|
      invariant ks == NonEmptyTrimmed(parts[..i])
    {
      assert parts[..i + 1][..i] == parts[..i];
      var k := TrimSpace(parts[i]);
      if k != "" {
        ks := ks + [k];
      }
    }
    assert parts[..|parts|] == parts;
  }

  /** The exact keys of a declaration and the prefixes its wildcards stand for. */
  function Exact(ks: seq<string>): seq<string> {
    if ks == [] then []
    else Exact(ks[..|ks| - 1]) + (if IsWild(ks[|ks| - 1]) then [] else [ks[|ks| - 1]])
  }

  function Prefixes(ks: seq<string>): seq<string> {
    if ks == [] then []
    else
      var d := ks[|ks| - 1];
      Prefixes(ks[..|ks| - 1]) + (if IsWild(d) then [d[..|d| - 1]] else [])
  }

  predicate Matches(prefixes: seq<string>, k: string) {
    exists i :: 0 <= i < |prefixes| && HasPrefix(k, prefixes[i])
  }

  lemma MatchesSnoc(ps: seq<string>, p: string, k: string)
    ensures Matches(ps + [p], k) <==> Matches(ps, k) || HasPrefix(k, p)
  {
    var all := ps + [p];
    assert all[|ps|] == p && forall i :: 0 <= i < |ps| ==> all[i] == ps[i];
  }

  lemma SelectsSnoc(ks: seq<string>, d: string, k: string)
    ensures Selects(ks + [d], k) <==> Selects(ks, k) || Declares(d, k)
  {
    var all := ks + [d];
    assert all[|ks|] == d && forall i :: 0 <= i < |ks| ==> all[i] == ks[i];
  }

  /** A key is selected when it is an exact key or matches a prefix. */
  lemma {:induction false} SelectsSplit(ks: seq<string>, k: string)
    ensures Selects(ks, k) <==> k in Exact(ks) || Matches(Prefixes(ks), k)
  {
    if ks != [] {
      var most, d := ks[..|ks| - 1], ks[|ks| - 1];
      SelectsSplit(most, k);
      SelectsSnoc(most, d, k);
      assert ks == most + [d];
      if IsWild(d) {
        MatchesSnoc(Prefixes(most), d[..|d| - 1], k);
        assert Exact(ks) == Exact(most);
      } else {
        assert Prefixes(ks) == Prefixes(most);
      }
    }
  }

  method SplitKeys(ks: seq<string>) returns (exact: seq<string>, prefixes: seq<string>)
    ensures exact == Exact(ks) && prefixes == Prefixes(ks)
  {
    exact, prefixes := [], [];
    for i := 0 to |ks|
      invariant exact == Exact(ks[..i]) && prefixes == Prefixes(ks[..i])
    {
      assert ks[..i + 1][..i] == ks[..i];
      var d := ks[i];
      if IsWild(d) {
        prefixes := prefixes + [d[..|d| - 1]];
      } else {
        exact := exact + [d];
      }
    }
    assert ks[..|ks|] == ks;
  }

  method MatchesAny(prefixes: seq<string>, k: string) returns (r: bool)
    ensures r <==> Matches(prefixes, k)
  {
    for i := 0 to |prefixes|
      invariant !Matches(prefixes[..i], k)
    {
      if HasPrefix(k, prefixes[i]) {
        return true;
      }
      MatchesSnoc(prefixes[..i], prefixes[i], k);
      assert prefixes[..i + 1] == prefixes[..i] + [prefixes[i]];
    }
    assert prefixes[..|prefixes|] == prefixes;
    return false;
  }

  /** The keys among `ks` that match a prefix. */
  function Hits(prefixes: seq<string>, ks: set<string>): set<string> {
    set k | k in ks && Matches(prefixes, k)
  }

  lemma HitsAdd(prefixes: seq<string>, ks: set<string>, k: string)
    ensures Hits(prefixes, ks + {k}) == Hits(prefixes, ks) + if Matches(prefixes, k) then {k} else {}
  {
  }

  lemma SelectedSplit(ks: seq<string>, labels: Strings)
    ensures Selected(ks, labels) == Restrict(labels, Elements(Exact(ks)) * labels.Keys + Hits(Prefixes(ks), labels.Keys))
    ensures Selected(ks, labels).Keys == Elements(Exact(ks)) * labels.Keys + Hits(Prefixes(ks), labels.Keys)
  {
    forall k | k in labels ensures Selects(ks, k) <==> k in Elements(Exact(ks)) || k in Hits(Prefixes(ks), labels.Keys) {
      SelectsSplit(ks, k);
    }
  }

  // --- single writes and deletes ---

  lemma WriteOne(base: Strings, from: Strings, done: set<string>, k: string)
    requires k in from
    ensures (base + Restrict(from, done))[k := from[k]] == base + Restrict(from, done + {k})
  {
  }

  lemma WriteBoth(base: Strings, from: Strings, a: set<string>, b: set<string>)
    ensures base + Restrict(from, a) + Restrict(from, b) == base + Restrict(from, a + b)
  {
  }

  lemma DeleteOne(base: Strings, gone: set<string>, k: string)
    ensures (base - gone) - {k} == base - (gone + {k})
  {
  }

  class Propagator {
    const src: Object
    const dst: Object
    const codec: Codec

    constructor (src: Object, dst: Object, codec: Codec)
      ensures this.src == src && this.dst == dst && this.codec == codec
    {
      this.src, this.dst, this.codec := src, dst, codec;
    }

    /** Writes the labels that are exact keys of the declaration and lists them in order. */
    method CopyExact(exact: seq<string>, srcLabels: Strings) returns (applied: seq<string>)
      modifies dst`labels
      ensures Elements(applied) == Elements(exact) * srcLabels.Keys
      ensures dst.labels == old(dst.labels) + Restrict(srcLabels, Elements(applied))
    {
      applied := [];
      for i := 0 to |exact|
        invariant Elements(applied) == Elements(exact[..i]) * srcLabels.Keys
        invariant dst.labels == old(dst.labels) + Restrict(srcLabels, Elements(applied))
      {
        var k := exact[i];
        assert exact[..i + 1] == exact[..i] + [k];
        ElementsSnoc(exact[..i], k);
        if k in srcLabels {
          WriteOne(old(dst.labels), srcLabels, Elements(applied), k);
          ElementsSnoc(applied, k);
          dst.labels := dst.labels[k := srcLabels[k]];
          applied := applied + [k];
        }
      }
      assert exact[..|exact|] == exact;
    }

    /** Writes the labels that match a wildcard, in any order, and adds those that are not exact keys to the list. */
    method CopyMatching(exact: seq<string>, prefixes: seq<string>, srcLabels: Strings, before: seq<string>)
      returns (applied: seq<string>)
      requires Elements(before) == Elements(exact) * srcLabels.Keys
      modifies dst`labels
      ensures Elements(applied) == Elements(before) + Hits(prefixes, srcLabels.Keys)
      ensures dst.labels == old(dst.labels) + Restrict(srcLabels, Hits(prefixes, srcLabels.Keys))
    {
      applied := before;
      var rest := srcLabels.Keys;
      ghost var done: set<string> := {};
      while rest != {}
        invariant rest <= srcLabels.Keys && done == srcLabels.Keys - rest
        invariant Elements(applied) == Elements(before) + Hits(prefixes, done)
        invariant dst.labels == old(dst.labels) + Restrict(srcLabels, Hits(prefixes, done))
        decreases rest
      {
        var k :| k in rest;
        var hit := MatchesAny(prefixes, k);
        HitsAdd(prefixes, done, k);
        if hit {
          WriteOne(old(dst.labels), srcLabels, Hits(prefixes, done), k);
          dst.labels := dst.labels[k := srcLabels[k]];
          if k !in exact {
            ElementsSnoc(applied, k);
            applied := applied + [k];
          } else {
            assert k in Elements(before);
          }
        }
        rest := rest - {k};
        done := done + {k};
      }
      assert done == srcLabels.Keys;
    }

    method DeleteLabels(stale: seq<string>, keep: seq<string>)
      modifies dst`labels
      ensures dst.labels == old(dst.labels) - (Elements(stale) - Elements(keep))
    {
      for i := 0 to |stale|
        invariant dst.labels == old(dst.labels) - (Elements(stale[..i]) - Elements(keep))
      {
        assert stale[..i + 1] == stale[..i] + [stale[i]];
        ElementsSnoc(stale[..i], stale[i]);
        if stale[i] !in keep {
          DeleteOne(old(dst.labels), Elements(stale[..i]) - Elements(keep), stale[i]);
          dst.labels := dst.labels - {stale[i]};
          assert Elements(stale[..i]) - Elements(keep) + {stale[i]} == Elements(stale[..i + 1]) - Elements(keep);
        } else {
          assert Elements(stale[..i]) - Elements(keep) == Elements(stale[..i + 1]) - Elements(keep);
        }
      }
      assert stale[..|stale|] == stale;
    }

    /** The two copying loops shared by CopyLabels and Apply. */
    method CopySelected(ks: seq<string>, srcLabels: Strings) returns (applied: seq<string>)
      modifies dst`labels
      ensures Elements(applied) == Selected(ks, srcLabels).Keys
      ensures dst.labels == old(dst.labels) + Selected(ks, srcLabels)
    {
      var exact, prefixes := SplitKeys(ks);
      var first := CopyExact(exact, srcLabels);
      applied := CopyMatching(exact, prefixes, srcLabels, first);
      WriteBoth(old(dst.labels), srcLabels, Elements(first), Hits(prefixes, srcLabels.Keys));
      SelectedSplit(ks, srcLabels);
    }

    /** CopyLabels: no tracking. Source and destination may be one object: a copied entry is then the one already there. */
    method CopyLabels(labelKeys: seq<string>)
      modifies dst`labels
      ensures dst.labels == old(dst.labels) + Selected(labelKeys, old(src.labels))
      ensures forall k :: Look(dst.labels, k) ==
                          if k in old(src.labels) && Declared(labelKeys, k) then Some(old(src.labels)[k])
                          else Look(old(dst.labels), k)
    {
      forall k ensures Selects(labelKeys, k) <==> Declared(labelKeys, k) {
        SelectsExactly(labelKeys, k);
      }
      if labelKeys == [] {
        assert Selected(labelKeys, src.labels) == map[];
        return;
      }
      var _ := CopySelected(labelKeys, src.labels);
    }

    method ContainsLabelToPropagate(ks: seq<string>, srcLabels: Strings) returns (r: bool)
      ensures r <==> Selected(ks, srcLabels).Keys != {}
    {
      SelectedSplit(ks, srcLabels);
      var exact, prefixes := SplitKeys(ks);
      for i := 0 to |exact|
        invariant forall j :: 0 <= j < i ==> exact[j] !in srcLabels
      {
        if exact[i] in srcLabels {
          assert exact[i] in Elements(exact) * srcLabels.Keys;
          return true;
        }
      }
      var rest := srcLabels.Keys;
      while rest != {}
        invariant rest <= srcLabels.Keys
        invariant forall k :: k in srcLabels && k !in rest ==> !Matches(prefixes, k)
        decreases rest
      {
        var k :| k in rest;
        var hit := MatchesAny(prefixes, k);
        if hit {
          assert k in Hits(prefixes, srcLabels.Keys);
          return true;
        }
        rest := rest - {k};
      }
      return false;
    }

    /** Deleting the tracked keys that were not written again is dropping them all before writing. */
    lemma DropThenWrite(base: Strings, sel: Strings, tracked: set<string>)
      ensures (base + sel) - (tracked - sel.Keys) == (base - tracked) + sel
    {
    }

    method ApplyLabels(ks: seq<string>, srcLabels: Strings) returns (applied: seq<string>)
      modifies dst`labels
      ensures Elements(applied) == Selected(ks, srcLabels).Keys
      ensures dst.labels ==
              (old(dst.labels) - Elements(Tracked(codec, old(dst.Snapshot())).labelKeys)) + Selected(ks, srcLabels)
    {
      var state := Tracked(codec, dst.Snapshot());
      DropThenWrite(dst.labels, Selected(ks, srcLabels), Elements(state.labelKeys));
      var any := ContainsLabelToPropagate(ks, srcLabels);
      if !any {
        DeleteLabels(state.labelKeys, []);
        applied := [];
        assert Selected(ks, srcLabels) == map[] && Elements(applied) == {};
      } else {
        applied := CopySelected(ks, srcLabels);
        DeleteLabels(state.labelKeys, applied);
      }
    }

    method DeleteAnnotations(stale: seq<string>, keys: seq<string>, srcAnnotations: Strings)
      modifies dst`annotations
      ensures dst.annotations ==
              old(dst.annotations) - (set k | k in stale && (k !in keys || Get(srcAnnotations, k) == ""))
    {
      ghost var gone: set<string> := {};
      for i := 0 to |stale|
        invariant gone == set k | k in stale[..i] && (k !in keys || Get(srcAnnotations, k) == "")
        invariant dst.annotations == old(dst.annotations) - gone
      {
        assert stale[..i + 1] == stale[..i] + [stale[i]];
        if stale[i] !in keys || Get(srcAnnotations, stale[i]) == "" {
          DeleteOne(old(dst.annotations), gone, stale[i]);
          dst.annotations := dst.annotations - {stale[i]};
          gone := gone + {stale[i]};
        }
      }
      assert stale[..|stale|] == stale;
    }

    method WriteAnnotations(ks: seq<string>, srcAnnotations: Strings) returns (applied: seq<string>)
      modifies dst`annotations
      ensures Elements(applied) == Elements(ks) * srcAnnotations.Keys
      ensures dst.annotations == old(dst.annotations) + Restrict(srcAnnotations, Elements(applied))
    {
      applied := [];
      for i := 0 to |ks|
        invariant Elements(applied) == Elements(ks[..i]) * srcAnnotations.Keys
        invariant dst.annotations == old(dst.annotations) + Restrict(srcAnnotations, Elements(applied))
      {
        var k := ks[i];
        assert ks[..i + 1] == ks[..i] + [k];
        ElementsSnoc(ks[..i], k);
        if k in srcAnnotations {
          WriteOne(old(dst.annotations), srcAnnotations, Elements(applied), k);
          ElementsSnoc(applied, k);
          dst.annotations := dst.annotations[k := srcAnnotations[k]];
          applied := applied + [k];
        }
      }
      assert ks[..|ks|] == ks;
    }

    /** The stale keys when the source holds none of the declared keys: all of them. */
    lemma AllStale(tracked: seq<string>, ks: seq<string>, srcAnnotations: Strings)
      requires Elements(ks) * srcAnnotations.Keys == {}
      ensures (set k | k in tracked && (k !in ks || Get(srcAnnotations, k) == "")) == Elements(tracked)
    {
      forall k | k in ks ensures k !in srcAnnotations {
        assert k in Elements(ks) && k !in Elements(ks) * srcAnnotations.Keys;
      }
    }

    method ContainsAnnotationToPropagate(ks: seq<string>, srcAnnotations: Strings) returns (r: bool)
      ensures r <==> Elements(ks) * srcAnnotations.Keys != {}
    {
      for i := 0 to |ks|
        invariant forall j :: 0 <= j < i ==> ks[j] !in srcAnnotations
      {
        if ks[i] in srcAnnotations {
          assert ks[i] in Elements(ks) * srcAnnotations.Keys;
          return true;
        }
      }
      return false;
    }

    method ApplyAnnotations(ks: seq<string>, srcAnnotations: Strings) returns (applied: seq<string>)
      modifies dst`annotations
      ensures Elements(applied) == Elements(ks) * srcAnnotations.Keys
      ensures var tracked := Tracked(codec, old(dst.Snapshot())).annotationKeys;
              dst.annotations == old(dst.annotations) + Restrict(srcAnnotations, Elements(applied))
                                 - (set k | k in tracked && (k !in ks || Get(srcAnnotations, k) == ""))
    {
      var state := Tracked(codec, dst.Snapshot());
      var any := ContainsAnnotationToPropagate(ks, srcAnnotations);
      if !any {
        AllStale(state.annotationKeys, ks, srcAnnotations);
        AllStale(state.annotationKeys, [], srcAnnotations);
        DeleteAnnotations(state.annotationKeys, [], srcAnnotations);
        applied := [];
        assert Elements(applied) == {} && Restrict(srcAnnotations, {}) == map[];
        assert old(dst.annotations) + map[] == old(dst.annotations);
      } else {
        applied := WriteAnnotations(ks, srcAnnotations);
        DeleteAnnotations(state.annotationKeys, ks, srcAnnotations);
      }
    }

    lemma Composed(source: Meta, target: Meta, labels: Strings, annotations: Strings, applied: AppliedState)
      requires Elements(applied.labelKeys) == SelectedLabels(source).Keys
      requires labels == (target.labels - Elements(Tracked(codec, target).labelKeys)) + SelectedLabels(source)
      requires Elements(applied.annotationKeys) == Elements(AnnotationKeys(source)) * source.annotations.Keys
      requires annotations == target.annotations + Restrict(source.annotations, Elements(applied.annotationKeys))
                              - StaleAnnotations(source, Tracked(codec, target).annotationKeys)
      ensures Applies(codec, source, target, Meta(labels, Track(codec, annotations, applied)), applied)
    {
      RestrictKeys(source.annotations, AnnotationKeys(source), applied.annotationKeys);
    }

    /**
     Apply; the applied keys are returned beside the updated destination. Source and destination may be one object: the
     loops then write back what they read, and each deletion looks only at its own key. On a destination that tracks
     nothing the labels change as CopyLabels would change them.
     */
    method Apply() returns (applied: AppliedState)
      modifies dst
      ensures Applies(codec, old(src.Snapshot()), old(dst.Snapshot()), dst.Snapshot(), applied)
      ensures Tracked(codec, old(dst.Snapshot())) == NOTHING ==>
                dst.labels == old(dst.labels) + Selected(LabelKeys(old(src.Snapshot())), old(src.labels))
      ensures var ks := Declaration(old(src.Snapshot()), "greenhouse.sap/propagate-labels");
              var tracked := Tracked(codec, old(dst.Snapshot())).labelKeys;
              forall k :: Look(dst.labels, k) ==
                          if k in old(src.labels) && Declared(ks, k) then Some(old(src.labels)[k])
                          else if k in tracked then None
                          else Look(old(dst.labels), k)
    {
      var labelKeys := KeysToPropagate(Get(src.annotations, PROPAGATE_LABELS));
      var annotationKeys := KeysToPropagate(Get(src.annotations, PROPAGATE_ANNOTATIONS));
      var appliedLabels := ApplyLabels(labelKeys, src.labels);
      ghost var labels := dst.labels;
      assert Tracked(codec, dst.Snapshot()) == Tracked(codec, old(dst.Snapshot()));
      var appliedAnnotations := ApplyAnnotations(annotationKeys, src.annotations);
      applied := AppliedState(appliedLabels, appliedAnnotations);
      Composed(old(src.Snapshot()), old(dst.Snapshot()), labels, dst.annotations, applied);
      if |appliedLabels| > 0 || |appliedAnnotations| > 0 {
        dst.annotations := dst.annotations[TRACKING := codec.encode(applied)];
      } else {
        dst.annotations := dst.annotations - {TRACKING};
      }
      if Tracked(codec, old(dst.Snapshot())) == NOTHING {
        ApplyUntracked(codec, old(src.Snapshot()), old(dst.Snapshot()), dst.Snapshot(), applied);
      }
      forall k ensures Look(dst.labels, k) ==
                       if k in old(src.labels) && Declared(Declaration(old(src.Snapshot()), "greenhouse.sap/propagate-labels"), k)
                       then Some(old(src.labels)[k])
                       else if k in Tracked(codec, old(dst.Snapshot())).labelKeys then None
                       else Look(old(dst.labels), k)
      {
        AppliesExactly(codec, old(src.Snapshot()), old(dst.Snapshot()), dst.Snapshot(), applied, k);
      }
    }

    lemma RestrictKeys(from: Strings, ks: seq<string>, applied: seq<string>)
      requires Elements(applied) == Elements(ks) * from.Keys
      ensures Restrict(from, Elements(applied)) == Restrict(from, Elements(ks))
      ensures Elements(applied) == Restrict(from, Elements(ks)).Keys
    {
    }
  }
}
