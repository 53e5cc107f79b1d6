/**
 Helm values: the recursive merge of nested value maps, in which the right map wins.

 A value that is not a map (a string, a number, a list) is a leaf; its content is opaque.
 */
module HelmValues {
  import opened Options

  datatype Value = Leaf(raw: string) | Node(m: map<string, Value>)

  type Values = map<string, Value>

  function Merge(a: Values, b: Values): Values
    decreases Node(b)
  {
    map k | k in a.Keys + b.Keys :: MergeAt(a, b, k)
  }

  /** The merged value of one key. */
  function MergeAt(a: Values, b: Values, k: string): Value
    requires k in a || k in b
    decreases Node(b), 0
  {
    if k !in b then a[k]
    else if b[k].Node? && k in a && a[k].Node? then
      assert b[k] == Node(b[k].m);
      Node(Merge(a[k].m, b[k].m))
    else b[k]
  }

  // --- what the merge is at every path ---

  /** The value at a path of keys. */
  function At(v: Value, p: seq<string>): Option<Value> {
    if p == [] then Some(v)
    else if v.Node? && p[0] in v.m then At(v.m[p[0]], p[1..])
    else None
  }

  /** A leaf sits at a proper prefix of the path. */
  ghost predicate Cuts(v: Value, p: seq<string>) {
    exists n :: 0 <= n < |p| && LeafAt(v, p[..n])
  }

  predicate LeafAt(v: Value, p: seq<string>) {
    At(v, p).Some? && At(v, p).value.Leaf?
  }

  lemma CutsBelow(v: Value, p: seq<string>)
    requires p != [] && v.Node?
    ensures Cuts(v, p) <==> p[0] in v.m && Cuts(v.m[p[0]], p[1..])
  {
    assert !LeafAt(v, p[..0]);
    forall n | 0 < n < |p| ensures LeafAt(v, p[..n]) <==> p[0] in v.m && LeafAt(v.m[p[0]], p[1..][..n - 1]) {
      assert p[..n][1..] == p[1..][..n - 1] && p[..n][0] == p[0];
    }
    if p[0] in v.m && Cuts(v.m[p[0]], p[1..]) {
      var n :| 0 <= n < |p[1..]| && LeafAt(v.m[p[0]], p[1..][..n]);
      assert p[1..][..n] == p[1..][..(n + 1) - 1];
      assert LeafAt(v, p[..n + 1]);
    }
  }

  /** The value the merge of `a` and `b` ought to have at `p`, read off the two maps. */
  ghost function Expected(a: Values, b: Values, p: seq<string>): Option<Value> {
    match At(Node(b), p)
    case Some(Leaf(raw)) => Some(Leaf(raw))
    case Some(Node(n)) =>
      (match At(Node(a), p)
       case Some(Node(m)) => Some(Node(Merge(m, n)))
       case _ => Some(Node(n)))
    case None => if Cuts(Node(b), p) then None else At(Node(a), p)
  }

  /**
   Leaves of the right map win, maps at the same path merge, and a path the right map neither defines nor cuts
   with a leaf comes from the left map.
   */
  lemma MergeExact(a: Values, b: Values, p: seq<string>)
    ensures forall raw :: At(Node(b), p) == Some(Leaf(raw)) ==> At(Node(Merge(a, b)), p) == Some(Leaf(raw))
    ensures At(Node(b), p).None? && Cuts(Node(b), p) ==> At(Node(Merge(a, b)), p).None?
    ensures At(Node(b), p).None? && !Cuts(Node(b), p) ==> At(Node(Merge(a, b)), p) == At(Node(a), p)
    ensures forall m, n :: At(Node(a), p) == Some(Node(m)) && At(Node(b), p) == Some(Node(n)) ==>
              At(Node(Merge(a, b)), p).Some? && At(Node(Merge(a, b)), p).value.Node?
              && At(Node(Merge(a, b)), p).value.m.Keys == m.Keys + n.Keys
    ensures forall n :: At(Node(b), p) == Some(Node(n)) && !(At(Node(a), p).Some? && At(Node(a), p).value.Node?) ==>
              At(Node(Merge(a, b)), p) == Some(Node(n))
  {
    MergeExpected(a, b, p);
  }

  lemma {:induction false} MergeExpected(a: Values, b: Values, p: seq<string>)
    ensures At(Node(Merge(a, b)), p) == Expected(a, b, p)
    decreases |p|
  {
    if p != [] {
      var k := p[0];
      CutsBelow(Node(b), p);
      if k in b {
        if b[k].Node? && k in a && a[k].Node? {
          MergeExpected(a[k].m, b[k].m, p[1..]);
          assert a[k] == Node(a[k].m) && b[k] == Node(b[k].m);
        } else {
          BesidesLeft(a, b, p);
        }
      }
    }
  }

  /** Where the left map has no map under the first key, the right map alone decides. */
  lemma BesidesLeft(a: Values, b: Values, p: seq<string>)
    requires p != [] && p[0] in b && !(b[p[0]].Node? && p[0] in a && a[p[0]].Node?)
    ensures At(b[p[0]], p[1..]) == Expected(a, b, p)
  {
    CutsBelow(Node(b), p);
    assert At(Node(b), p) == At(b[p[0]], p[1..]);
    assert At(Node(a), p) == if p[0] in a then At(a[p[0]], p[1..]) else None;
    if |p| > 1 {
      assert b[p[0]].Leaf? ==> LeafAt(b[p[0]], p[1..][..0]);
    } else {
      assert p[1..] == [];
    }
  }

  // --- laws ---

  /** Everything in `x` is overridden by `z`. */
  predicate Covered(x: Values, z: Values)
    decreases Node(z), 0
  {
    forall k :: k in x ==> k in z && CoveredAt(x[k], z[k])
  }

  predicate CoveredAt(x: Value, z: Value)
    decreases z, 1
  {
    if x.Node? && z.Node? then
      assert z == Node(z.m);
      Covered(x.m, z.m)
    else true
  }

  /** Merging leaves the right map alone exactly when it covers the left one. */
  lemma {:induction false} MergeIntoCover(x: Values, z: Values)
    ensures Merge(x, z) == z <==> Covered(x, z)
    decreases Node(z)
  {
    forall k | k in x && k in z && x[k].Node? && z[k].Node?
      ensures MergeAt(x, z, k) == z[k] <==> CoveredAt(x[k], z[k])
    {
      assert z[k] == Node(z[k].m);
      MergeIntoCover(x[k].m, z[k].m);
    }
    if Merge(x, z) == z {
      forall k | k in x ensures k in z && CoveredAt(x[k], z[k]) {
        assert k in Merge(x, z);
        assert Merge(x, z)[k] == MergeAt(x, z, k);
      }
    }
    if Covered(x, z) {
      assert Merge(x, z).Keys == z.Keys;
      forall k | k in z ensures Merge(x, z)[k] == z[k] {
        assert k in x ==> CoveredAt(x[k], z[k]);
      }
    }
  }

  lemma {:induction false} CoversItself(x: Values)
    ensures Covered(x, x)
    decreases Node(x)
  {
    forall k | k in x ensures CoveredAt(x[k], x[k]) {
      if x[k].Node? {
        assert x[k] == Node(x[k].m);
        CoversItself(x[k].m);
      }
    }
  }

  /** The empty map is an identity on both sides, and a repeated right operand is absorbed. */
  lemma {:induction false} MergeLaws(a: Values, b: Values)
    ensures Merge(map[], b) == b && Merge(a, map[]) == a
    ensures Merge(Merge(a, b), b) == Merge(a, b)
    decreases Node(b)
  {
    var ab := Merge(a, b);
    forall k | k in ab ensures MergeAt(ab, b, k) == ab[k] {
      assert ab[k] == MergeAt(a, b, k);
      if k in b && b[k].Node? {
        assert b[k] == Node(b[k].m);
        if k in a && a[k].Node? {
          MergeLaws(a[k].m, b[k].m);
        } else {
          CoversItself(b[k].m);
          MergeIntoCover(b[k].m, b[k].m);
        }
      }
    }
    assert Merge(ab, b).Keys == ab.Keys;
  }

  /**
   What associativity needs: wherever the middle map has a leaf between two maps, the outer right map covers
   the outer left one.
   */
  predicate Associates(a: Values, b: Values, c: Values)
    decreases Node(c), 0
  {
    forall k :: k in a && k in b && k in c ==> AssociatesAt(a[k], b[k], c[k])
  }

  predicate AssociatesAt(x: Value, y: Value, z: Value)
    decreases z, 1
  {
    if x.Node? && z.Node? then
      assert z == Node(z.m);
      if y.Node? then Associates(x.m, y.m, z.m) else Covered(x.m, z.m)
    else true
  }

  lemma {:induction false} AssociativeAt(a: Values, b: Values, c: Values, k: string)
    requires k in a || k in b || k in c
    ensures MergeAt(Merge(a, b), c, k) == MergeAt(a, Merge(b, c), k) <==>
            (k in a && k in b && k in c ==> AssociatesAt(a[k], b[k], c[k]))
    decreases Node(c), 0
  {
    var ab, bc := Merge(a, b), Merge(b, c);
    assert k in ab ==> ab[k] == MergeAt(a, b, k);
    assert k in bc ==> bc[k] == MergeAt(b, c, k);
    if k in a && k in b && k in c && a[k].Node? && c[k].Node? {
      assert c[k] == Node(c[k].m);
      if b[k].Node? {
        MergeAssociative(a[k].m, b[k].m, c[k].m);
      } else {
        MergeIntoCover(a[k].m, c[k].m);
      }
    }
  }

  /** The merge is associative on exactly those three maps. */
  lemma {:induction false} MergeAssociative(a: Values, b: Values, c: Values)
    ensures Merge(Merge(a, b), c) == Merge(a, Merge(b, c)) <==> Associates(a, b, c)
    decreases Node(c)
  {
    var l, r := Merge(Merge(a, b), c), Merge(a, Merge(b, c));
    assert l.Keys == r.Keys == a.Keys + b.Keys + c.Keys;
    forall k | k in l
      ensures l[k] == r[k] <==> (k in a && k in b && k in c ==> AssociatesAt(a[k], b[k], c[k]))
    {
      AssociativeAt(a, b, c, k);
    }
    if l == r {
      forall k | k in a && k in b && k in c ensures AssociatesAt(a[k], b[k], c[k]) {
        assert k in l;
      }
    }
  }

  /** At `p` the middle map has a leaf and the outer ones have maps. */
  predicate Clash(a: Value, b: Value, c: Value, p: seq<string>) {
    LeafAt(b, p) && At(a, p).Some? && At(a, p).value.Node? && At(c, p).Some? && At(c, p).value.Node?
  }

  /** Without such a path the merge is associative. */
  lemma {:induction false} NoClashAssociates(a: Values, b: Values, c: Values)
    requires forall p :: !Clash(Node(a), Node(b), Node(c), p)
    ensures Associates(a, b, c)
    decreases Node(c)
  {
    forall k | k in a && k in b && k in c ensures AssociatesAt(a[k], b[k], c[k]) {
      forall p ensures !Clash(a[k], b[k], c[k], p) {
        assert ([k] + p)[1..] == p;
        assert !Clash(Node(a), Node(b), Node(c), [k] + p);
      }
      assert !Clash(a[k], b[k], c[k], []);
      if a[k].Node? && b[k].Node? && c[k].Node? {
        assert a[k] == Node(a[k].m) && b[k] == Node(b[k].m) && c[k] == Node(c[k].m);
        NoClashAssociates(a[k].m, b[k].m, c[k].m);
      }
    }
  }

  // --- the source's functions ---

  /** The recursive merge filling a fresh map; the keys of `b` come in any order. */
  method MergeMaps(a: Values, b: Values) returns (out: Values)
    ensures out == Merge(a, b)
    decreases Node(b)
  {
    out := a;
    var rest := b.Keys;
    while rest != {}
      invariant rest <= b.Keys
      invariant out.Keys == a.Keys + (b.Keys - rest)
      invariant forall k :: k in out ==> out[k] == if k in rest then a[k] else MergeAt(a, b, k)
      decreases rest
    {
      var k :| k in rest;
      var v := b[k];
      if v.Node? && k in out && out[k].Node? {
        assert v == Node(v.m);
        var merged := MergeMaps(out[k].m, v.m);
        out := out[k := Node(merged)];
      } else {
        out := out[k := v];
      }
      rest := rest - {k};
    }
  }

  /** The chart's values overridden by the option values, which may fail to convert. */
  method MergeChartAndPluginOptionValues(chart: Values, options: Option<Values>) returns (r: Option<Values>)
    ensures r == if options.None? then None else Some(Merge(chart, options.value))
  {
    if options.None? {
      return None;
    }
    var merged := MergeMaps(chart, options.value);
    return Some(merged);
  }

  /** The release route copies the chart's values first; it renders with the same values as the template route. */
  method GetValuesForHelmChart(chart: Values, options: Option<Values>) returns (r: Option<Values>)
    ensures r == if options.None? then None else Some(Merge(chart, options.value))
  {
    var copied := MergeMaps(map[], chart);
    MergeLaws(map[], chart);
    r := MergeChartAndPluginOptionValues(copied, options);
  }
}
