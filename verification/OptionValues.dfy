/**
 Plugin option values: layering lists of named values over each other, resolving values from secrets, and the
 buffer the option checksum is computed from.
 */
module OptionValues {
  import opened Options
  import opened StringOps
  import opened Sorting

  datatype SecretRef = SecretRef(name: string, key: string)

  datatype ExternalRef = ExternalRef(name: string, kind: string, expression: string)

  datatype Source = Source(secret: Option<SecretRef>, external: Option<ExternalRef>)

  datatype OptionValue = OptionValue(
    name: string, value: Option<string>, valueFrom: Option<Source>, expression: Option<string>)
  {
    predicate FromSecret() {
      valueFrom.Some? && valueFrom.value.secret.Some?
    }
  }

  datatype PluginOption = PluginOption(name: string, default: Option<string>)

  function Name(v: OptionValue): string {
    v.name
  }

  ghost predicate DistinctNames(xs: seq<OptionValue>) {
    DistinctBy(Name, xs)
  }

  // --- setting and merging ---

  /** A name hit replaces only the value of the entry. */
  function SetOrAppend(xs: seq<OptionValue>, v: OptionValue): seq<OptionValue> {
    if xs == [] then [v]
    else if xs[0].name == v.name then [xs[0].(value := v.value)] + xs[1..]
    else [xs[0]] + SetOrAppend(xs[1..], v)
  }

  function Merge(dst: seq<OptionValue>, src: seq<OptionValue>): seq<OptionValue> {
    if src == [] then dst else SetOrAppend(Merge(dst, src[..|src| - 1]), src[|src| - 1])
  }

  /** The entry of a name. */
  function Find(xs: seq<OptionValue>, n: string): Option<OptionValue> {
    if xs == [] then None
    else if xs[0].name == n then Some(xs[0])
    else Find(xs[1..], n)
  }

  lemma {:induction false} FindNone(xs: seq<OptionValue>, n: string)
    ensures Find(xs, n).None? <==> forall i :: 0 <= i < |xs| ==> xs[i].name != n
  {
    if xs != [] {
      FindNone(xs[1..], n);
      assert forall i :: 1 <= i < |xs| ==> xs[i] == xs[1..][i - 1];
    }
  }

  lemma {:induction false} FindAt(xs: seq<OptionValue>, n: string, k: nat)
    requires k < |xs| && xs[k].name == n && forall i :: 0 <= i < k ==> xs[i].name != n
    ensures Find(xs, n) == Some(xs[k])
  {
    if k > 0 {
      FindAt(xs[1..], n, k - 1);
    }
  }

  /** What one name looks like after the values of `src` have been layered over `entry`. */
  function Overlay(entry: Option<OptionValue>, src: seq<OptionValue>, n: string): Option<OptionValue> {
    if src == [] then entry
    else
      var before, v := Overlay(entry, src[..|src| - 1], n), src[|src| - 1];
      if v.name != n then before
      else if before.None? then Some(v)
      else Some(before.value.(value := v.value))
  }

  lemma {:induction false} FindSet(xs: seq<OptionValue>, v: OptionValue, n: string)
    ensures Find(SetOrAppend(xs, v), n) ==
            if v.name != n then Find(xs, n)
            else if Find(xs, n).None? then Some(v)
            else Some(Find(xs, n).value.(value := v.value))
  {
    if xs != [] {
      FindSet(xs[1..], v, n);
    }
  }

  lemma {:induction false} FindMerge(dst: seq<OptionValue>, src: seq<OptionValue>, n: string)
    ensures Find(Merge(dst, src), n) == Overlay(Find(dst, n), src, n)
  {
    if src != [] {
      FindMerge(dst, src[..|src| - 1], n);
      FindSet(Merge(dst, src[..|src| - 1]), src[|src| - 1], n);
    }
  }

  lemma {:induction false} OverlayConcat(entry: Option<OptionValue>, a: seq<OptionValue>, b: seq<OptionValue>, n: string)
    ensures Overlay(entry, a + b, n) == Overlay(Overlay(entry, a, n), b, n)
  {
    if b == [] {
      assert a + b == a;
    } else {
      assert (a + b)[..|a + b| - 1] == a + b[..|b| - 1];
      OverlayConcat(entry, a, b[..|b| - 1], n);
    }
  }

  lemma {:induction false} FindSnoc(xs: seq<OptionValue>, v: OptionValue, n: string)
    ensures Find(xs + [v], n) ==
            if Find(xs, n).Some? then Find(xs, n) else if v.name == n then Some(v) else None
  {
    if xs == [] {
      assert xs + [v] == [v] && [v][1..] == [];
    } else {
      assert (xs + [v])[1..] == xs[1..] + [v];
      FindSnoc(xs[1..], v, n);
    }
  }

  lemma LastIsNew(xs: seq<OptionValue>)
    requires xs != [] && DistinctNames(xs)
    ensures DistinctNames(xs[..|xs| - 1]) && Find(xs[..|xs| - 1], xs[|xs| - 1].name).None?
  {
    var most, last := xs[..|xs| - 1], xs[|xs| - 1];
    forall i | 0 <= i < |most| ensures most[i].name != last.name {
      assert Name(xs[i]) != Name(xs[|xs| - 1]);
    }
    FindNone(most, last.name);
  }

  /** A list with distinct names is its own layering over nothing. */
  lemma {:induction false} FindIsOverlay(xs: seq<OptionValue>, n: string)
    requires DistinctNames(xs)
    ensures Find(xs, n) == Overlay(None, xs, n)
  {
    if xs != [] {
      var most, last := xs[..|xs| - 1], xs[|xs| - 1];
      LastIsNew(xs);
      FindIsOverlay(most, n);
      assert xs == most + [last];
      FindSnoc(most, last, n);
    }
  }

  lemma {:induction false} FindSome(xs: seq<OptionValue>, n: string)
    requires Find(xs, n).Some?
    ensures exists k :: 0 <= k < |xs| && xs[k].name == n && Find(xs, n) == Some(xs[k])
  {
    if xs[0].name != n {
      FindSome(xs[1..], n);
      var k :| 0 <= k < |xs[1..]| && xs[1..][k].name == n && Find(xs[1..], n) == Some(xs[1..][k]);
      assert xs[k + 1].name == n;
    } else {
      assert xs[0].name == n;
    }
  }

  /** Setting neither makes nor removes a duplicate name. */
  lemma {:induction false} SetDistinct(xs: seq<OptionValue>, v: OptionValue)
    ensures DistinctNames(SetOrAppend(xs, v)) <==> DistinctNames(xs)
  {
    if xs != [] {
      SetDistinct(xs[1..], v);
      ConsDistinct(xs[0], xs[1..]);
      assert xs == [xs[0]] + xs[1..];
      if xs[0].name == v.name {
        ConsDistinct(xs[0].(value := v.value), xs[1..]);
      } else {
        var rest := SetOrAppend(xs[1..], v);
        ConsDistinct(xs[0], rest);
        FindSet(xs[1..], v, xs[0].name);
      }
    }
  }

  lemma ConsDistinct(x: OptionValue, xs: seq<OptionValue>)
    ensures DistinctNames([x] + xs) <==> Find(xs, x.name).None? && DistinctNames(xs)
  {
    FindNone(xs, x.name);
    var all := [x] + xs;
    assert forall i :: 0 <= i < |xs| ==> all[i + 1] == xs[i];
    if DistinctNames(all) {
      forall i, j | 0 <= i < j < |xs| ensures Name(xs[i]) != Name(xs[j]) {
        assert Name(all[i + 1]) != Name(all[j + 1]);
      }
      forall i | 0 <= i < |xs| ensures xs[i].name != x.name {
        assert Name(all[0]) != Name(all[i + 1]);
      }
    }
    if Find(xs, x.name).None? && DistinctNames(xs) {
      forall i, j | 0 <= i < j < |all| ensures Name(all[i]) != Name(all[j]) {
        if i > 0 {
          assert Name(xs[i - 1]) != Name(xs[j - 1]);
        }
      }
    }
  }

  lemma {:induction false} MergeDistinct(dst: seq<OptionValue>, src: seq<OptionValue>)
    ensures DistinctNames(Merge(dst, src)) <==> DistinctNames(dst)
  {
    if src != [] {
      MergeDistinct(dst, src[..|src| - 1]);
      SetDistinct(Merge(dst, src[..|src| - 1]), src[|src| - 1]);
    }
  }

  /** Entries do not depend on the order of a list with distinct names. */
  lemma FindPermuted(xs: seq<OptionValue>, ys: seq<OptionValue>, n: string)
    requires multiset(xs) == multiset(ys) && DistinctNames(xs)
    ensures DistinctNames(ys) && Find(xs, n) == Find(ys, n)
  {
    DistinctPermutes(Name, xs, ys);
    SameMultisetSameElements(xs, ys);
    if Find(xs, n).None? {
      FindNone(xs, n);
      FindNone(ys, n);
      forall i | 0 <= i < |ys| ensures ys[i].name != n {
        assert ys[i] in ys;
      }
    } else {
      FindSome(xs, n);
      var k :| 0 <= k < |xs| && xs[k].name == n && Find(xs, n) == Some(xs[k]);
      assert xs[k] in xs;
      var j :| 0 <= j < |ys| && ys[j] == xs[k];
      forall i | 0 <= i < j ensures ys[i].name != n {
        assert Name(ys[i]) != Name(ys[j]);
      }
      FindAt(ys, n, j);
    }
  }

  // --- what layering means ---

  predicate FirstMention(all: seq<OptionValue>, n: string, i: int) {
    0 <= i < |all| && all[i].name == n && forall j :: 0 <= j < i ==> all[j].name != n
  }

  predicate LastMention(all: seq<OptionValue>, n: string, k: int) {
    0 <= k < |all| && all[k].name == n && forall j :: k < j < |all| ==> all[j].name != n
  }

  lemma {:induction false} OverlayAbsent(all: seq<OptionValue>, n: string)
    ensures Overlay(None, all, n).None? <==> forall i :: 0 <= i < |all| ==> all[i].name != n
  {
    if all != [] {
      OverlayAbsent(all[..|all| - 1], n);
    }
  }

  /**
   In the layers read one after the other, a name's value comes from its last mention, and everything else of
   its entry from its first mention.
   */
  lemma {:induction false} LayeringMeaning(all: seq<OptionValue>, n: string, i: int, k: int)
    requires FirstMention(all, n, i) && LastMention(all, n, k)
    ensures Overlay(None, all, n) == Some(all[i].(value := all[k].value))
  {
    var m := |all| - 1;
    var most := all[..m];
    if all[m].name != n {
      LayeringMeaning(most, n, i, k);
    } else if i == m {
      OverlayAbsent(most, n);
    } else {
      var l := LastOf(most, n, i);
      LayeringMeaning(most, n, i, l);
    }
  }

  lemma {:induction false} LastOf(all: seq<OptionValue>, n: string, i: int) returns (k: int)
    requires 0 <= i < |all| && all[i].name == n
    ensures LastMention(all, n, k)
  {
    if all[|all| - 1].name == n {
      k := |all| - 1;
    } else {
      k := LastOf(all[..|all| - 1], n, i);
    }
  }

  // --- the source's functions, on slices updated in place ---

  function Defaults(options: seq<PluginOption>): seq<OptionValue> {
    if options == [] then []
    else
      var o := options[|options| - 1];
      Defaults(options[..|options| - 1]) + (if o.default.Some? then [OptionValue(o.name, o.default, None, None)] else [])
  }

  /** The defaults of a list of options, option by option: one value under the option's name if it has a default, none otherwise. */
  lemma {:induction false} DefaultsEach(a: seq<PluginOption>, b: seq<PluginOption>, name: string, value: string)
    ensures Defaults(a + b) == Defaults(a) + Defaults(b)
    ensures Defaults([PluginOption(name, None)]) == []
    ensures Defaults([PluginOption(name, Some(value))]) == [OptionValue(name, Some(value), None, None)]
    decreases |b|
  {
    assert [PluginOption(name, None)][..0] == [] && [PluginOption(name, Some(value))][..0] == [];
    if b == [] {
      assert a + b == a;
    } else {
      assert (a + b)[..|a + b| - 1] == a + b[..|b| - 1];
      DefaultsEach(a, b[..|b| - 1], name, value);
    }
  }

  lemma {:induction false} SetOrAppendAt(xs: seq<OptionValue>, v: OptionValue, k: nat)
    requires k <= |xs| && forall i :: 0 <= i < k ==> xs[i].name != v.name
    requires k < |xs| ==> xs[k].name == v.name
    ensures SetOrAppend(xs, v) == if k < |xs| then xs[k := xs[k].(value := v.value)] else xs + [v]
  {
    if k > 0 {
      var rest := xs[1..];
      SetOrAppendAt(rest, v, k - 1);
      assert xs == [xs[0]] + rest;
      if k < |xs| {
        assert rest[k - 1] == xs[k];
        assert [xs[0]] + rest[k - 1 := xs[k].(value := v.value)] == xs[k := xs[k].(value := v.value)];
      } else {
        assert [xs[0]] + (rest + [v]) == xs + [v];
      }
    } else if xs != [] {
      assert [xs[0].(value := v.value)] + xs[1..] == xs[0 := xs[0].(value := v.value)];
    }
  }

  /** A slice from the start of its array. Slices share an array until an append finds no room in it. */
  datatype Slice = Slice(data: array<OptionValue>, len: nat) {
    predicate Valid() {
      len <= data.Length
    }

    function Contents(): seq<OptionValue>
      requires Valid()
      reads data
    {
      data[..len]
    }
  }

  method NewSlice(xs: seq<OptionValue>) returns (s: Slice)
    ensures s.Valid() && fresh(s.data) && s.Contents() == xs
  {
    var data := new OptionValue[|xs|](i requires 0 <= i < |xs| => xs[i]);
    s := Slice(data, |xs|);
  }

  /** append: in place if the array has room, in a new and larger array otherwise. */
  method Append(s: Slice, v: OptionValue) returns (r: Slice)
    requires s.Valid()
    modifies s.data
    ensures r.Valid() && r.Contents() == old(s.Contents()) + [v]
    ensures if s.len < s.data.Length then r.data == s.data && s.data[..] == old(s.data[..])[s.len := v]
            else fresh(r.data) && s.data[..] == old(s.data[..])
  {
    if s.len < s.data.Length {
      s.data[s.len] := v;
      r := Slice(s.data, s.len + 1);
    } else {
      var xs := s.Contents();
      var capacity :| capacity > s.len;
      var data := new OptionValue[capacity](i => if 0 <= i < |xs| then xs[i] else v);
      r := Slice(data, s.len + 1);
    }
  }

  /** What the array of a slice holds once `xs` has been written over its start, if there is room for it. */
  function Written(backing: seq<OptionValue>, xs: seq<OptionValue>): seq<OptionValue> {
    if |xs| <= |backing| then xs + backing[|xs|..] else backing
  }

  lemma WrittenInPlace(backing: seq<OptionValue>, len: nat, i: nat, v: OptionValue)
    requires i < len <= |backing|
    ensures Written(backing, backing[..len][i := v]) == backing[i := v]
    ensures backing[i := v][..len] == backing[..len][i := v]
  {
  }

  lemma WrittenAtEnd(backing: seq<OptionValue>, len: nat, v: OptionValue)
    requires len <= |backing|
    ensures Written(backing, backing[..len] + [v]) == if len < |backing| then backing[len := v] else backing
  {
  }

  method SetOrAppendNameValue(s: Slice, v: OptionValue) returns (r: Slice)
    requires s.Valid()
    modifies s.data
    ensures r.Valid() && r.Contents() == SetOrAppend(old(s.Contents()), v)
    ensures s.data[..] == Written(old(s.data[..]), SetOrAppend(old(s.Contents()), v))
    ensures if |SetOrAppend(old(s.Contents()), v)| <= s.data.Length then r.data == s.data else fresh(r.data)
    ensures (forall i :: 0 <= i < s.len ==> old(s.Contents())[i].name != v.name) ==> r.Contents() == old(s.Contents()) + [v]
    ensures forall k :: FirstMention(old(s.Contents()), v.name, k) ==>
              r.Contents() == old(s.Contents())[k := old(s.Contents())[k].(value := v.value)]
  {
    ghost var backing, xs := s.data[..], s.Contents();
    assert xs == backing[..s.len];
    for i := 0 to s.len
      invariant s.data[..] == backing && forall j :: 0 <= j < i ==> xs[j].name != v.name
    {
      assert s.data[i] == s.data[..][i] == xs[i];
      if s.data[i].name == v.name {
        SetOrAppendAt(xs, v, i);
        WrittenInPlace(backing, s.len, i, xs[i].(value := v.value));
        SetInPlace(s.data, i, s.data[i].(value := v.value));
        assert s.data[..s.len] == s.data[..][..s.len];
        assert forall k :: FirstMention(xs, v.name, k) ==> k == i;
        return s;
      }
    }
    SetOrAppendAt(xs, v, |xs|);
    WrittenAtEnd(backing, s.len, v);
    r := Append(s, v);
  }

  method SetInPlace(data: array<OptionValue>, i: nat, v: OptionValue)
    requires i < data.Length
    modifies data
    ensures data[..] == old(data[..])[i := v]
  {
    data[i] := v;
  }

  /** How many of the values are merged before an append leaves an array of the given capacity. */
  function SharedPrefix(xs: seq<OptionValue>, capacity: nat, src: seq<OptionValue>): (m: nat)
    ensures m <= |src|
  {
    if src == [] || |Merge(xs, src)| <= capacity then |src| else SharedPrefix(xs, capacity, src[..|src| - 1])
  }

  /** What a slice's own list looks like after a merge into it: the values merged while the array was shared. */
  function OwnList(xs: seq<OptionValue>, capacity: nat, src: seq<OptionValue>): (own: seq<OptionValue>)
    ensures |own| == |xs|
  {
    MergeGrows(xs, src[..SharedPrefix(xs, capacity, src)]);
    Merge(xs, src[..SharedPrefix(xs, capacity, src)])[..|xs|]
  }

  lemma {:induction false} SetGrows(xs: seq<OptionValue>, v: OptionValue)
    ensures |xs| <= |SetOrAppend(xs, v)| <= |xs| + 1
  {
    if xs != [] {
      SetGrows(xs[1..], v);
    }
  }

  lemma {:induction false} MergeGrows(xs: seq<OptionValue>, src: seq<OptionValue>)
    ensures |xs| <= |Merge(xs, src)|
  {
    if src != [] {
      MergeGrows(xs, src[..|src| - 1]);
      SetGrows(Merge(xs, src[..|src| - 1]), src[|src| - 1]);
    }
  }

  lemma SharedNext(xs: seq<OptionValue>, capacity: nat, src: seq<OptionValue>)
    requires src != [] && |xs| <= capacity
    ensures |Merge(xs, src[..|src| - 1])| <= |Merge(xs, src)|
    ensures SharedPrefix(xs, capacity, src) ==
            if |Merge(xs, src)| <= capacity then |src| else SharedPrefix(xs, capacity, src[..|src| - 1])
    ensures |Merge(xs, src[..|src| - 1])| <= capacity ==> SharedPrefix(xs, capacity, src[..|src| - 1]) == |src| - 1
  {
    SetGrows(Merge(xs, src[..|src| - 1]), src[|src| - 1]);
  }

  /** What the array of a slice of length `len` holds after a merge into the slice. */
  function BackingAfter(backing: seq<OptionValue>, len: nat, src: seq<OptionValue>): seq<OptionValue>
    requires len <= |backing|
  {
    Written(backing, Merge(backing[..len], src[..SharedPrefix(backing[..len], |backing|, src)]))
  }

  lemma BackingFirst(backing: seq<OptionValue>, len: nat)
    requires len <= |backing|
    ensures BackingAfter(backing, len, []) == backing
  {
    var none: seq<OptionValue> := [];
    assert none[..0] == none && Merge(backing[..len], none) == backing[..len];
  }

  /** One value later. */
  lemma BackingNext(backing: seq<OptionValue>, len: nat, src: seq<OptionValue>)
    requires len <= |backing| && src != []
    ensures var xs, most := backing[..len], src[..|src| - 1];
            BackingAfter(backing, len, src) ==
            if |Merge(xs, most)| <= |backing| then Written(BackingAfter(backing, len, most), Merge(xs, src))
            else BackingAfter(backing, len, most)
  {
    var xs, most := backing[..len], src[..|src| - 1];
    SharedNext(xs, |backing|, src);
    var m := SharedPrefix(xs, |backing|, most);
    assert src[..m] == most[..m];
    if |Merge(xs, most)| <= |backing| {
      assert src[..|src|] == src && most[..|most|] == most;
      WrittenOver(backing, Merge(xs, most), Merge(xs, src));
    }
  }

  lemma BackingOwn(backing: seq<OptionValue>, len: nat, src: seq<OptionValue>)
    requires len <= |backing|
    ensures |BackingAfter(backing, len, src)| == |backing|
    ensures BackingAfter(backing, len, src)[..len] == OwnList(backing[..len], |backing|, src)
  {
    var xs := backing[..len];
    MergeGrows(xs, src[..SharedPrefix(xs, |backing|, src)]);
    SharedFits(xs, |backing|, src);
  }

  lemma WrittenOver(backing: seq<OptionValue>, xs: seq<OptionValue>, ys: seq<OptionValue>)
    requires |xs| <= |ys| && |xs| <= |backing|
    ensures Written(Written(backing, xs), ys) == if |ys| <= |backing| then Written(backing, ys) else Written(backing, xs)
  {
  }

  /** A merge into `dst`, whose array held `backing`: `done` has been set and `r` is the list now. */
  ghost predicate Merging(backing: seq<OptionValue>, dst: Slice, r: Slice, done: seq<OptionValue>)
    reads dst.data, r.data
  {
    && dst.Valid() && |backing| == dst.data.Length && r.Valid()
    && r.Contents() == Merge(backing[..dst.len], done)
    && dst.data[..] == BackingAfter(backing, dst.len, done)
    && (r.data == dst.data <==> |Merge(backing[..dst.len], done)| <= |backing|)
  }

  method MergeNext(ghost backing: seq<OptionValue>, ghost dst: Slice, r: Slice, ghost done: seq<OptionValue>, v: OptionValue)
    returns (q: Slice)
    requires Merging(backing, dst, r, done)
    modifies r.data
    ensures Merging(backing, dst, q, done + [v]) && (q.data == r.data || fresh(q.data))
  {
    assert (done + [v])[..|done|] == done;
    BackingNext(backing, dst.len, done + [v]);
    SharedNext(backing[..dst.len], |backing|, done + [v]);
    q := SetOrAppendNameValue(r, v);
  }

  /** MergePluginOptionValues: sets the values one after the other; its own list sees those set while the array is shared. */
  method MergePluginOptionValues(dst: Slice, src: seq<OptionValue>) returns (r: Slice)
    requires dst.Valid()
    modifies dst.data
    ensures r.Valid() && r.Contents() == Merge(old(dst.Contents()), src)
    ensures r.data == dst.data || fresh(r.data)
    ensures dst.Contents() == OwnList(old(dst.Contents()), dst.data.Length, src)
  {
    r := dst;
    ghost var backing := dst.data[..];
    assert backing[..dst.len] == dst.Contents();
    BackingFirst(backing, dst.len);
    assert src[..0] == [];
    for n := 0 to |src|
      invariant Merging(backing, dst, r, src[..n]) && (r.data == dst.data || fresh(r.data))
    {
      assert src[..n + 1] == src[..n] + [src[n]];
      r := MergeNext(backing, dst, r, src[..n], src[n]);
    }
    assert src[..|src|] == src;
    BackingOwn(backing, dst.len, src);
    assert dst.Contents() == dst.data[..][..dst.len];
  }

  lemma {:induction false} SharedFits(xs: seq<OptionValue>, capacity: nat, src: seq<OptionValue>)
    requires |xs| <= capacity
    ensures |Merge(xs, src[..SharedPrefix(xs, capacity, src)])| <= capacity
  {
    if src == [] || |Merge(xs, src)| <= capacity {
      assert src[..|src|] == src;
    } else {
      var most := src[..|src| - 1];
      SharedFits(xs, capacity, most);
      assert src[..SharedPrefix(xs, capacity, most)] == most[..SharedPrefix(xs, capacity, most)];
    }
  }

  // --- what a merge does to the list it is given ---

  /** An entry after the values of `src` under the name `n` have been set in it. */
  function Latest(entry: OptionValue, src: seq<OptionValue>, n: string): (r: OptionValue)
    ensures r == entry.(value := r.value)
  {
    if src == [] then entry
    else if src[|src| - 1].name == n then entry.(value := src[|src| - 1].value)
    else Latest(entry, src[..|src| - 1], n)
  }

  /** An entry of the list keeps its place; the first one of a name gets the latest value of the name. */
  lemma {:induction false} MergeAt(xs: seq<OptionValue>, src: seq<OptionValue>, i: nat)
    requires i < |xs|
    ensures i < |Merge(xs, src)|
    ensures Merge(xs, src)[i] == if FirstMention(xs, xs[i].name, i) then Latest(xs[i], src, xs[i].name) else xs[i]
  {
    if src != [] {
      var most, v := src[..|src| - 1], src[|src| - 1];
      MergeAt(xs, most, i);
      forall j | 0 <= j < i ensures j < |Merge(xs, most)| && Merge(xs, most)[j].name == xs[j].name {
        MergeAt(xs, most, j);
      }
      SetAt(Merge(xs, most), v, i);
    }
  }

  lemma {:induction false} SetAt(xs: seq<OptionValue>, v: OptionValue, i: nat)
    requires i < |xs|
    ensures i < |SetOrAppend(xs, v)|
    ensures SetOrAppend(xs, v)[i] ==
            if xs[i].name == v.name && FirstMention(xs, v.name, i) then xs[i].(value := v.value) else xs[i]
  {
    if i > 0 {
      SetAt(xs[1..], v, i - 1);
    }
  }

  lemma {:induction false} LatestMention(entry: OptionValue, src: seq<OptionValue>, n: string)
    ensures Latest(entry, src, n) == entry || exists k :: LastMention(src, n, k)
    ensures forall k :: LastMention(src, n, k) ==> Latest(entry, src, n) == entry.(value := src[k].value)
  {
    if src != [] {
      var most, last := src[..|src| - 1], |src| - 1;
      if src[last].name == n {
        assert LastMention(src, n, last);
      } else {
        LatestMention(entry, most, n);
        forall j ensures LastMention(most, n, j) <==> LastMention(src, n, j) {
        }
      }
    }
  }

  /** Setting `seen` in the entries of `xs` changes none of them. */
  ghost predicate NothingNew(xs: seq<OptionValue>, seen: seq<OptionValue>) {
    forall n, i, k :: FirstMention(xs, n, i) && LastMention(seen, n, k) ==> seen[k].value == xs[i].value
  }

  lemma EntryKept(xs: seq<OptionValue>, seen: seq<OptionValue>, i: nat)
    requires i < |xs| && NothingNew(xs, seen)
    ensures i < |Merge(xs, seen)| && Merge(xs, seen)[i] == xs[i]
  {
    MergeAt(xs, seen, i);
    LatestMention(xs[i], seen, xs[i].name);
  }

  lemma EntrySet(xs: seq<OptionValue>, seen: seq<OptionValue>, n: string, i: nat, k: int)
    requires FirstMention(xs, n, i) && LastMention(seen, n, k)
    ensures i < |Merge(xs, seen)| && Merge(xs, seen)[i].value == seen[k].value
  {
    MergeAt(xs, seen, i);
    LatestMention(xs[i], seen, n);
  }

  /**
   Exactly when a merge leaves the list it is given alone: when no name of the list is last set, while the array is
   shared, to another value than its first entry has.
   */
  lemma OwnListKept(xs: seq<OptionValue>, capacity: nat, src: seq<OptionValue>)
    ensures OwnList(xs, capacity, src) == xs <==> NothingNew(xs, src[..SharedPrefix(xs, capacity, src)])
  {
    var seen, own := src[..SharedPrefix(xs, capacity, src)], OwnList(xs, capacity, src);
    MergeGrows(xs, seen);
    if NothingNew(xs, seen) {
      forall i | 0 <= i < |xs| ensures own[i] == xs[i] {
        EntryKept(xs, seen, i);
      }
    }
    if own == xs {
      forall n, i, k | FirstMention(xs, n, i) && LastMention(seen, n, k) ensures seen[k].value == xs[i].value {
        EntrySet(xs, seen, n, i, k);
        assert own[i] == Merge(xs, seen)[i];
      }
    }
  }

  /** A plugin that sets a greenhouse value itself has it overwritten in its own list. */
  lemma OwnListOverwritten(n: string, mine: Option<string>, theirs: Option<string>)
    requires mine != theirs
    ensures OwnList([OptionValue(n, mine, None, None)], 1, [OptionValue(n, theirs, None, None)]) ==
            [OptionValue(n, theirs, None, None)] != [OptionValue(n, mine, None, None)]
  {
    var xs, src := [OptionValue(n, mine, None, None)], [OptionValue(n, theirs, None, None)];
    assert src[..0] == [] && Merge(xs, []) == xs;
    assert Merge(xs, src) == SetOrAppend(xs, src[0]) == src;
    assert src[..1] == src;
  }

  /** processSecretsToLiterals, in place. */
  method ProcessSecretsToLiterals(s: Slice, json: string -> string)
    requires s.Valid()
    modifies s.data
    ensures s.Contents() == Literals(old(s.Contents()), json)
    ensures forall i :: 0 <= i < s.len ==>
              var v := old(s.Contents())[i];
              match v.valueFrom
              case Some(Source(Some(SecretRef(name, key)), _)) =>
                s.Contents()[i] == OptionValue(v.name, Some(json(name + "/" + key)), None, v.expression)
              case _ => s.Contents()[i] == v
  {
    var xs := s.Contents();
    for i := 0 to s.len
      invariant forall j :: 0 <= j < s.len ==> s.data[j] == if j < i then Literal(xs[j], json) else xs[j]
    {
      s.data[i] := Literal(s.data[i], json);
    }
  }

  method CopyInto(a: array<OptionValue>, xs: seq<OptionValue>)
    requires |xs| <= a.Length
    modifies a
    ensures a[..|xs|] == xs && a[|xs|..] == old(a[|xs|..])
  {
    for i := 0 to |xs|
      invariant a[..i] == xs[..i] && a[|xs|..] == old(a[|xs|..])
    {
      a[i] := xs[i];
    }
  }

  lemma SortLength(xs: seq<OptionValue>)
    ensures |SortBy(Name, xs)| == |xs|
  {
    var sorted := SortBy(Name, xs);
    assert |sorted| == |multiset(sorted)| && |xs| == |multiset(xs)|;
  }

  /** sort.Slice by name, in place: sorted, but equal names may end up in any order. */
  method SortSlice(s: Slice)
    requires s.Valid()
    modifies s.data
    ensures multiset(s.Contents()) == multiset(old(s.Contents())) && SortedBy(Name, s.Contents())
  {
    SortLength(s.Contents());
    SortBySorted(Name, s.Contents());
    CopyInto(s.data, SortBy(Name, s.Contents()));
  }

  /**
   MergePluginAndPluginOptionValueSlice: the defaults of the definition, overridden by the given values and sorted
   by name, in an array of its own; a definition without an option list passes the given slice itself through.
   */
  method MergePluginAndPluginOptionValueSlice(options: Option<seq<PluginOption>>, values: Slice) returns (out: Slice)
    requires values.Valid()
    ensures out.Valid()
    ensures options.None? ==> out == values
    ensures options.Some? ==> fresh(out.data) && SortedBy(Name, out.Contents())
    ensures options.Some? ==> forall i, j :: 0 <= i < j < |out.Contents()| ==> !Less(out.Contents()[j].name, out.Contents()[i].name)
    ensures options.Some? ==> multiset(out.Contents()) == multiset(Merge(Defaults(options.value), values.Contents()))
  {
    out := NewSlice([]);
    if options.None? {
      return values;
    }
    for i := 0 to |options.value|
      invariant out.Valid() && fresh(out.data) && out.Contents() == Defaults(options.value[..i])
    {
      assert options.value[..i + 1][..i] == options.value[..i];
      var o := options.value[i];
      if o.default.Some? {
        out := Append(out, OptionValue(o.name, o.default, None, None));
      }
    }
    assert options.value[..|options.value|] == options.value;
    out := MergePluginOptionValues(out, values.Contents());
    SortSlice(out);
    assert forall i, j :: 0 <= i < j < |out.Contents()| ==> !Less(Name(out.Contents()[j]), Name(out.Contents()[i]));
  }

  /** The layer at the bottom of a chain: the defaults, or the first list of values if there are no options. */
  function Bottom(options: Option<seq<PluginOption>>, values: seq<OptionValue>): seq<OptionValue> {
    if options.None? then values else Defaults(options.value)
  }

  function Upper(options: Option<seq<PluginOption>>, values: seq<OptionValue>): seq<OptionValue> {
    if options.None? then [] else values
  }

  /** The first merge of a chain, name by name. */
  lemma BottomMerge(options: Option<seq<PluginOption>>, values: seq<OptionValue>, out: seq<OptionValue>, n: string)
    requires DistinctNames(Bottom(options, values))
    requires options.None? ==> out == values
    requires options.Some? ==> multiset(out) == multiset(Merge(Defaults(options.value), values))
    ensures DistinctNames(out)
    ensures Find(out, n) == Overlay(None, Bottom(options, values) + Upper(options, values), n)
  {
    var bottom, upper := Bottom(options, values), Upper(options, values);
    FindIsOverlay(bottom, n);
    OverlayConcat(None, bottom, upper, n);
    if options.Some? {
      MergeDistinct(bottom, values);
      FindMerge(bottom, values, n);
      FindPermuted(Merge(bottom, values), out, n);
    }
  }

  /** One more layer on top. */
  lemma NextLayer(below: seq<OptionValue>, list: seq<OptionValue>, layer: seq<OptionValue>, n: string)
    requires DistinctNames(list) && Find(list, n) == Overlay(None, below, n)
    ensures DistinctNames(Merge(list, layer)) && Find(Merge(list, layer), n) == Overlay(None, below + layer, n)
  {
    MergeDistinct(list, layer);
    FindMerge(list, layer, n);
    OverlayConcat(None, below, layer, n);
  }

  lemma ThreeLayers(
    options: Option<seq<PluginOption>>, pluginValues: seq<OptionValue>, greenhouse: seq<OptionValue>, first: seq<OptionValue>)
    requires DistinctNames(Bottom(options, pluginValues))
    requires options.None? ==> first == pluginValues
    requires options.Some? ==> multiset(first) == multiset(Merge(Defaults(options.value), pluginValues))
    ensures DistinctNames(Merge(first, greenhouse))
    ensures forall n :: Find(Merge(first, greenhouse), n) ==
                        Overlay(None, Bottom(options, pluginValues) + Upper(options, pluginValues) + greenhouse, n)
  {
    BottomMerge(options, pluginValues, first, "");
    forall n ensures Find(Merge(first, greenhouse), n) ==
                     Overlay(None, Bottom(options, pluginValues) + Upper(options, pluginValues) + greenhouse, n) {
      BottomMerge(options, pluginValues, first, n);
      NextLayer(Bottom(options, pluginValues) + Upper(options, pluginValues), first, greenhouse, n);
    }
    MergeDistinct(first, greenhouse);
  }

  /**
   GetPluginOptionValuesForPlugin: defaults, then the plugin's values, then the greenhouse values. With an option list
   the plugin's own values stay as they are; without one the greenhouse values are merged into the plugin's own slice.
   */
  method GetPluginOptionValuesForPlugin(options: Option<seq<PluginOption>>, plugin: Slice, greenhouse: seq<OptionValue>)
    returns (values: Slice)
    requires plugin.Valid()
    modifies plugin.data
    ensures values.Valid()
    ensures options.Some? && DistinctNames(Defaults(options.value)) ==>
              && DistinctNames(values.Contents())
              && forall n :: Find(values.Contents(), n) ==
                             Overlay(None, Defaults(options.value) + old(plugin.Contents()) + greenhouse, n)
    ensures options.None? && DistinctNames(old(plugin.Contents())) ==>
              && DistinctNames(values.Contents())
              && forall n :: Find(values.Contents(), n) == Overlay(None, old(plugin.Contents()) + greenhouse, n)
    ensures plugin.Contents() ==
            if options.Some? then old(plugin.Contents())
            else OwnList(old(plugin.Contents()), plugin.data.Length, greenhouse)
  {
    ghost var own := plugin.Contents();
    var list := MergePluginAndPluginOptionValueSlice(options, plugin);
    ghost var first := list.Contents();
    values := MergePluginOptionValues(list, greenhouse);
    assert own + [] == own;
    if DistinctNames(Bottom(options, own)) {
      ThreeLayers(options, own, greenhouse, first);
    }
  }

  // --- the plugin template command ---

  datatype ClusterOverride = ClusterOverride(clusterName: string, overrides: seq<OptionValue>)

  /** The overrides of the first entry for the cluster. */
  function OverridesFor(os: seq<ClusterOverride>, cluster: string): seq<OptionValue> {
    if os == [] then []
    else if os[0].clusterName == cluster then os[0].overrides
    else OverridesFor(os[1..], cluster)
  }

  /** A value taken from a secret becomes the literal name of that secret. */
  function Literal(v: OptionValue, json: string -> string): OptionValue {
    if v.FromSecret() then
      v.(value := Some(SecretLiteral(v, json)), valueFrom := None)
    else v
  }

  function SecretLiteral(v: OptionValue, json: string -> string): string
    requires v.FromSecret()
  {
    json(v.valueFrom.value.secret.value.name + "/" + v.valueFrom.value.secret.value.key)
  }

  /** What the template command renders for a name, given all its layers. */
  function Rendered(all: seq<OptionValue>, n: string, json: string -> string): Option<OptionValue> {
    var entry := Overlay(None, all, n);
    if entry.None? then None else Some(Literal(entry.value, json))
  }

  function Literals(xs: seq<OptionValue>, json: string -> string): seq<OptionValue> {
    seq(|xs|, i requires 0 <= i < |xs| => Literal(xs[i], json))
  }

  lemma {:induction false} FindLiterals(xs: seq<OptionValue>, json: string -> string, n: string)
    ensures Find(Literals(xs, json), n) ==
            if Find(xs, n).None? then None else Some(Literal(Find(xs, n).value, json))
  {
    if xs != [] {
      assert Literals(xs, json)[1..] == Literals(xs[1..], json);
      FindLiterals(xs[1..], json, n);
    }
  }

  lemma LiteralsDistinct(xs: seq<OptionValue>, json: string -> string)
    requires DistinctNames(xs)
    ensures DistinctNames(Literals(xs, json))
  {
    var ls := Literals(xs, json);
    forall i, j | 0 <= i < j < |ls| ensures Name(ls[i]) != Name(ls[j]) {
      assert Name(xs[i]) != Name(xs[j]);
    }
  }

  /** All the layers of the template command, bottom first. */
  function TemplateLayers(
    options: Option<seq<PluginOption>>, greenhouse: seq<OptionValue>, preset: seq<OptionValue>,
    overrides: seq<ClusterOverride>, cluster: string): seq<OptionValue>
  {
    Bottom(options, greenhouse) + Upper(options, greenhouse) + preset + OverridesFor(overrides, cluster)
  }

  method GetClusterSpecificOverrides(os: seq<ClusterOverride>, cluster: string) returns (r: seq<OptionValue>)
    ensures r == OverridesFor(os, cluster)
    ensures (forall i :: 0 <= i < |os| ==> os[i].clusterName != cluster) ==> r == []
    ensures forall c :: 0 <= c < |os| && os[c].clusterName == cluster && (forall i :: 0 <= i < c ==> os[i].clusterName != cluster) ==>
              r == os[c].overrides
  {
    for c := 0 to |os|
      invariant OverridesFor(os, cluster) == OverridesFor(os[c..], cluster)
      invariant forall i :: 0 <= i < c ==> os[i].clusterName != cluster
    {
      if os[c].clusterName == cluster {
        return os[c].overrides;
      }
    }
    return [];
  }

  /** The layers one by one: the value of a name is that of its last mention in the last layer that mentions it. */
  lemma LastLayerWins(a: seq<OptionValue>, b: seq<OptionValue>, n: string, k: int)
    ensures LastMention(b, n, k) ==> LastMention(a + b, n, |a| + k)
    ensures LastMention(a, n, k) && (forall i :: 0 <= i < |b| ==> b[i].name != n) ==> LastMention(a + b, n, k)
  {
    assert forall i :: 0 <= i < |b| ==> (a + b)[|a| + i] == b[i];
    assert forall i :: |a| <= i < |a + b| ==> (a + b)[i] == b[i - |a|];
  }

  predicate Mentions(layer: seq<OptionValue>, n: string) {
    exists i :: 0 <= i < |layer| && layer[i].name == n
  }

  /** The value of a name's last mention in a layer. */
  ghost predicate LastValue(layer: seq<OptionValue>, n: string, v: Option<string>) {
    exists k :: LastMention(layer, n, k) && layer[k].value == v
  }

  /** A value that the layers give a name, highest layer first. */
  ghost predicate Layered(
    defaults: seq<OptionValue>, greenhouse: seq<OptionValue>, preset: seq<OptionValue>, mine: seq<OptionValue>, n: string, v: Option<string>)
  {
    if Mentions(mine, n) then LastValue(mine, n, v)
    else if Mentions(preset, n) then LastValue(preset, n, v)
    else if Mentions(greenhouse, n) then LastValue(greenhouse, n, v)
    else LastValue(defaults, n, v)
  }

  lemma LastValueLift(a: seq<OptionValue>, b: seq<OptionValue>, n: string, v: Option<string>)
    ensures LastValue(b, n, v) ==> LastValue(a + b, n, v)
    ensures LastValue(a, n, v) && !Mentions(b, n) ==> LastValue(a + b, n, v)
  {
    if LastValue(b, n, v) {
      var k :| LastMention(b, n, k) && b[k].value == v;
      LastLayerWins(a, b, n, k);
    }
    if LastValue(a, n, v) && !Mentions(b, n) {
      var k :| LastMention(a, n, k) && a[k].value == v;
      LastLayerWins(a, b, n, k);
    }
  }

  lemma LayeredIsLast(
    defaults: seq<OptionValue>, greenhouse: seq<OptionValue>, preset: seq<OptionValue>, mine: seq<OptionValue>, n: string, v: Option<string>)
    requires Layered(defaults, greenhouse, preset, mine, n, v)
    ensures LastValue(defaults + greenhouse + preset + mine, n, v)
  {
    LastValueLift(defaults, greenhouse, n, v);
    LastValueLift(defaults + greenhouse, preset, n, v);
    LastValueLift(defaults + greenhouse + preset, mine, n, v);
  }

  lemma FirstMentioned(all: seq<OptionValue>, n: string, k: int) returns (i: int)
    requires 0 <= k < |all| && all[k].name == n
    ensures FirstMention(all, n, i) && i <= k
  {
    i := 0;
    while all[i].name != n
      invariant 0 <= i <= k && forall j :: 0 <= j < i ==> all[j].name != n
      decreases k - i
    {
      i := i + 1;
    }
  }

  /** A name of which no layer takes the value from a secret is rendered with the value of the highest layer that mentions it. */
  lemma LayeredRendered(
    defaults: seq<OptionValue>, greenhouse: seq<OptionValue>, preset: seq<OptionValue>, mine: seq<OptionValue>, n: string, v: Option<string>,
    json: string -> string)
    requires Layered(defaults, greenhouse, preset, mine, n, v)
    requires var all := defaults + greenhouse + preset + mine; forall i :: 0 <= i < |all| && all[i].name == n ==> !all[i].FromSecret()
    ensures var shown := Rendered(defaults + greenhouse + preset + mine, n, json); shown.Some? && shown.value.name == n && shown.value.value == v
  {
    var all := defaults + greenhouse + preset + mine;
    LayeredIsLast(defaults, greenhouse, preset, mine, n, v);
    var k :| LastMention(all, n, k) && all[k].value == v;
    var i := FirstMentioned(all, n, k);
    LayeringMeaning(all, n, i, k);
  }

  /**
   prepareValues: defaults, greenhouse values, preset values and cluster overrides, then secrets to literals.
   Names stay distinct; every name gets the value of its last mention, unless its first mention refers to a
   secret, in which case it is that secret's literal whatever the later layers say.
   */
  method PrepareValues(
    options: Option<seq<PluginOption>>, greenhouse: seq<OptionValue>, preset: seq<OptionValue>,
    overrides: seq<ClusterOverride>, cluster: string, json: string -> string)
    returns (values: seq<OptionValue>)
    ensures (options.Some? ==> DistinctNames(Defaults(options.value))) && (options.None? ==> DistinctNames(greenhouse)) ==>
              var layers := (if options.Some? then Defaults(options.value) else []) + greenhouse + preset;
              Prepared(layers + OverridesFor(overrides, cluster), json, values)
  {
    var list := NewSlice(greenhouse);
    list := MergePluginAndPluginOptionValueSlice(options, list);
    ghost var v1 := list.Contents();
    list := MergePluginOptionValues(list, preset);
    var mine := GetClusterSpecificOverrides(overrides, cluster);
    list := MergePluginOptionValues(list, mine);
    ProcessSecretsToLiterals(list, json);
    values := list.Contents();
    if DistinctNames(Bottom(options, greenhouse)) {
      PreparedMeaning(options, greenhouse, preset, mine, v1, json);
      LayersAre(options, greenhouse);
    }
  }

  lemma LayersAre(options: Option<seq<PluginOption>>, greenhouse: seq<OptionValue>)
    ensures Bottom(options, greenhouse) + Upper(options, greenhouse) ==
            (if options.Some? then Defaults(options.value) else []) + greenhouse
  {
    assert greenhouse + [] == greenhouse && [] + greenhouse == greenhouse;
  }

  /**
   The values rendered for the layers read one after the other: names are distinct, a name is there exactly when it is
   mentioned, and its entry is that of its first mention with the value of its last, secrets turned into literals.
   */
  ghost predicate Prepared(all: seq<OptionValue>, json: string -> string, values: seq<OptionValue>) {
    && DistinctNames(values)
    && (forall n :: Find(values, n) == Rendered(all, n, json))
    && (forall n :: Find(values, n).None? <==> forall i :: 0 <= i < |all| ==> all[i].name != n)
    && forall n, i, k :: FirstMention(all, n, i) && LastMention(all, n, k) ==>
         Find(values, n) == Some(Literal(all[i].(value := all[k].value), json))
  }

  /** The four layers of prepareValues, name by name. */
  lemma PreparedMeaning(
    options: Option<seq<PluginOption>>, greenhouse: seq<OptionValue>, preset: seq<OptionValue>,
    mine: seq<OptionValue>, v1: seq<OptionValue>, json: string -> string)
    requires DistinctNames(Bottom(options, greenhouse))
    requires options.None? ==> v1 == greenhouse
    requires options.Some? ==> multiset(v1) == multiset(Merge(Defaults(options.value), greenhouse))
    ensures Prepared(Bottom(options, greenhouse) + Upper(options, greenhouse) + preset + mine, json,
                     Literals(Merge(Merge(v1, preset), mine), json))
  {
    var base := Bottom(options, greenhouse) + Upper(options, greenhouse);
    var v2 := Merge(v1, preset);
    var v3 := Merge(v2, mine);
    var values := Literals(v3, json);
    var all := base + preset + mine;
    BottomMerge(options, greenhouse, v1, "");
    MergeDistinct(v1, preset);
    MergeDistinct(v2, mine);
    LiteralsDistinct(v3, json);
    forall n
      ensures Find(values, n) == Rendered(all, n, json)
    {
      BottomMerge(options, greenhouse, v1, n);
      NextLayer(base, v1, preset, n);
      NextLayer(base + preset, v2, mine, n);
      FindLiterals(v3, json, n);
    }
    forall n ensures Find(values, n).None? <==> forall i :: 0 <= i < |all| ==> all[i].name != n {
      OverlayAbsent(all, n);
    }
    forall n, i, k | FirstMention(all, n, i) && LastMention(all, n, k)
      ensures Find(values, n) == Some(Literal(all[i].(value := all[k].value), json))
    {
      LayeringMeaning(all, n, i, k);
    }
  }

  /**
   The last value of a name is lost exactly when its first mention takes it from a secret, whose literal is another one.
   So a cluster override of a value that the preset takes from a secret is ignored.
   */
  lemma OverrideLostExactly(all: seq<OptionValue>, json: string -> string, n: string, i: int, k: int)
    requires FirstMention(all, n, i) && LastMention(all, n, k)
    ensures Rendered(all, n, json).Some?
    ensures Rendered(all, n, json).value.value != all[k].value <==>
            all[i].FromSecret() && Some(SecretLiteral(all[i], json)) != all[k].value
  {
    LayeringMeaning(all, n, i, k);
  }

  const FROM_VAULT := OptionValue("o", None, Some(Source(Some(SecretRef("vault", "key")), None)), None)
  const FORTY_TWO := OptionValue("o", Some("42"), None, None)

  /** A cluster override that is lost, unless quoting the name of the secret gives the override itself. */
  lemma SecretBeatsOverride(json: string -> string)
    requires json("vault/key") != "42"
    ensures var all := TemplateLayers(None, [], [FROM_VAULT], [ClusterOverride("c", [FORTY_TWO])], "c");
            Rendered(all, "o", json).Some? && Rendered(all, "o", json).value.value != Some("42")
  {
    var all := TemplateLayers(None, [], [FROM_VAULT], [ClusterOverride("c", [FORTY_TWO])], "c");
    assert all == [FROM_VAULT, FORTY_TWO];
    assert FirstMention(all, "o", 0) && LastMention(all, "o", 1);
    OverrideLostExactly(all, json, "o", 0, 1);
    assert "vault" + "/" + "key" == "vault/key";
  }

  // --- the checksum ---

  /** What a secret store holds: the value under a secret's name and key, or nothing. */
  type Secrets = SecretRef -> Option<string>

  predicate Resolvable(v: OptionValue, secrets: Secrets) {
    v.FromSecret() ==> secrets(v.valueFrom.value.secret.value).Some?
  }

  function Resolved(v: OptionValue, secrets: Secrets, json: string -> string): OptionValue
    requires Resolvable(v, secrets)
  {
    if v.FromSecret() then v.(value := Some(json(secrets(v.valueFrom.value.secret.value).value))) else v
  }

  /** A value from a secret gets the JSON of what the secret holds; everything else of an option stays as it is. */
  ghost predicate ResolvedAs(v: OptionValue, r: OptionValue, secrets: Secrets, json: string -> string) {
    && r.name == v.name && r.valueFrom == v.valueFrom && r.expression == v.expression
    && match v.valueFrom
       case Some(Source(Some(ref), _)) => secrets(ref).Some? && r.value == Some(json(secrets(ref).value))
       case _ => r.value == v.value
  }

  predicate AllResolvable(xs: seq<OptionValue>, secrets: Secrets) {
    forall i :: 0 <= i < |xs| ==> Resolvable(xs[i], secrets)
  }

  function ResolveAll(xs: seq<OptionValue>, secrets: Secrets, json: string -> string): seq<OptionValue>
    requires AllResolvable(xs, secrets)
  {
    seq(|xs|, i requires 0 <= i < |xs| => Resolved(xs[i], secrets, json))
  }

  /** What one option contributes after its name. */
  function Payload(v: OptionValue): string {
    if v.value.Some? then v.value.value
    else if v.expression.Some? then v.expression.value
    else if v.valueFrom.Some? && v.valueFrom.value.external.Some? then
      var r := v.valueFrom.value.external.value;
      r.name + r.kind + r.expression
    else ""
  }

  /** What is hashed of an option: its value; without one its expression; without that the parts of its external reference. */
  lemma PayloadExactly(v: OptionValue)
    ensures v.value.Some? ==> Payload(v) == v.value.value
    ensures v.value.None? && v.expression.Some? ==> Payload(v) == v.expression.value
    ensures v.value.None? && v.expression.None? ==>
              match v.valueFrom
              case Some(Source(_, Some(ExternalRef(name, kind, expression)))) => Payload(v) == name + kind + expression
              case _ => Payload(v) == ""
  {
  }

  function Buffer(xs: seq<OptionValue>): string {
    if xs == [] then ""
    else Buffer(xs[..|xs| - 1]) + xs[|xs| - 1].name + Payload(xs[|xs| - 1])
  }

  lemma BufferOne(v: OptionValue)
    ensures Buffer([v]) == v.name + Payload(v)
  {
    assert [v][..0] == [] && Buffer([]) == "";
    assert "" + v.name == v.name;
  }

  lemma {:induction false} BufferConcat(a: seq<OptionValue>, b: seq<OptionValue>)
    ensures Buffer(a + b) == Buffer(a) + Buffer(b)
    decreases |b|
  {
    if b == [] {
      assert a + b == a;
    } else {
      var most, last := b[..|b| - 1], b[|b| - 1];
      assert (a + b)[..|a + b| - 1] == a + most && (a + b)[|a + b| - 1] == last;
      BufferConcat(a, most);
      Associate(Buffer(a), Buffer(most), last.name);
      Associate(Buffer(a), Buffer(most) + last.name, Payload(last));
    }
  }

  /** The buffer goes option by option: the name, then what is hashed of it. */
  lemma BufferEach(a: seq<OptionValue>, b: seq<OptionValue>, v: OptionValue)
    ensures Buffer(a + b) == Buffer(a) + Buffer(b)
    ensures Buffer([v]) == v.name + Payload(v)
  {
    BufferConcat(a, b);
    BufferOne(v);
  }

  /** Changing what is hashed of one option, its name and the others kept, changes the buffer exactly when it becomes another text. */
  lemma BufferChanges(a: seq<OptionValue>, v: OptionValue, w: OptionValue, b: seq<OptionValue>)
    requires v.name == w.name
    ensures Buffer(a + [v] + b) == Buffer(a + [w] + b) <==> Payload(v) == Payload(w)
  {
    BufferEach(a + [v], b, v);
    BufferEach(a, [v], v);
    BufferEach(a + [w], b, w);
    BufferEach(a, [w], w);
    var x, y := Buffer(a) + v.name, Buffer(b);
    assert Buffer(a + [v] + b) == x + Payload(v) + y && Buffer(a + [w] + b) == x + Payload(w) + y;
    MiddleSame(x, Payload(v), Payload(w), y);
  }

  lemma MiddleSame(x: string, p: string, q: string, y: string)
    ensures x + p + y == x + q + y <==> p == q
  {
    if x + p + y == x + q + y {
      assert |p| == |q|;
      assert p == (x + p + y)[|x|..|x| + |p|] && q == (x + q + y)[|x|..|x| + |q|];
    }
  }

  /** The bytes that are hashed, for options with distinct names. */
  function ChecksumInput(xs: seq<OptionValue>, secrets: Secrets, json: string -> string): string
    requires AllResolvable(xs, secrets)
  {
    Buffer(SortBy(Name, ResolveAll(xs, secrets, json)))
  }

  lemma ResolveDistinct(xs: seq<OptionValue>, secrets: Secrets, json: string -> string)
    requires AllResolvable(xs, secrets) && DistinctNames(xs)
    ensures DistinctNames(ResolveAll(xs, secrets, json))
  {
    var rs := ResolveAll(xs, secrets, json);
    forall i, j | 0 <= i < j < |rs| ensures Name(rs[i]) != Name(rs[j]) {
      assert Name(xs[i]) != Name(xs[j]);
    }
  }

  lemma ResolveKeepsElements(xs: seq<OptionValue>, ys: seq<OptionValue>, secrets: Secrets, json: string -> string)
    requires AllResolvable(xs, secrets) && AllResolvable(ys, secrets) && SameElements(xs, ys)
    ensures forall x :: x in ResolveAll(xs, secrets, json) ==> x in ResolveAll(ys, secrets, json)
  {
    var rs, ss := ResolveAll(xs, secrets, json), ResolveAll(ys, secrets, json);
    forall x | x in rs ensures x in ss {
      var i :| 0 <= i < |rs| && rs[i] == x;
      assert xs[i] in xs;
      var j :| 0 <= j < |ys| && ys[j] == xs[i];
      assert ss[j] == x;
    }
  }

  /** Listing the options in another order does not change what is hashed. */
  lemma ChecksumIgnoresOrder(xs: seq<OptionValue>, ys: seq<OptionValue>, secrets: Secrets, json: string -> string)
    requires multiset(xs) == multiset(ys) && DistinctNames(xs) && AllResolvable(xs, secrets)
    ensures AllResolvable(ys, secrets)
    ensures ChecksumInput(ys, secrets, json) == ChecksumInput(xs, secrets, json)
  {
    SameMultisetSameElements(xs, ys);
    forall i | 0 <= i < |ys| ensures Resolvable(ys[i], secrets) {
      assert ys[i] in ys;
    }
    DistinctPermutes(Name, xs, ys);
    ResolveDistinct(xs, secrets, json);
    ResolveDistinct(ys, secrets, json);
    ResolveKeepsElements(xs, ys, secrets, json);
    ResolveKeepsElements(ys, xs, secrets, json);
    SortedElements(ResolveAll(xs, secrets, json), ResolveAll(ys, secrets, json));
  }

  /** Lists with distinct names and the same elements sort to the same list. */
  lemma SortedElements(xs: seq<OptionValue>, ys: seq<OptionValue>)
    requires DistinctNames(xs) && DistinctNames(ys) && SameElements(xs, ys)
    ensures SortBy(Name, xs) == SortBy(Name, ys)
  {
    var a, b := SortBy(Name, xs), SortBy(Name, ys);
    SortBySorted(Name, xs);
    SortBySorted(Name, ys);
    DistinctPermutes(Name, xs, a);
    DistinctPermutes(Name, ys, b);
    DistinctSortedIsStrict(Name, a);
    DistinctSortedIsStrict(Name, b);
    SameMultisetSameElements(xs, a);
    SameMultisetSameElements(ys, b);
    StrictUnique(Name, a, b);
  }

  lemma ReplacedElements(xs: seq<OptionValue>, ys: seq<OptionValue>, i: int, k: int, w: OptionValue, xs': seq<OptionValue>, ys': seq<OptionValue>)
    requires DistinctNames(xs) && DistinctNames(ys) && SameElements(xs, ys)
    requires 0 <= i < |xs| && 0 <= k < |ys| && xs[i] == ys[k] && xs' == xs[i := w] && ys' == ys[k := w]
    ensures forall x :: x in xs' ==> x in ys'
  {
    forall x | x in xs' ensures x in ys' {
      var j :| 0 <= j < |xs'| && xs'[j] == x;
      if j == i {
        assert ys'[k] == x;
      } else {
        assert xs[j] in xs;
        var m :| 0 <= m < |ys| && ys[m] == xs[j];
        assert Name(xs[j]) != Name(xs[i]) by {
          if j < i { assert Name(xs[j]) != Name(xs[i]); } else { assert Name(xs[i]) != Name(xs[j]); }
        }
        assert ys'[m] == x;
      }
    }
  }

  /** Replacing an option by one of the same name replaces it in the sorted list. */
  lemma SortReplaced(xs: seq<OptionValue>, i: int, w: OptionValue) returns (k: int)
    requires DistinctNames(xs) && 0 <= i < |xs| && xs[i].name == w.name
    ensures 0 <= k < |SortBy(Name, xs)| && SortBy(Name, xs)[k] == xs[i]
    ensures SortBy(Name, xs[i := w]) == SortBy(Name, xs)[k := w]
  {
    var a, ys := SortBy(Name, xs), xs[i := w];
    SortBySorted(Name, xs);
    DistinctPermutes(Name, xs, a);
    DistinctSortedIsStrict(Name, a);
    SameMultisetSameElements(xs, a);
    assert xs[i] in a;
    k :| 0 <= k < |a| && a[k] == xs[i];
    var b := a[k := w];
    forall m, n | 0 <= m < n < |b| ensures Less(Name(b[m]), Name(b[n])) {
      assert Less(Name(a[m]), Name(a[n]));
    }
    forall m, n | 0 <= m < n < |ys| ensures Name(ys[m]) != Name(ys[n]) {
      assert Name(xs[m]) != Name(xs[n]);
    }
    ReplacedElements(xs, a, i, k, w, ys, b);
    ReplacedElements(a, xs, k, i, w, b, ys);
    var c := SortBy(Name, ys);
    SortBySorted(Name, ys);
    DistinctPermutes(Name, ys, c);
    DistinctSortedIsStrict(Name, c);
    SameMultisetSameElements(ys, c);
    StrictUnique(Name, b, c);
  }

  lemma ResolveReplaced(xs: seq<OptionValue>, i: int, w: OptionValue, secrets: Secrets, json: string -> string)
    requires 0 <= i < |xs| && AllResolvable(xs, secrets) && Resolvable(w, secrets)
    ensures AllResolvable(xs[i := w], secrets)
    ensures ResolveAll(xs[i := w], secrets, json) == ResolveAll(xs, secrets, json)[i := Resolved(w, secrets, json)]
  {
  }

  lemma BufferReplaced(xs: seq<OptionValue>, k: int, w: OptionValue)
    requires 0 <= k < |xs| && xs[k].name == w.name
    ensures Buffer(xs[k := w]) == Buffer(xs) <==> Payload(xs[k]) == Payload(w)
  {
    var a, b := xs[..k], xs[k + 1..];
    assert xs == a + [xs[k]] + b && xs[k := w] == a + [w] + b;
    BufferChanges(a, xs[k], w, b);
  }

  /** The checksum input notices a changed option: it stays the same exactly when what is hashed of the option stays the same. */
  lemma ChecksumChanges(xs: seq<OptionValue>, i: int, w: OptionValue, secrets: Secrets, json: string -> string)
    requires DistinctNames(xs) && 0 <= i < |xs| && xs[i].name == w.name
    requires AllResolvable(xs, secrets) && Resolvable(w, secrets)
    ensures AllResolvable(xs[i := w], secrets)
    ensures ChecksumInput(xs[i := w], secrets, json) == ChecksumInput(xs, secrets, json) <==>
            Payload(Resolved(xs[i], secrets, json)) == Payload(Resolved(w, secrets, json))
  {
    var rs, v := ResolveAll(xs, secrets, json), Resolved(w, secrets, json);
    ResolveDistinct(xs, secrets, json);
    ResolveReplaced(xs, i, w, secrets, json);
    var k := SortReplaced(rs, i, v);
    BufferReplaced(SortBy(Name, rs), k, v);
  }

  /** resolvePluginOptionValueFrom: works on a copy; the plugin's own list is not touched. */
  method ResolvePluginOptionValueFrom(options: Slice, secrets: Secrets, json: string -> string)
    returns (r: Option<Slice>)
    requires options.Valid()
    ensures r.Some? <==> AllResolvable(options.Contents(), secrets)
    ensures r.Some? ==> r.value.Valid() && fresh(r.value.data) && r.value.Contents() == ResolveAll(options.Contents(), secrets, json)
    ensures r.Some? ==> |r.value.Contents()| == |options.Contents()| && forall i :: 0 <= i < |options.Contents()| ==>
              ResolvedAs(options.Contents()[i], r.value.Contents()[i], secrets, json)
  {
    var xs := options.Contents();
    var named := new OptionValue[|xs|](i requires 0 <= i < |xs| => xs[i]);
    for idx := 0 to named.Length
      invariant forall i :: 0 <= i < idx ==> Resolvable(xs[i], secrets) && named[i] == Resolved(xs[i], secrets, json)
      invariant forall i :: idx <= i < named.Length ==> named[i] == xs[i]
    {
      var val := named[idx];
      if val.FromSecret() {
        var secret := secrets(val.valueFrom.value.secret.value);
        if secret.None? {
          assert !Resolvable(xs[idx], secrets);
          return None;
        }
        named[idx] := val.(value := Some(json(secret.value)));
      }
    }
    assert named[..|xs|] == ResolveAll(xs, secrets, json);
    return Some(Slice(named, |xs|));
  }

  /** The append loop of the checksum. */
  method WriteBuffer(xs: seq<OptionValue>) returns (buf: string)
    ensures buf == Buffer(xs)
  {
    buf := "";
    for i := 0 to |xs|
      invariant buf == Buffer(xs[..i])
    {
      assert xs[..i + 1][..i] == xs[..i];
      var v := xs[i];
      buf := buf + v.name;
      if v.value.Some? {
        buf := buf + v.value.value;
      } else if v.expression.Some? {
        buf := buf + v.expression.value;
      } else if v.valueFrom.Some? && v.valueFrom.value.external.Some? {
        var e := v.valueFrom.value.external.value;
        ghost var head := buf;
        buf := buf + e.name + e.kind + e.expression;
        assert buf == head + Payload(v);
      }
    }
    assert xs[..|xs|] == xs;
  }

  /**
   The buffer CalculatePluginOptionChecksum hashes. It depends only on the options, not on how the sort treats
   them, and the plugin's option list is left unchanged.
   */
  method ChecksumBuffer(options: Slice, secrets: Secrets, json: string -> string) returns (r: Option<string>)
    requires options.Valid()
    ensures r.Some? <==> AllResolvable(options.Contents(), secrets)
    ensures r.Some? && DistinctNames(options.Contents()) ==> r.value == ChecksumInput(options.Contents(), secrets, json)
  {
    var values := ResolvePluginOptionValueFrom(options, secrets, json);
    if values.None? {
      return None;
    }
    ghost var resolved := values.value.Contents();
    SortSlice(values.value);
    var buf := WriteBuffer(values.value.Contents());
    if DistinctNames(options.Contents()) {
      ResolveDistinct(options.Contents(), secrets, json);
      SortCanonical(Name, resolved, values.value.Contents());
    }
    return Some(buf);
  }
}
