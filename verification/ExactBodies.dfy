/**
 Which bodies are safe: a placeholder that ends in another one is cut when that one is replaced first.
 */
module ExactBodies {
  import opened StringOps
  import opened Expressions
  import opened ExactValues

  // --- rounds, and the length of what they leave ---

  lemma {:induction false} SequentialConcat(s: string, x: seq<string>, y: seq<string>, value: string -> string)
    ensures Sequential(s, x + y, value) == Sequential(Sequential(s, x, value), y, value)
    decreases |y|
  {
    if y == [] {
      assert x + y == x;
    } else {
      var most := y[..|y| - 1];
      assert (x + y)[..|x + y| - 1] == x + most;
      SequentialConcat(s, x, most, value);
    }
  }

  lemma FirstRound(s: string, order: seq<string>, value: string -> string)
    requires order != []
    ensures Sequential(s, order, value) == Sequential(ReplaceAll(s, Pattern(order[0]), value(order[0])), order[1..], value)
    ensures Elements(order) == {order[0]} + Elements(order[1..])
  {
    var b, rest := order[0], order[1..];
    assert order == [b] + rest;
    SequentialConcat(s, [b], rest, value);
    assert [b][..0] == [] && Sequential(s, [], value) == s;
    ElementsConcat([b], rest);
    assert Elements([b]) == {b};
  }

  function FinalLength(ts: seq<Token>, done: set<string>, value: string -> string): nat {
    |Render(Substitute(ts, done, value))|
  }

  lemma FinalConcat(x: seq<Token>, y: seq<Token>, done: set<string>, value: string -> string)
    ensures FinalLength(x + y, done, value) == FinalLength(x, done, value) + FinalLength(y, done, value)
  {
    SubstituteConcat(x, y, done, value);
    RenderConcat(Substitute(x, done, value), Substitute(y, done, value));
  }

  lemma FinalChars(s: string, done: set<string>, value: string -> string)
    ensures FinalLength(Chars(s), done, value) == |s|
  {
    SubstituteChars(s, done, value);
    RenderChars(s);
  }

  lemma FinalOne(b: string, done: set<string>, value: string -> string)
    ensures FinalLength([Placeholder(b)], done, value) == if b in done then |value(b)| else |b| + 3
  {
    SubstituteOne(b, done, value);
    RenderChars(value(b));
    RenderOne(Placeholder(b));
    PatternAt(b, 0);
  }

  /** What is nested after the first round. */
  lemma NotNestedNext(ts: seq<Token>, b: string, d: string, done: set<string>, value: string -> string)
    ensures NotNested(Substitute(ts, {b}, value), d, done) <==> NotNested(ts, d, {b} + done)
  {
    var next := Substitute(ts, {b}, value);
    if NotNested(ts, d, {b} + done) {
      forall i | 0 <= i < |next| && next[i].Placeholder? && EndsIn(next[i].body, d) ensures next[i].body in done {
        assert Placeholder(next[i].body) in next;
        SubstituteLeft(ts, {b}, value, next[i].body);
        var j :| 0 <= j < |ts| && ts[j] == next[i];
      }
    }
    if NotNested(next, d, done) {
      forall i | 0 <= i < |ts| && ts[i].Placeholder? && EndsIn(ts[i].body, d) ensures ts[i].body in {b} + done {
        assert Placeholder(ts[i].body) in ts;
        SubstituteLeft(ts, {b}, value, ts[i].body);
        if ts[i].body != b {
          var j :| 0 <= j < |next| && next[j] == ts[i];
        }
      }
    }
  }

  lemma PrefixElements(order: seq<string>, n: nat)
    requires 0 < n <= |order|
    ensures Elements(order[..n]) == {order[0]} + Elements(order[1..][..n - 1])
  {
    assert order[..n] == [order[0]] + order[1..][..n - 1];
    ElementsConcat([order[0]], order[1..][..n - 1]);
    assert Elements([order[0]]) == {order[0]};
  }

  lemma UnnestedNext(ts: seq<Token>, order: seq<string>, value: string -> string)
    requires order != []
    ensures Unnested(ts, order) <==>
            NotNested(ts, order[0], {}) && Unnested(Substitute(ts, {order[0]}, value), order[1..])
  {
    var b, rest := order[0], order[1..];
    var next := Substitute(ts, {b}, value);
    assert order[..0] == [] && Elements([]) == {};
    forall n | 0 < n < |order|
      ensures NotNested(ts, order[n], Elements(order[..n])) <==> NotNested(next, rest[n - 1], Elements(rest[..n - 1]))
    {
      PrefixElements(order, n);
      NotNestedNext(ts, b, order[n], Elements(rest[..n - 1]), value);
    }
    if Unnested(ts, order) {
      assert NotNested(ts, order[0], Elements(order[..0]));
      forall n | 0 <= n < |rest| ensures NotNested(next, rest[n], Elements(rest[..n])) {
        assert NotNested(ts, order[n + 1], Elements(order[..n + 1]));
      }
    }
    if NotNested(ts, b, {}) && Unnested(next, rest) {
      forall n | 0 <= n < |order| ensures NotNested(ts, order[n], Elements(order[..n])) {
        if n > 0 {
          assert NotNested(next, rest[n - 1], Elements(rest[..n - 1]));
        }
      }
    }
  }

  // --- nested placeholders ---

  function Us(n: nat): string {
    seq(n, _ => 'u')
  }

  /** A value that ends a placeholder cut open by it, with a body too long to be replaced. */
  function Wall(n: nat): string {
    Us(n) + "}"
  }

  lemma InertWall(n: nat)
    requires n > 0
    ensures Inert(Wall(n)) && Inert("$" + Wall(n)) && Inert("" + Wall(n))
  {
    var t := "$" + Wall(n);
    assert t[1] == Us(n)[0] && forall i :: 0 < i < |t| ==> t[i] != '$';
    InertTail(Wall(n));
    assert "" + Wall(n) == Wall(n);
  }

  function Renamed(t: Token, b: string, n: nat): Token {
    if t.Placeholder? && EndsIn(t.body, b) then Placeholder(Outer(t.body, b) + Us(n)) else t
  }

  /** Every placeholder that ends in that of `b` as it looks after that one has become a wall. */
  function Rename(ts: seq<Token>, b: string, n: nat): seq<Token> {
    if ts == [] then [] else [Renamed(ts[0], b, n)] + Rename(ts[1..], b, n)
  }

  lemma {:induction false} RenameAt(ts: seq<Token>, b: string, n: nat, i: nat)
    requires i < |ts|
    ensures |Rename(ts, b, n)| == |ts| && Rename(ts, b, n)[i] == Renamed(ts[i], b, n)
  {
    if |ts| > 1 {
      RenameAt(ts[1..], b, n, if i > 0 then i - 1 else 0);
    }
  }

  lemma RenameReadable(ts: seq<Token>, b: string, n: nat)
    requires Readable(ts) && n > 0
    ensures Readable(Rename(ts, b, n))
  {
    var rs := Rename(ts, b, n);
    forall i | 0 <= i < |ts| ensures |rs| == |ts| && rs[i] == Renamed(ts[i], b, n) {
      RenameAt(ts, b, n, i);
    }
    forall i | 0 <= i < |rs| ensures ReadableAt(rs, i) {
      assert ReadableAt(ts, i);
      if rs[i].Placeholder? && rs[i] != ts[i] {
        var outer := Outer(ts[i].body, b);
        assert forall j :: 0 <= j < |outer| ==> outer[j] == ts[i].body[j];
      }
      if Unclosed(ts, i + 2) {
        assert Unclosed(rs, i + 2);
      }
    }
  }

  lemma HitRenamed(t: Token, b: string, n: nat)
    requires |b| < n
    ensures Hit(t, b, Wall(n)) == if t == Placeholder(b) then Wall(n) else Text(Renamed(t, b, n))
    ensures Renamed(t, b, n) == Placeholder(b) <==> t == Placeholder(b)
  {
    if t.Placeholder? && EndsIn(t.body, b) {
      var outer := Outer(t.body, b);
      assert Pattern(outer + Us(n)) == "${" + outer + Wall(n);
    }
  }

  lemma {:induction false} RenameHits(ts: seq<Token>, b: string, n: nat, value: string -> string)
    requires |b| < n && value(b) == Wall(n)
    ensures HitAll(ts, b, Wall(n)) == Render(Substitute(Rename(ts, b, n), {b}, value))
  {
    if ts != [] {
      RenameHits(ts[1..], b, n, value);
      HitRenamed(ts[0], b, n);
      RenderSubstituted(Renamed(ts[0], b, n), Rename(ts[1..], b, n), b, value);
    }
  }

  lemma RenderSubstituted(t: Token, ts: seq<Token>, b: string, value: string -> string)
    ensures Render(Substitute([t] + ts, {b}, value)) ==
            (if t == Placeholder(b) then value(b) else Text(t)) + Render(Substitute(ts, {b}, value))
  {
    var after := Substitute(ts, {b}, value);
    assert ([t] + ts)[1..] == ts;
    if t == Placeholder(b) {
      RenderConcat(Chars(value(b)), after);
      RenderChars(value(b));
    } else {
      RenderCons(t, after);
    }
  }

  predicate Short(done: set<string>, n: nat) {
    forall d :: d in done ==> |d| + 3 <= n
  }

  lemma RenamedLonger(t: Token, b: string, n: nat, done: set<string>, value: string -> string)
    requires Short(done, n) && b in done && (forall d :: value(d) == Wall(n))
    ensures FinalLength([t], done, value) <= FinalLength([Renamed(t, b, n)], done, value)
    ensures t.Placeholder? && EndsIn(t.body, b) ==>
              FinalLength([t], done, value) < FinalLength([Renamed(t, b, n)], done, value)
  {
    if t.Placeholder? && EndsIn(t.body, b) {
      var body := Outer(t.body, b) + Us(n);
      assert |body| == |t.body| - |b| - 2 + n;
      FinalOne(t.body, done, value);
      FinalOne(body, done, value);
    }
  }

  lemma {:induction false} RenameLonger(ts: seq<Token>, b: string, n: nat, done: set<string>, value: string -> string)
    requires Short(done, n) && b in done && (forall d :: value(d) == Wall(n))
    ensures FinalLength(ts, done, value) <= FinalLength(Rename(ts, b, n), done, value)
    ensures !NotNested(ts, b, {}) ==> FinalLength(ts, done, value) < FinalLength(Rename(ts, b, n), done, value)
  {
    if ts != [] {
      RenameLonger(ts[1..], b, n, done, value);
      RenamedLonger(ts[0], b, n, done, value);
      assert ts == [ts[0]] + ts[1..];
      FinalConcat([ts[0]], ts[1..], done, value);
      FinalConcat([Renamed(ts[0], b, n)], Rename(ts[1..], b, n), done, value);
      if !NotNested(ts, b, {}) {
        var i :| 0 <= i < |ts| && ts[i].Placeholder? && EndsIn(ts[i].body, b);
        assert i > 0 ==> ts[1..][i - 1] == ts[i];
      }
    }
  }

  lemma {:induction false} RenameNothing(ts: seq<Token>, b: string, n: nat)
    requires NotNested(ts, b, {})
    ensures Rename(ts, b, n) == ts
  {
    if ts != [] {
      RenameNothing(ts[1..], b, n);
    }
  }

  /** One round, on any readable template, when all values are walls. */
  lemma WallRound(ts: seq<Token>, b: string, n: nat, value: string -> string)
    requires Readable(ts) && Legal(b) && |b| < n && (forall d :: value(d) == Wall(n))
    ensures ReplaceAll(Render(ts), Pattern(b), value(b)) == Render(Substitute(Rename(ts, b, n), {b}, value))
    ensures Readable(Substitute(Rename(ts, b, n), {b}, value))
  {
    ReplaceExactly(ts, b, Wall(n));
    RenameHits(ts, b, n, value);
    RenameReadable(ts, b, n);
    InertWall(n);
    SubstituteReadable(Rename(ts, b, n), {b}, value);
  }

  /** With walls for values, every placeholder that is cut makes the result longer. */
  lemma {:induction false} NestLonger(ts: seq<Token>, order: seq<string>, n: nat, value: string -> string)
    requires Readable(ts) && LegalBodies(order) && Short(Elements(order), n) && (forall d :: value(d) == Wall(n))
    ensures FinalLength(ts, Elements(order), value) <= |Sequential(Render(ts), order, value)|
    ensures !Unnested(ts, order) ==> FinalLength(ts, Elements(order), value) < |Sequential(Render(ts), order, value)|
    decreases |order|
  {
    if order == [] {
      assert Elements(order) == {};
      SubstituteNone(ts, value);
    } else {
      var b, rest := order[0], order[1..];
      var renamed := Rename(ts, b, n);
      var next := Substitute(renamed, {b}, value);
      FirstRound(Render(ts), order, value);
      WallRound(ts, b, n, value);
      NestLonger(next, rest, n, value);
      SubstituteTwice(renamed, {b}, Elements(rest), value);
      RenameLonger(ts, b, n, Elements(order), value);
      if NotNested(ts, b, {}) {
        RenameNothing(ts, b, n);
        UnnestedNext(ts, order, value);
      }
    }
  }

  function Longest(order: seq<string>): nat {
    if order == [] then 0
    else if |order[0]| > Longest(order[1..]) then |order[0]| else Longest(order[1..])
  }

  lemma {:induction false} LongestShort(order: seq<string>)
    ensures Short(Elements(order), Longest(order) + 3)
  {
    if order != [] {
      LongestShort(order[1..]);
      forall d | d in Elements(order) ensures |d| <= Longest(order) {
        assert d == order[0] || d in Elements(order[1..]);
      }
    }
  }

  /** The values at which every order that cuts a placeholder goes wrong. */
  function Walls(order: seq<string>): string -> string {
    _ => Wall(Longest(order) + 3)
  }

  lemma NestBreaks(ts: seq<Token>, order: seq<string>)
    requires Readable(ts) && LegalBodies(order) && !Unnested(ts, order)
    ensures !LoopIsRight(ts, order, Walls(order))
    ensures InertValues(Walls(order)) && InertBehindDollar(Walls(order))
  {
    LongestShort(order);
    NestLonger(ts, order, Longest(order) + 3, Walls(order));
    InertWall(Longest(order) + 3);
  }

  /** Where the last opening inside a body that is not clean stands. */
  lemma NestedOpening(b: string) returns (i: nat)
    requires Legal(b) && !CleanBody(b)
    ensures OpensLast(b + "}", i) && i + 2 < |b| && b[i] == '$' && b[i + 1] == '{'
  {
    var t := b + "}";
    i := LastOpening(t, |t|);
    assert t[|b|] == '}' && forall j :: 0 <= j < |b| ==> t[j] == b[j];
  }

  /** A body that is not clean ends in a clean one with its opening. */
  lemma NestedBody(b: string) returns (y: string)
    requires Legal(b) && !CleanBody(b)
    ensures CleanBody(y) && EndsIn(b, y)
  {
    var i := NestedOpening(b);
    y := b[i + 2..];
    TailBody(b, i);
    CleanFromLast(b + "}", i, y);
    assert b[i..] == "${" + y;
  }

  lemma TailBody(b: string, i: nat)
    requires Legal(b) && i + 2 < |b|
    ensures var y, t := b[i + 2..], b + "}";
            Legal(y) && i + 2 + |y| < |t| && t[i + 2 + |y|] == '}' && forall j :: 0 <= j < |y| ==> y[j] == t[i + 2 + j]
  {
    var y := b[i + 2..];
    forall j | 0 <= j < |y| ensures y[j] == (b + "}")[i + 2 + j] && y[j] != '}' {
      assert y[j] == b[i + 2 + j];
    }
  }

  lemma PairScans(y: string, b: string)
    requires Legal(y) && Legal(b)
    ensures Scan(Render([Placeholder(y), Placeholder(b)])) == [Placeholder(y), Placeholder(b)]
    ensures Bodies([Placeholder(y), Placeholder(b)]) == [y, b]
  {
    var ts := [Placeholder(y), Placeholder(b)];
    assert Readable(ts);
    ScanRender(ts);
    assert ts == [Placeholder(y)] + [Placeholder(b)];
    BodiesConcat([Placeholder(y)], [Placeholder(b)]);
    BodiesOne(y);
    BodiesOne(b);
    assert [y] + [b] == [y, b];
  }

  lemma PairNested(b: string, y: string)
    requires EndsIn(b, y)
    ensures !Unnested([Placeholder(y), Placeholder(b)], [y, b])
  {
    var ts, order := [Placeholder(y), Placeholder(b)], [y, b];
    assert order[..0] == [] && Elements([]) == {};
    assert ts[1].Placeholder? && EndsIn(ts[1].body, order[0]);
    assert !NotNested(ts, order[0], Elements(order[..0]));
  }

  lemma PairClean(y: string, b: string)
    requires CleanBody(y)
    ensures CleanBut([Placeholder(y), Placeholder(b)], b) && Spaced([Placeholder(y), Placeholder(b)])
  {
  }

  lemma BodyTrapped(b: string) returns (s: string, value: string -> string)
    requires Legal(b) && !CleanBody(b)
    ensures CleanBut(Scan(s), b) && Spaced(Scan(s)) && InertValues(value) && !MatchesLoopIsRight(s, value)
  {
    var y := NestedBody(b);
    var ts := [Placeholder(y), Placeholder(b)];
    PairScans(y, b);
    PairNested(b, y);
    PairClean(y, b);
    ScanRender(ts);
    s, value := Render(ts), Walls([y, b]);
    NestBreaks(ts, [y, b]);
  }

  /** Every placeholder whose body is not `b` is clean. */
  predicate CleanBut(ts: seq<Token>, b: string) {
    forall i :: 0 <= i < |ts| && ts[i].Placeholder? && ts[i].body != b ==> CleanBody(ts[i].body)
  }

  /**
   Which bodies are safe: exactly the clean ones. Any other makes the source's loop go wrong on some template in which
   all else is harmless.
   */
  lemma BodyExactly(b: string)
    requires Legal(b)
    ensures CleanBody(b) <==>
            forall s: string, value: string -> string ::
              CleanBut(Scan(s), b) && Spaced(Scan(s)) && InertValues(value) ==> MatchesLoopIsRight(s, value)
  {
    if CleanBody(b) {
      forall s: string, value: string -> string | CleanBut(Scan(s), b) && Spaced(Scan(s)) && InertValues(value)
        ensures MatchesLoopIsRight(s, value)
      {
        forall d ensures Inert(Front(Scan(s), d) + value(d)) {
          SpacedFront(Scan(s), d);
          assert "" + value(d) == value(d);
        }
        assert Clean(Scan(s));
        MatchesUnnested(s);
        AnyOrder(s, Bodies(Scan(s)), value);
      }
    } else {
      var s, value := BodyTrapped(b);
    }
  }
}
