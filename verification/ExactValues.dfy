/**
 Which values are safe in a placeholder: the condition of the substitution theorem on them is exact. A value that breaks
 it makes the loop differ from the simultaneous substitution on some template, although all else is harmless.
 The two texts are told apart by their lengths.
 */
module ExactValues {
  import opened StringOps
  import opened Expressions

  // --- what a replacement does to the length ---

  /** Occurrences of one pattern do not overlap. */
  lemma NoOverlap(s: string, b: string, i: nat)
    requires Legal(b) && HasPrefix(s, Pattern(b)) && 0 < i < |b| + 3
    ensures !HasPrefix(s[i..], Pattern(b))
  {
    var k := |b| + 2 - i;
    PatternAt(b, |b| + 2);
    PatternAt(b, k);
    assert s[i..][k] == s[|b| + 2] == s[..|Pattern(b)|][|b| + 2];
    if k < |s[i..]| {
      Mismatch(s[i..], Pattern(b), k);
    }
  }

  lemma OneMore(c: char, rest: string, b: string, v: string)
    requires Legal(b) && |v| <= |b| + 3
    ensures |ReplaceAll([c] + rest, Pattern(b), v)| <= 1 + |ReplaceAll(rest, Pattern(b), v)|
  {
    var s := [c] + rest;
    assert s[1..] == rest;
    if HasPrefix(s, Pattern(b)) {
      var head, tail := rest[..|b| + 2], rest[|b| + 2..];
      assert head + tail == rest && s[|Pattern(b)|..] == tail;
      forall i | 0 <= i < |head| ensures !HasPrefix((head + tail)[i..], Pattern(b)) {
        NoOverlap(s, b, i + 1);
        assert (head + tail)[i..] == s[i + 1..];
      }
      ReplaceSkips(head, tail, Pattern(b), v);
    }
  }

  lemma {:induction false} ReplaceAdds(head: string, rest: string, b: string, v: string)
    requires Legal(b) && |v| <= |b| + 3
    ensures |ReplaceAll(head + rest, Pattern(b), v)| <= |head| + |ReplaceAll(rest, Pattern(b), v)|
  {
    if head == "" {
      assert head + rest == rest;
    } else {
      ReplaceAdds(head[1..], rest, b, v);
      assert head + rest == [head[0]] + (head[1..] + rest);
      OneMore(head[0], head[1..] + rest, b, v);
    }
  }

  lemma RenderOne(t: Token)
    ensures Render([t]) == Text(t)
  {
    assert [t][1..] == [];
  }

  /** One occurrence that is not a token makes the result too short. */
  lemma ExtraHit(left: string, right: string, b: string, v: string)
    requires Legal(b) && |v| < |b| + 3
    ensures |ReplaceAll(left + (Pattern(b) + right), Pattern(b), v)| < |left| + |Pattern(b)| + |ReplaceAll(right, Pattern(b), v)|
  {
    ReplaceAdds(left, Pattern(b) + right, b, v);
    ReplaceHit(right, b, v);
  }

  // --- values ---

  ghost function LastOpening(w: string, n: nat): (i: nat)
    requires n <= |w| && exists i :: 0 <= i < n && OpensAt(w, i)
    requires forall j :: n <= j < |w| ==> !OpensAt(w, j)
    ensures i < |w| && OpensAt(w, i) && forall j :: i < j < |w| ==> !OpensAt(w, j)
  {
    if OpensAt(w, n - 1) then n - 1 else LastOpening(w, n - 1)
  }

  /** The last opening of `w` is at `i`. */
  ghost predicate OpensLast(w: string, i: nat) {
    i < |w| && OpensAt(w, i) && forall j :: i < j < |w| ==> !OpensAt(w, j)
  }

  /** A pattern that stands at `i` splits the text. */
  lemma SplitAt(s: string, i: nat, b: string)
    requires Spells(Pattern(b), s, i, i + |b| + 3)
    ensures s == s[..i] + (Pattern(b) + s[i + |b| + 3..])
  {
    var t := Pattern(b) + s[i + |b| + 3..];
    forall j | i <= j < |s| ensures t[j - i] == s[j] {
      if j < i + |b| + 3 {
        assert Pattern(b)[j - i] == s[i + (j - i)];
      }
    }
  }

  lemma SpellsPattern(s: string, i: nat, b: string)
    requires i + |b| + 3 <= |s| && s[i] == '$' && s[i + 1] == '{' && s[i + 2 + |b|] == '}'
    requires forall j :: 0 <= j < |b| ==> b[j] == s[i + 2 + j]
    ensures Spells(Pattern(b), s, i, i + |b| + 3)
  {
    forall j | 0 <= j < |b| + 3 ensures Pattern(b)[j] == s[i + j] {
      PatternAt(b, j);
    }
  }

  lemma CleanFromLast(w: string, i: nat, b: string)
    requires OpensLast(w, i) && i + 2 + |b| <= |w| && Legal(b)
    requires forall j :: 0 <= j < |b| ==> b[j] == w[i + 2 + j]
    requires i + 2 + |b| < |w| ==> w[i + 2 + |b|] == '}'
    ensures CleanBody(b)
  {
    forall j | 0 <= j < |b + "}"| ensures !OpensAt(b + "}", j) {
      if j < |b| {
        assert !OpensAt(w, i + 2 + j);
      }
    }
  }

  lemma CleanMore(b: string)
    requires '}' !in b && (b == "" || CleanBody(b)) && (b != "" ==> b[|b| - 1] != '$')
    requires |b| >= 2 ==> !(b[|b| - 2] == '$' && b[|b| - 1] == '{')
    ensures CleanBody(b + "x")
  {
    var c := b + "x";
    forall j | 0 <= j < |c + "}"| ensures !OpensAt(c + "}", j) {
      if j < |b| {
        assert !OpensAt(b + "}", j);
      }
    }
  }

  /** A text that is not inert can be continued so that it holds a clean placeholder. */
  lemma Completion(w: string) returns (i: nat, b: string, tail: string)
    requires !Inert(w)
    ensures CleanBody(b) && '$' !in tail && Spells(Pattern(b), w + tail, i, i + |b| + 3)
  {
    i := LastOpening(w, |w|);
    if i + 1 == |w| {
      b, tail := "x", "{x}";
      CleanLetter(b);
    } else {
      var k := IndexFrom(w, '}', i + 2);
      b := w[i + 2..k];
      assert forall j :: 0 <= j < |b| ==> b[j] == w[i + 2 + j];
      if b != "" {
        CleanFromLast(w, i, b);
      }
      tail := "";
      if k == |w| {
        assert forall j :: i < j < |w| ==> !OpensAt(w, j);
        assert b != "" ==> !OpensAt(w, |w| - 1);
        assert |b| >= 2 ==> !OpensAt(w, |w| - 2);
        CleanMore(b);
        b, tail := b + "x", "x}";
      }
    }
    SpellsPattern(w + tail, i, b);
  }

  /** `a` evaluates to `w` and everything else to a short harmless text. */
  function Only(a: string, w: string): string -> string {
    b => if b == a then w else "u"
  }

  /** The template that lets `w`, put behind `front`, meet the placeholder it opens. */
  function Trap(front: string, a: string, tail: string, b: string): seq<Token> {
    Chars(front) + [Placeholder(a)] + Chars(tail) + [Placeholder(b)]
  }

  lemma CleanLetter(b: string)
    requires |b| == 1 && b[0] != '}' && b[0] != '$'
    ensures CleanBody(b)
  {
  }

  lemma TrapAt(front: string, a: string, tail: string, b: string, i: nat)
    requires front in ["", "$"] && CleanBody(a) && CleanBody(b) && '$' !in tail
    requires i < |Trap(front, a, tail, b)|
    ensures var ts := Trap(front, a, tail, b);
            ReadableAt(ts, i) && (ts[i].Placeholder? ==> CleanBody(ts[i].body)) && (ts[i] == Char('$') ==> front == "$")
  {
    var ts := Trap(front, a, tail, b);
    assert front == "$" ==> ts[1] == Placeholder(a);
    if |front| < i <= |front| + |tail| {
      assert ts[i] == Char(tail[i - |front| - 1]);
    }
  }

  lemma TrapSafe(front: string, a: string, tail: string, b: string)
    requires front in ["", "$"] && CleanBody(a) && CleanBody(b) && '$' !in tail
    ensures Readable(Trap(front, a, tail, b)) && Clean(Trap(front, a, tail, b))
    ensures front == "" ==> Spaced(Trap(front, a, tail, b))
    ensures Bodies(Trap(front, a, tail, b)) == [a, b]
  {
    var ts := Trap(front, a, tail, b);
    forall i | 0 <= i < |ts| ensures ReadableAt(ts, i) {
      TrapAt(front, a, tail, b, i);
    }
    forall i | 0 <= i < |ts| && ts[i].Placeholder? ensures CleanBody(ts[i].body) {
      TrapAt(front, a, tail, b, i);
    }
    if front == "" {
      forall j | 0 <= j < |ts| ensures ts[j] != Char('$') {
        TrapAt(front, a, tail, b, j);
      }
    }
    BodiesConcat(Chars(front) + [Placeholder(a)] + Chars(tail), [Placeholder(b)]);
    BodiesConcat(Chars(front) + [Placeholder(a)], Chars(tail));
    BodiesConcat(Chars(front), [Placeholder(a)]);
    BodiesChars(front);
    BodiesChars(tail);
    BodiesOne(a);
    BodiesOne(b);
  }

  lemma BodiesOne(b: string)
    ensures Bodies([Placeholder(b)]) == [b]
  {
    assert [Placeholder(b)][1..] == [];
  }

  lemma {:induction false} BodiesConcat(x: seq<Token>, y: seq<Token>)
    ensures Bodies(x + y) == Bodies(x) + Bodies(y)
  {
    if x == [] {
      assert x + y == y;
    } else {
      assert (x + y)[1..] == x[1..] + y;
      BodiesConcat(x[1..], y);
    }
  }

  lemma {:induction false} BodiesChars(s: string)
    ensures Bodies(Chars(s)) == []
  {
    if s != "" {
      assert Chars(s)[1..] == Chars(s[1..]);
      BodiesChars(s[1..]);
    }
  }

  lemma SubstituteOne(b: string, done: set<string>, value: string -> string)
    ensures Substitute([Placeholder(b)], done, value) == if b in done then Chars(value(b)) else [Placeholder(b)]
  {
    assert [Placeholder(b)][1..] == [];
  }

  lemma SubstituteTrap(front: string, a: string, tail: string, b: string, done: set<string>, value: string -> string)
    requires a in done
    ensures Render(Substitute(Trap(front, a, tail, b), done, value))
         == front + value(a) + tail + (if b in done then value(b) else Pattern(b))
  {
    var x, y, z := Chars(front), [Placeholder(a)], Chars(tail);
    SubstituteConcat(x + y + z, [Placeholder(b)], done, value);
    SubstituteConcat(x + y, z, done, value);
    SubstituteConcat(x, y, done, value);
    SubstituteChars(front, done, value);
    SubstituteChars(tail, done, value);
    SubstituteOne(a, done, value);
    SubstituteOne(b, done, value);
    var last := if b in done then Chars(value(b)) else [Placeholder(b)];
    RenderConcat(x + Chars(value(a)) + z, last);
    RenderConcat(x + Chars(value(a)), z);
    RenderConcat(x, Chars(value(a)));
    RenderChars(front);
    RenderChars(tail);
    RenderChars(value(a));
    RenderChars(value(b));
    RenderOne(Placeholder(b));
  }

  /** Where a pattern stands before its own placeholder, two occurrences are replaced. */
  lemma TwoHits(s: string, i: nat, b: string, v: string)
    requires Legal(b) && |v| < |b| + 3 && Spells(Pattern(b), s, i, i + |b| + 3)
    ensures |ReplaceAll(s + Pattern(b), Pattern(b), v)| < |s| + |v|
  {
    var left, right := s[..i], s[i + |b| + 3..];
    SplitAt(s, i, b);
    assert s + Pattern(b) == left + (Pattern(b) + (right + (Pattern(b) + "")));
    ExtraHit(left, right + (Pattern(b) + ""), b, v);
    ReplaceAdds(right, Pattern(b) + "", b, v);
    ReplaceHit("", b, v);
  }

  lemma SequentialPair(s: string, a: string, b: string, value: string -> string)
    ensures Sequential(s, [a, b], value) == ReplaceAll(ReplaceAll(s, Pattern(a), value(a)), Pattern(b), value(b))
  {
    var order := [a, b];
    assert order[..1] == [a] && [a][..0] == [];
    assert Sequential(s, [], value) == s;
    assert Sequential(s, [a], value) == ReplaceAll(s, Pattern(a), value(a));
  }

  lemma TrapBreaks(front: string, a: string, tail: string, b: string, w: string, i: nat)
    requires front in ["", "$"] && CleanBody(a) && CleanBody(b) && a != b && '$' !in tail
    requires Spells(Pattern(b), front + w + tail, i, i + |b| + 3)
    ensures !LoopIsRight(Trap(front, a, tail, b), [a, b], Only(a, w))
  {
    var ts, value := Trap(front, a, tail, b), Only(a, w);
    TrapSafe(front, a, tail, b);
    CleanNotNested(ts, a);
    ReplaceOne(ts, a, value);
    SubstituteTrap(front, a, tail, b, {a}, value);
    SequentialPair(Render(ts), a, b, value);
    TwoHits(front + w + tail, i, b, "u");
    var both := Elements([a, b]);
    assert a in both && b in both;
    SubstituteTrap(front, a, tail, b, both, value);
  }

  /** A value that is not inert behind `front` breaks the loop over the matches of some template. */
  lemma ValueBreaks(front: string, w: string) returns (ts: seq<Token>, a: string)
    requires front in ["", "$"] && !Inert(front + w)
    ensures Readable(ts) && Clean(ts) && (front == "" ==> Spaced(ts))
    ensures !LoopIsRight(ts, Bodies(ts), Only(a, w))
  {
    var i, b, tail := Completion(front + w);
    a := if b == "a" then "c" else "a";
    CleanLetter(a);
    ts := Trap(front, a, tail, b);
    TrapSafe(front, a, tail, b);
    TrapBreaks(front, a, tail, b, w, i);
  }

  /** The source's loop over the matches of a text, against replacing them all at once. */
  predicate MatchesLoopIsRight(s: string, value: string -> string) {
    Sequential(s, Bodies(Scan(s)), value) == Simultaneous(s, value)
  }

  lemma MatchesUnnested(s: string)
    requires Clean(Scan(s))
    ensures Unnested(Scan(s), Bodies(Scan(s)))
  {
    MatchesLegal(s, Bodies(Scan(s)));
    CleanUnnested(Scan(s), Bodies(Scan(s)));
  }

  /** `w` for one placeholder, harmless values for the others. */
  ghost predicate OneValue(value: string -> string, a: string, w: string) {
    value(a) == w && forall b :: b != a ==> Inert(value(b))
  }

  ghost predicate OneValueBehindDollar(value: string -> string, a: string, w: string) {
    value(a) == w && forall b :: b != a ==> Inert("$" + value(b))
  }

  lemma ValueTrapped(front: string, w: string) returns (s: string, a: string)
    requires front in ["", "$"] && !Inert(front + w)
    ensures Clean(Scan(s)) && (front == "" ==> Spaced(Scan(s)))
    ensures !MatchesLoopIsRight(s, Only(a, w))
    ensures OneValue(Only(a, w), a, w) && OneValueBehindDollar(Only(a, w), a, w)
  {
    var ts;
    ts, a := ValueBreaks(front, w);
    s := Render(ts);
    ScanRender(ts);
    OnlyOne(a, w);
  }

  lemma InertLetter()
    ensures Inert("u") && Inert("$u")
  {
  }

  lemma OnlyOne(a: string, w: string)
    ensures OneValue(Only(a, w), a, w) && OneValueBehindDollar(Only(a, w), a, w)
  {
    InertLetter();
  }

  lemma SpacedFront(ts: seq<Token>, b: string)
    requires Spaced(ts)
    ensures Front(ts, b) == ""
  {
  }

  /**
   Which values are safe. In templates without a dollar directly before a placeholder exactly the inert ones, and in
   all templates with clean bodies exactly those that are inert behind a dollar: for any other value the source's loop
   goes wrong on some such template, although all other values are harmless.
   */
  lemma ValueExactly(w: string)
    ensures Inert(w) <==>
            forall s: string, a: string, value: string -> string ::
              Clean(Scan(s)) && Spaced(Scan(s)) && OneValue(value, a, w) ==> MatchesLoopIsRight(s, value)
    ensures Inert("$" + w) <==>
            forall s: string, a: string, value: string -> string ::
              Clean(Scan(s)) && OneValueBehindDollar(value, a, w) ==> MatchesLoopIsRight(s, value)
  {
    if Inert(w) {
      forall s: string, a: string, value: string -> string | Clean(Scan(s)) && Spaced(Scan(s)) && OneValue(value, a, w)
        ensures MatchesLoopIsRight(s, value)
      {
        forall b ensures Inert(Front(Scan(s), b) + value(b)) {
          SpacedFront(Scan(s), b);
          assert "" + value(b) == value(b);
        }
        MatchesUnnested(s);
        AnyOrder(s, Bodies(Scan(s)), value);
      }
    } else {
      assert "" + w == w;
      var s, a := ValueTrapped("", w);
    }
    if Inert("$" + w) {
      forall s: string, a: string, value: string -> string | Clean(Scan(s)) && OneValueBehindDollar(value, a, w)
        ensures MatchesLoopIsRight(s, value)
      {
        forall b ensures Inert(Front(Scan(s), b) + value(b)) {
          InertTail(value(b));
          assert "" + value(b) == value(b);
        }
        MatchesUnnested(s);
        AnyOrder(s, Bodies(Scan(s)), value);
      }
    } else {
      var s, a := ValueTrapped("$", w);
    }
  }
}
