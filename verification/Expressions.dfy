/**
 Placeholder substitution in option expressions: find every `${...}` placeholder, evaluate it, and replace all
 its occurrences, one placeholder after the other, in the text that the earlier replacements have produced.

 CEL evaluation and the formatting of its result are one parameter, a function from the text between the
 braces to the formatted value; the final YAML to JSON conversion is left out.
 */
module Expressions {
  import opened Options
  import opened StringOps

  // --- placeholders ---

  /** A template is a sequence of plain characters and placeholders. */
  datatype Token = Char(c: char) | Placeholder(body: string)

  function Pattern(body: string): string {
    "${" + body + "}"
  }

  /** The expression `\$\{([^}]+)\}` matches at `i`: the body runs to the first closing brace and is not empty. */
  predicate MatchesAt(s: string, i: nat) {
    i + 1 < |s| && s[i] == '$' && s[i + 1] == '{' && i + 2 < IndexFrom(s, '}', i + 2) < |s|
  }

  /** The characters from `i` up to, not including, `k`. */
  function Between(s: string, i: nat, k: nat): (r: string)
    requires i <= k <= |s|
    ensures |r| == k - i && forall j :: 0 <= j < k - i ==> r[j] == s[i + j]
  {
    seq(k - i, j requires 0 <= j < k - i => s[i + j])
  }

  /** The template as the regular expression reads it from `i` on: leftmost matches, without overlap. */
  function ScanFrom(s: string, i: nat): seq<Token>
    requires i <= |s|
    decreases |s| - i
  {
    if i == |s| then []
    else if MatchesAt(s, i) then
      var k := IndexFrom(s, '}', i + 2);
      [Placeholder(Between(s, i + 2, k))] + ScanFrom(s, k + 1)
    else [Char(s[i])] + ScanFrom(s, i + 1)
  }

  function Scan(s: string): seq<Token> {
    ScanFrom(s, 0)
  }

  function Render(ts: seq<Token>): string {
    if ts == [] then ""
    else Text(ts[0]) + Render(ts[1..])
  }

  function Text(t: Token): string {
    match t
    case Char(c) => [c]
    case Placeholder(b) => Pattern(b)
  }

  function Chars(s: string): seq<Token> {
    seq(|s|, i requires 0 <= i < |s| => Char(s[i]))
  }

  /** The bodies in the order of the matches, repeats included. */
  function Bodies(ts: seq<Token>): seq<string> {
    if ts == [] then []
    else (if ts[0].Placeholder? then [ts[0].body] else []) + Bodies(ts[1..])
  }

  /** Every placeholder whose body is in `done` becomes its value, all at once. */
  function Substitute(ts: seq<Token>, done: set<string>, value: string -> string): seq<Token> {
    if ts == [] then []
    else
      (if ts[0].Placeholder? && ts[0].body in done then Chars(value(ts[0].body)) else [ts[0]])
      + Substitute(ts[1..], done, value)
  }

  /** The source's loop: one ReplaceAll per entry of `order`. */
  function Sequential(s: string, order: seq<string>, value: string -> string): string {
    if order == [] then s
    else
      var last := order[|order| - 1];
      ReplaceAll(Sequential(s, order[..|order| - 1], value), Pattern(last), value(last))
  }

  /** The loop over `order` does what replacing all those placeholders at once does. */
  predicate LoopIsRight(ts: seq<Token>, order: seq<string>, value: string -> string) {
    Sequential(Render(ts), order, value) == Render(Substitute(ts, Elements(order), value))
  }

  // --- the conditions under which the two agree ---

  /** A dollar at `i` opens, or could open with the right text after `s`, a placeholder that is not closed at once. */
  predicate OpensAt(s: string, i: int)
    requires 0 <= i < |s|
  {
    s[i] == '$' && (i + 1 == |s| || (s[i + 1] == '{' && (i + 2 == |s| || s[i + 2] != '}')))
  }

  predicate Inert(s: string) {
    forall i :: 0 <= i < |s| ==> !OpensAt(s, i)
  }

  ghost predicate InertValues(value: string -> string) {
    forall b :: Inert(value(b))
  }

  /** Values that stay inert directly behind a dollar: not empty, and not starting with a brace that opens. */
  ghost predicate InertBehindDollar(value: string -> string) {
    forall b :: Inert("$" + value(b))
  }

  /** What the regular expression accepts between the braces. */
  predicate Legal(b: string) {
    b != "" && '}' !in b
  }

  predicate LegalBodies(order: seq<string>) {
    forall n :: 0 <= n < |order| ==> Legal(order[n])
  }

  /** A body that holds no opening of another placeholder. */
  predicate CleanBody(b: string) {
    Legal(b) && Inert(b + "}")
  }

  predicate Clean(ts: seq<Token>) {
    forall i :: 0 <= i < |ts| && ts[i].Placeholder? ==> CleanBody(ts[i].body)
  }

  /** The placeholder of `c` ends in that of `b`. */
  predicate EndsIn(c: string, b: string) {
    |b| + 2 <= |c| && c[|c| - |b| - 2..] == "${" + b
  }

  /** No placeholder whose body is not in `done` ends in that of `b`. */
  predicate NotNested(ts: seq<Token>, b: string, done: set<string>) {
    forall i :: 0 <= i < |ts| && ts[i].Placeholder? && EndsIn(ts[i].body, b) ==> ts[i].body in done
  }

  /** No placeholder that is still there when a body is replaced ends in that of this body. */
  predicate Unnested(ts: seq<Token>, order: seq<string>) {
    forall n :: 0 <= n < |order| ==> NotNested(ts, order[n], Elements(order[..n]))
  }

  /** A plain dollar stands directly before a placeholder with the body `b`. */
  predicate DollarBefore(ts: seq<Token>, b: string) {
    exists i :: 0 < i < |ts| && ts[i - 1] == Char('$') && ts[i] == Placeholder(b)
  }

  /** No placeholder has a plain dollar directly before it. */
  predicate Spaced(ts: seq<Token>) {
    forall i :: 0 < i < |ts| && ts[i].Placeholder? ==> ts[i - 1] != Char('$')
  }

  /** The plain text that can come to stand directly before a value of `b` and matters for it. */
  function Front(ts: seq<Token>, b: string): string {
    if DollarBefore(ts, b) then "$" else ""
  }

  /** Every value but that of the last entry is inert where it is put. */
  predicate Settled(ts: seq<Token>, order: seq<string>, value: string -> string) {
    forall n :: 0 <= n < |order| - 1 ==> Inert(Front(ts, order[n]) + value(order[n]))
  }

  /** Tokens that the regular expression reads back from their text: an opening brace that is plain text is closed at once or never. */
  predicate Readable(ts: seq<Token>) {
    forall i :: 0 <= i < |ts| ==> ReadableAt(ts, i)
  }

  predicate ReadableAt(ts: seq<Token>, i: int)
    requires 0 <= i < |ts|
  {
    match ts[i]
    case Char(c) =>
      c == '$' && i + 1 < |ts| && ts[i + 1] == Char('{') ==>
        (i + 2 < |ts| && ts[i + 2] == Char('}')) || Unclosed(ts, i + 2)
    case Placeholder(b) => Legal(b)
  }

  predicate Unclosed(ts: seq<Token>, i: int)
    requires 0 <= i
  {
    forall j :: i <= j < |ts| ==> ts[j].Char? && ts[j].c != '}'
  }

  lemma InertTail(s: string)
    requires Inert("$" + s)
    ensures Inert(s) && s != ""
  {
    var t := "$" + s;
    forall i | 0 <= i < |s| ensures !OpensAt(s, i) {
      assert !OpensAt(t, i + 1);
    }
    assert !OpensAt(t, 0);
  }

  lemma EndOpens(c: string, b: string)
    requires EndsIn(c, b) && Legal(b)
    ensures OpensAt(c + "}", |c| - |b| - 2)
  {
    var i := |c| - |b| - 2;
    var t := c[i..];
    assert t[0] == c[i] && t[1] == c[i + 1] && t[2] == c[i + 2] == b[0];
  }

  /** Clean bodies end in no other placeholder. */
  lemma CleanEnd(c: string, b: string)
    requires CleanBody(c) && Legal(b)
    ensures !EndsIn(c, b)
  {
    if EndsIn(c, b) {
      EndOpens(c, b);
    }
  }

  lemma CleanNotNested(ts: seq<Token>, b: string)
    requires Clean(ts) && Legal(b)
    ensures NotNested(ts, b, {})
  {
    forall i | 0 <= i < |ts| && ts[i].Placeholder? ensures !EndsIn(ts[i].body, b) {
      CleanEnd(ts[i].body, b);
    }
  }

  lemma CleanUnnested(ts: seq<Token>, order: seq<string>)
    requires Clean(ts) && LegalBodies(order)
    ensures Unnested(ts, order)
  {
    forall n, i | 0 <= n < |order| && 0 <= i < |ts| && ts[i].Placeholder? ensures !EndsIn(ts[i].body, order[n]) {
      CleanEnd(ts[i].body, order[n]);
    }
  }

  // --- scanning ---

  lemma RenderCons(t: Token, ts: seq<Token>)
    ensures Render([t] + ts) == Text(t) + Render(ts)
  {
    assert ([t] + ts)[1..] == ts;
  }

  /** `r` is what `s` holds in `[i, k)`. */
  ghost predicate Spells(r: string, s: string, i: nat, k: nat) {
    i <= k <= |s| && |r| == k - i && forall j :: 0 <= j < |r| ==> r[j] == s[i + j]
  }

  lemma SpellsConcat(a: string, b: string, s: string, i: nat, k: nat, l: nat)
    requires Spells(a, s, i, k) && Spells(b, s, k, l)
    ensures Spells(a + b, s, i, l)
  {
    forall j | 0 <= j < |a + b| ensures (a + b)[j] == s[i + j] {
      if j >= |a| {
        assert (a + b)[j] == b[j - |a|];
      }
    }
  }

  /** The characters of a rendered placeholder. */
  lemma PatternAt(c: string, k: nat)
    requires k < |c| + 3
    ensures |Pattern(c)| == |c| + 3
    ensures Pattern(c)[k] == if k == 0 then '$' else if k == 1 then '{' else if k < |c| + 2 then c[k - 2] else '}'
  {
  }

  lemma SpellsPlaceholder(s: string, i: nat, k: nat)
    requires i + 2 <= k < |s| && s[i] == '$' && s[i + 1] == '{' && s[k] == '}'
    ensures Spells(Pattern(Between(s, i + 2, k)), s, i, k + 1)
  {
    var body := Between(s, i + 2, k);
    forall j | 0 <= j < |body| + 3 ensures Pattern(body)[j] == s[i + j] {
      PatternAt(body, j);
    }
  }

  lemma {:induction false} RenderConcat(a: seq<Token>, b: seq<Token>)
    ensures Render(a + b) == Render(a) + Render(b)
  {
    if a == [] {
      assert a + b == b;
    } else {
      assert (a + b)[1..] == a[1..] + b;
      RenderConcat(a[1..], b);
    }
  }

  lemma {:induction false} RenderChars(s: string)
    ensures Render(Chars(s)) == s
  {
    if s != "" {
      assert Chars(s)[1..] == Chars(s[1..]);
      RenderChars(s[1..]);
    }
  }

  lemma {:induction false} BodiesHold(ts: seq<Token>, b: string)
    ensures b in Bodies(ts) <==> Placeholder(b) in ts
  {
    if ts != [] {
      BodiesHold(ts[1..], b);
      assert Placeholder(b) in ts <==> Placeholder(b) == ts[0] || Placeholder(b) in ts[1..];
    }
  }

  // --- one replacement ---

  /** Text that the pattern does not start in is copied. */
  lemma {:induction false} ReplaceSkips(head: string, rest: string, pat: string, v: string)
    requires pat != ""
    requires forall i :: 0 <= i < |head| ==> !HasPrefix((head + rest)[i..], pat)
    ensures ReplaceAll(head + rest, pat, v) == head + ReplaceAll(rest, pat, v)
  {
    if head == "" {
      assert head + rest == rest;
    } else {
      assert (head + rest)[0..] == head + rest;
      assert (head + rest)[1..] == head[1..] + rest;
      forall i | 0 <= i < |head[1..]| ensures !HasPrefix((head[1..] + rest)[i..], pat) {
        assert (head[1..] + rest)[i..] == (head + rest)[i + 1..];
      }
      ReplaceSkips(head[1..], rest, pat, v);
    }
  }

  lemma Mismatch(s: string, p: string, k: nat)
    requires k < |p| && k < |s| && s[k] != p[k]
    ensures !HasPrefix(s, p)
  {
    if |p| <= |s| {
      assert s[..|p|][k] == s[k];
    }
  }

  /** A placeholder that does not end in that of `b` holds no occurrence of it, and none begins in it. */
  lemma OtherPlaceholder(c: string, rest: string, b: string, i: nat)
    requires Legal(c) && Legal(b) && b != c && !EndsIn(c, b)
    requires i < |c| + 3
    ensures !HasPrefix((Pattern(c) + rest)[i..], Pattern(b))
  {
    if i > 0 && i == |c| - |b| {
      SameEnd(c, rest, b);
    } else {
      var k := if i == 0 then 2 + Difference(c, b) else if i < |c| - |b| then |b| + 2 else |c| + 2 - i;
      PatternAt(c, i + k);
      PatternAt(b, k);
      assert (Pattern(c) + rest)[i..][k] == Pattern(c)[i + k];
      Mismatch((Pattern(c) + rest)[i..], Pattern(b), k);
    }
  }

  /** An occurrence that ends with the placeholder `c` is nested in it. */
  lemma SameEnd(c: string, rest: string, b: string)
    requires |b| < |c| && !EndsIn(c, b)
    ensures !HasPrefix((Pattern(c) + rest)[|c| - |b|..], Pattern(b))
  {
    var i := |c| - |b|;
    var t := (Pattern(c) + rest)[i..];
    if i == 1 {
      PatternAt(c, 1);
      PatternAt(b, 0);
      assert t[0] == Pattern(c)[1];
      Mismatch(t, Pattern(b), 0);
    } else {
      var end := c[i - 2..];
      var k :| 0 <= k < |b| + 2 && end[k] != ("${" + b)[k];
      PatternAt(c, i + k);
      PatternAt(b, k);
      assert t[k] == Pattern(c)[i + k] == end[k];
      Mismatch(t, Pattern(b), k);
    }
  }

  /** A placeholder that ends in that of `b`: no occurrence starts before its end. */
  lemma NestedPlaceholder(c: string, rest: string, b: string, i: nat)
    requires Legal(c) && EndsIn(c, b) && i < |c| - |b|
    ensures !HasPrefix((Pattern(c) + rest)[i..], Pattern(b))
  {
    PatternAt(c, i + |b| + 2);
    PatternAt(b, |b| + 2);
    assert (Pattern(c) + rest)[i..][|b| + 2] == Pattern(c)[i + |b| + 2];
    Mismatch((Pattern(c) + rest)[i..], Pattern(b), |b| + 2);
  }

  /** The first place where two different bodies, each closed by a brace, differ. */
  function Difference(c: string, b: string): (k: nat)
    requires b != c && '}' !in c && '}' !in b
    ensures k <= |c| && k <= |b|
    ensures (if k < |c| then c[k] else '}') != (if k < |b| then b[k] else '}')
  {
    if c == "" || b == "" || c[0] != b[0] then 0
    else
      assert c == [c[0]] + c[1..] && b == [b[0]] + b[1..];
      1 + Difference(c[1..], b[1..])
  }

  lemma ReplaceHit(rest: string, b: string, v: string)
    ensures ReplaceAll(Pattern(b) + rest, Pattern(b), v) == v + ReplaceAll(rest, Pattern(b), v)
  {
    var s := Pattern(b) + rest;
    assert HasPrefix(s, Pattern(b)) && s[|Pattern(b)|..] == rest;
  }

  /** The body of a placeholder before the one it ends in. */
  function Outer(c: string, b: string): string
    requires EndsIn(c, b)
  {
    c[..|c| - |b| - 2]
  }

  lemma NestedPattern(c: string, b: string)
    requires EndsIn(c, b)
    ensures Pattern(c) == ("${" + Outer(c, b)) + Pattern(b)
  {
    assert c == Outer(c, b) + c[|c| - |b| - 2..];
  }

  /** What is left of a token when `b` is replaced: also a placeholder that ends in that of `b` is cut. */
  function Hit(t: Token, b: string, v: string): string {
    if t == Placeholder(b) then v
    else if t.Placeholder? && EndsIn(t.body, b) then "${" + Outer(t.body, b) + v
    else Text(t)
  }

  function HitAll(ts: seq<Token>, b: string, v: string): string {
    if ts == [] then "" else Hit(ts[0], b, v) + HitAll(ts[1..], b, v)
  }

  lemma ReplaceToken(ts: seq<Token>, b: string, v: string)
    requires ts != [] && Readable(ts) && Legal(b)
    ensures ReplaceAll(Text(ts[0]) + Render(ts[1..]), Pattern(b), v)
         == Hit(ts[0], b, v) + ReplaceAll(Render(ts[1..]), Pattern(b), v)
  {
    var rest := Render(ts[1..]);
    match ts[0]
    case Char(c) =>
      PlainCharacter(ts, b);
      assert ([c] + rest)[0..] == [c] + rest;
      ReplaceSkips([c], rest, Pattern(b), v);
    case Placeholder(c) =>
      assert ReadableAt(ts, 0);
      if c == b {
        ReplaceHit(rest, b, v);
      } else if EndsIn(c, b) {
        ReplaceNested(c, rest, b, v);
      } else {
        forall i | 0 <= i < |Pattern(c)| ensures !HasPrefix((Pattern(c) + rest)[i..], Pattern(b)) {
          OtherPlaceholder(c, rest, b, i);
        }
        ReplaceSkips(Pattern(c), rest, Pattern(b), v);
      }
  }

  lemma ReplaceNested(c: string, rest: string, b: string, v: string)
    requires Legal(c) && EndsIn(c, b)
    ensures ReplaceAll(Pattern(c) + rest, Pattern(b), v) == "${" + Outer(c, b) + v + ReplaceAll(rest, Pattern(b), v)
  {
    NestedPattern(c, b);
    var head, tail := "${" + Outer(c, b), Pattern(b) + rest;
    assert Pattern(c) + rest == head + tail;
    forall i | 0 <= i < |head| ensures !HasPrefix((head + tail)[i..], Pattern(b)) {
      NestedPlaceholder(c, rest, b, i);
    }
    ReplaceSkips(head, tail, Pattern(b), v);
    ReplaceHit(rest, b, v);
  }

  /** What one ReplaceAll does to the text of any readable template, token by token. */
  lemma {:induction false} ReplaceExactly(ts: seq<Token>, b: string, v: string)
    requires Readable(ts) && Legal(b)
    ensures ReplaceAll(Render(ts), Pattern(b), v) == HitAll(ts, b, v)
  {
    if ts != [] {
      ReadableTail(ts);
      ReplaceExactly(ts[1..], b, v);
      ReplaceToken(ts, b, v);
    }
  }

  /** If no other placeholder ends in that of `b`, exactly the tokens that are that placeholder are replaced. */
  lemma ReplaceOne(ts: seq<Token>, b: string, value: string -> string)
    requires Readable(ts) && Legal(b) && NotNested(ts, b, {})
    ensures ReplaceAll(Render(ts), Pattern(b), value(b)) == Render(Substitute(ts, {b}, value))
  {
    ReplaceExactly(ts, b, value(b));
    HitTokens(ts, b, value);
  }

  lemma {:induction false} HitTokens(ts: seq<Token>, b: string, value: string -> string)
    requires NotNested(ts, b, {})
    ensures HitAll(ts, b, value(b)) == Render(Substitute(ts, {b}, value))
  {
    if ts != [] {
      HitTokens(ts[1..], b, value);
      var after := Substitute(ts[1..], {b}, value);
      if ts[0] == Placeholder(b) {
        RenderConcat(Chars(value(b)), after);
        RenderChars(value(b));
      } else {
        RenderCons(ts[0], after);
      }
    }
  }

  /** No occurrence of a pattern starts at a plain character of a readable template. */
  lemma PlainCharacter(ts: seq<Token>, b: string)
    requires ts != [] && Readable(ts) && ts[0].Char? && Legal(b)
    ensures !HasPrefix([ts[0].c] + Render(ts[1..]), Pattern(b))
  {
    var rest := Render(ts[1..]);
    var s := [ts[0].c] + rest;
    assert ReadableAt(ts, 0);
    PatternAt(b, 0);
    PatternAt(b, 1);
    PatternAt(b, 2);
    if ts[0].c != '$' {
      Mismatch(s, Pattern(b), 0);
    } else if |ts| > 1 {
      assert ts[1..][0] == ts[1];
      assert s[1] == rest[0] == Text(ts[1])[0];
      if ts[1] != Char('{') {
        Mismatch(s, Pattern(b), 1);
      } else if |ts| > 2 && ts[2] == Char('}') {
        assert ts[1..][1..] == ts[2..] && ts[2..][0] == ts[2];
        assert rest == "{" + Render(ts[2..]);
        assert s[2] == rest[1] == Render(ts[2..])[0] == '}';
        Mismatch(s, Pattern(b), 2);
      } else {
        forall j | 0 <= j < |ts[1..]| ensures ts[1..][j].Char? && ts[1..][j].c != '}' {
          assert ts[1..][j] == ts[j + 1];
        }
        UnclosedRender(ts[1..]);
        PatternAt(b, |b| + 2);
        if |b| + 2 < |s| {
          assert s[|b| + 2] == rest[|b| + 1];
          Mismatch(s, Pattern(b), |b| + 2);
        }
      }
    }
  }

  lemma {:induction false} UnclosedRender(ts: seq<Token>)
    requires Unclosed(ts, 0)
    ensures '}' !in Render(ts)
  {
    if ts != [] {
      UnclosedRender(ts[1..]);
    }
  }

  lemma ReadableTail(ts: seq<Token>)
    requires ts != [] && Readable(ts)
    ensures Readable(ts[1..])
  {
    var tail := ts[1..];
    forall i | 0 <= i < |tail| ensures ReadableAt(tail, i) {
      assert ReadableAt(ts, i + 1);
      if Unclosed(ts, i + 3) {
        assert Unclosed(tail, i + 2);
      }
    }
  }

  lemma {:induction false} SubstituteUnclosed(ts: seq<Token>, done: set<string>, value: string -> string)
    requires Unclosed(ts, 0)
    ensures Substitute(ts, done, value) == ts
  {
    if ts != [] {
      SubstituteUnclosed(ts[1..], done, value);
    }
  }

  lemma UnclosedConcat(a: seq<Token>, b: seq<Token>, i: nat)
    requires |a| <= i && Unclosed(b, i - |a|)
    ensures Unclosed(a + b, i)
  {
  }

  /** A readable tail stays readable behind other tokens. */
  lemma ReadableBehind(a: seq<Token>, b: seq<Token>, i: nat)
    requires Readable(b) && |a| <= i < |a + b|
    ensures ReadableAt(a + b, i)
  {
    assert ReadableAt(b, i - |a|);
    if Unclosed(b, i - |a| + 2) {
      UnclosedConcat(a, b, i + 2);
    }
  }

  lemma ReadableValue(v: string, after: seq<Token>)
    requires Inert(v) && Readable(after)
    ensures Readable(Chars(v) + after)
  {
    var all := Chars(v) + after;
    forall i | 0 <= i < |all| ensures ReadableAt(all, i) {
      if i >= |v| {
        ReadableBehind(Chars(v), after, i);
      } else {
        assert !OpensAt(v, i);
      }
    }
  }

  /** Substituting values that are inert where they are put keeps a template readable. */
  lemma {:induction false} SubstituteReadable(ts: seq<Token>, done: set<string>, value: string -> string)
    requires Readable(ts) && forall b :: b in done ==> Inert(Front(ts, b) + value(b))
    ensures Readable(Substitute(ts, done, value))
  {
    if ts != [] {
      ReadableTail(ts);
      forall b | b in done ensures Inert(value(b)) && Inert(Front(ts[1..], b) + value(b)) {
        assert "" + value(b) == value(b);
        if DollarBefore(ts[1..], b) {
          FrontTail(ts, b);
        }
        if DollarBefore(ts, b) {
          InertTail(value(b));
        }
      }
      SubstituteReadable(ts[1..], done, value);
      var after := Substitute(ts[1..], done, value);
      if ts[0].Placeholder? && ts[0].body in done {
        ReadableValue(value(ts[0].body), after);
      } else {
        var all := [ts[0]] + after;
        ReadableFirst(ts, done, value);
        forall i | 0 <= i < |all| ensures ReadableAt(all, i) {
          if i > 0 {
            ReadableBehind([ts[0]], after, i);
          }
        }
      }
    }
  }

  lemma FrontTail(ts: seq<Token>, b: string)
    requires ts != [] && DollarBefore(ts[1..], b)
    ensures DollarBefore(ts, b)
  {
    var i :| 0 < i < |ts[1..]| && ts[1..][i - 1] == Char('$') && ts[1..][i] == Placeholder(b);
    assert ts[i] == Char('$') && ts[i + 1] == Placeholder(b);
  }

  lemma ReadableFirst(ts: seq<Token>, done: set<string>, value: string -> string)
    requires ts != [] && Readable(ts) && forall b :: b in done ==> Inert(Front(ts, b) + value(b))
    ensures ReadableAt([ts[0]] + Substitute(ts[1..], done, value), 0)
  {
    var after := Substitute(ts[1..], done, value);
    var all := [ts[0]] + after;
    assert ReadableAt(ts, 0);
    if ts[0] == Char('$') && |ts| > 1 {
      assert ts[1..][0] == ts[1];
      if ts[1].Placeholder? && ts[1].body in done {
        var v := value(ts[1].body);
        assert DollarBefore(ts, ts[1].body);
        assert !OpensAt("$" + v, 0);
        assert after[0] == Char(v[0]);
        if v[0] == '{' {
          assert after[1] == Char(v[1]);
        }
      } else if ts[1] == Char('{') {
        if |ts| > 2 && ts[2] == Char('}') {
          assert ts[1..][1..][0] == ts[2];
          assert after[1] == Char('}');
        } else {
          assert Unclosed(ts[1..], 0) by {
            forall j | 0 <= j < |ts[1..]| ensures ts[1..][j].Char? && ts[1..][j].c != '}' {
              assert ts[1..][j] == ts[j + 1];
            }
          }
          SubstituteUnclosed(ts[1..], done, value);
          assert all == ts;
        }
      }
    }
  }

  /** The placeholders that are left are those that were not substituted. */
  lemma {:induction false} SubstituteLeft(ts: seq<Token>, done: set<string>, value: string -> string, c: string)
    ensures Placeholder(c) in Substitute(ts, done, value) <==> Placeholder(c) in ts && c !in done
  {
    if ts != [] {
      SubstituteLeft(ts[1..], done, value, c);
      var after := Substitute(ts[1..], done, value);
      var head := if ts[0].Placeholder? && ts[0].body in done then Chars(value(ts[0].body)) else [ts[0]];
      assert Substitute(ts, done, value) == head + after;
      assert Placeholder(c) in ts <==> Placeholder(c) == ts[0] || Placeholder(c) in ts[1..];
    }
  }

  lemma SubstituteNotNested(ts: seq<Token>, b: string, done: set<string>, value: string -> string)
    requires NotNested(ts, b, done)
    ensures NotNested(Substitute(ts, done, value), b, {})
  {
    var all := Substitute(ts, done, value);
    forall i | 0 <= i < |all| && all[i].Placeholder? ensures !EndsIn(all[i].body, b) {
      assert Placeholder(all[i].body) in all;
      SubstituteLeft(ts, done, value, all[i].body);
      var j :| 0 <= j < |ts| && ts[j] == all[i];
    }
  }

  /** Two rounds of substitution are one. */
  lemma {:induction false} SubstituteTwice(ts: seq<Token>, done: set<string>, more: set<string>, value: string -> string)
    ensures Substitute(Substitute(ts, done, value), more, value) == Substitute(ts, done + more, value)
  {
    if ts != [] {
      SubstituteTwice(ts[1..], done, more, value);
      var head := if ts[0].Placeholder? && ts[0].body in done then Chars(value(ts[0].body)) else [ts[0]];
      var tail := Substitute(ts[1..], done, value);
      SubstituteConcat(head, tail, more, value);
      if ts[0].Placeholder? && ts[0].body in done {
        SubstituteChars(value(ts[0].body), more, value);
      } else {
        assert Substitute([ts[0]], more, value) ==
               if ts[0].Placeholder? && ts[0].body in more then Chars(value(ts[0].body)) else [ts[0]] by {
          assert [ts[0]][1..] == [];
        }
      }
    }
  }

  lemma {:induction false} SubstituteConcat(a: seq<Token>, b: seq<Token>, done: set<string>, value: string -> string)
    ensures Substitute(a + b, done, value) == Substitute(a, done, value) + Substitute(b, done, value)
  {
    if a == [] {
      assert a + b == b;
    } else {
      assert (a + b)[1..] == a[1..] + b;
      SubstituteConcat(a[1..], b, done, value);
    }
  }

  lemma {:induction false} SubstituteChars(s: string, done: set<string>, value: string -> string)
    ensures Substitute(Chars(s), done, value) == Chars(s)
  {
    if s != "" {
      assert Chars(s)[1..] == Chars(s[1..]);
      SubstituteChars(s[1..], done, value);
    }
  }

  // --- the theorem ---

  /**
   On a readable template the loop of successive replacements over any list of bodies, in any order and with repeats, is
   one simultaneous substitution of those placeholders, if no placeholder is cut by one nested in it and every value
   but that of the last entry is inert where it is put.
   */
  lemma {:induction false} SequentialIsSimultaneous(ts: seq<Token>, order: seq<string>, value: string -> string)
    requires Readable(ts) && LegalBodies(order) && Unnested(ts, order) && Settled(ts, order, value)
    ensures LoopIsRight(ts, order, value)
  {
    if order == [] {
      assert Elements(order) == {};
      SubstituteNone(ts, value);
    } else {
      var most, last := order[..|order| - 1], order[|order| - 1];
      assert order == most + [last];
      assert Unnested(ts, most) by {
        assert forall n :: 0 <= n < |most| ==> most[..n] == order[..n];
      }
      SequentialIsSimultaneous(ts, most, value);
      SettledElements(ts, order, value);
      OneMoreRound(ts, most, last, value);
    }
  }

  lemma SettledElements(ts: seq<Token>, order: seq<string>, value: string -> string)
    requires order != [] && Settled(ts, order, value)
    ensures forall b :: b in Elements(order[..|order| - 1]) ==> Inert(Front(ts, b) + value(b))
  {
    var most := order[..|order| - 1];
    forall b | b in Elements(most) ensures Inert(Front(ts, b) + value(b)) {
      var n :| 0 <= n < |most| && most[n] == b;
      assert order[n] == b;
    }
  }

  lemma OneMoreRound(ts: seq<Token>, most: seq<string>, last: string, value: string -> string)
    requires Readable(ts) && Legal(last) && NotNested(ts, last, Elements(most)) && LoopIsRight(ts, most, value)
    requires forall b :: b in Elements(most) ==> Inert(Front(ts, b) + value(b))
    ensures LoopIsRight(ts, most + [last], value)
  {
    SubstituteReadable(ts, Elements(most), value);
    SubstituteNotNested(ts, last, Elements(most), value);
    ReplaceOne(Substitute(ts, Elements(most), value), last, value);
    SubstituteTwice(ts, Elements(most), {last}, value);
    ElementsSnoc(most, last);
    assert (most + [last])[..|most|] == most;
  }

  lemma {:induction false} SubstituteNone(ts: seq<Token>, value: string -> string)
    ensures Substitute(ts, {}, value) == ts
  {
    if ts != [] {
      SubstituteNone(ts[1..], value);
    }
  }

  /** All placeholders of a text replaced at once. */
  function Simultaneous(s: string, value: string -> string): string {
    Render(Substitute(Scan(s), Elements(Bodies(Scan(s))), value))
  }

  lemma MatchesLegal(s: string, order: seq<string>)
    requires Elements(order) == Elements(Bodies(Scan(s)))
    ensures LegalBodies(order)
  {
    ScanReadable(s, 0);
    forall n | 0 <= n < |order| ensures Legal(order[n]) {
      var b := order[n];
      assert b in Elements(order);
      BodiesHold(Scan(s), b);
      var i :| 0 <= i < |Scan(s)| && Scan(s)[i] == Placeholder(b);
      assert ReadableAt(Scan(s), i);
    }
  }

  /** The same for a text: any processing order of its placeholders gives the simultaneous substitution. */
  lemma AnyOrder(s: string, order: seq<string>, value: string -> string)
    requires Elements(order) == Elements(Bodies(Scan(s))) && Unnested(Scan(s), order) && Settled(Scan(s), order, value)
    ensures Sequential(s, order, value) == Simultaneous(s, value)
  {
    RenderScan(s);
    ScanReadable(s, 0);
    MatchesLegal(s, order);
    SequentialIsSimultaneous(Scan(s), order, value);
  }

  // --- printing and scanning are inverse on readable templates ---

  /** The pieces follow each other in `s` from `i` to the end. */
  ghost predicate Parted(s: string, i: nat, pieces: seq<string>)
    decreases |pieces|
  {
    if pieces == [] then i == |s|
    else Spells(pieces[0], s, i, i + |pieces[0]|) && Parted(s, i + |pieces[0]|, pieces[1..])
  }

  function Concat(pieces: seq<string>): string {
    if pieces == [] then "" else pieces[0] + Concat(pieces[1..])
  }

  lemma SpellsTail(all: string, a: string, b: string, s: string, i: nat)
    requires all == a + b && Spells(all, s, i, |s|)
    ensures Spells(a, s, i, i + |a|) && Spells(b, s, i + |a|, |s|)
  {
    forall j | 0 <= j < |b| ensures b[j] == s[i + |a| + j] {
      assert b[j] == all[|a| + j];
    }
    forall j | 0 <= j < |a| ensures a[j] == s[i + j] {
      assert a[j] == all[j];
    }
  }

  lemma {:induction false} PartedConcat(s: string, i: nat, pieces: seq<string>)
    requires Spells(Concat(pieces), s, i, |s|)
    ensures Parted(s, i, pieces)
    decreases |pieces|
  {
    if pieces != [] {
      var head, rest := pieces[0], pieces[1..];
      SpellsTail(Concat(pieces), head, Concat(rest), s, i);
      PartedConcat(s, i + |head|, rest);
    }
  }

  function Texts(ts: seq<Token>): seq<string> {
    if ts == [] then [] else [Text(ts[0])] + Texts(ts[1..])
  }

  lemma {:induction false} RenderTexts(ts: seq<Token>)
    ensures Render(ts) == Concat(Texts(ts))
  {
    if ts != [] {
      RenderTexts(ts[1..]);
    }
  }

  /** The texts of the tokens `ts` follow each other in `s` from `i` to the end. */
  ghost predicate Printed(s: string, i: nat, ts: seq<Token>) {
    Parted(s, i, Texts(ts))
  }

  lemma PrintedRender(s: string, i: nat, ts: seq<Token>)
    requires Spells(Render(ts), s, i, |s|)
    ensures Printed(s, i, ts)
  {
    RenderTexts(ts);
    PartedConcat(s, i, Texts(ts));
  }

  lemma PartedCons(s: string, i: nat, k: nat, piece: string, pieces: seq<string>)
    requires Spells(piece, s, i, k) && Parted(s, k, pieces)
    ensures Parted(s, i, [piece] + pieces)
  {
    var all := [piece] + pieces;
    assert all[0] == piece && all[1..] == pieces;
  }

  lemma {:induction false} PartedSpells(s: string, i: nat, pieces: seq<string>)
    requires Parted(s, i, pieces)
    ensures i <= |s| && Spells(Concat(pieces), s, i, |s|)
    decreases |pieces|
  {
    if pieces != [] {
      var head, rest := pieces[0], pieces[1..];
      PartedSpells(s, i + |head|, rest);
      SpellsConcat(head, Concat(rest), s, i, i + |head|, |s|);
    }
  }

  lemma TextsCons(t: Token, ts: seq<Token>)
    ensures Texts([t] + ts) == [Text(t)] + Texts(ts)
  {
    assert ([t] + ts)[0] == t && ([t] + ts)[1..] == ts;
  }

  lemma PrintedCons(s: string, i: nat, k: nat, t: Token, ts: seq<Token>)
    requires Spells(Text(t), s, i, k) && Printed(s, k, ts)
    ensures Printed(s, i, [t] + ts)
  {
    TextsCons(t, ts);
    PartedCons(s, i, k, Text(t), Texts(ts));
  }

  lemma {:induction false} ScanIsPrinted(s: string, i: nat)
    requires i <= |s|
    ensures Printed(s, i, ScanFrom(s, i))
    decreases |s| - i
  {
    if i < |s| {
      if MatchesAt(s, i) {
        var k := IndexFrom(s, '}', i + 2);
        ScanIsPrinted(s, k + 1);
        SpellsPlaceholder(s, i, k);
        PrintedCons(s, i, k + 1, Placeholder(Between(s, i + 2, k)), ScanFrom(s, k + 1));
        ScanMatch(s, i, k);
      } else {
        ScanIsPrinted(s, i + 1);
        PrintedCons(s, i, i + 1, Char(s[i]), ScanFrom(s, i + 1));
        ScanCharacter(s, i);
      }
    }
  }

  /** Scanning loses nothing. */
  lemma RenderScan(s: string)
    ensures Render(Scan(s)) == s
  {
    ScanIsPrinted(s, 0);
    PartedSpells(s, 0, Texts(Scan(s)));
    RenderTexts(Scan(s));
  }

  lemma CloseAt(s: string, i: nat, b: string)
    requires '}' !in b && Spells(b, s, i, i + |b|) && i + |b| < |s| && s[i + |b|] == '}'
    ensures IndexFrom(s, '}', i) == i + |b|
  {
    forall j | i <= j < i + |b| ensures s[j] != '}' {
      assert b[j - i] == s[i + (j - i)];
    }
  }

  /** A printed placeholder is an opening, its body and a closing brace. */
  lemma PlaceholderSpelled(s: string, i: nat, b: string)
    requires Spells(Pattern(b), s, i, i + |Pattern(b)|)
    ensures i + |b| + 3 <= |s| && s[i] == '$' && s[i + 1] == '{' && s[i + 2 + |b|] == '}'
    ensures Spells(b, s, i + 2, i + 2 + |b|)
  {
    PatternAt(b, 0);
    PatternAt(b, 1);
    PatternAt(b, |b| + 2);
    assert Pattern(b)[0] == s[i + 0] && Pattern(b)[1] == s[i + 1] && Pattern(b)[|b| + 2] == s[i + (|b| + 2)];
    forall j | 0 <= j < |b| ensures b[j] == s[i + 2 + j] {
      PatternAt(b, j + 2);
      assert Pattern(b)[j + 2] == s[i + (j + 2)];
    }
  }

  lemma {:induction false} ScanMatch(s: string, i: nat, k: nat)
    requires MatchesAt(s, i) && k == IndexFrom(s, '}', i + 2)
    ensures ScanFrom(s, i) == [Placeholder(Between(s, i + 2, k))] + ScanFrom(s, k + 1)
  {
    assert i < |s|;
  }

  lemma BetweenSpells(s: string, i: nat, b: string)
    requires Spells(b, s, i, i + |b|)
    ensures Between(s, i, i + |b|) == b
  {
  }

  /** A printed placeholder is scanned as that placeholder. */
  lemma ScanPlaceholder(s: string, i: nat, b: string)
    requires b != "" && '}' !in b && Spells(Pattern(b), s, i, i + |b| + 3)
    ensures ScanFrom(s, i) == [Placeholder(b)] + ScanFrom(s, i + |b| + 3)
  {
    PlaceholderSpelled(s, i, b);
    CloseAt(s, i + 2, b);
    BetweenSpells(s, i + 2, b);
    ScanMatch(s, i, i + 2 + |b|);
  }

  lemma {:induction false} ScanCharacter(s: string, i: nat)
    requires i < |s| && !MatchesAt(s, i)
    ensures ScanFrom(s, i) == [Char(s[i])] + ScanFrom(s, i + 1)
  {
  }

  /** What is printed begins with the first character of the first token. */
  lemma FirstCharacter(s: string, i: nat, ts: seq<Token>)
    requires Printed(s, i, ts)
    ensures ts == [] ==> i == |s|
    ensures ts != [] ==> i < |s| && s[i] == Text(ts[0])[0]
  {
    if ts != [] {
      assert Texts(ts)[0] == Text(ts[0]);
      assert Text(ts[0])[0] == s[i + 0];
    }
  }

  lemma {:induction false} PrintedTail(s: string, i: nat, ts: seq<Token>)
    requires ts != [] && Printed(s, i, ts)
    ensures i + |Text(ts[0])| <= |s| && Printed(s, i + |Text(ts[0])|, ts[1..])
    ensures Spells(Text(ts[0]), s, i, i + |Text(ts[0])|)
  {
    assert Texts(ts)[0] == Text(ts[0]) && Texts(ts)[1..] == Texts(ts[1..]);
  }

  lemma {:induction false} UnclosedPrinted(s: string, i: nat, ts: seq<Token>)
    requires Printed(s, i, ts) && Unclosed(ts, 0)
    ensures i <= |s| && forall j :: i <= j < |s| ==> s[j] != '}'
    decreases |ts|
  {
    if ts != [] {
      PrintedTail(s, i, ts);
      FirstCharacter(s, i, ts);
      UnclosedPrinted(s, i + 1, ts[1..]);
    }
  }

  lemma ScanFirstCharacter(s: string, i: nat, ts: seq<Token>)
    requires ts != [] && Readable(ts) && Printed(s, i, ts) && ts[0].Char?
    ensures i < |s| && ScanFrom(s, i) == [ts[0]] + ScanFrom(s, i + 1)
  {
    assert ReadableAt(ts, 0);
    PrintedTail(s, i, ts);
    FirstCharacter(s, i, ts);
    FirstCharacter(s, i + 1, ts[1..]);
    if |ts| > 1 && ts[0] == Char('$') && ts[1] == Char('{') {
      PrintedTail(s, i + 1, ts[1..]);
      var rest := ts[1..][1..];
      assert rest == ts[2..];
      FirstCharacter(s, i + 2, rest);
      if Unclosed(ts, 2) {
        UnclosedPrinted(s, i + 2, rest);
      }
    }
    ScanCharacter(s, i);
  }

  lemma PlaceholderPrinted(s: string, i: nat, ts: seq<Token>)
    requires ts != [] && Readable(ts) && Printed(s, i, ts) && ts[0].Placeholder?
    ensures Legal(ts[0].body) && |Text(ts[0])| == |ts[0].body| + 3
    ensures Spells(Pattern(ts[0].body), s, i, i + |ts[0].body| + 3)
  {
    assert ReadableAt(ts, 0);
    PrintedTail(s, i, ts);
    PatternAt(ts[0].body, 0);
  }

  lemma Rejoin(ts: seq<Token>, rest: seq<Token>)
    requires ts != [] && rest == ts[1..]
    ensures [ts[0]] + rest == ts
  {
  }

  /** Scanning where a readable template is printed finds exactly its tokens. */
  lemma {:induction false} ScanPrinted(s: string, i: nat, ts: seq<Token>)
    requires i <= |s| && Readable(ts) && Printed(s, i, ts)
    ensures ScanFrom(s, i) == ts
    decreases |ts|
  {
    if ts != [] {
      ReadableTail(ts);
      PrintedTail(s, i, ts);
      var k := i + |Text(ts[0])|;
      ScanPrinted(s, k, ts[1..]);
      Rejoin(ts, ScanFrom(s, k));
      if ts[0].Char? {
        ScanFirstCharacter(s, i, ts);
      } else {
        PlaceholderPrinted(s, i, ts);
        ScanPlaceholder(s, i, ts[0].body);
      }
    }
  }

  lemma {:induction false} ScanUnclosed(s: string, i: nat)
    requires i <= |s| && forall j :: i <= j < |s| ==> s[j] != '}'
    ensures Unclosed(ScanFrom(s, i), 0)
    decreases |s| - i
  {
    if i < |s| {
      ScanCharacter(s, i);
      ScanUnclosed(s, i + 1);
    }
  }

  lemma {:induction false} ScanReadable(s: string, i: nat)
    requires i <= |s|
    ensures Readable(ScanFrom(s, i))
    decreases |s| - i
  {
    if i < |s| {
      var k := if MatchesAt(s, i) then IndexFrom(s, '}', i + 2) + 1 else i + 1;
      var ts, rest := ScanFrom(s, i), ScanFrom(s, k);
      ScanReadable(s, k);
      assert ts == [ts[0]] + rest;
      assert ReadableAt(ts, 0) by {
        if ts[0] == Char('$') && i + 1 < |s| && rest[0] == Char('{') {
          PlainOpening(s, i);
        }
      }
      forall j | 0 <= j < |ts| ensures ReadableAt(ts, j) {
        if j > 0 {
          ReadableBehind([ts[0]], rest, j);
        }
      }
    }
  }

  lemma PlainOpening(s: string, i: nat)
    requires i + 1 < |s| && s[i] == '$' && !MatchesAt(s, i) && ScanFrom(s, i + 1)[0] == Char('{')
    ensures ReadableAt([Char('$')] + ScanFrom(s, i + 1), 0)
  {
    ScanCharacter(s, i + 1);
    var all := [Char('$'), Char('{')] + ScanFrom(s, i + 2);
    assert [Char('$')] + ScanFrom(s, i + 1) == all;
    if IndexFrom(s, '}', i + 2) < |s| {
      ScanCharacter(s, i + 2);
      assert all[2] == Char('}');
    } else {
      ScanUnclosed(s, i + 2);
      UnclosedConcat([Char('$'), Char('{')], ScanFrom(s, i + 2), 2);
    }
  }

  /** The readable templates are exactly those that are recovered from their text. */
  lemma ScanRender(ts: seq<Token>)
    ensures Readable(ts) <==> Scan(Render(ts)) == ts
  {
    if Readable(ts) {
      PrintedRender(Render(ts), 0, ts);
      ScanPrinted(Render(ts), 0, ts);
    } else {
      ScanReadable(Render(ts), 0);
    }
  }

  lemma {:induction false} AllSubstituted(ts: seq<Token>, done: set<string>, value: string -> string)
    requires forall b :: Placeholder(b) in ts ==> b in done
    ensures Bodies(Substitute(ts, done, value)) == []
  {
    if ts != [] {
      AllSubstituted(ts[1..], done, value);
      var head := if ts[0].Placeholder? then Chars(value(ts[0].body)) else [ts[0]];
      assert ts[0] in ts;
      NoBodies(head, Substitute(ts[1..], done, value));
    }
  }

  lemma {:induction false} NoBodies(a: seq<Token>, b: seq<Token>)
    requires Bodies(b) == [] && forall i :: 0 <= i < |a| ==> a[i].Char?
    ensures Bodies(a + b) == []
  {
    if a == [] {
      assert a + b == b;
    } else {
      assert (a + b)[1..] == a[1..] + b;
      NoBodies(a[1..], b);
    }
  }

  /** After the loop over all matches no placeholder is left, if all values are inert where they are put. */
  lemma NothingLeft(s: string, order: seq<string>, value: string -> string)
    requires Elements(order) == Elements(Bodies(Scan(s))) && Unnested(Scan(s), order)
    requires forall n :: 0 <= n < |order| ==> Inert(Front(Scan(s), order[n]) + value(order[n]))
    ensures Bodies(Scan(Sequential(s, order, value))) == []
  {
    AnyOrder(s, order, value);
    var ts, done := Scan(s), Elements(Bodies(Scan(s)));
    forall b | b in done ensures Inert(Front(ts, b) + value(b)) {
      assert b in Elements(order);
      var n :| 0 <= n < |order| && order[n] == b;
    }
    ScanReadable(s, 0);
    SubstituteReadable(ts, done, value);
    ScanRender(Substitute(ts, done, value));
    forall b | Placeholder(b) in ts ensures b in done {
      BodiesHold(ts, b);
    }
    AllSubstituted(ts, done, value);
  }

  // --- the condition is needed ---

  /** `${a}` evaluates to the text of the other placeholder. */
  function Reinjected(b: string): string {
    if b == "a" then "${b}" else "1"
  }

  const PAIR := "${a}${b}"

  lemma ScanPair()
    ensures Scan(PAIR) == [Placeholder("a"), Placeholder("b")]
  {
    assert IndexFrom(PAIR, '}', 2) == 3 by { assert PAIR[2] == 'a' && PAIR[3] == '}'; }
    assert IndexFrom(PAIR, '}', 6) == 7 by { assert PAIR[6] == 'b' && PAIR[7] == '}'; }
    assert Between(PAIR, 2, 3) == "a" && Between(PAIR, 6, 7) == "b";
    assert ScanFrom(PAIR, 8) == [];
    assert ScanFrom(PAIR, 4) == [Placeholder("b")];
  }

  lemma PairBodies()
    ensures Bodies([Placeholder("a"), Placeholder("b")]) == ["a", "b"]
  {
    var ts := [Placeholder("a"), Placeholder("b")];
    assert ts[1..] == [Placeholder("b")] && ts[1..][1..] == [];
    assert Bodies(ts[1..]) == ["b"];
  }

  lemma PairSubstituted(all: set<string>)
    requires "a" in all && "b" in all
    ensures Render(Substitute([Placeholder("a"), Placeholder("b")], all, Reinjected)) == "${b}1"
  {
    var ts := [Placeholder("a"), Placeholder("b")];
    assert ts[1..] == [Placeholder("b")] && ts[1..][1..] == [];
    assert Substitute(ts[1..], all, Reinjected) == Chars("1");
    assert Substitute(ts, all, Reinjected) == Chars("${b}") + Chars("1");
    RenderConcat(Chars("${b}"), Chars("1"));
    RenderChars("${b}");
    RenderChars("1");
  }

  lemma PairReplaced()
    ensures Sequential(PAIR, ["a", "b"], Reinjected) == "11"
  {
    var order := ["a", "b"];
    assert order[..1] == ["a"] && ["a"][..0] == [];
    assert Pattern("a") == "${a}" && Pattern("b") == "${b}";
    ReplacePair();
    assert Sequential(PAIR, [], Reinjected) == PAIR;
    assert Sequential(PAIR, ["a"], Reinjected) == "${b}${b}";
  }

  /** A value that holds a placeholder is expanded again when that placeholder comes later. */
  lemma ReinjectionBreaksIt()
    ensures Sequential(PAIR, Bodies(Scan(PAIR)), Reinjected) == "11"
    ensures Simultaneous(PAIR, Reinjected) == "${b}1"
  {
    ScanPair();
    PairBodies();
    PairReplaced();
    assert "a" in ["a", "b"] && "b" in ["a", "b"];
    PairSubstituted(Elements(["a", "b"]));
  }

  lemma ReplacePair()
    ensures ReplaceAll(PAIR, "${a}", "${b}") == "${b}${b}"
    ensures ReplaceAll("${b}${b}", "${b}", "1") == "11"
  {
    var b := "${b}";
    assert PAIR[..4] == "${a}" && PAIR[4..] == b;
    forall i | 0 <= i < 4 ensures !HasPrefix((b + "")[i..], "${a}") {
      if i == 0 { Mismatch((b + "")[0..], "${a}", 2); }
    }
    ReplaceSkips(b, "", "${a}", b);
    assert b + "" == b;
    var bb := b + b;
    assert bb[..4] == b && bb[4..] == b && b[..4] == b && b[4..] == "";
    assert ReplaceAll(b, b, "1") == "1" + ReplaceAll("", b, "1") == "1";
    assert ReplaceAll(bb, b, "1") == "1" + ReplaceAll(b, b, "1");
  }

  // --- what the regular expression matches ---

  /** The expression matches at `i` exactly when the text goes on with an opening, a body and a closing brace, and finds that body. */
  lemma MatchExactly(s: string, i: nat, b: string)
    requires i <= |s|
    ensures (exists rest :: s[i..] == "${" + b + "}" + rest) && b != "" && '}' !in b <==>
            MatchesAt(s, i) && Between(s, i + 2, IndexFrom(s, '}', i + 2)) == b
  {
    if b != "" && '}' !in b {
      if rest :| s[i..] == "${" + b + "}" + rest {
        MatchFound(s, i, b, rest);
      }
    }
    if MatchesAt(s, i) && Between(s, i + 2, IndexFrom(s, '}', i + 2)) == b {
      var k := IndexFrom(s, '}', i + 2);
      assert s[i..] == "${" + b + "}" + s[k + 1..];
    }
  }

  lemma MatchFound(s: string, i: nat, b: string, rest: string)
    requires i <= |s| && s[i..] == "${" + b + "}" + rest && b != "" && '}' !in b
    ensures MatchesAt(s, i) && Between(s, i + 2, IndexFrom(s, '}', i + 2)) == b
  {
    var t := "${" + b + "}" + rest;
    forall j | 0 <= j < |t| ensures s[i + j] == t[j] {
      assert s[i..][j] == s[i + j];
    }
    assert t[0] == '$' && t[1] == '{' && t[|b| + 2] == '}';
    forall j | 0 <= j < |b| ensures b[j] == s[i + 2 + j] {
      assert t[j + 2] == b[j] && s[i + (j + 2)] == t[j + 2];
    }
    CloseAt(s, i + 2, b);
    BetweenSpells(s, i + 2, b);
  }

  // --- what replacing all at once means ---

  lemma {:induction false} SubstituteKnown(ts: seq<Token>, done: set<string>, more: set<string>, value: string -> string)
    requires forall b :: Placeholder(b) in ts ==> (b in done <==> b in more)
    ensures Substitute(ts, done, value) == Substitute(ts, more, value)
  {
    if ts != [] {
      assert ts[0] in ts;
      SubstituteKnown(ts[1..], done, more, value);
    }
  }

  lemma ScanSplit(p: string, b: string, q: string)
    requires '$' !in p && Legal(b)
    ensures Scan(p + Pattern(b) + q) == Chars(p) + ([Placeholder(b)] + Scan(q))
  {
    ScanReadable(q, 0);
    RenderScan(q);
    var rest := [Placeholder(b)] + Scan(q);
    forall i | 0 <= i < |rest| ensures ReadableAt(rest, i) {
      if i > 0 {
        ReadableBehind([Placeholder(b)], Scan(q), i);
      }
    }
    ReadableValue(p, rest);
    RenderConcat(Chars(p), rest);
    RenderCons(Placeholder(b), Scan(q));
    RenderChars(p);
    assert p + (Pattern(b) + q) == p + Pattern(b) + q;
    ScanRender(Chars(p) + rest);
  }

  lemma SubstituteFront(p: string, b: string, rest: seq<Token>, done: set<string>, value: string -> string)
    requires b in done
    ensures Substitute(Chars(p) + ([Placeholder(b)] + rest), done, value)
         == Chars(p) + (Chars(value(b)) + Substitute(rest, done, value))
  {
    SubstituteConcat(Chars(p), [Placeholder(b)] + rest, done, value);
    SubstituteChars(p, done, value);
    assert ([Placeholder(b)] + rest)[0] == Placeholder(b) && ([Placeholder(b)] + rest)[1..] == rest;
  }

  lemma RenderFront(p: string, v: string, rest: seq<Token>)
    ensures Render(Chars(p) + (Chars(v) + rest)) == p + v + Render(rest)
  {
    RenderConcat(Chars(p), Chars(v) + rest);
    RenderConcat(Chars(v), rest);
    RenderChars(p);
    RenderChars(v);
    Associate(p, v, Render(rest));
  }

  lemma BodiesOfRest(front: seq<Token>, rest: seq<Token>, b: string)
    requires Placeholder(b) in front
    ensures b in Elements(Bodies(front + rest))
    ensures forall c :: Placeholder(c) in rest ==> c in Elements(Bodies(front + rest)) && c in Elements(Bodies(rest))
  {
    assert Placeholder(b) in front + rest;
    BodiesHold(front + rest, b);
    forall c | Placeholder(c) in rest ensures c in Elements(Bodies(front + rest)) && c in Elements(Bodies(rest)) {
      BodiesHold(rest, c);
      assert Placeholder(c) in front + rest;
      BodiesHold(front + rest, c);
    }
  }

  lemma PlainStays(p: string, value: string -> string)
    requires '$' !in p
    ensures Simultaneous(p, value) == p
  {
    assert Readable(Chars(p));
    RenderChars(p);
    ScanRender(Chars(p));
    SubstituteChars(p, Elements(Bodies(Scan(p))), value);
  }

  /**
   Replacing all at once, read from the left: text in front of the first placeholder stays, the placeholder becomes its
   value, and the rest is treated alike. Text without a dollar stays as it is.
   */
  lemma SimultaneousSplit(p: string, b: string, q: string, value: string -> string)
    requires '$' !in p && b != "" && '}' !in b
    ensures Simultaneous(p + "${" + b + "}" + q, value) == p + value(b) + Simultaneous(q, value)
    ensures Simultaneous(p, value) == p
  {
    assert p + "${" + b + "}" + q == p + Pattern(b) + q;
    ScanSplit(p, b, q);
    PlainStays(p, value);
    var rest := Scan(q);
    var front := Chars(p) + [Placeholder(b)];
    assert Chars(p) + ([Placeholder(b)] + rest) == front + rest;
    assert front[|p|] == Placeholder(b);
    BodiesOfRest(front, rest, b);
    var done, more := Elements(Bodies(front + rest)), Elements(Bodies(rest));
    SubstituteKnown(rest, done, more, value);
    SubstituteFront(p, b, rest, done, value);
    RenderFront(p, value(b), Substitute(rest, done, value));
  }

  // --- the source's function ---

  /** The values are those the placeholders evaluate to. */
  ghost predicate Evaluates(eval: string -> Option<string>, bodies: seq<string>, value: string -> string) {
    forall n :: 0 <= n < |bodies| ==> eval(bodies[n]) == Some(value(bodies[n]))
  }

  predicate AllEvaluate(eval: string -> Option<string>, bodies: seq<string>) {
    forall n :: 0 <= n < |bodies| ==> eval(bodies[n]).Some?
  }

  /** The loop looks only at the values of the bodies it replaces. */
  lemma {:induction false} SequentialSame(s: string, order: seq<string>, f: string -> string, g: string -> string)
    requires forall n :: 0 <= n < |order| ==> f(order[n]) == g(order[n])
    ensures Sequential(s, order, f) == Sequential(s, order, g)
  {
    if order != [] {
      SequentialSame(s, order[..|order| - 1], f, g);
    }
  }

  /** `out` is the text with the evaluated values put in one after the other, whatever the function that holds them. */
  ghost predicate PutIn(yaml: string, bodies: seq<string>, eval: string -> Option<string>, out: string) {
    forall f: string -> string :: Evaluates(eval, bodies, f) ==> out == Sequential(yaml, bodies, f)
  }

  /** No placeholder is cut, and every value but the last is inert where it is put. */
  predicate Sound(yaml: string, value: string -> string) {
    Unnested(Scan(yaml), Bodies(Scan(yaml))) && Settled(Scan(yaml), Bodies(Scan(yaml)), value)
  }

  /** `out` is the text with all placeholders replaced by the evaluated values at once, whatever the function that holds them, if that is sound. */
  ghost predicate PutInAtOnce(yaml: string, eval: string -> Option<string>, out: string) {
    forall f: string -> string :: Evaluates(eval, Bodies(Scan(yaml)), f) && Sound(yaml, f) ==> out == Simultaneous(yaml, f)
  }

  function Known(eval: string -> Option<string>): string -> string {
    b => if eval(b).Some? then eval(b).value else ""
  }

  lemma KnownPutsIn(yaml: string, bodies: seq<string>, eval: string -> Option<string>)
    requires AllEvaluate(eval, bodies)
    ensures PutIn(yaml, bodies, eval, Sequential(yaml, bodies, Known(eval)))
  {
    forall f: string -> string | Evaluates(eval, bodies, f)
      ensures Sequential(yaml, bodies, Known(eval)) == Sequential(yaml, bodies, f)
    {
      SequentialSame(yaml, bodies, Known(eval), f);
    }
  }

  /** The loop over the matches. */
  method ReplaceMatches(yaml: string, matches: seq<string>, eval: string -> Option<string>) returns (r: Result<string>)
    ensures r.Ok? <==> AllEvaluate(eval, matches)
    ensures r.Ok? ==> PutIn(yaml, matches, eval, r.value)
  {
    var resolved := yaml;
    for n := 0 to |matches|
      invariant forall j :: 0 <= j < n ==> eval(matches[j]).Some?
      invariant resolved == Sequential(yaml, matches[..n], Known(eval))
    {
      var result := eval(matches[n]);
      if result.None? {
        return Err("failed to evaluate CEL expression");
      }
      assert matches[..n + 1][..n] == matches[..n];
      resolved := ReplaceAll(resolved, Pattern(matches[n]), result.value);
    }
    assert matches[..|matches|] == matches;
    KnownPutsIn(yaml, matches, eval);
    return Ok(resolved);
  }

  lemma AtOnce(yaml: string, eval: string -> Option<string>, out: string)
    requires PutIn(yaml, Bodies(Scan(yaml)), eval, out)
    ensures PutInAtOnce(yaml, eval, out)
  {
    forall f: string -> string | Evaluates(eval, Bodies(Scan(yaml)), f) && Sound(yaml, f)
      ensures out == Simultaneous(yaml, f)
    {
      AnyOrder(yaml, Bodies(Scan(yaml)), f);
    }
  }

  /**
   EvaluateExpression up to the YAML conversion: an empty text is an error, a placeholder that does not evaluate
   is an error; otherwise the evaluated values replace the placeholders one after the other, and all at once if no
   placeholder is cut and the values are inert where they are put.
   */
  method EvaluateExpression(yaml: string, eval: string -> Option<string>) returns (r: Result<string>)
    ensures r.Ok? <==> yaml != "" && AllEvaluate(eval, Bodies(Scan(yaml)))
    ensures r.Ok? ==> PutIn(yaml, Bodies(Scan(yaml)), eval, r.value) && PutInAtOnce(yaml, eval, r.value)
  {
    if yaml == "" {
      return Err("expression cannot be empty");
    }
    var matches := Bodies(Scan(yaml));
    if matches == [] {
      r := Ok(yaml);
      KnownPutsIn(yaml, matches, eval);
    } else {
      r := ReplaceMatches(yaml, matches, eval);
    }
    if r.Ok? {
      AtOnce(yaml, eval, r.value);
    }
  }
}
