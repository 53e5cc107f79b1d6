/**
 Which templates and processing orders are safe: a dollar directly before a placeholder may become the opening of
 another one. The conditions of the substitution theorem on templates and orders are exact.
 */
module ExactSubstitution {
  import opened StringOps
  import opened Expressions
  import opened ExactValues
  import opened ExactBodies

  // --- dollars before placeholders ---

  /** The tokens after `b` got the value `{c}`: a dollar before it has become an opening. */
  function Join(ts: seq<Token>, b: string, c: string): seq<Token> {
    if ts == [] then []
    else if |ts| > 1 && ts[0] == Char('$') && ts[1] == Placeholder(b) then [Placeholder(c)] + Join(ts[2..], b, c)
    else (if ts[0] == Placeholder(b) then Chars("{" + c + "}") else [ts[0]]) + Join(ts[1..], b, c)
  }

  lemma DollarText(v: string, c: string, rest: string)
    requires v == "{" + c + "}"
    ensures "$" + (v + rest) == Pattern(c) + rest
  {
    assert "$" + v == Pattern(c);
    assert "$" + (v + rest) == ("$" + v) + rest;
  }

  lemma JoinedText(rest: seq<Token>, more: seq<Token>, v: string, c: string)
    requires v == "{" + c + "}" && Render(rest) == Render(more)
    ensures Render([Placeholder(c)] + rest) == Render([Char('$')] + (Chars(v) + more))
  {
    RenderCons(Placeholder(c), rest);
    RenderCons(Char('$'), Chars(v) + more);
    RenderConcat(Chars(v), more);
    RenderChars(v);
    DollarText(v, c, Render(more));
  }

  lemma {:induction false} JoinRenders(ts: seq<Token>, b: string, c: string, value: string -> string)
    requires value(b) == "{" + c + "}"
    ensures Render(Join(ts, b, c)) == Render(Substitute(ts, {b}, value))
  {
    if ts != [] {
      if |ts| > 1 && ts[0] == Char('$') && ts[1] == Placeholder(b) {
        JoinRenders(ts[2..], b, c, value);
        assert ts[1..][0] == ts[1] && ts[1..][1..] == ts[2..];
        JoinedText(Join(ts[2..], b, c), Substitute(ts[2..], {b}, value), value(b), c);
      } else {
        JoinRenders(ts[1..], b, c, value);
        var head := if ts[0] == Placeholder(b) then Chars(value(b)) else [ts[0]];
        RenderConcat(head, Join(ts[1..], b, c));
        RenderConcat(head, Substitute(ts[1..], {b}, value));
      }
    }
  }

  lemma {:induction false} JoinUnclosed(ts: seq<Token>, b: string, c: string)
    requires Unclosed(ts, 0)
    ensures Join(ts, b, c) == ts
  {
    if ts != [] {
      JoinUnclosed(ts[1..], b, c);
    }
  }

  lemma {:induction false} JoinReadable(ts: seq<Token>, b: string, c: string)
    requires Readable(ts) && CleanBody(c)
    ensures Readable(Join(ts, b, c))
  {
    if ts != [] {
      ReadableTail(ts);
      if |ts| > 1 && ts[0] == Char('$') && ts[1] == Placeholder(b) {
        ReadableTail(ts[1..]);
        assert ts[1..][1..] == ts[2..];
        JoinReadable(ts[2..], b, c);
        var after := Join(ts[2..], b, c);
        var all := [Placeholder(c)] + after;
        forall i | 0 <= i < |all| ensures ReadableAt(all, i) {
          if i > 0 { ReadableBehind([Placeholder(c)], after, i); }
        }
      } else {
        JoinReadable(ts[1..], b, c);
        var after := Join(ts[1..], b, c);
        if ts[0] == Placeholder(b) {
          InertBraces(c);
          ReadableValue("{" + c + "}", after);
        } else {
          JoinFirst(ts, b, c);
          var all := [ts[0]] + after;
          forall i | 0 <= i < |all| ensures ReadableAt(all, i) {
            if i > 0 { ReadableBehind([ts[0]], after, i); }
          }
        }
      }
    }
  }

  lemma InertBraces(c: string)
    requires CleanBody(c)
    ensures Inert("{" + c + "}")
  {
    var s := "{" + c + "}";
    forall i | 0 <= i < |s| ensures !OpensAt(s, i) {
      if i > 0 {
        assert !OpensAt(c + "}", i - 1);
      }
    }
  }

  lemma JoinFirst(ts: seq<Token>, b: string, c: string)
    requires ts != [] && Readable(ts) && !(|ts| > 1 && ts[0] == Char('$') && ts[1] == Placeholder(b))
    ensures ReadableAt([ts[0]] + Join(ts[1..], b, c), 0)
  {
    assert ReadableAt(ts, 0);
    var after := Join(ts[1..], b, c);
    if ts[0] == Char('$') && |ts| > 1 {
      var tail := ts[1..];
      assert tail[0] == ts[1];
      if ts[1] == Char('{') {
        if |ts| > 2 && ts[2] == Char('}') {
          assert tail[1..][0] == Char('}');
          assert after == [Char('{')] + Join(tail[1..], b, c);
          assert after[1] == Char('}');
        } else {
          forall j | 0 <= j < |tail| ensures tail[j].Char? && tail[j].c != '}' {
            assert tail[j] == ts[j + 1];
          }
          JoinUnclosed(tail, b, c);
          assert [ts[0]] + after == ts;
        }
      }
    }
  }

  lemma JoinOneShorter(rest: seq<Token>, b: string, c: string, done: set<string>, value: string -> string)
    requires value(b) == "{" + c + "}" && |value(c)| < |c| + 3
    requires FinalLength(Join(rest, b, c), done, value) <= FinalLength(Substitute(rest, {b}, value), done, value)
    ensures var joined := FinalLength([Placeholder(c)] + Join(rest, b, c), done, value);
            var apart := FinalLength(Chars("$") + (Chars(value(b)) + Substitute(rest, {b}, value)), done, value);
            joined <= apart && (c in done ==> joined < apart)
  {
    var after := Substitute(rest, {b}, value);
    FinalConcat([Placeholder(c)], Join(rest, b, c), done, value);
    FinalOne(c, done, value);
    FinalConcat(Chars("$"), Chars(value(b)) + after, done, value);
    FinalConcat(Chars(value(b)), after, done, value);
    FinalChars("$", done, value);
    FinalChars(value(b), done, value);
  }

  lemma DollarInTail(ts: seq<Token>, b: string)
    requires ts != [] && DollarBefore(ts, b) && !(|ts| > 1 && ts[0] == Char('$') && ts[1] == Placeholder(b))
    ensures DollarBefore(ts[1..], b)
  {
    var i :| 0 < i < |ts| && ts[i - 1] == Char('$') && ts[i] == Placeholder(b);
    assert ts[1..][i - 1] == Placeholder(b) && ts[1..][i - 2] == Char('$');
  }

  /** Each opening that a dollar has become and that is replaced costs the result at least one character. */
  lemma {:induction false} JoinShorter(ts: seq<Token>, b: string, c: string, done: set<string>, value: string -> string)
    requires value(b) == "{" + c + "}" && |value(c)| < |c| + 3
    ensures FinalLength(Join(ts, b, c), done, value) <= FinalLength(Substitute(ts, {b}, value), done, value)
    ensures DollarBefore(ts, b) && c in done ==>
              FinalLength(Join(ts, b, c), done, value) < FinalLength(Substitute(ts, {b}, value), done, value)
  {
    if ts != [] {
      if |ts| > 1 && ts[0] == Char('$') && ts[1] == Placeholder(b) {
        JoinShorter(ts[2..], b, c, done, value);
        JoinOneShorter(ts[2..], b, c, done, value);
        assert ts[1..][0] == ts[1] && ts[1..][1..] == ts[2..];
        assert Substitute(ts, {b}, value) == Chars("$") + (Chars(value(b)) + Substitute(ts[2..], {b}, value));
      } else {
        JoinShorter(ts[1..], b, c, done, value);
        var head := if ts[0] == Placeholder(b) then Chars(value(b)) else [ts[0]];
        FinalConcat(head, Join(ts[1..], b, c), done, value);
        FinalConcat(head, Substitute(ts[1..], {b}, value), done, value);
        if DollarBefore(ts, b) && c in done {
          DollarInTail(ts, b);
        }
      }
    }
  }

  lemma DollarSplit(ts: seq<Token>, b: string) returns (left: seq<Token>, right: seq<Token>)
    requires DollarBefore(ts, b)
    ensures ts == left + (Chars("$") + ([Placeholder(b)] + right))
  {
    var i :| 0 < i < |ts| && ts[i - 1] == Char('$') && ts[i] == Placeholder(b);
    left, right := ts[..i - 1], ts[i + 1..];
  }

  lemma SubstituteSplit(left: seq<Token>, b: string, right: seq<Token>, done: set<string>, value: string -> string)
    ensures Substitute(left + (Chars("$") + ([Placeholder(b)] + right)), done, value)
         == Substitute(left, done, value)
            + (Chars("$") + ((if b in done then Chars(value(b)) else [Placeholder(b)]) + Substitute(right, done, value)))
  {
    SubstituteConcat(left, Chars("$") + ([Placeholder(b)] + right), done, value);
    SubstituteConcat(Chars("$"), [Placeholder(b)] + right, done, value);
    SubstituteConcat([Placeholder(b)], right, done, value);
    SubstituteChars("$", done, value);
    SubstituteOne(b, done, value);
  }

  lemma DollarStays(ts: seq<Token>, b: string, done: set<string>, value: string -> string)
    requires DollarBefore(ts, b) && b !in done
    ensures DollarBefore(Substitute(ts, done, value), b)
  {
    var left, right := DollarSplit(ts, b);
    SubstituteSplit(left, b, right, done, value);
    var all, i := Substitute(ts, done, value), |Substitute(left, done, value)|;
    assert all[i] == Char('$') && all[i + 1] == Placeholder(b);
  }

  /** The placeholders of a joined template. */
  lemma {:induction false} JoinLeft(ts: seq<Token>, b: string, c: string, d: string)
    requires Placeholder(d) in Join(ts, b, c)
    ensures d == c || (Placeholder(d) in ts && d != b)
  {
    if |ts| > 1 && ts[0] == Char('$') && ts[1] == Placeholder(b) {
      assert Join(ts, b, c) == [Placeholder(c)] + Join(ts[2..], b, c);
      if d != c {
        JoinLeft(ts[2..], b, c, d);
      }
    } else {
      var head := if ts[0] == Placeholder(b) then Chars("{" + c + "}") else [ts[0]];
      assert Join(ts, b, c) == head + Join(ts[1..], b, c);
      if Placeholder(d) !in head {
        JoinLeft(ts[1..], b, c, d);
      }
    }
  }

  lemma JoinUnnested(ts: seq<Token>, order: seq<string>, c: string)
    requires order != [] && Unnested(ts, order) && LegalBodies(order) && CleanBody(c)
    ensures Unnested(Join(ts, order[0], c), order[1..])
  {
    var b, rest := order[0], order[1..];
    var joined := Join(ts, b, c);
    forall n, i | 0 <= n < |rest| && 0 <= i < |joined| && joined[i].Placeholder? && EndsIn(joined[i].body, rest[n])
      ensures joined[i].body in Elements(rest[..n])
    {
      var d := joined[i].body;
      assert Placeholder(d) in joined;
      JoinLeft(ts, b, c, d);
      if d == c {
        CleanEnd(c, order[n + 1]);
      }
      var j :| 0 <= j < |ts| && ts[j] == Placeholder(d);
      assert NotNested(ts, order[n + 1], Elements(order[..n + 1]));
      PrefixElements(order, n + 1);
    }
  }

  /** Some round for `b` comes before one for `c`. */
  predicate Later(order: seq<string>, b: string, c: string) {
    exists n, m :: 0 <= n < m < |order| && order[n] == b && order[m] == c
  }

  lemma LaterNext(order: seq<string>, b: string, c: string)
    requires Later(order, b, c)
    ensures (order[0] == b && c in Elements(order[1..])) || (order[0] != b && Later(order[1..], b, c))
  {
    var n, m :| 0 <= n < m < |order| && order[n] == b && order[m] == c;
    var rest := order[1..];
    assert rest[m - 1] == c;
    if order[0] != b {
      assert rest[n - 1] == b;
    }
  }

  lemma HarmlessRound(ts: seq<Token>, d: string, value: string -> string)
    requires Readable(ts) && Legal(d) && NotNested(ts, d, {}) && value(d) == "u"
    ensures ReplaceAll(Render(ts), Pattern(d), value(d)) == Render(Substitute(ts, {d}, value))
    ensures Readable(Substitute(ts, {d}, value))
  {
    ReplaceOne(ts, d, value);
    InertLetter();
    assert "$" + "u" == "$u" && "" + "u" == "u";
    SubstituteReadable(ts, {d}, value);
  }

  lemma SpellingRound(ts: seq<Token>, b: string, c: string, value: string -> string)
    requires Readable(ts) && Legal(b) && NotNested(ts, b, {}) && CleanBody(c) && value(b) == "{" + c + "}"
    ensures ReplaceAll(Render(ts), Pattern(b), value(b)) == Render(Join(ts, b, c))
    ensures Readable(Join(ts, b, c))
  {
    ReplaceOne(ts, b, value);
    JoinRenders(ts, b, c, value);
    JoinReadable(ts, b, c);
  }

  /** One round leads from a template to the next one. */
  ghost predicate LeadsTo(ts: seq<Token>, order: seq<string>, next: seq<Token>, value: string -> string)
    requires order != []
  {
    && Readable(next) && Unnested(next, order[1..])
    && Sequential(Render(ts), order, value) == Sequential(Render(next), order[1..], value)
    && FinalLength(next, Elements(order[1..]), value) <= FinalLength(ts, Elements(order), value)
  }

  lemma FinalNext(ts: seq<Token>, order: seq<string>, value: string -> string)
    requires order != []
    ensures FinalLength(Substitute(ts, {order[0]}, value), Elements(order[1..]), value)
         == FinalLength(ts, Elements(order), value)
  {
    FirstRound("", order, value);
    SubstituteTwice(ts, {order[0]}, Elements(order[1..]), value);
  }

  lemma SpellingStep(ts: seq<Token>, order: seq<string>, c: string, value: string -> string)
    requires Readable(ts) && order != [] && LegalBodies(order) && Unnested(ts, order) && CleanBody(c)
    requires value(order[0]) == "{" + c + "}" && |value(c)| < |c| + 3
    ensures LeadsTo(ts, order, Join(ts, order[0], c), value)
    ensures DollarBefore(ts, order[0]) && c in Elements(order[1..]) ==>
              FinalLength(Join(ts, order[0], c), Elements(order[1..]), value) < FinalLength(ts, Elements(order), value)
  {
    FirstRound(Render(ts), order, value);
    UnnestedNext(ts, order, value);
    SpellingRound(ts, order[0], c, value);
    JoinUnnested(ts, order, c);
    JoinShorter(ts, order[0], c, Elements(order[1..]), value);
    FinalNext(ts, order, value);
  }

  lemma HarmlessStep(ts: seq<Token>, order: seq<string>, value: string -> string)
    requires Readable(ts) && order != [] && LegalBodies(order) && Unnested(ts, order) && value(order[0]) == "u"
    ensures LeadsTo(ts, order, Substitute(ts, {order[0]}, value), value)
  {
    FirstRound(Render(ts), order, value);
    UnnestedNext(ts, order, value);
    HarmlessRound(ts, order[0], value);
    FinalNext(ts, order, value);
  }

  predicate NotLonger(ts: seq<Token>, order: seq<string>, value: string -> string) {
    |Sequential(Render(ts), order, value)| <= FinalLength(ts, Elements(order), value)
  }

  predicate Shorter(ts: seq<Token>, order: seq<string>, value: string -> string) {
    |Sequential(Render(ts), order, value)| < FinalLength(ts, Elements(order), value)
  }

  lemma NoRounds(ts: seq<Token>, value: string -> string)
    ensures NotLonger(ts, [], value)
  {
    assert Elements([]) == {};
    SubstituteNone(ts, value);
  }

  lemma ShorterStep(ts: seq<Token>, order: seq<string>, next: seq<Token>, value: string -> string)
    requires order != [] && LeadsTo(ts, order, next, value) && NotLonger(next, order[1..], value)
    ensures NotLonger(ts, order, value)
    ensures Shorter(next, order[1..], value) ==> Shorter(ts, order, value)
    ensures FinalLength(next, Elements(order[1..]), value) < FinalLength(ts, Elements(order), value) ==>
              Shorter(ts, order, value)
  {
  }

  /** If `b` spells the clean body `c`, a dollar before `b` that meets a later round for `c` makes the result shorter. */
  lemma {:induction false} RunShorter(ts: seq<Token>, order: seq<string>, b: string, c: string, value: string -> string)
    requires Readable(ts) && LegalBodies(order) && Unnested(ts, order) && CleanBody(c)
    requires value == Only(b, "{" + c + "}")
    ensures NotLonger(ts, order, value)
    ensures DollarBefore(ts, b) && Later(order, b, c) ==> Shorter(ts, order, value)
    decreases |order|
  {
    if order == [] {
      NoRounds(ts, value);
    } else if order[0] == b {
      SpellingStep(ts, order, c, value);
      RunShorter(Join(ts, b, c), order[1..], b, c, value);
      ShorterStep(ts, order, Join(ts, b, c), value);
      if Later(order, b, c) {
        LaterNext(order, b, c);
      }
    } else {
      var next := Substitute(ts, {order[0]}, value);
      HarmlessStep(ts, order, value);
      RunShorter(next, order[1..], b, c, value);
      ShorterStep(ts, order, next, value);
      if DollarBefore(ts, b) && Later(order, b, c) {
        DollarStays(ts, b, {order[0]}, value);
        LaterNext(order, b, c);
      }
    }
  }

  /** No entry but the last has a plain dollar directly before it. */
  predicate DollarOnlyLast(ts: seq<Token>, order: seq<string>) {
    forall n :: 0 <= n < |order| - 1 ==> !DollarBefore(ts, order[n])
  }

  /** A placeholder with a plain dollar directly before it is replaced before one with a clean body. */
  predicate CleanAfterDollar(ts: seq<Token>, order: seq<string>) {
    exists n, m :: 0 <= n < m < |order| && DollarBefore(ts, order[n]) && CleanBody(order[m])
  }

  lemma DollarBreaks(ts: seq<Token>, order: seq<string>) returns (value: string -> string)
    requires Readable(ts) && LegalBodies(order) && Unnested(ts, order) && CleanAfterDollar(ts, order)
    ensures InertValues(value) && !LoopIsRight(ts, order, value)
  {
    var n, m :| 0 <= n < m < |order| && DollarBefore(ts, order[n]) && CleanBody(order[m]);
    var b, c := order[n], order[m];
    value := Only(b, "{" + c + "}");
    RunShorter(ts, order, b, c, value);
    InertBraces(c);
    InertLetter();
  }

  // --- orders and templates ---

  lemma OrderRight(ts: seq<Token>, order: seq<string>, value: string -> string)
    requires Readable(ts) && LegalBodies(order) && Unnested(ts, order) && DollarOnlyLast(ts, order) && InertValues(value)
    ensures LoopIsRight(ts, order, value)
  {
    forall n | 0 <= n < |order| - 1 ensures Inert(Front(ts, order[n]) + value(order[n])) {
      assert "" + value(order[n]) == value(order[n]);
    }
    SequentialIsSimultaneous(ts, order, value);
  }

  /**
   Which templates are safe for a given processing order and all inert values. It suffices that no placeholder is cut
   by one nested in it and that only the one replaced last has a dollar directly before it; it is necessary that none is
   cut and that none with a dollar before it comes before a clean one. If the body replaced last is clean, the two agree.
   */
  lemma OrderExactly(ts: seq<Token>, order: seq<string>)
    requires Readable(ts) && LegalBodies(order)
    ensures Unnested(ts, order) && DollarOnlyLast(ts, order) ==>
              forall value: string -> string :: InertValues(value) ==> LoopIsRight(ts, order, value)
    ensures (forall value: string -> string :: InertValues(value) ==> LoopIsRight(ts, order, value)) ==>
              Unnested(ts, order) && !CleanAfterDollar(ts, order)
    ensures order == [] || CleanBody(order[|order| - 1]) ==>
              (Unnested(ts, order) && DollarOnlyLast(ts, order) <==>
               forall value: string -> string :: InertValues(value) ==> LoopIsRight(ts, order, value))
  {
    if Unnested(ts, order) && DollarOnlyLast(ts, order) {
      forall value: string -> string | InertValues(value) ensures LoopIsRight(ts, order, value) {
        OrderRight(ts, order, value);
      }
    }
    if !Unnested(ts, order) {
      NestBreaks(ts, order);
    } else if CleanAfterDollar(ts, order) {
      var value := DollarBreaks(ts, order);
    }
    if order != [] && CleanBody(order[|order| - 1]) {
      LastIsAfter(ts, order);
    }
  }

  lemma LastIsAfter(ts: seq<Token>, order: seq<string>)
    requires order != [] && CleanBody(order[|order| - 1])
    ensures CleanAfterDollar(ts, order) <==> !DollarOnlyLast(ts, order)
  {
    if !DollarOnlyLast(ts, order) {
      var n :| 0 <= n < |order| - 1 && DollarBefore(ts, order[n]);
      assert n < |order| - 1 && CleanBody(order[|order| - 1]);
    }
  }

  /** The same for the source's loop over any text, which replaces the matches in the order in which it finds them. */
  lemma LoopExactly(s: string)
    ensures var ts, order := Scan(s), Bodies(Scan(s));
            && (Unnested(ts, order) && DollarOnlyLast(ts, order) ==>
                forall value: string -> string :: InertValues(value) ==> MatchesLoopIsRight(s, value))
            && ((forall value: string -> string :: InertValues(value) ==> MatchesLoopIsRight(s, value)) ==>
                Unnested(ts, order) && !CleanAfterDollar(ts, order))
            && (order == [] || CleanBody(order[|order| - 1]) ==>
                (Unnested(ts, order) && DollarOnlyLast(ts, order) <==>
                 forall value: string -> string :: InertValues(value) ==> MatchesLoopIsRight(s, value)))
  {
    var ts := Scan(s);
    RenderScan(s);
    ScanReadable(s, 0);
    MatchesLegal(s, Bodies(ts));
    OrderExactly(ts, Bodies(ts));
    forall value: string -> string ensures MatchesLoopIsRight(s, value) <==> LoopIsRight(ts, Bodies(ts), value) {
    }
  }

  // --- between the two conditions both happens ---

  const HARMLESS := [Char('$'), Placeholder("x${y"), Placeholder("p${q")]

  /** The second placeholder cannot be spelled behind the dollar, since it takes an opening that no inert value holds. */
  lemma NotSpelled(v: string, i: nat)
    requires Inert(v) && i < |v| + 1
    ensures !HasPrefix((("$" + v) + Pattern("p${q"))[i..], Pattern("p${q"))
  {
    var p := Pattern("p${q");
    var t := (("$" + v) + p)[i..];
    assert p == "${p${q}";
    if i + 6 < |v| + 1 {
      assert !OpensAt(v, i + 2);
      assert t[3] == v[i + 2] && t[4] == v[i + 3] && t[5] == v[i + 4];
      Mismatch(t, p, if t[3] != '$' then 3 else if t[4] != '{' then 4 else 5);
    } else {
      assert t[6] == p[i + 6 - |v| - 1];
      Mismatch(t, p, 6);
    }
  }

  lemma HarmlessRounds(v: string, w: string)
    requires Inert(v)
    ensures ReplaceAll("$" + v + Pattern("p${q"), Pattern("p${q"), w) == "$" + v + w
  {
    var c := "p${q";
    var head, rest := "$" + v, Pattern(c) + "";
    assert rest == Pattern(c);
    forall i | 0 <= i < |head| ensures !HasPrefix((head + rest)[i..], Pattern(c)) {
      NotSpelled(v, i);
    }
    ReplaceSkips(head, rest, Pattern(c), w);
    ReplaceHit("", c, w);
  }

  /** A dollar before a placeholder that is not replaced last, and yet the loop is right for all inert values. */
  lemma DollarHarmless(value: string -> string)
    requires InertValues(value)
    ensures Scan(Render(HARMLESS)) == HARMLESS && !DollarOnlyLast(HARMLESS, Bodies(HARMLESS))
    ensures MatchesLoopIsRight(Render(HARMLESS), value)
  {
    var b, c := "x${y", "p${q";
    HarmlessTokens();
    assert DollarBefore(HARMLESS, [b, c][0]);
    ReplaceOne(HARMLESS, b, value);
    HarmlessSubstituted({b}, value);
    HarmlessRounds(value(b), value(c));
    SequentialPair(Render(HARMLESS), b, c, value);
    assert b in [b, c] && c in [b, c];
    HarmlessSubstituted(Elements([b, c]), value);
  }

  lemma HarmlessTokens()
    ensures Readable(HARMLESS) && Scan(Render(HARMLESS)) == HARMLESS && Bodies(HARMLESS) == ["x${y", "p${q"]
    ensures NotNested(HARMLESS, "x${y", {})
  {
    assert HARMLESS == Chars("$") + [Placeholder("x${y")] + [Placeholder("p${q")];
    assert Readable(HARMLESS);
    ScanRender(HARMLESS);
    BodiesConcat(Chars("$") + [Placeholder("x${y")], [Placeholder("p${q")]);
    BodiesConcat(Chars("$"), [Placeholder("x${y")]);
    BodiesChars("$");
    BodiesOne("x${y");
    BodiesOne("p${q");
  }

  lemma HarmlessSubstituted(done: set<string>, value: string -> string)
    requires "x${y" in done
    ensures Render(Substitute(HARMLESS, done, value)) ==
            "$" + value("x${y") + (if "p${q" in done then value("p${q") else Pattern("p${q"))
  {
    assert HARMLESS == Trap("$", "x${y", "", "p${q");
    SubstituteTrap("$", "x${y", "", "p${q", done, value);
  }

  function Twice(b: string): seq<Token> {
    var x := Chars("$") + [Placeholder(b)];
    x + x + Chars("}")
  }

  lemma TwiceReadable(b: string)
    requires Legal(b)
    ensures Readable(Twice(b)) && Scan(Render(Twice(b))) == Twice(b)
    ensures NotNested(Twice(b), b, {}) && Unnested(Twice(b), [b, b])
  {
    var ts := Twice(b);
    assert ts == [Char('$'), Placeholder(b), Char('$'), Placeholder(b), Char('}')];
    forall i | 0 <= i < |ts| ensures ReadableAt(ts, i) {
    }
    ScanRender(ts);
  }

  lemma TwiceBodies(b: string)
    ensures Bodies(Twice(b)) == [b, b]
  {
    var x := Chars("$") + [Placeholder(b)];
    BodiesConcat(x + x, Chars("}"));
    BodiesConcat(x, x);
    BodiesConcat(Chars("$"), [Placeholder(b)]);
    BodiesChars("$");
    BodiesChars("}");
    BodiesOne(b);
  }

  lemma TwiceSubstituted(b: string, done: set<string>, value: string -> string)
    requires b in done
    ensures Render(Substitute(Twice(b), done, value)) == "$" + value(b) + "$" + value(b) + "}"
  {
    var x := Chars("$") + [Placeholder(b)];
    var v := Chars("$") + Chars(value(b));
    SubstituteConcat(x + x, Chars("}"), done, value);
    SubstituteConcat(x, x, done, value);
    SubstituteConcat(Chars("$"), [Placeholder(b)], done, value);
    SubstituteOne(b, done, value);
    SubstituteChars("$", done, value);
    SubstituteChars("}", done, value);
    RenderConcat(v + v, Chars("}"));
    RenderConcat(v, v);
    RenderConcat(Chars("$"), Chars(value(b)));
    RenderChars("$");
    RenderChars("}");
    RenderChars(value(b));
  }

  /** If the value of `b` behind two dollars spells `b`, the second round hits what the first one has put together. */
  lemma TwiceBreaks(b: string, v: string)
    requires Legal(b) && "$" + v + "$" + v + "}" == Pattern(b)
    ensures !MatchesLoopIsRight(Render(Twice(b)), Only(b, v))
  {
    var value := Only(b, v);
    TwiceReadable(b);
    TwiceBodies(b);
    ReplaceOne(Twice(b), b, value);
    TwiceSubstituted(b, {b}, value);
    assert Pattern(b) == Pattern(b) + "";
    ReplaceHit("", b, v);
    SequentialPair(Render(Twice(b)), b, b, value);
    assert b in Elements([b, b]);
    TwiceSubstituted(b, Elements([b, b]), value);
  }

  const HARMFUL := "y${y"

  /** Here no clean body comes after the dollar either, and the loop is wrong: two dollars spell the body together. */
  lemma DollarHarmful()
    ensures Scan(Render(Twice(HARMFUL))) == Twice(HARMFUL) && Unnested(Twice(HARMFUL), Bodies(Twice(HARMFUL)))
    ensures !CleanAfterDollar(Twice(HARMFUL), Bodies(Twice(HARMFUL)))
    ensures InertValues(Only(HARMFUL, "{y")) && !MatchesLoopIsRight(Render(Twice(HARMFUL)), Only(HARMFUL, "{y"))
  {
    TwiceReadable(HARMFUL);
    TwiceBodies(HARMFUL);
    assert OpensAt(HARMFUL + "}", 1);
    assert !CleanBody(HARMFUL);
    InertLetter();
    assert Inert("{y");
    assert "$" + "{y" + "$" + "{y" + "}" == Pattern(HARMFUL);
    TwiceBreaks(HARMFUL, "{y");
  }

  /** A template whose bodies are not all clean goes wrong even with the tamest values. */
  lemma UncleanTrapped(ts: seq<Token>) returns (order: seq<string>)
    requires Readable(ts) && !Clean(ts)
    ensures LegalBodies(order) && !Unnested(ts, order)
  {
    var i :| 0 <= i < |ts| && ts[i].Placeholder? && !CleanBody(ts[i].body);
    assert ReadableAt(ts, i);
    var y := NestedBody(ts[i].body);
    order := [y];
    assert order[..0] == [] && Elements([]) == {};
    assert !NotNested(ts, order[0], Elements(order[..0]));
  }

  lemma DollarTrapped(ts: seq<Token>) returns (order: seq<string>)
    requires Readable(ts) && Clean(ts) && !Spaced(ts)
    ensures LegalBodies(order) && Unnested(ts, order) && CleanAfterDollar(ts, order)
  {
    var i :| 0 < i < |ts| && ts[i].Placeholder? && ts[i - 1] == Char('$');
    order := [ts[i].body, "x"];
    CleanLetter("x");
    assert DollarBefore(ts, order[0]) && CleanBody(order[1]);
    CleanUnnested(ts, order);
  }

  /**
   Which templates are safe whatever is replaced in them: with inert values exactly those with clean bodies and no
   dollar directly before a placeholder, and with values that are inert behind a dollar exactly those with clean bodies.
   */
  lemma TemplateExactly(s: string)
    ensures Clean(Scan(s)) && Spaced(Scan(s)) <==>
            forall order: seq<string>, value: string -> string ::
              LegalBodies(order) && InertValues(value) ==> LoopIsRight(Scan(s), order, value)
    ensures Clean(Scan(s)) <==>
            forall order: seq<string>, value: string -> string ::
              LegalBodies(order) && InertBehindDollar(value) ==> LoopIsRight(Scan(s), order, value)
  {
    var ts := Scan(s);
    ScanReadable(s, 0);
    if !Clean(ts) {
      var order := UncleanTrapped(ts);
      NestBreaks(ts, order);
    } else {
      CleanTemplate(ts);
      if Spaced(ts) {
        SpacedTemplate(ts);
      } else {
        var order := DollarTrapped(ts);
        var value := DollarBreaks(ts, order);
      }
    }
  }

  lemma CleanTemplate(ts: seq<Token>)
    requires Readable(ts) && Clean(ts)
    ensures forall order: seq<string>, value: string -> string ::
              LegalBodies(order) && InertBehindDollar(value) ==> LoopIsRight(ts, order, value)
  {
    forall order: seq<string>, value: string -> string | LegalBodies(order) && InertBehindDollar(value)
      ensures LoopIsRight(ts, order, value)
    {
      forall b ensures Inert(Front(ts, b) + value(b)) {
        InertTail(value(b));
        assert "" + value(b) == value(b);
      }
      CleanUnnested(ts, order);
      SequentialIsSimultaneous(ts, order, value);
    }
  }

  lemma SpacedTemplate(ts: seq<Token>)
    requires Readable(ts) && Clean(ts) && Spaced(ts)
    ensures forall order: seq<string>, value: string -> string ::
              LegalBodies(order) && InertValues(value) ==> LoopIsRight(ts, order, value)
  {
    forall order: seq<string>, value: string -> string | LegalBodies(order) && InertValues(value)
      ensures LoopIsRight(ts, order, value)
    {
      forall b ensures Inert(Front(ts, b) + value(b)) {
        SpacedFront(ts, b);
        assert "" + value(b) == value(b);
      }
      CleanUnnested(ts, order);
      SequentialIsSimultaneous(ts, order, value);
    }
  }
}
