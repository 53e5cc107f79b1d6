/** What several components do with strings and lists of strings. */
module StringOps {

  predicate HasPrefix(s: string, p: string) {
    |p| <= |s| && s[..|p|] == p
  }

  lemma Associate(a: string, b: string, c: string)
    ensures a + (b + c) == a + b + c
  {
  }

  lemma PrefixMeans(s: string, p: string)
    ensures HasPrefix(s, p) <==> exists rest :: s == p + rest
  {
    if HasPrefix(s, p) {
      assert s == p + s[|p|..];
    }
    if rest :| s == p + rest {
      assert s[..|p|] == p;
    }
  }

  /** The first occurrence of a character from i on, or the length if there is none. */
  function IndexFrom(s: string, c: char, i: nat): (k: nat)
    requires i <= |s|
    ensures i <= k <= |s| && (k < |s| ==> s[k] == c) && forall j :: i <= j < k ==> s[j] != c
    decreases |s| - i
  {
    if i == |s| || s[i] == c then i else IndexFrom(s, c, i + 1)
  }

  /** Replaces every non-overlapping occurrence, from the left. */
  function ReplaceAll(s: string, old_: string, new_: string): string
    requires old_ != ""
  {
    if s == "" then ""
    else if HasPrefix(s, old_) then new_ + ReplaceAll(s[|old_|..], old_, new_)
    else [s[0]] + ReplaceAll(s[1..], old_, new_)
  }

  function Elements(xs: seq<string>): set<string> {
    set x | x in xs
  }

  lemma ElementsSnoc(xs: seq<string>, x: string)
    ensures Elements(xs + [x]) == Elements(xs) + {x}
  {
  }

  lemma ElementsConcat(xs: seq<string>, ys: seq<string>)
    ensures Elements(xs + ys) == Elements(xs) + Elements(ys)
  {
  }

  /** The first occurrence of a character splits a text in one way only. */
  lemma SplitsOnce(ch: char, a: string, b: string, c: string, d: string)
    requires ch !in a && ch !in c
    ensures a + [ch] + b == c + [ch] + d <==> a == c && b == d
  {
    var s, t := a + [ch] + b, c + [ch] + d;
    FirstAt(ch, a, b);
    FirstAt(ch, c, d);
    if s == t {
      assert a == s[..|a|] && c == t[..|c|];
      assert b == s[|a| + 1..] && d == t[|c| + 1..];
    }
  }

  lemma FirstAt(ch: char, a: string, b: string)
    requires ch !in a
    ensures IndexFrom(a + [ch] + b, ch, 0) == |a|
  {
    var s := a + [ch] + b;
    assert s[|a|] == ch && forall i :: 0 <= i < |a| ==> s[i] == a[i];
  }
}
