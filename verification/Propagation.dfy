/**
 Tracked propagation of labels and annotations from a source to a destination object. What was propagated is
 remembered in an annotation of the destination, so that a later call can remove what is no longer declared.
 */
module Propagation {
  import opened Options
  import opened StringOps

  const TRACKING := "greenhouse.sap/last-applied-propagator"
  const PROPAGATE_LABELS := "greenhouse.sap/propagate-labels"
  const PROPAGATE_ANNOTATIONS := "greenhouse.sap/propagate-annotations"

  type Strings = map<string, string>

  datatype Meta = Meta(labels: Strings, annotations: Strings)

  /** The propagated keys, kept as JSON in the tracking annotation. */
  datatype AppliedState = AppliedState(labelKeys: seq<string>, annotationKeys: seq<string>)

  const NOTHING := AppliedState([], [])

  /** JSON as a pair of functions; text that is not the JSON of a state decodes to the empty state. */
  datatype Codec = Codec(encode: AppliedState -> string, decode: string -> AppliedState)

  ghost predicate Faithful(c: Codec) {
    forall s :: c.decode(c.encode(s)) == s && c.encode(s) != ""
  }

  // --- a faithful codec exists ---

  function EncodeKey(k: string): string {
    if k == "" then "." else ['+', k[0]] + EncodeKey(k[1..])
  }

  function EncodeKeys(ks: seq<string>): string {
    if ks == [] then ";" else "," + EncodeKey(ks[0]) + EncodeKeys(ks[1..])
  }

  function DecodeKey(s: string): (r: (string, string))
    ensures s != "" ==> |r.1| < |s|
    ensures s == "" ==> r.1 == ""
  {
    if |s| >= 2 && s[0] == '+' then
      var (k, rest) := DecodeKey(s[2..]);
      ([s[1]] + k, rest)
    else ("", if s == "" then "" else s[1..])
  }

  function DecodeKeys(s: string): (seq<string>, string)
    decreases |s|
  {
    if |s| >= 1 && s[0] == ',' then
      var (k, rest) := DecodeKey(s[1..]);
      var (ks, end) := DecodeKeys(rest);
      ([k] + ks, end)
    else ([], if s == "" then "" else s[1..])
  }

  function PlainCodec(): Codec {
    Codec(
      (s: AppliedState) => EncodeKeys(s.labelKeys) + EncodeKeys(s.annotationKeys),
      (text: string) =>
        var (labelKeys, rest) := DecodeKeys(text);
        AppliedState(labelKeys, DecodeKeys(rest).0))
  }

  lemma {:induction false} KeyRoundTrip(k: string, rest: string)
    ensures DecodeKey(EncodeKey(k) + rest) == (k, rest)
  {
    var s := EncodeKey(k) + rest;
    if k == "" {
      assert s[1..] == rest;
    } else {
      assert s[2..] == EncodeKey(k[1..]) + rest;
      KeyRoundTrip(k[1..], rest);
      assert s[0] == '+' && s[1] == k[0] && [k[0]] + k[1..] == k;
    }
  }

  lemma {:induction false} KeysRoundTrip(ks: seq<string>, rest: string)
    ensures DecodeKeys(EncodeKeys(ks) + rest) == (ks, rest)
  {
    var s := EncodeKeys(ks) + rest;
    if ks == [] {
      assert s[1..] == rest;
    } else {
      assert s[1..] == EncodeKey(ks[0]) + (EncodeKeys(ks[1..]) + rest);
      KeyRoundTrip(ks[0], EncodeKeys(ks[1..]) + rest);
      KeysRoundTrip(ks[1..], rest);
      assert [ks[0]] + ks[1..] == ks;
    }
  }

  /** The assumption on the encoding can be met. */
  lemma FaithfulCodec()
    ensures Faithful(PlainCodec())
  {
    var c := PlainCodec();
    forall s ensures c.decode(c.encode(s)) == s && c.encode(s) != "" {
      KeysRoundTrip(s.labelKeys, EncodeKeys(s.annotationKeys));
      KeysRoundTrip(s.annotationKeys, "");
      assert EncodeKeys(s.annotationKeys) + "" == EncodeKeys(s.annotationKeys);
    }
  }

  function Get(m: Strings, k: string): string {
    if k in m then m[k] else ""
  }

  function Restrict(m: Strings, ks: set<string>): Strings {
    map k | k in m && k in ks :: m[k]
  }

  // --- the declaration: a comma-separated list of keys in an annotation of the source ---

  predicate IsSpace(c: char) {
    || '\t' <= c <= '\r' || c == ' ' || c == '\U{85}' || c == '\U{A0}' || c == '\U{1680}'
    || '\U{2000}' <= c <= '\U{200A}' || c == '\U{2028}' || c == '\U{2029}' || c == '\U{202F}'
    || c == '\U{205F}' || c == '\U{3000}'
  }

  lemma SpaceTable(c: char)
    ensures IsSpace(c) <==>
            || c as int in {9, 10, 11, 12, 13, 32, 0x85, 0xA0, 0x1680, 0x2028, 0x2029, 0x202F, 0x205F, 0x3000}
            || 0x2000 <= c as int <= 0x200A
  {
  }

  function TrimLeft(s: string): string {
    if s != "" && IsSpace(s[0]) then TrimLeft(s[1..]) else s
  }

  function TrimRight(s: string): string {
    if s != "" && IsSpace(s[|s| - 1]) then TrimRight(s[..|s| - 1]) else s
  }

  function TrimSpace(s: string): string {
    TrimRight(TrimLeft(s))
  }

  function SplitComma(s: string): (parts: seq<string>)
    ensures parts != []
  {
    if s == "" then [""]
    else
      var rest := SplitComma(s[1..]);
      if s[0] == ',' then [""] + rest else [[s[0]] + rest[0]] + rest[1..]
  }

  function NonEmptyTrimmed(parts: seq<string>): seq<string> {
    if parts == [] then []
    else
      var k := TrimSpace(parts[|parts| - 1]);
      NonEmptyTrimmed(parts[..|parts| - 1]) + (if k == "" then [] else [k])
  }

  function DeclaredKeys(text: string): seq<string> {
    if TrimSpace(text) == "" then [] else NonEmptyTrimmed(SplitComma(TrimSpace(text)))
  }

  /** A key as it can be declared: not empty, no comma, no space around it. */
  predicate Plain(k: string) {
    k != "" && ',' !in k && !IsSpace(k[0]) && !IsSpace(k[|k| - 1])
  }

  function Join(ks: seq<string>): string {
    if ks == [] then "" else if |ks| == 1 then ks[0] else ks[0] + "," + Join(ks[1..])
  }

  lemma {:induction false} SplitAtComma(a: string, b: string)
    requires ',' !in a
    ensures SplitComma(a + "," + b) == [a] + SplitComma(b)
    ensures SplitComma(a) == [a]
  {
    if a == "" {
      assert (a + "," + b)[1..] == b;
    } else {
      SplitAtComma(a[1..], b);
      assert (a + "," + b)[1..] == a[1..] + "," + b;
      assert a == [a[0]] + a[1..];
    }
  }

  lemma {:induction false} JoinSplits(ks: seq<string>)
    requires ks != [] && forall i :: 0 <= i < |ks| ==> Plain(ks[i])
    ensures SplitComma(Join(ks)) == ks
    ensures Join(ks) != "" && !IsSpace(Join(ks)[0]) && !IsSpace(Join(ks)[|Join(ks)| - 1])
  {
    if |ks| == 1 {
      SplitAtComma(ks[0], "");
    } else {
      JoinSplits(ks[1..]);
      SplitAtComma(ks[0], Join(ks[1..]));
    }
  }

  lemma TrimmedPlain(k: string)
    requires Plain(k)
    ensures TrimSpace(k) == k
  {
  }

  lemma {:induction false} TrimmedKeys(ks: seq<string>)
    requires forall i :: 0 <= i < |ks| ==> Plain(ks[i])
    ensures NonEmptyTrimmed(ks) == ks
  {
    if ks != [] {
      TrimmedKeys(ks[..|ks| - 1]);
      TrimmedPlain(ks[|ks| - 1]);
    }
  }

  /** A comma-separated list of keys declares exactly those keys, in order. */
  lemma DeclarationRoundTrip(ks: seq<string>)
    requires forall i :: 0 <= i < |ks| ==> Plain(ks[i])
    ensures DeclaredKeys(Join(ks)) == ks
  {
    if ks != [] {
      JoinSplits(ks);
      TrimmedKeys(ks);
    }
  }

  // --- a declaration with spaces around the keys and empty entries ---

  predicate Spaces(s: string) {
    forall i :: 0 <= i < |s| ==> IsSpace(s[i])
  }

  lemma TrimLeftOne(c: char, s: string)
    requires IsSpace(c)
    ensures TrimSpace([c] + s) == TrimSpace(s)
  {
    assert ([c] + s)[1..] == s;
  }

  lemma {:induction false} TrimLeftEnd(s: string, c: char)
    requires IsSpace(c)
    ensures TrimLeft(s + [c]) == if TrimLeft(s) == "" then "" else TrimLeft(s) + [c]
  {
    if s == "" {
      assert s + [c] == [c] && [c][1..] == "";
    } else if IsSpace(s[0]) {
      assert (s + [c])[1..] == s[1..] + [c];
      TrimLeftEnd(s[1..], c);
    }
  }

  lemma TrimRightOne(s: string, c: char)
    requires IsSpace(c)
    ensures TrimSpace(s + [c]) == TrimSpace(s)
  {
    TrimLeftEnd(s, c);
    var t := TrimLeft(s);
    assert (t + [c])[..|t|] == t;
  }

  lemma SplitFirst(c: char, s: string)
    requires c != ','
    ensures SplitComma([c] + s) == [[c] + SplitComma(s)[0]] + SplitComma(s)[1..]
  {
    assert ([c] + s)[1..] == s;
  }

  /** One more character at the end of the last part. */
  function Longer(parts: seq<string>, c: char): (r: seq<string>)
    requires parts != []
    ensures |r| == |parts|
  {
    parts[..|parts| - 1] + [parts[|parts| - 1] + [c]]
  }

  lemma LongerBehind(parts: seq<string>, c: char, x: string)
    requires parts != []
    ensures [x] + Longer(parts, c) == Longer([x] + parts, c)
  {
    assert ([x] + parts)[..|parts|] == [x] + parts[..|parts| - 1];
  }

  lemma LongerGlued(parts: seq<string>, c: char, h: char)
    requires parts != []
    ensures [[h] + Longer(parts, c)[0]] + Longer(parts, c)[1..] == Longer([[h] + parts[0]] + parts[1..], c)
  {
    if |parts| == 1 {
      assert [h] + (parts[0] + [c]) == [h] + parts[0] + [c];
    } else {
      assert Longer(parts, c) == [parts[0]] + Longer(parts[1..], c) by {
        assert parts == [parts[0]] + parts[1..];
        LongerBehind(parts[1..], c, parts[0]);
      }
      LongerBehind(parts[1..], c, [h] + parts[0]);
    }
  }

  lemma {:induction false} SplitLast(s: string, c: char)
    requires c != ','
    ensures SplitComma(s + [c]) == Longer(SplitComma(s), c)
  {
    if s == "" {
      assert s + [c] == [c] && [c][1..] == "" && "" + [c] == [c] + "";
    } else {
      assert (s + [c])[1..] == s[1..] + [c];
      SplitLast(s[1..], c);
      var rest := SplitComma(s[1..]);
      if s[0] == ',' {
        LongerBehind(rest, c, "");
      } else {
        LongerGlued(rest, c, s[0]);
      }
    }
  }

  lemma {:induction false} TrimmedConcat(a: seq<string>, b: seq<string>)
    ensures NonEmptyTrimmed(a + b) == NonEmptyTrimmed(a) + NonEmptyTrimmed(b)
    decreases |b|
  {
    if b == [] {
      assert a + b == a;
    } else {
      assert (a + b)[..|a + b| - 1] == a + b[..|b| - 1];
      TrimmedConcat(a, b[..|b| - 1]);
    }
  }

  lemma TrimmedSame(x: string, y: string)
    requires TrimSpace(x) == TrimSpace(y)
    ensures NonEmptyTrimmed([x]) == NonEmptyTrimmed([y])
  {
    assert [x][..0] == [] && [y][..0] == [];
  }

  lemma LastPiece(front: seq<string>, x: string, y: string)
    requires TrimSpace(x) == TrimSpace(y)
    ensures NonEmptyTrimmed(front + [x]) == NonEmptyTrimmed(front + [y])
  {
    TrimmedSame(x, y);
    TrimmedConcat(front, [x]);
    TrimmedConcat(front, [y]);
  }

  lemma FirstPiece(x: string, y: string, back: seq<string>)
    requires TrimSpace(x) == TrimSpace(y)
    ensures NonEmptyTrimmed([x] + back) == NonEmptyTrimmed([y] + back)
  {
    TrimmedSame(x, y);
    TrimmedConcat([x], back);
    TrimmedConcat([y], back);
  }

  lemma LeadingSpace(c: char, s: string)
    requires IsSpace(c)
    ensures NonEmptyTrimmed(SplitComma([c] + s)) == NonEmptyTrimmed(SplitComma(s))
  {
    var parts := SplitComma(s);
    assert parts == [parts[0]] + parts[1..];
    SplitFirst(c, s);
    TrimLeftOne(c, parts[0]);
    FirstPiece([c] + parts[0], parts[0], parts[1..]);
  }

  lemma TrailingSpace(s: string, c: char)
    requires IsSpace(c)
    ensures NonEmptyTrimmed(SplitComma(s + [c])) == NonEmptyTrimmed(SplitComma(s))
  {
    var parts := SplitComma(s);
    var front, last := parts[..|parts| - 1], parts[|parts| - 1];
    assert parts == front + [last];
    SplitLast(s, c);
    TrimRightOne(last, c);
    LastPiece(front, last + [c], last);
  }

  lemma {:induction false} LeadingSpaces(s: string)
    ensures NonEmptyTrimmed(SplitComma(TrimLeft(s))) == NonEmptyTrimmed(SplitComma(s))
  {
    if s != "" && IsSpace(s[0]) {
      LeadingSpaces(s[1..]);
      assert s == [s[0]] + s[1..];
      LeadingSpace(s[0], s[1..]);
    }
  }

  lemma {:induction false} TrailingSpaces(s: string)
    ensures NonEmptyTrimmed(SplitComma(TrimRight(s))) == NonEmptyTrimmed(SplitComma(s))
  {
    if s != "" && IsSpace(s[|s| - 1]) {
      var most := s[..|s| - 1];
      TrailingSpaces(most);
      assert s == most + [s[|s| - 1]];
      TrailingSpace(most, s[|s| - 1]);
    }
  }

  /** Trimming the whole text first makes no difference. */
  lemma DeclaredAre(text: string)
    ensures DeclaredKeys(text) == NonEmptyTrimmed(SplitComma(text))
  {
    LeadingSpaces(text);
    TrailingSpaces(TrimLeft(text));
    if TrimSpace(text) == "" {
      assert [""][..0] == [];
    }
  }

  lemma {:induction false} JoinPieces(pieces: seq<string>)
    requires pieces != [] && forall i :: 0 <= i < |pieces| ==> ',' !in pieces[i]
    ensures SplitComma(Join(pieces)) == pieces
  {
    if |pieces| == 1 {
      SplitAtComma(pieces[0], "");
    } else {
      JoinPieces(pieces[1..]);
      SplitAtComma(pieces[0], Join(pieces[1..]));
    }
  }

  lemma {:induction false} TrimPadded(l: string, k: string, r: string)
    requires Spaces(l) && Spaces(r) && (k == "" || Plain(k))
    ensures TrimSpace(l + k + r) == k
    decreases |l| + |r|
  {
    if l != "" {
      assert l + k + r == [l[0]] + (l[1..] + k + r);
      TrimLeftOne(l[0], l[1..] + k + r);
      TrimPadded(l[1..], k, r);
    } else if r != "" {
      var most := r[..|r| - 1];
      assert l + k + r == (l + k + most) + [r[|r| - 1]];
      TrimRightOne(l + k + most, r[|r| - 1]);
      TrimPadded(l, k, most);
    } else {
      assert l + k + r == k;
      if k != "" {
        TrimmedPlain(k);
      }
    }
  }

  function NonEmpty(ks: seq<string>): seq<string> {
    if ks == [] then [] else NonEmpty(ks[..|ks| - 1]) + (if ks[|ks| - 1] == "" then [] else [ks[|ks| - 1]])
  }

  /** The pieces of a declaration: keys with spaces around them, some of them empty. */
  ghost predicate Padded(pieces: seq<string>, ls: seq<string>, ks: seq<string>, rs: seq<string>) {
    && |pieces| == |ls| == |ks| == |rs|
    && forall i :: 0 <= i < |pieces| ==>
         Spaces(ls[i]) && Spaces(rs[i]) && (ks[i] == "" || Plain(ks[i])) && pieces[i] == ls[i] + ks[i] + rs[i]
  }

  lemma {:induction false} TrimmedPadded(pieces: seq<string>, ls: seq<string>, ks: seq<string>, rs: seq<string>)
    requires Padded(pieces, ls, ks, rs)
    ensures NonEmptyTrimmed(pieces) == NonEmpty(ks)
  {
    if pieces != [] {
      var n := |pieces| - 1;
      TrimmedPadded(pieces[..n], ls[..n], ks[..n], rs[..n]);
      TrimPadded(ls[n], ks[n], rs[n]);
    }
  }

  /** A comma-separated list of keys with any spaces around them declares the keys in order and skips the empty ones. */
  lemma DeclarationPadded(pieces: seq<string>, ls: seq<string>, ks: seq<string>, rs: seq<string>)
    requires Padded(pieces, ls, ks, rs)
    ensures DeclaredKeys(Join(pieces)) == NonEmpty(ks)
  {
    DeclaredAre(Join(pieces));
    TrimmedPadded(pieces, ls, ks, rs);
    if pieces == [] {
      assert [""][..0] == [];
    } else {
      forall i | 0 <= i < |pieces| ensures ',' !in pieces[i] {
        assert !IsSpace(',');
      }
      JoinPieces(pieces);
    }
  }

  function LabelKeys(src: Meta): seq<string> {
    DeclaredKeys(Get(src.annotations, PROPAGATE_LABELS))
  }

  function AnnotationKeys(src: Meta): seq<string> {
    DeclaredKeys(Get(src.annotations, PROPAGATE_ANNOTATIONS))
  }

  // --- what is selected ---

  /** A declared key that ends in slash and star stands for every key with the prefix before the star. */
  predicate IsWild(d: string) {
    |d| >= 2 && d[|d| - 2..] == "/*"
  }

  predicate Declares(d: string, k: string) {
    if IsWild(d) then HasPrefix(k, d[..|d| - 1]) else d == k
  }

  predicate Selects(ks: seq<string>, k: string) {
    exists i :: 0 <= i < |ks| && Declares(ks[i], k)
  }

  /** What a declared key stands for: with slash and star at its end for every key that goes on behind the slash, else for itself. */
  ghost predicate StandsFor(d: string, k: string) {
    || (exists p, r :: d == p + "/*" && k == p + "/" + r)
    || (k == d && forall p :: d != p + "/*")
  }

  lemma WildSplit(d: string)
    requires IsWild(d)
    ensures d == d[..|d| - 2] + "/*" && d[..|d| - 1] == d[..|d| - 2] + "/"
  {
    assert d == d[..|d| - 2] + d[|d| - 2..];
  }

  lemma WildJoined(p: string)
    ensures IsWild(p + "/*") && (p + "/*")[..|p| + 1] == p + "/"
  {
    assert (p + "/*")[|p|..] == "/*";
  }

  lemma DeclaresExactly(d: string, k: string)
    ensures Declares(d, k) <==> StandsFor(d, k)
  {
    if IsWild(d) {
      WildSplit(d);
      var p := d[..|d| - 2];
      if HasPrefix(k, p + "/") {
        assert k == p + "/" + k[|p| + 1..];
      }
    }
    forall q, r | d == q + "/*" && k == q + "/" + r ensures Declares(d, k) {
      WildJoined(q);
      assert k[..|q| + 1] == q + "/";
    }
    forall q | d == q + "/*" ensures IsWild(d) {
      WildJoined(q);
    }
  }

  /** Some declared key stands for `k`. */
  ghost predicate Declared(ks: seq<string>, k: string) {
    exists i :: 0 <= i < |ks| && StandsFor(ks[i], k)
  }

  lemma SelectsExactly(ks: seq<string>, k: string)
    ensures Selects(ks, k) <==> Declared(ks, k)
  {
    forall i | 0 <= i < |ks| ensures Declares(ks[i], k) <==> StandsFor(ks[i], k) {
      DeclaresExactly(ks[i], k);
    }
  }

  /** The source labels that the declared keys select. */
  function Selected(ks: seq<string>, labels: Strings): Strings {
    map k | k in labels && Selects(ks, k) :: labels[k]
  }

  function SelectedLabels(src: Meta): Strings {
    Selected(LabelKeys(src), src.labels)
  }

  /** Annotation keys have no wildcards. */
  function SelectedAnnotations(src: Meta): Strings {
    Restrict(src.annotations, Elements(AnnotationKeys(src)))
  }

  // --- one call ---

  function Tracked(c: Codec, dst: Meta): AppliedState {
    if Get(dst.annotations, TRACKING) == "" then NOTHING else c.decode(dst.annotations[TRACKING])
  }

  function Track(c: Codec, annotations: Strings, applied: AppliedState): Strings {
    if applied == NOTHING then annotations - {TRACKING} else annotations[TRACKING := c.encode(applied)]
  }

  /** The tracked annotation keys the code deletes; an empty source value counts as absent. */
  function StaleAnnotations(src: Meta, tracked: seq<string>): set<string> {
    set k | k in tracked && (k !in AnnotationKeys(src) || Get(src.annotations, k) == "")
  }

  /**
   What one call does, whatever the order of map iteration: the tracked labels are dropped and the selected
   ones laid over; the annotations likewise, up to the treatment of empty values; then the lists of applied
   keys, which hold exactly the selected keys, are tracked.
   */
  ghost predicate Applies(c: Codec, src: Meta, dst: Meta, dst': Meta, applied: AppliedState) {
    var tracked := Tracked(c, dst);
    && Elements(applied.labelKeys) == SelectedLabels(src).Keys
    && Elements(applied.annotationKeys) == SelectedAnnotations(src).Keys
    && dst'.labels == (dst.labels - Elements(tracked.labelKeys)) + SelectedLabels(src)
    && dst'.annotations ==
       Track(c, dst.annotations + SelectedAnnotations(src) - StaleAnnotations(src, tracked.annotationKeys), applied)
  }

  /**
   For annotations, "drop the tracked keys, lay the selected ones over" holds exactly when no tracked key is
   selected with an empty value: that one is written and then deleted.
   */
  lemma AnnotationOverlayExactly(src: Meta, annotations: Strings, tracked: seq<string>)
    ensures annotations + SelectedAnnotations(src) - StaleAnnotations(src, tracked)
            == (annotations - Elements(tracked)) + SelectedAnnotations(src)
            <==> forall k :: k in tracked && k in SelectedAnnotations(src) ==> SelectedAnnotations(src)[k] != ""
  {
    var sel := SelectedAnnotations(src);
    var l := annotations + sel - StaleAnnotations(src, tracked);
    var r := (annotations - Elements(tracked)) + sel;
    forall k | k in tracked && k in sel ensures k in l <==> sel[k] != "" {
    }
    forall k | !(k in tracked && k in sel && sel[k] == "")
      ensures (k in l <==> k in r) && (k in l ==> l[k] == r[k])
    {
    }
    if l == r {
      forall k | k in tracked && k in sel ensures sel[k] != "" {
        assert k in r;
      }
    }
  }

  /** What is tracked after a call is what the call applied. */
  lemma TrackedAfter(c: Codec, src: Meta, dst: Meta, dst': Meta, applied: AppliedState)
    requires Faithful(c) && Applies(c, src, dst, dst', applied)
    ensures Tracked(c, dst') == applied
  {
    if applied != NOTHING {
      assert c.decode(c.encode(applied)) == applied;
    }
  }

  function Look(m: Strings, k: string): Option<string> {
    if k in m then Some(m[k]) else None
  }

  /** What a call leaves under an annotation key other than the tracking key. */
  function After(src: Meta, annotations: Strings, tracked: seq<string>, k: string): Option<string> {
    if k in SelectedAnnotations(src) then
      if k in tracked && SelectedAnnotations(src)[k] == "" then None else Some(SelectedAnnotations(src)[k])
    else if k in tracked then None
    else Look(annotations, k)
  }

  lemma AfterApply(c: Codec, src: Meta, dst: Meta, dst': Meta, applied: AppliedState, k: string)
    requires Applies(c, src, dst, dst', applied) && k != TRACKING
    ensures Look(dst'.annotations, k) == After(src, dst.annotations, Tracked(c, dst).annotationKeys, k)
  {
  }

  /** The declaration of a source: the keys listed in one of its annotations. */
  function Declaration(src: Meta, annotation: string): seq<string> {
    DeclaredKeys(if annotation in src.annotations then src.annotations[annotation] else "")
  }

  /** What a call leaves under every label and every annotation, told by the declarations, the tracked keys and what was there. */
  lemma AppliesExactly(c: Codec, src: Meta, dst: Meta, dst': Meta, applied: AppliedState, k: string)
    requires Applies(c, src, dst, dst', applied)
    ensures var ks := Declaration(src, "greenhouse.sap/propagate-labels");
            && (k in applied.labelKeys <==> k in src.labels && Declared(ks, k))
            && Look(dst'.labels, k) ==
               if k in src.labels && Declared(ks, k) then Some(src.labels[k])
               else if k in Tracked(c, dst).labelKeys then None
               else Look(dst.labels, k)
    ensures var ks := Declaration(src, "greenhouse.sap/propagate-annotations");
            && (k in applied.annotationKeys <==> k in src.annotations && k in ks)
            && (k != "greenhouse.sap/last-applied-propagator" ==>
                Look(dst'.annotations, k) ==
                if k in src.annotations && k in ks then
                  if k in Tracked(c, dst).annotationKeys && src.annotations[k] == "" then None else Some(src.annotations[k])
                else if k in Tracked(c, dst).annotationKeys then None
                else Look(dst.annotations, k))
    ensures Look(dst'.annotations, "greenhouse.sap/last-applied-propagator") ==
            if applied.labelKeys == [] && applied.annotationKeys == [] then None else Some(c.encode(applied))
  {
    SelectsExactly(LabelKeys(src), k);
    assert k in applied.labelKeys <==> k in Elements(applied.labelKeys);
    assert k in applied.annotationKeys <==> k in Elements(applied.annotationKeys);
    assert k in Elements(Tracked(c, dst).labelKeys) <==> k in Tracked(c, dst).labelKeys;
    assert k in Elements(AnnotationKeys(src)) <==> k in AnnotationKeys(src);
    if k != TRACKING {
      AfterApply(c, src, dst, dst', applied, k);
    }
  }

  ghost predicate SameExceptTracking(a: Strings, b: Strings) {
    forall k :: k != TRACKING ==> Look(a, k) == Look(b, k)
  }

  lemma SecondCallAt(
    c: Codec, src: Meta, dst: Meta, dst1: Meta, dst2: Meta, applied1: AppliedState, applied2: AppliedState, k: string)
    requires Faithful(c) && k != TRACKING
    requires Applies(c, src, dst, dst1, applied1) && Applies(c, src, dst1, dst2, applied2)
    ensures Look(dst1.annotations, k) == Look(dst2.annotations, k) <==>
            !(k in SelectedAnnotations(src) && SelectedAnnotations(src)[k] == "" && k !in Tracked(c, dst).annotationKeys)
  {
    TrackedAfter(c, src, dst, dst1, applied1);
    AfterApply(c, src, dst, dst1, applied1, k);
    AfterApply(c, src, dst1, dst2, applied2, k);
    assert k in applied1.annotationKeys <==> k in Elements(applied1.annotationKeys);
  }

  lemma DropAndWriteAgain(labels: Strings, sel: Strings)
    ensures (labels + sel) - sel.Keys + sel == labels + sel
  {
  }

  lemma SecondCallLabels(
    c: Codec, src: Meta, dst: Meta, dst1: Meta, dst2: Meta, applied1: AppliedState, applied2: AppliedState)
    requires Faithful(c)
    requires Applies(c, src, dst, dst1, applied1) && Applies(c, src, dst1, dst2, applied2)
    ensures dst2.labels == dst1.labels
  {
    TrackedAfter(c, src, dst, dst1, applied1);
    DropAndWriteAgain(dst.labels - Elements(Tracked(c, dst).labelKeys), SelectedLabels(src));
  }

  /**
   A second call with the same source leaves the labels and the set of tracked keys alone. It leaves the
   annotations alone exactly when every key selected with an empty value was already tracked before the first
   call; otherwise it deletes what the first call wrote.
   */
  lemma ApplyTwice(
    c: Codec, src: Meta, dst: Meta, dst1: Meta, dst2: Meta, applied1: AppliedState, applied2: AppliedState)
    requires Faithful(c)
    requires Applies(c, src, dst, dst1, applied1) && Applies(c, src, dst1, dst2, applied2)
    ensures dst2.labels == dst1.labels
    ensures Elements(applied2.labelKeys) == Elements(applied1.labelKeys)
    ensures Elements(applied2.annotationKeys) == Elements(applied1.annotationKeys)
    ensures SameExceptTracking(dst1.annotations, dst2.annotations) <==>
            forall k :: k in SelectedAnnotations(src) && k != TRACKING && SelectedAnnotations(src)[k] == "" ==>
              k in Tracked(c, dst).annotationKeys
  {
    SecondCallLabels(c, src, dst, dst1, dst2, applied1, applied2);
    forall k | k != TRACKING
      ensures Look(dst1.annotations, k) == Look(dst2.annotations, k) <==>
              !(k in SelectedAnnotations(src) && SelectedAnnotations(src)[k] == "" && k !in Tracked(c, dst).annotationKeys)
    {
      SecondCallAt(c, src, dst, dst1, dst2, applied1, applied2, k);
    }
  }

  /** A source that declares one annotation, with an empty value. */
  function EmptyAnnotation(k: string): Meta {
    Meta(map[], map[PROPAGATE_ANNOTATIONS := k, k := ""])
  }

  /**
   Apply is not idempotent: an annotation declared with an empty value is written by the first call on an empty
   destination and deleted by the second, although the source still selects it.
   */
  lemma EmptyValueUndone(c: Codec, k: string)
    requires Faithful(c) && Plain(k) && k !in {TRACKING, PROPAGATE_LABELS, PROPAGATE_ANNOTATIONS}
    ensures var src, applied := EmptyAnnotation(k), AppliedState([], [k]);
            var dst1 := Meta(map[], map[k := "", TRACKING := c.encode(applied)]);
            var dst2 := Meta(map[], map[TRACKING := c.encode(applied)]);
            && Applies(c, src, Meta(map[], map[]), dst1, applied)
            && Applies(c, src, dst1, dst2, applied)
            && k in SelectedAnnotations(src) && !SameExceptTracking(dst1.annotations, dst2.annotations)
  {
    EmptyDeclared(k);
    EmptySelected(EmptyAnnotation(k), k);
    EmptyCalls(c, EmptyAnnotation(k), k);
    var enc := c.encode(AppliedState([], [k]));
    assert Look(map[k := "", TRACKING := enc], k) == Some("") && Look(map[TRACKING := enc], k) == None;
  }

  lemma EmptyDeclared(k: string)
    requires Plain(k) && k !in {PROPAGATE_LABELS, PROPAGATE_ANNOTATIONS}
    ensures AnnotationKeys(EmptyAnnotation(k)) == [k] && LabelKeys(EmptyAnnotation(k)) == []
  {
    DeclarationRoundTrip([k]);
    assert |PROPAGATE_LABELS| != |PROPAGATE_ANNOTATIONS|;
    assert PROPAGATE_LABELS !in EmptyAnnotation(k).annotations;
  }

  lemma EmptySelected(src: Meta, k: string)
    requires src.labels == map[] && AnnotationKeys(src) == [k] && k in src.annotations && src.annotations[k] == ""
    ensures SelectedAnnotations(src) == map[k := ""] && SelectedLabels(src) == map[]
    ensures StaleAnnotations(src, []) == {} && StaleAnnotations(src, [k]) == {k}
    ensures Elements([]) == {} && Elements([k]) == {k}
  {
    assert k in [k];
  }

  /** Two calls with a source that selects nothing but an empty annotation. */
  lemma EmptyCalls(c: Codec, src: Meta, k: string)
    requires Faithful(c) && k != TRACKING
    requires SelectedAnnotations(src) == map[k := ""] && SelectedLabels(src) == map[]
    requires StaleAnnotations(src, []) == {} && StaleAnnotations(src, [k]) == {k}
    requires Elements([]) == {} && Elements([k]) == {k}
    ensures var enc := c.encode(AppliedState([], [k]));
            && Applies(c, src, Meta(map[], map[]), Meta(map[], map[k := "", TRACKING := enc]), AppliedState([], [k]))
            && Applies(c, src, Meta(map[], map[k := "", TRACKING := enc]), Meta(map[], map[TRACKING := enc]), AppliedState([], [k]))
  {
    var applied := AppliedState([], [k]);
    var dst1 := Meta(map[], map[k := "", TRACKING := c.encode(applied)]);
    assert c.decode(c.encode(applied)) == applied && Tracked(c, dst1) == applied;
    assert (dst1.annotations + map[k := ""] - {k})[TRACKING := c.encode(applied)] == map[TRACKING := c.encode(applied)];
  }

  /** A destination that goes through the calls for the sources `ss`, one after the other. */
  ghost predicate History(c: Codec, ss: seq<Meta>, ds: seq<Meta>, applied: seq<AppliedState>) {
    && |ds| == |ss| + 1 && |applied| == |ss|
    && forall i :: 0 <= i < |ss| ==> Applies(c, ss[i], ds[i], ds[i + 1], applied[i])
  }

  /** From the second call with the same source on nothing changes any more. */
  lemma {:induction false} SettlesAfterTwo(c: Codec, src: Meta, ss: seq<Meta>, ds: seq<Meta>, applied: seq<AppliedState>, n: nat)
    requires Faithful(c) && History(c, ss, ds, applied) && 2 <= n <= |ss|
    requires forall i :: 0 <= i < |ss| ==> ss[i] == src
    ensures ds[n].labels == ds[2].labels && SameExceptTracking(ds[2].annotations, ds[n].annotations)
  {
    if n > 2 {
      SettlesAfterTwo(c, src, ss, ds, applied, n - 1);
      assert forall i :: 0 <= i < |ss| ==> Applies(c, src, ds[i], ds[i + 1], applied[i]);
      var m := n - 2;
      assert Applies(c, src, ds[m - 1], ds[m - 1 + 1], applied[m - 1]);
      assert Applies(c, src, ds[m], ds[m + 1], applied[m]) && Applies(c, src, ds[m + 1], ds[m + 1 + 1], applied[m + 1]);
      TrackedAfter(c, src, ds[m - 1], ds[m], applied[m - 1]);
      forall k | k in SelectedAnnotations(src) ensures k in Tracked(c, ds[m]).annotationKeys {
        assert k in Elements(applied[m - 1].annotationKeys);
      }
      ApplyTwice(c, src, ds[m], ds[m + 1], ds[n], applied[m], applied[m + 1]);
    }
  }

  lemma LabelAfterApply(c: Codec, src: Meta, dst: Meta, dst': Meta, applied: AppliedState, k: string)
    requires Applies(c, src, dst, dst', applied)
    ensures Look(dst'.labels, k) ==
            if k in SelectedLabels(src) then Some(SelectedLabels(src)[k])
            else if k in Elements(Tracked(c, dst).labelKeys) then None
            else Look(dst.labels, k)
  {
  }

  /** On a destination that tracks nothing, a call lays the selected labels over and drops none, as CopyLabels does. */
  lemma ApplyUntracked(c: Codec, src: Meta, dst: Meta, dst': Meta, applied: AppliedState)
    requires Applies(c, src, dst, dst', applied) && Tracked(c, dst) == NOTHING
    ensures dst'.labels == dst.labels + Selected(LabelKeys(src), src.labels)
  {
    assert dst.labels - Elements(NOTHING.labelKeys) == dst.labels;
  }

  // --- histories ---

  /** The keys tracked before call `n`: those the previous call selected, none before the first. */
  lemma {:induction false} TrackedInHistory(c: Codec, ss: seq<Meta>, ds: seq<Meta>, applied: seq<AppliedState>, n: nat)
    requires Faithful(c) && History(c, ss, ds, applied) && Tracked(c, ds[0]) == NOTHING && n <= |ss|
    ensures Elements(Tracked(c, ds[n]).labelKeys) == if n == 0 then {} else SelectedLabels(ss[n - 1]).Keys
    ensures Elements(Tracked(c, ds[n]).annotationKeys) == if n == 0 then {} else SelectedAnnotations(ss[n - 1]).Keys
  {
    if n > 0 {
      assert Applies(c, ss[n - 1], ds[n - 1], ds[n - 1 + 1], applied[n - 1]);
      TrackedAfter(c, ss[n - 1], ds[n - 1], ds[n], applied[n - 1]);
    }
  }

  /** Call `n` of a history on one label. */
  lemma LabelCall(c: Codec, ss: seq<Meta>, ds: seq<Meta>, applied: seq<AppliedState>, n: nat, k: string)
    requires Faithful(c) && History(c, ss, ds, applied) && Tracked(c, ds[0]) == NOTHING && n < |ss|
    ensures Look(ds[n + 1].labels, k) ==
            if k in SelectedLabels(ss[n]) then Some(SelectedLabels(ss[n])[k])
            else if n > 0 && k in SelectedLabels(ss[n - 1]) then None
            else Look(ds[n].labels, k)
  {
    TrackedInHistory(c, ss, ds, applied, n);
    LabelAfterApply(c, ss[n], ds[n], ds[n + 1], applied[n], k);
  }

  predicate SelectedBefore(sels: seq<Strings>, n: int, k: string)
    requires 0 <= n <= |sels|
  {
    exists i :: 0 <= i < n && k in sels[i]
  }

  lemma SelectedBeforeNext(sels: seq<Strings>, n: int, k: string)
    requires 0 < n <= |sels|
    ensures SelectedBefore(sels, n, k) <==> SelectedBefore(sels, n - 1, k) || k in sels[n - 1]
  {
  }

  /** The value of `k` after selection `i`, which drops what the previous one selected. */
  predicate SelectionStep(sels: seq<Strings>, values: seq<Option<string>>, k: string, i: int)
    requires 0 <= i < |sels| && |values| == |sels| + 1
  {
    values[i + 1] == if k in sels[i] then Some(sels[i][k])
                     else if i > 0 && k in sels[i - 1] then None
                     else values[i]
  }

  /** One key through a sequence of selections, each of which drops what the previous one selected. */
  lemma {:induction false} SelectionHistory(sels: seq<Strings>, values: seq<Option<string>>, n: nat, k: string)
    requires 0 < n <= |sels| && |values| == |sels| + 1
    requires forall i :: 0 <= i < |sels| ==> SelectionStep(sels, values, k, i)
    ensures values[n] ==
            if k in sels[n - 1] then Some(sels[n - 1][k])
            else if SelectedBefore(sels, n - 1, k) then None
            else values[0]
  {
    assert SelectionStep(sels, values, k, n - 1);
    if n > 1 {
      SelectionHistory(sels, values, n - 1, k);
      SelectedBeforeNext(sels, n - 1, k);
    }
  }

  function LabelSelections(ss: seq<Meta>): seq<Strings> {
    seq(|ss|, i requires 0 <= i < |ss| => SelectedLabels(ss[i]))
  }

  /**
   After any sequence of calls on a destination that starts untracked, a label has the last source's value if
   that source selects it, is absent if only an earlier source selected it, and is the original one otherwise.
   */
  lemma LabelHistory(c: Codec, ss: seq<Meta>, ds: seq<Meta>, applied: seq<AppliedState>, n: nat, k: string)
    requires Faithful(c) && History(c, ss, ds, applied) && Tracked(c, ds[0]) == NOTHING
    requires 0 < n <= |ss|
    ensures Look(ds[n].labels, k) ==
            var sels := LabelSelections(ss);
            if k in sels[n - 1] then Some(sels[n - 1][k])
            else if SelectedBefore(sels, n - 1, k) then None
            else Look(ds[0].labels, k)
  {
    var sels := LabelSelections(ss);
    var values := seq(|ds|, i requires 0 <= i < |ds| => Look(ds[i].labels, k));
    forall i | 0 <= i < |sels| ensures SelectionStep(sels, values, k, i) {
      LabelCall(c, ss, ds, applied, i, k);
    }
    SelectionHistory(sels, values, n, k);
  }

  function AnnotationSelections(ss: seq<Meta>): seq<Strings> {
    seq(|ss|, i requires 0 <= i < |ss| => SelectedAnnotations(ss[i]))
  }

  /** What one call leaves under a key: an empty value selected again counts as none. */
  function Fate(again: bool, sel: Strings, before: Option<string>, k: string): Option<string> {
    if k in sel then (if again && sel[k] == "" then None else Some(sel[k])) else if again then None else before
  }

  lemma AnnotationCall(c: Codec, ss: seq<Meta>, ds: seq<Meta>, applied: seq<AppliedState>, n: nat, k: string)
    requires Faithful(c) && History(c, ss, ds, applied) && Tracked(c, ds[0]) == NOTHING
    requires n < |ss| && k != TRACKING
    ensures Look(ds[n + 1].annotations, k) ==
            Fate(n > 0 && k in SelectedAnnotations(ss[n - 1]), SelectedAnnotations(ss[n]), Look(ds[n].annotations, k), k)
  {
    TrackedInHistory(c, ss, ds, applied, n);
    AfterApply(c, ss[n], ds[n], ds[n + 1], applied[n], k);
    var tracked := Tracked(c, ds[n]).annotationKeys;
    assert k in tracked <==> k in Elements(tracked);
  }

  predicate FateStep(sels: seq<Strings>, values: seq<Option<string>>, k: string, i: int)
    requires 0 <= i < |sels| && |values| == |sels| + 1
  {
    values[i + 1] == Fate(i > 0 && k in sels[i - 1], sels[i], values[i], k)
  }

  lemma {:induction false} FateHistory(sels: seq<Strings>, values: seq<Option<string>>, n: nat, k: string)
    requires 0 < n <= |sels| && |values| == |sels| + 1
    requires forall i :: 0 <= i < |sels| ==> FateStep(sels, values, k, i)
    ensures values[n] ==
            if k in sels[n - 1] then
              if sels[n - 1][k] == "" && n > 1 && k in sels[n - 2] then None else Some(sels[n - 1][k])
            else if SelectedBefore(sels, n - 1, k) then None
            else values[0]
  {
    assert FateStep(sels, values, k, n - 1);
    if n > 1 {
      FateHistory(sels, values, n - 1, k);
      SelectedBeforeNext(sels, n - 1, k);
    }
  }

  /**
   The same for annotations, except that a key selected with an empty value by two calls in a row is absent
   after the second.
   */
  lemma AnnotationHistory(c: Codec, ss: seq<Meta>, ds: seq<Meta>, applied: seq<AppliedState>, n: nat, k: string)
    requires Faithful(c) && History(c, ss, ds, applied) && Tracked(c, ds[0]) == NOTHING
    requires 0 < n <= |ss| && k != TRACKING
    ensures Look(ds[n].annotations, k) ==
            var sels := AnnotationSelections(ss);
            if k in sels[n - 1] then
              if sels[n - 1][k] == "" && n > 1 && k in sels[n - 2] then None else Some(sels[n - 1][k])
            else if SelectedBefore(sels, n - 1, k) then None
            else Look(ds[0].annotations, k)
  {
    forall i | 0 <= i < |ss| ensures FateStep(AnnotationSelections(ss), AnnotationValues(ds, k), k, i) {
      var sels := AnnotationSelections(ss);
      SelectionAt(ss, i);
      if i > 0 {
        SelectionAt(ss, i - 1);
      }
      AnnotationStep(c, ss, ds, applied, i, k, sels[i], i > 0 && k in sels[i - 1]);
      ValuesStep(AnnotationSelections(ss), ds, i, k);
    }
    FateHistory(AnnotationSelections(ss), AnnotationValues(ds, k), n, k);
  }

  /** What stands under `k` before, between and after the calls. */
  function AnnotationValues(ds: seq<Meta>, k: string): seq<Option<string>> {
    seq(|ds|, i requires 0 <= i < |ds| => Look(ds[i].annotations, k))
  }

  lemma ValuesStep(sels: seq<Strings>, ds: seq<Meta>, i: nat, k: string)
    requires i < |sels| && |ds| == |sels| + 1
    requires Look(ds[i + 1].annotations, k) == Fate(i > 0 && k in sels[i - 1], sels[i], Look(ds[i].annotations, k), k)
    ensures FateStep(sels, AnnotationValues(ds, k), k, i)
  {
  }

  /** A call, told by the selection it makes and the one before it. */
  lemma AnnotationStep(
    c: Codec, ss: seq<Meta>, ds: seq<Meta>, applied: seq<AppliedState>, i: nat, k: string, sel: Strings, again: bool)
    requires Faithful(c) && History(c, ss, ds, applied) && Tracked(c, ds[0]) == NOTHING && i < |ss| && k != TRACKING
    requires sel == SelectedAnnotations(ss[i]) && again == (i > 0 && k in SelectedAnnotations(ss[i - 1]))
    ensures Look(ds[i + 1].annotations, k) == Fate(again, sel, Look(ds[i].annotations, k), k)
  {
    AnnotationCall(c, ss, ds, applied, i, k);
  }

  lemma SelectionAt(ss: seq<Meta>, i: nat)
    requires i < |ss|
    ensures AnnotationSelections(ss)[i] == SelectedAnnotations(ss[i])
  {
  }
}
