/**
 OCI mirroring: rewriting image references to a mirror, replicating them through the primary mirror, and the
 record of replicated references that each pass hands to the next.

 Parsing a reference (`SplitOCIRef`) and fetching a manifest are parameters.
 */
module OciMirror {
  import opened Options
  import opened StringOps
  import opened Sorting

  datatype Mirror = Mirror(baseDomain: string, subPath: string)

  datatype Config = Config(primary: string, mirrors: map<string, Mirror>)

  /** Registry, repository, and tag or digest with its separator. */
  datatype Ref = Ref(registry: string, repository: string, tagOrDigest: string)

  type Split = string -> Ref

  // --- references ---

  function Resolve(cfg: Config, split: Split, image: string): Option<Mirror> {
    var registry := split(image).registry;
    if registry in cfg.mirrors then Some(cfg.mirrors[registry]) else None
  }

  function MirroredRef(cfg: Config, split: Split, image: string): string {
    var m := Resolve(cfg, split, image);
    if m.None? then "" else cfg.primary + "/" + (m.value.subPath + "/" + split(image).repository) + split(image).tagOrDigest
  }

  predicate OnMirrorDomain(cfg: Config, registry: string) {
    exists k :: k in cfg.mirrors && cfg.mirrors[k].baseDomain == registry
  }

  /** The primary-mirror reference for an image on a mirror domain, empty if it is on none. */
  function ReplicationRef(cfg: Config, split: Split, image: string): string {
    var r := split(image);
    if r.registry == cfg.primary then image
    else if OnMirrorDomain(cfg, r.registry) then cfg.primary + "/" + r.repository + r.tagOrDigest
    else ""
  }

  /** The reference whose manifest is fetched to replicate an image; empty if the image is not mirrored. */
  function Target(cfg: Config, split: Split, image: string): string {
    if MirroredRef(cfg, split, image) != "" then MirroredRef(cfg, split, image) else ReplicationRef(cfg, split, image)
  }

  /** The mirror iteration in any order. */
  method BuildReplicationRef(cfg: Config, split: Split, image: string) returns (replicationRef: string, returnRef: string)
    ensures replicationRef == ReplicationRef(cfg, split, image)
    ensures returnRef == if split(image).registry == cfg.primary || OnMirrorDomain(cfg, split(image).registry) then image else ""
  {
    var r := split(image);
    if r.registry == cfg.primary {
      return image, image;
    }
    var rest := cfg.mirrors.Keys;
    while rest != {}
      invariant rest <= cfg.mirrors.Keys
      invariant forall k :: k in cfg.mirrors && k !in rest ==> cfg.mirrors[k].baseDomain != r.registry
      decreases rest
    {
      var k :| k in rest;
      if cfg.mirrors[k].baseDomain == r.registry {
        return cfg.primary + "/" + r.repository + r.tagOrDigest, image;
      }
      rest := rest - {k};
    }
    return "", "";
  }

  /**
   What is fetched to replicate an image, by the parts of its reference: behind the primary mirror the mirror's path, the
   repository and the tag for an upstream registry; the image itself on the primary mirror; the repository and tag behind
   the primary mirror for an image on a mirror's domain; nothing otherwise.
   */
  ghost predicate FetchFor(cfg: Config, split: Split, image: string, ref: string) {
    var r := split(image);
    if r.registry in cfg.mirrors then
      ref == cfg.primary + "/" + (cfg.mirrors[r.registry].subPath + "/" + r.repository) + r.tagOrDigest
    else if r.registry == cfg.primary then ref == image
    else if exists k :: k in cfg.mirrors && cfg.mirrors[k].baseDomain == r.registry then
      ref == cfg.primary + "/" + r.repository + r.tagOrDigest
    else ref == ""
  }

  lemma TargetExactly(cfg: Config, split: Split, image: string)
    ensures FetchFor(cfg, split, image, Target(cfg, split, image))
  {
  }

  /** A reference that is printed from its parts splits into them again. */
  predicate Faithful(split: Split, r: Ref) {
    split(r.registry + "/" + r.repository + r.tagOrDigest) == r
  }

  /** What is fetched for an upstream image lies on the primary mirror, under the mirror's path, with the image's repository and tag. */
  lemma TargetKeepsTag(cfg: Config, split: Split, image: string)
    requires split(image).registry in cfg.mirrors
    requires var r := split(image);
             Faithful(split, Ref(cfg.primary, cfg.mirrors[r.registry].subPath + "/" + r.repository, r.tagOrDigest))
    ensures var t := split(Target(cfg, split, image));
            && t.registry == cfg.primary && t.tagOrDigest == split(image).tagOrDigest
            && t.repository == cfg.mirrors[split(image).registry].subPath + "/" + split(image).repository
  {
    TargetExactly(cfg, split, image);
  }

  /** EnsureImageReplicated; `ok` is the outcome of the one fetch it makes, if it makes one. */
  method EnsureImageReplicated(cfg: Config, split: Split, image: string, ok: bool)
    returns (replicatedRef: string, fetched: string, failed: bool)
    ensures fetched == Target(cfg, split, image)
    ensures FetchFor(cfg, split, image, fetched)
    ensures failed <==> fetched != "" && !ok
    ensures image != "" ==> (replicatedRef == "" <==> fetched == "")
  {
    var mirrored := MirroredRef(cfg, split, image);
    if mirrored != "" {
      return mirrored, mirrored, !ok;
    }
    var replicationRef, returnRef := BuildReplicationRef(cfg, split, image);
    if replicationRef == "" {
      return "", "", false;
    }
    return returnRef, replicationRef, !ok;
  }

  // --- rewriting commutes with replicating ---

  /** The image after the rewrite to its mirror. */
  function Rewritten(cfg: Config, split: Split, image: string): string
    requires Resolve(cfg, split, image).Some?
  {
    var m := Resolve(cfg, split, image).value;
    m.baseDomain + "/" + (m.subPath + "/" + split(image).repository) + split(image).tagOrDigest
  }

  /**
   Replicating the rewritten image fetches the same reference as replicating the original exactly when the base
   domain is not itself an upstream key, given that the printed reference splits into its parts again.
   */
  lemma RewriteThenReplicate(cfg: Config, split: Split, image: string)
    requires Resolve(cfg, split, image).Some?
    requires var m := Resolve(cfg, split, image).value;
             split(Rewritten(cfg, split, image)) ==
             Ref(m.baseDomain, m.subPath + "/" + split(image).repository, split(image).tagOrDigest)
    ensures Target(cfg, split, Rewritten(cfg, split, image)) == Target(cfg, split, image) <==>
            Resolve(cfg, split, image).value.baseDomain !in cfg.mirrors
  {
    var m := Resolve(cfg, split, image).value;
    var path := m.subPath + "/" + split(image).repository;
    var again := Rewritten(cfg, split, image);
    assert cfg.mirrors[split(image).registry].baseDomain == m.baseDomain;
    assert OnMirrorDomain(cfg, m.baseDomain);
    assert Target(cfg, split, image) == cfg.primary + "/" + path + split(image).tagOrDigest;
    if m.baseDomain in cfg.mirrors {
      var longer := cfg.mirrors[m.baseDomain].subPath + "/" + path;
      assert Target(cfg, split, again) == cfg.primary + "/" + longer + split(image).tagOrDigest;
      assert |longer| > |path|;
    }
  }

  // --- transforms ---

  datatype Transform = Transform(original: string, mirrored: string)

  /** Registries hold no slash. */
  ghost predicate WellSplit(split: Split) {
    forall s :: '/' !in split(s).registry
  }

  function Original(r: Ref): string {
    r.registry + "/" + r.repository
  }

  function TransformFor(cfg: Config, split: Split, image: string): Transform
    requires Resolve(cfg, split, image).Some?
  {
    var m := Resolve(cfg, split, image).value;
    Transform(Original(split(image)), m.baseDomain + "/" + m.subPath + "/" + split(image).repository)
  }

  /** Images with the same registry and repository have the same transform. */
  lemma SameOriginal(cfg: Config, split: Split, x: string, y: string)
    requires WellSplit(split) && Original(split(x)) == Original(split(y))
    ensures Resolve(cfg, split, x) == Resolve(cfg, split, y)
    ensures Resolve(cfg, split, x).Some? ==> TransformFor(cfg, split, x) == TransformFor(cfg, split, y)
  {
    SplitsOnce('/', split(x).registry, split(x).repository, split(y).registry, split(y).repository);
  }

  /** The transforms of a list of images: one per original, none for images without a mirror. */
  ghost predicate Transforms(cfg: Config, split: Split, images: seq<string>, ts: seq<Transform>) {
    && (forall i, j :: 0 <= i < j < |ts| ==> ts[i].original != ts[j].original)
    && (forall j :: 0 <= j < |ts| ==> Given(cfg, split, images, ts[j]))
    && (forall i :: 0 <= i < |images| && Resolve(cfg, split, images[i]).Some? ==> Rewrites(ts, Original(split(images[i]))))
  }

  /** Some image gives the transform. */
  predicate Given(cfg: Config, split: Split, images: seq<string>, t: Transform) {
    exists i :: 0 <= i < |images| && Gives(cfg, split, images[i], t)
  }

  /** The transform from the registry and repository of the image to the mirror's domain and path and the same repository. */
  predicate Gives(cfg: Config, split: Split, image: string, t: Transform) {
    var r := split(image);
    && r.registry in cfg.mirrors
    && t.original == r.registry + "/" + r.repository
    && t.mirrored == cfg.mirrors[r.registry].baseDomain + "/" + cfg.mirrors[r.registry].subPath + "/" + r.repository
  }

  /** Applied to an image, its transform gives the rewritten image: mirror's domain and path, same repository, same tag. */
  lemma TransformApplied(cfg: Config, split: Split, image: string, t: Transform)
    requires Gives(cfg, split, image, t)
    requires var r := split(image);
             Faithful(split, Ref(cfg.mirrors[r.registry].baseDomain, cfg.mirrors[r.registry].subPath + "/" + r.repository, r.tagOrDigest))
    ensures var r := split(image);
            && t.mirrored + r.tagOrDigest == Rewritten(cfg, split, image)
            && split(t.mirrored + r.tagOrDigest) ==
               Ref(cfg.mirrors[r.registry].baseDomain, cfg.mirrors[r.registry].subPath + "/" + r.repository, r.tagOrDigest)
    ensures Target(cfg, split, t.mirrored + split(image).tagOrDigest) == Target(cfg, split, image) <==>
            cfg.mirrors[split(image).registry].baseDomain !in cfg.mirrors
  {
    var r := split(image);
    var m := cfg.mirrors[r.registry];
    assert m.baseDomain + "/" + (m.subPath + "/" + r.repository) == m.baseDomain + "/" + m.subPath + "/" + r.repository;
    RewriteThenReplicate(cfg, split, image);
  }

  /** Some transform is for that original. */
  predicate Rewrites(ts: seq<Transform>, original: string) {
    exists j :: 0 <= j < |ts| && ts[j].original == original
  }

  /** The originals seen so far are those of the transforms. */
  ghost predicate SeenBy(seen: set<string>, ts: seq<Transform>) {
    forall o :: o in seen <==> Rewrites(ts, o)
  }

  /** One image: no transform without a mirror, or for an original that was seen before. */
  method AddTransform(
    cfg: Config, split: Split, ghost images: seq<string>, image: string, ts: seq<Transform>, seen: set<string>)
    returns (ts': seq<Transform>, seen': set<string>)
    requires SeenBy(seen, ts) && Transforms(cfg, split, images, ts)
    ensures SeenBy(seen', ts') && Transforms(cfg, split, images + [image], ts')
  {
    var m := Resolve(cfg, split, image);
    if m.None? {
      TransformsGrow(cfg, split, images, ts, image);
      return ts, seen;
    }
    var t := TransformFor(cfg, split, image);
    if t.original in seen {
      TransformsGrow(cfg, split, images, ts, image);
      return ts, seen;
    }
    TransformsAppend(cfg, split, images, ts, image);
    forall o ensures Rewrites(ts + [t], o) <==> Rewrites(ts, o) || o == t.original {
      RewritesSnoc(ts, t, o);
    }
    return ts + [t], seen + {t.original};
  }

  method BuildImageTransformations(cfg: Config, split: Split, images: seq<string>) returns (ts: seq<Transform>)
    ensures Transforms(cfg, split, images, ts)
  {
    ts := [];
    var seen: set<string> := {};
    for n := 0 to |images|
      invariant SeenBy(seen, ts) && Transforms(cfg, split, images[..n], ts)
    {
      assert images[..n + 1] == images[..n] + [images[n]];
      ts, seen := AddTransform(cfg, split, images[..n], images[n], ts, seen);
    }
    assert images[..|images|] == images;
  }

  lemma RewritesSnoc(ts: seq<Transform>, t: Transform, original: string)
    ensures Rewrites(ts + [t], original) <==> Rewrites(ts, original) || original == t.original
  {
    var us := ts + [t];
    assert us[|ts|] == t && forall j :: 0 <= j < |ts| ==> us[j] == ts[j];
  }

  lemma GivenSnoc(cfg: Config, split: Split, images: seq<string>, image: string, t: Transform)
    ensures Given(cfg, split, images + [image], t) <==> Given(cfg, split, images, t) || Gives(cfg, split, image, t)
  {
    var all := images + [image];
    assert all[|images|] == image && forall i :: 0 <= i < |images| ==> all[i] == images[i];
  }

  lemma TransformsGrow(cfg: Config, split: Split, images: seq<string>, ts: seq<Transform>, image: string)
    requires Transforms(cfg, split, images, ts)
    requires Resolve(cfg, split, image).Some? ==> Rewrites(ts, Original(split(image)))
    ensures Transforms(cfg, split, images + [image], ts)
  {
    forall j | 0 <= j < |ts| ensures Given(cfg, split, images + [image], ts[j]) {
      GivenSnoc(cfg, split, images, image, ts[j]);
    }
  }

  lemma TransformsAppend(cfg: Config, split: Split, images: seq<string>, ts: seq<Transform>, image: string)
    requires Transforms(cfg, split, images, ts) && Resolve(cfg, split, image).Some?
    requires !Rewrites(ts, Original(split(image)))
    ensures Transforms(cfg, split, images + [image], ts + [TransformFor(cfg, split, image)])
  {
    var t := TransformFor(cfg, split, image);
    var all, us := images + [image], ts + [t];
    forall j | 0 <= j < |us| ensures Given(cfg, split, all, us[j]) {
      GivenSnoc(cfg, split, images, image, us[j]);
    }
    forall i | 0 <= i < |all| && Resolve(cfg, split, all[i]).Some? ensures Rewrites(us, Original(split(all[i]))) {
      RewritesSnoc(ts, t, Original(split(all[i])));
    }
    forall i, j | 0 <= i < j < |us| ensures us[i].original != us[j].original {
      if j == |ts| {
        assert us[i] == ts[i] && us[j] == t;
      }
    }
  }

  /** An image of the list has a transform exactly when its mirrored reference is not empty, and then it is its own. */
  lemma TransformExactly(cfg: Config, split: Split, images: seq<string>, ts: seq<Transform>, i: int)
    requires WellSplit(split) && Transforms(cfg, split, images, ts) && 0 <= i < |images|
    ensures Rewrites(ts, Original(split(images[i]))) <==> MirroredRef(cfg, split, images[i]) != ""
    ensures forall j :: 0 <= j < |ts| && ts[j].original == Original(split(images[i])) ==> Gives(cfg, split, images[i], ts[j])
  {
    forall j | 0 <= j < |ts| && ts[j].original == Original(split(images[i])) ensures Gives(cfg, split, images[i], ts[j]) {
      assert Given(cfg, split, images, ts[j]);
      var k :| 0 <= k < |images| && Gives(cfg, split, images[k], ts[j]);
      SameOriginal(cfg, split, images[i], images[k]);
    }
  }

  // --- replication passes ---

  function Id(s: string): string {
    s
  }

  /** A pass: the references found in the manifests, those of them that are mirrored, and those whose fetch succeeds. */
  datatype Pass = Pass(found: set<string>, mirrored: set<string>, fetchOk: set<string>)

  function PassOver(cfg: Config, split: Split, found: set<string>, fetchOk: string -> bool): Pass {
    Pass(found, set r | r in found && Target(cfg, split, r) != "", set r | r in found && fetchOk(r))
  }

  function Fetches(p: Pass, already: set<string>): set<string> {
    p.found * p.mirrored - already
  }

  function Recorded(p: Pass, already: set<string>): set<string> {
    p.found * (already + p.mirrored * p.fetchOk)
  }

  function Failed(p: Pass, already: set<string>): set<string> {
    Fetches(p, already) - p.fetchOk
  }

  predicate ExactlyOne(a: bool, b: bool, c: bool) {
    (a || b || c) && !(a && b) && !(a && c) && !(b && c)
  }

  /** The record after each pass, each pass getting the previous one's, from an empty list on. */
  function RecordAfter(ps: seq<Pass>): set<string> {
    if ps == [] then {} else Recorded(ps[|ps| - 1], RecordAfter(ps[..|ps| - 1]))
  }

  predicate FetchedAt(ps: seq<Pass>, r: string, n: int)
    requires 0 <= n < |ps|
  {
    r in Fetches(ps[n], RecordAfter(ps[..n]))
  }

  /** `r` was fetched with success at `n`, has been found in the manifests ever since, and was not fetched again. */
  ghost predicate RecordedSince(ps: seq<Pass>, r: string, n: int) {
    && 0 <= n < |ps| && FetchedAt(ps, r, n) && r in ps[n].fetchOk
    && forall m :: n < m < |ps| ==> r in ps[m].found && !FetchedAt(ps, r, m)
  }

  /** Cutting the last pass off does not change what the earlier ones fetched. */
  lemma FetchedInPrefix(ps: seq<Pass>, r: string, m: int)
    requires 0 <= m < |ps| - 1
    ensures FetchedAt(ps[..|ps| - 1], r, m) == FetchedAt(ps, r, m)
  {
    assert ps[..|ps| - 1][..m] == ps[..m];
  }

  lemma RecordedSincePrefix(ps: seq<Pass>, r: string, n: int)
    requires 0 <= n < |ps| - 1
    ensures RecordedSince(ps, r, n) <==>
            RecordedSince(ps[..|ps| - 1], r, n) && r in ps[|ps| - 1].found && !FetchedAt(ps, r, |ps| - 1)
  {
    var most := ps[..|ps| - 1];
    forall m | 0 <= m < |most| ensures FetchedAt(most, r, m) == FetchedAt(ps, r, m) && most[m] == ps[m] {
      FetchedInPrefix(ps, r, m);
    }
  }

  /**
   A reference is on record exactly when some pass fetched it with success and every later pass has found it
   in the manifests; none of those fetched it again.
   */
  lemma {:induction false} RecordProvenance(ps: seq<Pass>, r: string)
    ensures r in RecordAfter(ps) <==> exists n :: RecordedSince(ps, r, n)
  {
    if ps != [] {
      var k := |ps| - 1;
      var most := ps[..k];
      RecordProvenance(most, r);
      if r in RecordAfter(ps) {
        if r in RecordAfter(most) {
          var n :| RecordedSince(most, r, n);
          RecordedSincePrefix(ps, r, n);
        } else {
          assert RecordedSince(ps, r, k);
        }
      }
      if n :| RecordedSince(ps, r, n) {
        if n < k {
          RecordedSincePrefix(ps, r, n);
        }
      }
    }
  }

  // --- the source's functions ---

  /** The distinct matches of the image pattern in one manifest, sorted. */
  method ExtractUniqueOCIRefs(matches: seq<string>) returns (images: seq<string>)
    ensures Elements(images) == Elements(matches) && StrictBy(Id, images)
    ensures (forall r :: r in images <==> r in matches) && forall i, j :: 0 <= i < j < |images| ==> Less(images[i], images[j])
  {
    images := [];
    for i := 0 to |matches|
      invariant Elements(images) == Elements(matches[..i]) && DistinctBy(Id, images)
    {
      assert matches[..i + 1] == matches[..i] + [matches[i]];
      ElementsSnoc(matches[..i], matches[i]);
      if matches[i] !in images {
        ElementsSnoc(images, matches[i]);
        DistinctSnoc(images, matches[i]);
        images := images + [matches[i]];
      } else {
        assert matches[i] in Elements(images);
      }
    }
    assert matches[..|matches|] == matches;
    images := SortRefs(images);
    forall r ensures r in images <==> r in matches {
      assert (r in images <==> r in Elements(images)) && (r in matches <==> r in Elements(matches));
    }
    assert forall i, j :: 0 <= i < j < |images| ==> Less(Id(images[i]), Id(images[j]));
  }

  lemma DistinctSnoc(xs: seq<string>, x: string)
    requires DistinctBy(Id, xs) && x !in xs
    ensures DistinctBy(Id, xs + [x])
  {
    var ys := xs + [x];
    forall i, j | 0 <= i < j < |ys| ensures Id(ys[i]) != Id(ys[j]) {
      assert Id(xs[i]) == xs[i] && xs[i] in xs;
      if j < |xs| {
        assert Id(xs[i]) != Id(xs[j]);
      }
    }
  }

  /** sort.Strings on a list without duplicates. */
  method SortRefs(xs: seq<string>) returns (ys: seq<string>)
    requires DistinctBy(Id, xs)
    ensures Elements(ys) == Elements(xs) && StrictBy(Id, ys)
  {
    ys := SortBy(Id, xs);
    SortBySorted(Id, xs);
    DistinctPermutes(Id, xs, ys);
    DistinctSortedIsStrict(Id, ys);
    SameMultisetSameElements(xs, ys);
  }

  function Union(sets: seq<seq<string>>): set<string> {
    if sets == [] then {} else Union(sets[..|sets| - 1]) + Elements(sets[|sets| - 1])
  }

  lemma {:induction false} UnionExactly(sets: seq<seq<string>>, r: string)
    ensures r in Union(sets) <==> exists n :: 0 <= n < |sets| && r in sets[n]
  {
    if sets != [] {
      var n := |sets| - 1;
      UnionExactly(sets[..n], r);
      assert r in Elements(sets[n]) <==> r in sets[n];
      assert forall i :: 0 <= i < n ==> sets[..n][i] == sets[i];
    }
  }

  /** The references of all manifest sets, each once. */
  method CollectRefs(manifests: seq<seq<string>>) returns (refs: seq<string>)
    ensures Elements(refs) == Union(manifests) && DistinctBy(Id, refs)
  {
    refs := [];
    for n := 0 to |manifests|
      invariant Elements(refs) == Union(manifests[..n]) && DistinctBy(Id, refs)
    {
      assert manifests[..n + 1][..n] == manifests[..n];
      var images := ExtractUniqueOCIRefs(manifests[n]);
      ghost var before := refs;
      for i := 0 to |images|
        invariant Elements(refs) == Elements(before) + Elements(images[..i]) && DistinctBy(Id, refs)
      {
        assert images[..i + 1] == images[..i] + [images[i]];
        ElementsSnoc(images[..i], images[i]);
        if images[i] !in refs {
          ElementsSnoc(refs, images[i]);
          DistinctSnoc(refs, images[i]);
          refs := refs + [images[i]];
        } else {
          assert images[i] in Elements(refs);
        }
      }
      assert images[..|images|] == images;
    }
    assert manifests[..|manifests|] == manifests;
  }

  /** The lists of a pass that has gone over the references `done`. */
  ghost predicate Replicating(
    cfg: Config, split: Split, fetchOk: string -> bool, already: seq<string>, done: set<string>,
    replicated: seq<string>, errors: seq<string>, fetched: seq<string>)
  {
    var p := PassOver(cfg, split, done, fetchOk);
    && DistinctBy(Id, replicated) && Elements(replicated) == Recorded(p, Elements(already))
    && Elements(errors) == Failed(p, Elements(already))
    && DistinctBy(Id, fetched) && Elements(fetched) == Fetches(p, Elements(already))
  }

  /** One reference: kept if on record, else fetched if it is mirrored. */
  method ReplicateOne(
    cfg: Config, split: Split, fetchOk: string -> bool, already: seq<string>, ghost done: set<string>, r: string,
    replicated: seq<string>, errors: seq<string>, fetched: seq<string>)
    returns (replicated': seq<string>, errors': seq<string>, fetched': seq<string>)
    requires r != "" && r !in done && Replicating(cfg, split, fetchOk, already, done, replicated, errors, fetched)
    ensures Replicating(cfg, split, fetchOk, already, done + {r}, replicated', errors', fetched')
  {
    replicated', errors', fetched' := replicated, errors, fetched;
    OneMore(cfg, split, fetchOk, done, Elements(already), r);
    assert r in already <==> r in Elements(already);
    if r in already {
      replicated' := Append(replicated, r);
      return;
    }
    var ref, target, failed := EnsureImageReplicated(cfg, split, r, fetchOk(r));
    if target != "" {
      fetched' := Append(fetched, r);
    }
    if failed {
      ElementsSnoc(errors, r);
      errors' := errors + [r];
      return;
    }
    if ref == "" {
      return;
    }
    replicated' := Append(replicated, r);
  }

  /** The loop over the references. */
  method ReplicateRefs(cfg: Config, split: Split, fetchOk: string -> bool, already: seq<string>, refs: seq<string>)
    returns (replicated: seq<string>, errors: seq<string>, fetched: seq<string>)
    requires "" !in Elements(refs) && DistinctBy(Id, refs)
    ensures Replicating(cfg, split, fetchOk, already, Elements(refs), replicated, errors, fetched)
  {
    replicated, errors, fetched := [], [], [];
    for n := 0 to |refs|
      invariant Replicating(cfg, split, fetchOk, already, Elements(refs[..n]), replicated, errors, fetched)
    {
      var r := refs[n];
      assert refs[..n + 1] == refs[..n] + [r];
      ElementsSnoc(refs[..n], r);
      NotYet(refs, n);
      assert r in Elements(refs);
      replicated, errors, fetched :=
        ReplicateOne(cfg, split, fetchOk, already, Elements(refs[..n]), r, replicated, errors, fetched);
    }
    assert refs[..|refs|] == refs;
  }

  /** What the lists of a pass say about one reference. */
  lemma Partitioned(
    cfg: Config, split: Split, fetchOk: string -> bool, found: set<string>,
    already: seq<string>, replicated: seq<string>, errors: seq<string>, fetched: seq<string>, r: string)
    requires var p := PassOver(cfg, split, found, fetchOk);
             && Elements(replicated) == Recorded(p, Elements(already)) && Elements(errors) == Failed(p, Elements(already))
             && Elements(fetched) == Fetches(p, Elements(already))
    ensures r in found ==> ExactlyOne(r in replicated, r in errors, r !in already && Target(cfg, split, r) == "")
    ensures r in replicated || r in errors || r in fetched ==> r in found
    ensures r in found ==>
              && (r in fetched <==> r !in already && Target(cfg, split, r) != "")
              && (r in replicated <==> r in already || (Target(cfg, split, r) != "" && fetchOk(r)))
              && (r in errors <==> r !in already && Target(cfg, split, r) != "" && !fetchOk(r))
  {
    assert (r in replicated <==> r in Elements(replicated)) && (r in errors <==> r in Elements(errors));
    assert (r in already <==> r in Elements(already)) && (r in fetched <==> r in Elements(fetched));
  }

  /**
   ReplicateOCIArtifacts over the matches of each manifest set, none of which is empty: the new record, the
   references reported as errors, and those fetched. Every reference found is exactly one of recorded, reported as an
   error, or neither on record before nor mirrored.
   */
  method ReplicateOCIArtifacts(
    cfg: Config, split: Split, fetchOk: string -> bool, already: seq<string>, manifests: seq<seq<string>>)
    returns (replicated: seq<string>, errors: seq<string>, fetched: seq<string>)
    requires "" !in Union(manifests)
    ensures var p := PassOver(cfg, split, Union(manifests), fetchOk);
            && StrictBy(Id, replicated) && Elements(replicated) == Recorded(p, Elements(already))
            && Elements(errors) == Failed(p, Elements(already))
            && Elements(fetched) == Fetches(p, Elements(already)) && DistinctBy(Id, fetched)
    ensures forall r :: r in Union(manifests) ==>
              ExactlyOne(r in replicated, r in errors, r !in already && Target(cfg, split, r) == "")
    ensures forall r :: r in replicated || r in errors || r in fetched ==> r in Union(manifests)
    ensures forall r :: r in Union(manifests) ==>
              && (r in fetched <==> r !in already && Target(cfg, split, r) != "")
              && (r in replicated <==> r in already || (Target(cfg, split, r) != "" && fetchOk(r)))
              && (r in errors <==> r !in already && Target(cfg, split, r) != "" && !fetchOk(r))
    ensures forall i, j :: 0 <= i < j < |replicated| ==> Less(replicated[i], replicated[j])
  {
    var refs := CollectRefs(manifests);
    replicated, errors, fetched := ReplicateRefs(cfg, split, fetchOk, already, refs);
    replicated := SortRefs(replicated);
    forall r
      ensures r in Union(manifests) ==> ExactlyOne(r in replicated, r in errors, r !in already && Target(cfg, split, r) == "")
      ensures r in replicated || r in errors || r in fetched ==> r in Union(manifests)
      ensures r in Union(manifests) ==>
                && (r in fetched <==> r !in already && Target(cfg, split, r) != "")
                && (r in replicated <==> r in already || (Target(cfg, split, r) != "" && fetchOk(r)))
                && (r in errors <==> r !in already && Target(cfg, split, r) != "" && !fetchOk(r))
    {
      Partitioned(cfg, split, fetchOk, Union(manifests), already, replicated, errors, fetched, r);
    }
    assert forall i, j :: 0 <= i < j < |replicated| ==> Less(Id(replicated[i]), Id(replicated[j]));
  }

  method Append(xs: seq<string>, x: string) returns (ys: seq<string>)
    requires DistinctBy(Id, xs) && x !in Elements(xs)
    ensures DistinctBy(Id, ys) && Elements(ys) == Elements(xs) + {x}
  {
    ElementsSnoc(xs, x);
    assert x !in xs;
    DistinctSnoc(xs, x);
    ys := xs + [x];
  }

  lemma NotYet(refs: seq<string>, n: nat)
    requires n < |refs| && DistinctBy(Id, refs)
    ensures refs[n] !in Elements(refs[..n])
  {
    forall i | 0 <= i < n ensures refs[..n][i] != refs[n] {
      assert Id(refs[i]) != Id(refs[n]);
    }
  }

  /** What one more reference adds to the three sets. */
  lemma OneMore(cfg: Config, split: Split, fetchOk: string -> bool, found: set<string>, already: set<string>, r: string)
    requires r !in found
    ensures var p, q := PassOver(cfg, split, found, fetchOk), PassOver(cfg, split, found + {r}, fetchOk);
            var mirrored := Target(cfg, split, r) != "";
            && r !in Recorded(p, already) && r !in Fetches(p, already)
            && Recorded(q, already) == Recorded(p, already) + (if r in already || (mirrored && fetchOk(r)) then {r} else {})
            && Fetches(q, already) == Fetches(p, already) + (if r !in already && mirrored then {r} else {})
            && Failed(q, already) == Failed(p, already) + (if r !in already && mirrored && !fetchOk(r) then {r} else {})
  {
    var p, q := PassOver(cfg, split, found, fetchOk), PassOver(cfg, split, found + {r}, fetchOk);
    assert q.mirrored == p.mirrored + if Target(cfg, split, r) != "" then {r} else {};
    assert q.fetchOk == p.fetchOk + if fetchOk(r) then {r} else {};
  }
}
