/**
 The service proxy: the route table of each cluster, kept up to date by reconcile passes, and the rewriting of
 requests and redirects between the exposed host and the API server's service proxy path.
 */
module ServiceProxy {
  import opened Options
  import opened StringOps
  import opened ExposedUrl

  datatype Service = Service(namespace: string, name: string, port: int, protocol: Option<string>, stype: string)

  datatype Plugin = Plugin(deleting: bool, clusterName: string, exposed: map<string, Service>)

  datatype Url = Url(scheme: string, host: string, path: string)

  datatype Route = Route(url: Url, serviceName: string, namespace: string)

  /** The transport, built from the cluster's credentials, is an opaque number. */
  datatype ClusterRoutes = ClusterRoutes(transport: nat, routes: map<string, Route>)

  // --- backend paths ---

  function Digits(n: nat): (s: string)
    ensures s != "" && forall i :: 0 <= i < |s| ==> '0' <= s[i] <= '9'
  {
    if n < 10 then [('0' as int + n) as char] else Digits(n / 10) + [('0' as int + n % 10) as char]
  }

  function Decimal(n: int): string {
    if n < 0 then "-" + Digits(-n) else Digits(n)
  }

  /** The number a digit string stands for. */
  function Number(s: string): int {
    if s == "" then 0 else 10 * Number(s[..|s| - 1]) + (s[|s| - 1] as int - '0' as int)
  }

  /** Decimal notation reads back as the number. */
  lemma {:induction false} DigitsReadBack(n: nat)
    ensures Number(Digits(n)) == n
  {
    if n >= 10 {
      DigitsReadBack(n / 10);
      assert Digits(n)[..|Digits(n)| - 1] == Digits(n / 10);
    } else {
      assert Digits(n)[..0] == "" && Number("") == 0;
    }
  }

  const NAMESPACES := "/api/v1/namespaces/"
  const SERVICES := "/services/"
  const PROXY := "/proxy"

  function Segment(svc: Service): string {
    (if Https(svc) then "https:" else "") + svc.name + ":" + Decimal(svc.port)
  }

  function ProxyPath(namespace: string, segment: string): string {
    NAMESPACES + namespace + SERVICES + segment + PROXY
  }

  function BackendPath(svc: Service): string {
    ProxyPath(svc.namespace, Segment(svc))
  }

  function RouteFor(api: Url, svc: Service): Route {
    Route(api.(path := BackendPath(svc)), svc.name, svc.namespace)
  }

  /** A route goes to the API server on the path that addresses the service. */
  lemma RouteIs(api: Url, svc: Service)
    ensures var r := RouteFor(api, svc);
            && r.url.scheme == api.scheme && r.url.host == api.host && Addresses(r.url.path, svc)
            && r.serviceName == svc.name && r.namespace == svc.namespace
  {
    BackendAddresses(svc);
  }

  // --- route tables ---

  predicate Relevant(p: Plugin, cluster: string) {
    !p.deleting && p.clusterName == cluster
  }

  /** The routes of a plugin's services under the given URLs. */
  function RoutesOf(p: Plugin, api: Url, urls: set<string>): map<string, Route> {
    map url | url in urls && url in p.exposed && p.exposed[url].stype == "service" :: RouteFor(api, p.exposed[url])
  }

  function PluginRoutes(p: Plugin, api: Url): map<string, Route> {
    RoutesOf(p, api, p.exposed.Keys)
  }

  /** Later plugins win. */
  function Table(items: seq<Plugin>, cluster: string, api: Url): map<string, Route> {
    if items == [] then map[]
    else
      var p := items[|items| - 1];
      Table(items[..|items| - 1], cluster, api) + (if Relevant(p, cluster) then PluginRoutes(p, api) else map[])
  }

  predicate Exposes(items: seq<Plugin>, cluster: string, url: string, i: int) {
    && 0 <= i < |items| && Relevant(items[i], cluster)
    && url in items[i].exposed && items[i].exposed[url].stype == "service"
  }

  predicate LastExposes(items: seq<Plugin>, cluster: string, url: string, i: int) {
    Exposes(items, cluster, url, i) && forall j :: i < j < |items| ==> !Exposes(items, cluster, url, j)
  }

  /** A routed URL is routed as the last plugin of the cluster that exposes it says. */
  lemma {:induction false} TableValue(items: seq<Plugin>, cluster: string, api: Url, url: string, i: int)
    requires LastExposes(items, cluster, url, i)
    ensures url in Table(items, cluster, api) && Table(items, cluster, api)[url] == RouteFor(api, items[i].exposed[url])
  {
    var n := |items| - 1;
    if i < n {
      assert !Exposes(items, cluster, url, n);
      assert LastExposes(items[..n], cluster, url, i) by {
        assert forall j :: i < j < n ==> Exposes(items[..n], cluster, url, j) ==> Exposes(items, cluster, url, j);
      }
      TableValue(items[..n], cluster, api, url, i);
    }
  }

  lemma {:induction false} ExposedLast(items: seq<Plugin>, cluster: string, url: string, i: int) returns (k: int)
    requires Exposes(items, cluster, url, i)
    ensures LastExposes(items, cluster, url, k)
  {
    k := i;
    while exists j :: k < j < |items| && Exposes(items, cluster, url, j)
      invariant Exposes(items, cluster, url, k)
      decreases |items| - k
    {
      var j :| k < j < |items| && Exposes(items, cluster, url, j);
      k := j;
    }
  }

  lemma {:induction false} RoutedIsExposed(items: seq<Plugin>, cluster: string, api: Url, url: string) returns (i: int)
    requires url in Table(items, cluster, api)
    ensures Exposes(items, cluster, url, i)
  {
    var n := |items| - 1;
    if Exposes(items, cluster, url, n) {
      i := n;
    } else {
      i := RoutedIsExposed(items[..n], cluster, api, url);
    }
  }

  /** A URL is routed exactly when some plugin of the cluster that is not being deleted exposes it as a service. */
  lemma TableKeys(items: seq<Plugin>, cluster: string, api: Url, url: string)
    ensures url in Table(items, cluster, api) <==>
            exists i :: 0 <= i < |items| && !items[i].deleting && items[i].clusterName == cluster
                        && url in items[i].exposed && items[i].exposed[url].stype == "service"
  {
    assert forall i :: Exposes(items, cluster, url, i) <==>
      0 <= i < |items| && !items[i].deleting && items[i].clusterName == cluster
      && url in items[i].exposed && items[i].exposed[url].stype == "service";
    if url in Table(items, cluster, api) {
      var i := RoutedIsExposed(items, cluster, api, url);
    }
    if i :| Exposes(items, cluster, url, i) {
      var k := ExposedLast(items, cluster, url, i);
      TableValue(items, cluster, api, url, k);
    }
  }

  // --- passes ---

  datatype Secret = GetError | NotFound | Found(deleting: bool)

  /** What a pass meets: the secret, the connection built from it (or an error), and the plugin list (or an error). */
  datatype Input = Input(
    name: string, secret: Secret, connection: Option<(nat, Url)>, plugins: Option<seq<Plugin>>)

  predicate Removes(i: Input) {
    i.secret.NotFound? || (i.secret.Found? && i.secret.deleting)
  }

  predicate Updates(i: Input) {
    i.secret == Found(false) && i.connection.Some? && i.plugins.Some?
  }

  type Clusters = map<string, ClusterRoutes>

  function Entry(i: Input): ClusterRoutes
    requires Updates(i)
  {
    ClusterRoutes(i.connection.value.0, Table(i.plugins.value, i.name, i.connection.value.1))
  }

  function Step(clusters: Clusters, i: Input): Clusters {
    if Removes(i) then clusters - {i.name}
    else if Updates(i) then clusters[i.name := Entry(i)]
    else clusters
  }

  /**
   What one pass does to the table of every cluster, told by what it meets: nothing to other clusters; a secret that is
   missing or being deleted removes the table; with a secret, a connection and a plugin list the table is computed anew;
   everything else leaves it alone.
   */
  lemma StepExactly(clusters: Clusters, i: Input, c: string)
    ensures c != i.name ==> (c in Step(clusters, i) <==> c in clusters) && (c in clusters ==> Step(clusters, i)[c] == clusters[c])
    ensures i.secret == NotFound || i.secret == Found(true) ==> i.name !in Step(clusters, i)
    ensures i.secret == GetError || (i.secret == Found(false) && (i.connection.None? || i.plugins.None?)) ==> Step(clusters, i) == clusters
    ensures i.secret == Found(false) && i.connection.Some? && i.plugins.Some? ==>
              && i.name in Step(clusters, i) && Step(clusters, i)[i.name].transport == i.connection.value.0
              && Step(clusters, i)[i.name].routes == Table(i.plugins.value, i.name, i.connection.value.1)
  {
  }

  function Run(h: seq<Input>): Clusters {
    if h == [] then map[] else Step(Run(h[..|h| - 1]), h[|h| - 1])
  }

  /** Pass `k` is the last one for the cluster that did not fail. */
  predicate LastEffective(h: seq<Input>, cluster: string, k: int) {
    && 0 <= k < |h| && h[k].name == cluster && (Removes(h[k]) || Updates(h[k]))
    && forall j :: k < j < |h| && h[j].name == cluster ==> !Removes(h[j]) && !Updates(h[j])
  }

  /**
   After any run each cluster's table is the one computed from the plugins its last successful pass saw; a
   deleted secret leaves no table, and failed passes and passes for other clusters change nothing.
   */
  lemma {:induction false} RunTables(h: seq<Input>, cluster: string)
    ensures (forall k :: !LastEffective(h, cluster, k)) ==> cluster !in Run(h)
    ensures forall k :: LastEffective(h, cluster, k) ==>
              (cluster in Run(h) <==> Updates(h[k])) && (Updates(h[k]) ==> Run(h)[cluster] == Entry(h[k]))
  {
    if h != [] {
      var n := |h| - 1;
      var most := h[..n];
      RunTables(most, cluster);
      assert forall i :: 0 <= i < n ==> most[i] == h[i];
      if h[n].name == cluster && (Removes(h[n]) || Updates(h[n])) {
        assert LastEffective(h, cluster, n);
        forall k | LastEffective(h, cluster, k) ensures k == n {
        }
      } else {
        forall k ensures LastEffective(h, cluster, k) <==> LastEffective(most, cluster, k) {
        }
      }
    }
  }

  // --- requests ---

  datatype Outgoing = Outgoing(url: Url, cluster: string)

  function GetClusterRoute(clusters: Clusters, cluster: string, inUrl: string): Option<Route> {
    if cluster in clusters && inUrl in clusters[cluster].routes then Some(clusters[cluster].routes[inUrl]) else None
  }

  function TrimSlash(s: string): string {
    if s != "" && s[|s| - 1] == '/' then s[..|s| - 1] else s
  }

  /** The request a proxied one becomes, if the host names a cluster that has a route for it. */
  function Rewrite(clusters: Clusters, host: string, path: string): Option<Outgoing> {
    var cluster := ExtractCluster(host);
    if cluster.Err? then None
    else
      var route := GetClusterRoute(clusters, cluster.value, HTTPS + host);
      if route.None? then None
      else
        var up := route.value.url;
        Some(Outgoing(up.(path := if HasPrefix(path, up.path) then path else TrimSlash(up.path) + path), cluster.value))
  }

  /** What a request becomes, told by the route found for `https://` and the host under the cluster that the host names. */
  lemma RewriteExactly(clusters: Clusters, host: string, path: string)
    ensures Rewrite(clusters, host, path).None? <==>
            forall c :: ExtractCluster(host) == Ok(c) && c in clusters ==> "https://" + host !in clusters[c].routes
    ensures forall c :: ExtractCluster(host) == Ok(c) && c in clusters && "https://" + host in clusters[c].routes ==>
              var up, out := clusters[c].routes["https://" + host].url, Rewrite(clusters, host, path);
              && out.Some? && out.value.cluster == c && out.value.url.scheme == up.scheme && out.value.url.host == up.host
              && (forall rest :: path == up.path + rest ==> out.value.url.path == path)
              && (forall front :: up.path == front + "/" && (forall rest :: path != up.path + rest) ==> out.value.url.path == front + path)
              && ((forall rest :: path != up.path + rest) && (forall front :: up.path != front + "/") ==> out.value.url.path == up.path + path)
  {
    forall c | ExtractCluster(host) == Ok(c) && c in clusters && "https://" + host in clusters[c].routes
      ensures var up, out := clusters[c].routes["https://" + host].url, Rewrite(clusters, host, path);
              && out.Some? && out.value.cluster == c && out.value.url.scheme == up.scheme && out.value.url.host == up.host
              && (forall rest :: path == up.path + rest ==> out.value.url.path == path)
              && (forall front :: up.path == front + "/" && (forall rest :: path != up.path + rest) ==> out.value.url.path == front + path)
              && ((forall rest :: path != up.path + rest) && (forall front :: up.path != front + "/") ==> out.value.url.path == up.path + path)
    {
      var up := clusters[c].routes["https://" + host].url;
      PrefixMeans(path, up.path);
      TrimSlashMeans(up.path);
    }
  }

  lemma TrimSlashMeans(s: string)
    ensures forall front :: s == front + "/" ==> TrimSlash(s) == front
    ensures (forall front :: s != front + "/") ==> TrimSlash(s) == s
  {
    if s != "" && s[|s| - 1] == '/' {
      assert s == s[..|s| - 1] + "/";
    }
  }

  // --- redirects ---

  predicate PrefixAt(s: string, i: nat, p: string) {
    i + |p| <= |s| && s[i..i + |p|] == p
  }

  /** The length of the match of the API server proxy expression at the start of `s`, 0 if there is none. */
  function MatchLength(s: string): (n: nat)
    ensures n <= |s| && (n > 0 ==> n > 1)
  {
    if !PrefixAt(s, 0, NAMESPACES) then 0
    else
      var e1 := IndexFrom(s, '/', |NAMESPACES|);
      if e1 == |NAMESPACES| || !PrefixAt(s, e1, SERVICES) then 0
      else
        var e2 := IndexFrom(s, '/', e1 + |SERVICES|);
        if e2 == e1 + |SERVICES| || !PrefixAt(s, e2, PROXY + "/") then 0 else e2 + |PROXY| + 1
  }

  /** How much of a text the expression takes in one go: a match, or one character. */
  function Taken(s: string): (n: nat)
    ensures s != "" ==> 0 < n <= |s|
  {
    if MatchLength(s) > 0 then MatchLength(s) else 1
  }

  /** What that becomes: a match becomes a slash, a character stays. */
  function Given(s: string): char {
    if MatchLength(s) > 0 || s == "" then '/' else s[0]
  }

  /** ReplaceAllString of the expression by a slash. */
  function StripProxy(s: string): (r: string)
    ensures |r| <= |s|
    decreases |s|
  {
    if s == "" then "" else [Given(s)] + StripProxy(s[Taken(s)..])
  }

  ghost predicate NoProxySegment(s: string) {
    forall i :: 0 <= i < |s| ==> MatchLength(s[i..]) == 0
  }

  lemma NoSegmentCons(s: string)
    requires s != ""
    ensures NoProxySegment(s) <==> MatchLength(s) == 0 && NoProxySegment(s[1..])
  {
    var tail := s[1..];
    assert s[0..] == s;
    forall i | 0 <= i < |tail| ensures tail[i..] == s[i + 1..] {
    }
    if NoProxySegment(s) {
      forall i | 0 <= i < |tail| ensures MatchLength(tail[i..]) == 0 {
        assert MatchLength(s[i + 1..]) == 0;
      }
    }
    if MatchLength(s) == 0 && NoProxySegment(tail) {
      forall i | 0 <= i < |s| ensures MatchLength(s[i..]) == 0 {
        if i > 0 {
          assert MatchLength(tail[i - 1..]) == 0;
        }
      }
    }
  }

  /** Stripping leaves a text alone exactly when it holds no proxy segment. */
  lemma {:induction false} StripNothing(s: string)
    ensures StripProxy(s) == s <==> NoProxySegment(s)
    decreases |s|
  {
    if s != "" {
      NoSegmentCons(s);
      if MatchLength(s) > 0 {
        assert |StripProxy(s)| < |s|;
      } else {
        StripNothing(s[1..]);
        ConsEqual(s, StripProxy(s[1..]));
      }
    }
  }

  lemma ConsEqual(s: string, r: string)
    requires s != ""
    ensures [s[0]] + r == s <==> r == s[1..]
  {
    assert s == [s[0]] + s[1..];
    if [s[0]] + r == s {
      assert r == ([s[0]] + r)[1..];
    }
  }

  /** A name that can stand between two slashes. */
  predicate PathSegment(s: string) {
    s != "" && '/' !in s
  }

  lemma SegmentIsPathSegment(svc: Service)
    requires '/' !in svc.name
    ensures PathSegment(Segment(svc))
  {
  }

  /** The parts of a printed backend path, slash by slash. */
  lemma BackendParts(namespace: string, segment: string, tail: string)
    ensures var s := ProxyPath(namespace, segment) + ("/" + tail);
            var e1 := |NAMESPACES| + |namespace|;
            var b := e1 + |SERVICES|;
            var e2 := b + |segment|;
            && PrefixAt(s, 0, NAMESPACES) && PrefixAt(s, |NAMESPACES|, namespace) && PrefixAt(s, e1, SERVICES)
            && PrefixAt(s, b, segment) && PrefixAt(s, e2, PROXY + "/")
  {
  }

  /** A segment ends at the slash that follows it. */
  lemma SegmentEnds(s: string, i: nat, segment: string, next: string)
    requires '/' !in segment && PrefixAt(s, i, segment)
    requires PrefixAt(s, i + |segment|, next) && next != "" && next[0] == '/'
    ensures IndexFrom(s, '/', i) == i + |segment|
  {
    assert s[i + |segment|..i + |segment| + |next|][0] == s[i + |segment|];
    forall j | i <= j < i + |segment| ensures s[j] != '/' {
      assert s[i..i + |segment|][j - i] == s[j];
    }
  }

  /** Decimal notation tells numbers apart, and holds no colon. */
  lemma DecimalInjective(m: int, n: int)
    requires Decimal(m) == Decimal(n)
    ensures m == n
  {
    assert m < 0 <==> Decimal(m)[0] == '-';
    assert n < 0 <==> Decimal(n)[0] == '-';
    DigitsReadBack(if m < 0 then -m else m);
    DigitsReadBack(if n < 0 then -n else n);
    if m < 0 {
      assert Digits(-m) == Decimal(m)[1..] && Digits(-n) == Decimal(n)[1..];
    }
  }

  predicate Https(svc: Service) {
    svc.protocol == Some("https")
  }

  lemma SegmentSplits(svc: Service)
    ensures Segment(svc) ==
            if Https(svc) then "https" + [':'] + (svc.name + [':'] + Decimal(svc.port))
            else svc.name + [':'] + Decimal(svc.port)
  {
    assert "https:" == "https" + [':'];
  }

  lemma SegmentMixed(a: Service, b: Service)
    requires ':' !in a.name && ':' !in b.name && Https(a) && !Https(b)
    ensures Segment(a) != Segment(b)
  {
    SegmentSplits(a);
    SegmentSplits(b);
    var rest := a.name + [':'] + Decimal(a.port);
    assert rest[|a.name|] == ':' && ':' !in Decimal(b.port);
    if Segment(a) == Segment(b) {
      SplitsOnce(':', "https", rest, b.name, Decimal(b.port));
      assert false;
    }
  }

  lemma SegmentInjective(a: Service, b: Service)
    requires ':' !in a.name && ':' !in b.name && Segment(a) == Segment(b)
    ensures a.name == b.name && a.port == b.port && Https(a) == Https(b)
  {
    if Https(a) && !Https(b) {
      SegmentMixed(a, b);
    } else if !Https(a) && Https(b) {
      SegmentMixed(b, a);
    } else {
      SegmentSplits(a);
      SegmentSplits(b);
      if Https(a) {
        SplitsOnce(':', "https", a.name + [':'] + Decimal(a.port), "https", b.name + [':'] + Decimal(b.port));
      }
      SplitsOnce(':', a.name, Decimal(a.port), b.name, Decimal(b.port));
      DecimalInjective(a.port, b.port);
    }
  }

  /** Where the namespace and the service segment of a backend path end. */
  lemma PathEnds(namespace: string, segment: string)
    requires '/' !in namespace && '/' !in segment
    ensures var s, e := ProxyPath(namespace, segment) + ("/" + ""), |NAMESPACES| + |namespace|;
            && IndexFrom(s, '/', |NAMESPACES|) == e
            && IndexFrom(s, '/', e + |SERVICES|) == e + |SERVICES| + |segment|
  {
    var s := ProxyPath(namespace, segment) + ("/" + "");
    BackendParts(namespace, segment, "");
    SegmentEnds(s, |NAMESPACES|, namespace, SERVICES);
    SegmentEnds(s, |NAMESPACES| + |namespace| + |SERVICES|, segment, PROXY + "/");
  }

  lemma PathParts(namespace: string, segment: string)
    ensures var s, e := ProxyPath(namespace, segment) + ("/" + ""), |NAMESPACES| + |namespace|;
            && e + |SERVICES| + |segment| <= |s|
            && namespace == s[|NAMESPACES|..e] && segment == s[e + |SERVICES|..e + |SERVICES| + |segment|]
  {
    BackendParts(namespace, segment, "");
  }

  lemma ProxyPathInjective(n1: string, s1: string, n2: string, s2: string)
    requires '/' !in n1 && '/' !in n2 && '/' !in s1 && '/' !in s2 && ProxyPath(n1, s1) == ProxyPath(n2, s2)
    ensures n1 == n2 && s1 == s2
  {
    PathEnds(n1, s1);
    PathEnds(n2, s2);
    PathParts(n1, s1);
    PathParts(n2, s2);
  }

  /** Two services share a backend path exactly when they agree in namespace, name, port and use of https. */
  lemma BackendPathInjective(a: Service, b: Service)
    requires '/' !in a.namespace && '/' !in a.name && ':' !in a.name
    requires '/' !in b.namespace && '/' !in b.name && ':' !in b.name
    ensures BackendPath(a) == BackendPath(b) <==>
            a.namespace == b.namespace && a.name == b.name && a.port == b.port && Https(a) == Https(b)
  {
    if BackendPath(a) == BackendPath(b) {
      SegmentIsPathSegment(a);
      SegmentIsPathSegment(b);
      ProxyPathInjective(a.namespace, Segment(a), b.namespace, Segment(b));
      SegmentInjective(a, b);
    }
  }

  /** How a digit string is read: nothing is zero, and one more digit counts once while the others count ten times. */
  lemma NumberReads(s: string, c: char)
    requires '0' <= c <= '9'
    ensures Number("") == 0 && Number(s + [c]) == 10 * Number(s) + (c as int - '0' as int)
  {
    assert (s + [c])[..|s|] == s;
  }

  /** `text` is the decimal notation of `n`: a minus for negative numbers, digits that read as the number, no zero in front. */
  predicate Notation(text: string, n: int) {
    if n < 0 then text != "" && text[0] == '-' && DigitsOf(text[1..], -n) else DigitsOf(text, n)
  }

  predicate DigitsOf(text: string, n: nat) {
    && text != "" && (forall i :: 0 <= i < |text| ==> '0' <= text[i] <= '9')
    && Number(text) == n && (|text| > 1 ==> text[0] != '0')
  }

  lemma {:induction false} DigitsAre(n: nat)
    ensures DigitsOf(Digits(n), n) && (n > 0 ==> Digits(n)[0] != '0')
  {
    DigitsReadBack(n);
    if n >= 10 {
      DigitsAre(n / 10);
    }
  }

  lemma DecimalIs(n: int)
    ensures Notation(Decimal(n), n)
  {
    DigitsAre(if n < 0 then -n else n);
    if n < 0 {
      assert Decimal(n)[1..] == Digits(-n);
    }
  }

  /** Name and port of a service, with https: in front of the name for that protocol. */
  ghost predicate NamesService(text: string, svc: Service) {
    exists port :: Notation(port, svc.port) && text ==
      (if svc.protocol == Some("https") then "https:" + svc.name else svc.name) + ":" + port
  }

  /** The API server's proxy path of a service: its namespace, then its name and port. */
  ghost predicate Addresses(path: string, svc: Service) {
    exists text :: NamesService(text, svc) && path == "/api/v1/namespaces/" + svc.namespace + "/services/" + text + "/proxy"
  }

  lemma SegmentNames(svc: Service)
    ensures NamesService(Segment(svc), svc)
  {
    DecimalIs(svc.port);
    assert "" + svc.name == svc.name;
  }

  lemma BackendAddresses(svc: Service)
    ensures Addresses(BackendPath(svc), svc)
  {
    SegmentNames(svc);
  }

  /** The parts of a backend path by position: the namespace up to the next slash, then the service and its port up to the one after. */
  lemma BackendReads(svc: Service) returns (e1: nat, e2: nat)
    requires '/' !in svc.namespace && '/' !in svc.name
    ensures 19 <= e1 && e1 + 10 <= e2 && e2 + 6 == |BackendPath(svc)|
    ensures IndexFrom(BackendPath(svc) + "/", '/', 19) == e1 && IndexFrom(BackendPath(svc) + "/", '/', e1 + 10) == e2
    ensures BackendPath(svc)[..19] == "/api/v1/namespaces/" && BackendPath(svc)[19..e1] == svc.namespace
    ensures BackendPath(svc)[e1..e1 + 10] == "/services/" && BackendPath(svc)[e2..] == "/proxy"
    ensures NamesService(BackendPath(svc)[e1 + 10..e2], svc)
  {
    var segment := Segment(svc);
    SegmentIsPathSegment(svc);
    PathEnds(svc.namespace, segment);
    assert BackendPath(svc) + ("/" + "") == BackendPath(svc) + "/";
    e1 := 19 + |svc.namespace|;
    e2 := e1 + 10 + |segment|;
    PathPieces(svc.namespace, segment);
    SegmentNames(svc);
  }

  lemma PathPieces(namespace: string, segment: string)
    ensures var path, e1 := ProxyPath(namespace, segment), 19 + |namespace|;
            var e2 := e1 + 10 + |segment|;
            && |path| == e2 + 6
            && path[..19] == NAMESPACES && path[19..e1] == namespace && path[e1..e1 + 10] == SERVICES
            && path[e1 + 10..e2] == segment && path[e2..] == PROXY
  {
  }

  /** A backend path with anything after its closing slash matches up to and including that slash. */
  lemma MatchBackend(namespace: string, segment: string, tail: string)
    requires PathSegment(namespace) && PathSegment(segment)
    ensures MatchLength(ProxyPath(namespace, segment) + ("/" + tail)) == |ProxyPath(namespace, segment)| + 1
  {
    var s := ProxyPath(namespace, segment) + ("/" + tail);
    BackendParts(namespace, segment, tail);
    SegmentEnds(s, |NAMESPACES|, namespace, SERVICES);
    SegmentEnds(s, |NAMESPACES| + |namespace| + |SERVICES|, segment, PROXY + "/");
  }

  /** Where the parts of a match begin and end. */
  lemma MatchParts(s: string) returns (e1: nat, e2: nat)
    requires MatchLength(s) > 0
    ensures |NAMESPACES| < e1 && e1 + |SERVICES| < e2 && MatchLength(s) == e2 + |PROXY| + 1 <= |s|
    ensures s[..|NAMESPACES|] == NAMESPACES && '/' !in s[|NAMESPACES|..e1]
    ensures s[e1..e1 + |SERVICES|] == SERVICES && '/' !in s[e1 + |SERVICES|..e2]
    ensures s[e2..e2 + |PROXY| + 1] == PROXY + "/"
  {
    e1 := IndexFrom(s, '/', |NAMESPACES|);
    e2 := IndexFrom(s, '/', e1 + |SERVICES|);
    assert s[0..0 + |NAMESPACES|] == s[..|NAMESPACES|];
    assert s[e2..e2 + |PROXY + "/"|] == s[e2..e2 + |PROXY| + 1];
  }

  /** Whatever the expression matches is a backend path and the slash after it. */
  lemma MatchIsBackend(s: string) returns (namespace: string, segment: string)
    requires MatchLength(s) > 0
    ensures PathSegment(namespace) && PathSegment(segment)
    ensures s[..MatchLength(s)] == ProxyPath(namespace, segment) + "/"
  {
    var e1, e2 := MatchParts(s);
    namespace, segment := s[|NAMESPACES|..e1], s[e1 + |SERVICES|..e2];
    BackendPieces(s, e1, e2);
  }

  lemma BackendPieces(s: string, e1: nat, e2: nat)
    requires |NAMESPACES| <= e1 && e1 + |SERVICES| <= e2 && e2 + |PROXY| + 1 <= |s|
    requires s[..|NAMESPACES|] == NAMESPACES && s[e1..e1 + |SERVICES|] == SERVICES
    requires s[e2..e2 + |PROXY| + 1] == PROXY + "/"
    ensures s[..e2 + |PROXY| + 1] == ProxyPath(s[|NAMESPACES|..e1], s[e1 + |SERVICES|..e2]) + "/"
  {
    FivePieces(s, |NAMESPACES|, e1, e1 + |SERVICES|, e2, e2 + |PROXY| + 1);
    FivePrinted(s[|NAMESPACES|..e1], s[e1 + |SERVICES|..e2]);
  }

  lemma FivePieces(s: string, a: nat, b: nat, c: nat, d: nat, e: nat)
    requires a <= b <= c <= d <= e <= |s|
    ensures s[..e] == s[..a] + s[a..b] + s[b..c] + s[c..d] + s[d..e]
  {
  }

  lemma FivePrinted(namespace: string, segment: string)
    ensures ProxyPath(namespace, segment) + "/" == NAMESPACES + namespace + SERVICES + segment + (PROXY + "/")
  {
    assert ProxyPath(namespace, segment) == NAMESPACES + namespace + SERVICES + segment + PROXY;
  }

  function ModifyLocation(location: string): string {
    if location == "" then "" else StripProxy(location)
  }

  /** A proxy segment of `pre` takes the slash that follows for its own. */
  ghost predicate TakesSlash(pre: string) {
    exists i :: 0 <= i < |pre| && i + MatchLength((pre + "/")[i..]) == |pre| + 1
  }

  /** A text that the expression matches is a backend path, a slash and the rest. */
  lemma MatchSplit(s: string) returns (namespace: string, segment: string)
    requires MatchLength(s) > 0
    ensures PathSegment(namespace) && PathSegment(segment)
    ensures |ProxyPath(namespace, segment)| + 1 == MatchLength(s)
    ensures s == ProxyPath(namespace, segment) + ("/" + s[MatchLength(s)..])
  {
    namespace, segment := MatchIsBackend(s);
    TakeOff(s, MatchLength(s), ProxyPath(namespace, segment));
  }

  lemma TakeOff(s: string, n: nat, back: string)
    requires n <= |s| && s[..n] == back + "/"
    ensures n == |back| + 1 && s == back + ("/" + s[n..])
  {
    assert |s[..n]| == n;
    assert s == s[..n] + s[n..];
    assert (back + "/") + s[n..] == back + ("/" + s[n..]);
  }

  /** What is matched does not depend on what follows the match. */
  lemma MatchLocal(s: string, t: string)
    requires MatchLength(s) > 0
    ensures MatchLength(s + t) == MatchLength(s)
  {
    var namespace, segment := MatchSplit(s);
    var back, rest := ProxyPath(namespace, segment), s[MatchLength(s)..];
    assert s + t == back + ("/" + (rest + t));
    MatchBackend(namespace, segment, rest + t);
  }

  lemma MatchWithin(s: string, t: string)
    requires 0 < MatchLength(s + t) <= |s|
    ensures MatchLength(s) == MatchLength(s + t)
  {
    var n := MatchLength(s + t);
    var namespace, segment := MatchSplit(s + t);
    var back, rest := ProxyPath(namespace, segment), (s + t)[n..];
    assert (back + ("/" + rest))[..n] == back + "/";
    assert s[..n] == (s + t)[..n];
    TakeOff(s, n, back);
    MatchBackend(namespace, segment, s[n..]);
  }

  /** Where the parts of a match lie, character by character. */
  ghost predicate Laid(s: string, e1: nat, e2: nat) {
    && |NAMESPACES| < e1 && e1 + |SERVICES| < e2 && e2 + |PROXY| < |s|
    && (forall j :: 0 <= j < |NAMESPACES| ==> s[j] == NAMESPACES[j])
    && (forall j :: 0 <= j < |SERVICES| ==> s[e1 + j] == SERVICES[j])
    && (forall j :: 0 <= j < |PROXY| ==> s[e2 + j] == PROXY[j])
    && (forall j :: |NAMESPACES| <= j < e1 ==> s[j] != '/')
    && (forall j :: e1 + |SERVICES| <= j < e2 ==> s[j] != '/')
  }

  lemma PiecesLaid(s: string, e1: nat, e2: nat)
    requires |NAMESPACES| < e1 && e1 + |SERVICES| < e2 && e2 + |PROXY| < |s|
    requires s[..|NAMESPACES|] == NAMESPACES && '/' !in s[|NAMESPACES|..e1]
    requires s[e1..e1 + |SERVICES|] == SERVICES && '/' !in s[e1 + |SERVICES|..e2]
    requires s[e2..e2 + |PROXY|] == PROXY
    ensures Laid(s, e1, e2)
  {
    PieceLaid(s, 0, NAMESPACES);
    PieceLaid(s, e1, SERVICES);
    PieceLaid(s, e2, PROXY);
    forall j | |NAMESPACES| <= j < e1 ensures s[j] != '/' {
      assert s[|NAMESPACES|..e1][j - |NAMESPACES|] == s[j];
    }
    forall j | e1 + |SERVICES| <= j < e2 ensures s[j] != '/' {
      assert s[e1 + |SERVICES|..e2][j - e1 - |SERVICES|] == s[j];
    }
  }

  lemma PieceLaid(s: string, i: nat, piece: string)
    requires i + |piece| <= |s| && s[i..i + |piece|] == piece
    ensures forall j :: 0 <= j < |piece| ==> s[i + j] == piece[j]
  {
    forall j | 0 <= j < |piece| ensures s[i + j] == piece[j] {
      assert s[i..i + |piece|][j] == s[i + j];
    }
  }

  lemma MatchLaid(s: string) returns (e1: nat, e2: nat)
    requires MatchLength(s) > 0
    ensures Laid(s, e1, e2) && MatchLength(s) == e2 + |PROXY| + 1
  {
    e1, e2 := MatchParts(s);
    var end := s[e2..e2 + |PROXY| + 1];
    assert s[e2..e2 + |PROXY|] == end[..|PROXY|] == PROXY;
    PiecesLaid(s, e1, e2);
  }

  /** `/api/v1` does not stand at `k`. */
  predicate NotApi(s: string, k: nat) {
    k + 5 < |s| ==> s[k + 1] != 'a' || s[k + 4] != '/' || s[k + 5] != 'v'
  }

  lemma NamespacesSlash(s: string, e1: nat, e2: nat, k: nat)
    requires Laid(s, e1, e2) && 0 < k < e1 && s[k] == '/'
    ensures NotApi(s, k)
  {
    assert NAMESPACES[k] == '/';
    if k < |NAMESPACES| - 1 {
      assert s[k + 1] == NAMESPACES[k + 1];
    } else if k + 4 < e1 {
      assert s[k + 4] != '/';
    } else {
      assert s[k + 4] == s[e1 + (k + 4 - e1)] == SERVICES[k + 4 - e1];
      assert s[e1 + 1] == SERVICES[1];
    }
  }

  lemma ServicesSlash(s: string, e1: nat, e2: nat, k: nat)
    requires Laid(s, e1, e2) && e1 <= k < e2 && s[k] == '/'
    ensures NotApi(s, k)
  {
    var j := k - e1;
    assert j < |SERVICES| && s[e1 + j] == SERVICES[j];
    if j < |SERVICES| - 1 {
      assert s[e1 + (j + 1)] == SERVICES[j + 1];
    } else if k + 4 < e2 {
      assert s[k + 4] != '/';
    } else {
      assert s[k + 4] == s[e2 + (k + 4 - e2)] == PROXY[k + 4 - e2];
      assert s[e2 + 1] == PROXY[1];
    }
  }

  /** Inside a match, behind its start, no other one begins. */
  lemma SlashInMatch(s: string, k: nat)
    requires 0 < k < MatchLength(s) - 1 && s[k] == '/'
    ensures NotApi(s, k)
  {
    var e1, e2 := MatchLaid(s);
    if k < e1 {
      NamespacesSlash(s, e1, e2, k);
    } else if k < e2 {
      ServicesSlash(s, e1, e2, k);
    } else {
      assert s[e2 + (k - e2)] == PROXY[k - e2];
      assert s[e2 + 1] == PROXY[1];
    }
  }

  /** A match that starts in `pre` ends in it, or with the first slash of the backend path behind it. */
  lemma MatchEnds(pre: string, back: string, i: nat)
    requires i < |pre| && HasPrefix(back, NAMESPACES)
    ensures i + MatchLength((pre + back)[i..]) <= |pre| + 1
  {
    var s := (pre + back)[i..];
    var k := |pre| - i;
    forall j | 0 <= j < |NAMESPACES| ensures s[k + j] == NAMESPACES[j] {
      assert s[k + j] == back[j] == back[..|NAMESPACES|][j];
    }
    assert s[k + 0] == '/' && s[k + 1] == 'a' && s[k + 4] == '/' && s[k + 5] == 'v';
    if k < MatchLength(s) - 1 {
      SlashInMatch(s, k);
    }
  }

  lemma MatchInFront(pre: string, back: string, i: nat)
    requires i < |pre| && HasPrefix(back, NAMESPACES) && !TakesSlash(pre)
    ensures i + MatchLength((pre + back)[i..]) <= |pre|
  {
    MatchEnds(pre, back, i);
    var n := MatchLength((pre + back)[i..]);
    if i + n == |pre| + 1 {
      var short := (pre + "/")[i..];
      assert back[0] == back[..|NAMESPACES|][0] == '/';
      assert (pre + back)[i..] == short + back[1..];
      MatchWithin(short, back[1..]);
    }
  }

  /** Reading a text piece by piece, for any way of taking and replacing pieces. */
  function Chop(take: string -> nat, give: string -> char, s: string): string
    decreases |s|
  {
    if s == "" || !(0 < take(s) <= |s|) then "" else [give(s)] + Chop(take, give, s[take(s)..])
  }

  /** The piece at `i` in `a` is the same whether `b` follows or not, and ends in `a`. */
  predicate SamePiece(take: string -> nat, give: string -> char, a: string, b: string, i: int) {
    0 <= i < |a| ==>
      0 < take(a[i..]) <= |a| - i && take(a[i..] + b) == take(a[i..]) && give(a[i..] + b) == give(a[i..])
  }

  lemma {:induction false} ChopConcat(take: string -> nat, give: string -> char, a: string, b: string, k: nat)
    requires k <= |a| && forall i :: k <= i < |a| ==> SamePiece(take, give, a, b, i)
    ensures Chop(take, give, a[k..] + b) == Chop(take, give, a[k..]) + Chop(take, give, b)
    decreases |a| - k
  {
    var rest := a[k..];
    if k == |a| {
      assert rest + b == b;
    } else {
      assert SamePiece(take, give, a, b, k);
      var m := take(rest);
      ChopConcat(take, give, a, b, k + m);
      assert rest[m..] == a[k + m..] && (rest + b)[m..] == a[k + m..] + b;
    }
  }

  lemma {:induction false} StripIsChop(s: string)
    ensures StripProxy(s) == Chop(Taken, Given, s)
    decreases |s|
  {
    if s != "" {
      StripIsChop(s[Taken(s)..]);
    }
  }

  lemma PieceStays(a: string, b: string)
    requires a != "" && MatchLength(a + b) <= |a|
    ensures Taken(a + b) == Taken(a) && Given(a + b) == Given(a)
  {
    if MatchLength(a + b) > 0 {
      MatchWithin(a, b);
    } else if MatchLength(a) > 0 {
      MatchLocal(a, b);
    }
  }

  /** Stripping goes part by part where no match straddles the two. */
  lemma StripConcat(a: string, b: string)
    requires forall i :: 0 <= i < |a| ==> StaysIn(a, b, i)
    ensures StripProxy(a + b) == StripProxy(a) + StripProxy(b)
  {
    forall i | 0 <= i < |a| ensures SamePiece(Taken, Given, a, b, i) {
      assert StaysIn(a, b, i);
      PieceStays(a[i..], b);
    }
    ChopConcat(Taken, Given, a, b, 0);
    assert a[0..] == a;
    StripIsChop(a + b);
    StripIsChop(a);
    StripIsChop(b);
  }

  /** A match that starts at `i` in `a` does not reach into what follows. */
  predicate StaysIn(a: string, b: string, i: int) {
    0 <= i <= |a| ==> MatchLength(a[i..] + b) <= |a| - i
  }

  lemma SameParts(a: string, a': string, b: string, b': string)
    requires |a'| <= |a| && |b'| <= |b|
    ensures a' + b' == a + b <==> a' == a && b' == b
  {
    if a' + b' == a + b {
      assert |a'| == |a| && |b'| == |b|;
      assert a' == (a' + b')[..|a|] && b' == (a' + b')[|a|..];
      assert a == (a + b)[..|a|] && b == (a + b)[|a|..];
    }
  }

  /**
   A redirect to a path behind the backend path, with anything in front of it, loses exactly the backend path if and
   only if neither the front nor the path holds a further proxy segment.
   */
  lemma LocationRoundTrip(pre: string, namespace: string, segment: string, p: string)
    requires PathSegment(namespace) && PathSegment(segment) && p != "" && p[0] == '/' && !TakesSlash(pre)
    ensures ModifyLocation(pre + (ProxyPath(namespace, segment) + p)) == pre + p <==>
            NoProxySegment(pre) && NoProxySegment(p[1..])
  {
    var back, tail := ProxyPath(namespace, segment), p[1..];
    assert p == "/" + tail;
    BackendStart(namespace, segment, p);
    forall i | 0 <= i < |pre| ensures StaysIn(pre, back + p, i) {
      MatchInFront(pre, back + p, i);
      assert (pre + (back + p))[i..] == pre[i..] + (back + p);
    }
    StripConcat(pre, back + p);
    StripBackend(namespace, segment, tail);
    StripNothing(pre);
    StripNothing(tail);
    SameParts(pre, StripProxy(pre), p, "/" + StripProxy(tail));
    ConsEqual(p, StripProxy(tail));
  }

  lemma BackendStart(namespace: string, segment: string, p: string)
    ensures HasPrefix(ProxyPath(namespace, segment) + p, NAMESPACES)
  {
    assert (ProxyPath(namespace, segment) + p)[..|NAMESPACES|] == NAMESPACES;
  }

  lemma NoMatchAt(s: string, i: nat)
    requires i + 5 < |s| && NotApi(s, i)
    ensures MatchLength(s[i..]) == 0
  {
    var t := s[i..];
    assert t[1] == s[i + 1] && t[4] == s[i + 4] && t[5] == s[i + 5];
    if MatchLength(t) > 0 {
      MatchApi(t);
    }
  }

  lemma MatchApi(t: string)
    requires MatchLength(t) > 0
    ensures |t| > 7 && t[0] == '/' && t[1] == 'a' && t[4] == '/' && t[5] == 'v' && t[7] == '/'
  {
    var e1, e2 := MatchLaid(t);
    assert t[0] == NAMESPACES[0] && t[1] == NAMESPACES[1] && t[4] == NAMESPACES[4];
    assert t[5] == NAMESPACES[5] && t[7] == NAMESPACES[7];
  }

  /** Behind its first slash a backend path holds no match. */
  lemma NoneInside(namespace: string, segment: string, p: string, i: nat)
    requires PathSegment(namespace) && PathSegment(segment) && p != "" && p[0] == '/'
    requires 0 < i < |ProxyPath(namespace, segment)|
    ensures MatchLength((ProxyPath(namespace, segment) + p)[i..]) == 0
  {
    var s := ProxyPath(namespace, segment) + p;
    assert p == "/" + p[1..];
    MatchBackend(namespace, segment, p[1..]);
    if MatchLength(s[i..]) > 0 {
      MatchApi(s[i..]);
      assert s[i] == s[i..][0] && i + 5 < |s|;
      SlashInMatch(s, i);
      NoMatchAt(s, i);
    }
  }

  /** Of two backend paths that follow each other directly only the first is taken off, since it takes the slash of the second. */
  lemma FirstPathTaken(n1: string, s1: string, n2: string, s2: string, p: string)
    requires PathSegment(n1) && PathSegment(s1) && PathSegment(n2) && PathSegment(s2)
    requires p != "" && p[0] == '/' && NoProxySegment(p)
    ensures ModifyLocation(ProxyPath(n1, s1) + (ProxyPath(n2, s2) + p)) == ProxyPath(n2, s2) + p
  {
    var back := ProxyPath(n2, s2);
    var s := back + p;
    var tail := s[1..];
    assert s[0] == NAMESPACES[0];
    assert s == "/" + tail;
    StripBackend(n1, s1, tail);
    BehindSlash(n2, s2, p);
    StripNothing(tail);
  }

  lemma BehindSlash(namespace: string, segment: string, p: string)
    requires PathSegment(namespace) && PathSegment(segment) && p != "" && p[0] == '/' && NoProxySegment(p)
    ensures NoProxySegment((ProxyPath(namespace, segment) + p)[1..])
  {
    var back := ProxyPath(namespace, segment);
    var s := back + p;
    var tail := s[1..];
    forall i | 0 <= i < |tail| ensures MatchLength(tail[i..]) == 0 {
      assert tail[i..] == s[i + 1..];
      if i + 1 < |back| {
        NoneInside(namespace, segment, p, i + 1);
      } else {
        assert s[i + 1..] == p[i + 1 - |back|..];
      }
    }
  }

  /** Scheme and host in front of a location. */
  function Origin(scheme: string, host: string): string {
    scheme + "://" + host
  }

  /** An origin holds no proxy segment: it has too few slashes for one. */
  lemma OriginHoldsNone(scheme: string, host: string)
    requires '/' !in scheme && '/' !in host
    ensures NoProxySegment(Origin(scheme, host)) && !TakesSlash(Origin(scheme, host))
  {
    var pre := Origin(scheme, host);
    forall i | 0 <= i < |pre| ensures MatchLength((pre + "/")[i..]) == 0 && MatchLength(pre[i..]) == 0 {
      FewSlashes(scheme, host, i);
      assert pre[i..] + "/" == (pre + "/")[i..];
      if MatchLength(pre[i..]) > 0 {
        MatchLocal(pre[i..], "/");
      }
    }
  }

  lemma FewSlashes(scheme: string, host: string, i: nat)
    requires '/' !in scheme && '/' !in host && i < |Origin(scheme, host)|
    ensures MatchLength((Origin(scheme, host) + "/")[i..]) == 0
  {
    var s := Origin(scheme, host) + "/";
    var t := s[i..];
    var a := |scheme| + 1;
    assert forall j :: 0 <= j < |s| && s[j] == '/' ==> j == a || j == a + 1 || j == |s| - 1;
    assert forall j :: 0 <= j < |t| ==> t[j] == s[i + j];
    if MatchLength(t) > 0 {
      MatchApi(t);
    }
  }

  /** Stripping a location behind a backend path takes that path off and goes on after the slash. */
  lemma StripBackend(namespace: string, segment: string, tail: string)
    requires PathSegment(namespace) && PathSegment(segment)
    ensures StripProxy(ProxyPath(namespace, segment) + ("/" + tail)) == "/" + StripProxy(tail)
  {
    var back := ProxyPath(namespace, segment);
    MatchBackend(namespace, segment, tail);
    assert (back + ("/" + tail))[|back| + 1..] == tail;
  }

  lemma RedirectsBack(api: Url, namespace: string, segment: string, p: string)
    requires PathSegment(namespace) && PathSegment(segment) && p != "" && p[0] == '/' && NoProxySegment(p[1..])
    ensures ModifyLocation(ProxyPath(namespace, segment) + p) == p
    ensures '/' !in api.scheme && '/' !in api.host ==>
              ModifyLocation(Origin(api.scheme, api.host) + (ProxyPath(namespace, segment) + p)) == Origin(api.scheme, api.host) + p
  {
    LocationRoundTrip("", namespace, segment, p);
    assert "" + (ProxyPath(namespace, segment) + p) == ProxyPath(namespace, segment) + p && "" + p == p;
    if '/' !in api.scheme && '/' !in api.host {
      OriginHoldsNone(api.scheme, api.host);
      LocationRoundTrip(Origin(api.scheme, api.host), namespace, segment, p);
    }
  }

  /**
   End to end: after any run whose last effective pass for a routable cluster saw the service under its exposed
   URL, a request for path `p` on that host goes to the backend path followed by `p`, and a redirect to that
   location reaches the client as `p`, also with the API server's scheme and host in front.
   */
  lemma EndToEnd(
    h: seq<Input>, k: int, i: int, cluster: string, hash: string, namespace: string, domain: string, p: string)
    requires IsHash(hash) && Routable(cluster)
    requires LastEffective(h, cluster, k) && Updates(h[k])
    requires LastExposes(h[k].plugins.value, cluster, UrlFor(cluster, hash, namespace, domain), i)
    requires var svc := h[k].plugins.value[i].exposed[UrlFor(cluster, hash, namespace, domain)];
             && PathSegment(svc.namespace) && '/' !in svc.name
             && !HasPrefix(p, BackendPath(svc))
    requires p != "" && p[0] == '/' && NoProxySegment(p[1..])
    ensures var svc := h[k].plugins.value[i].exposed[UrlFor(cluster, hash, namespace, domain)];
            var api := h[k].connection.value.1;
            var out := Rewrite(Run(h), HostFor(cluster, hash, namespace, domain), p);
            && out.Some? && out.value.cluster == cluster && out.value.url.scheme == api.scheme && out.value.url.host == api.host
            && (exists path :: Addresses(path, svc) && out.value.url.path == path + p)
            && ModifyLocation(out.value.url.path) == p
            && ('/' !in api.scheme && '/' !in api.host ==>
                ModifyLocation(Origin(api.scheme, api.host) + out.value.url.path) == Origin(api.scheme, api.host) + p)
  {
    var url := UrlFor(cluster, hash, namespace, domain);
    var svc := h[k].plugins.value[i].exposed[url];
    RunTables(h, cluster);
    TableValue(h[k].plugins.value, cluster, h[k].connection.value.1, url, i);
    ClusterRoundTrip(cluster, hash, namespace, domain);
    SegmentIsPathSegment(svc);
    RedirectsBack(h[k].connection.value.1, svc.namespace, Segment(svc), p);
    BackendAddresses(svc);
    assert BackendPath(svc)[|BackendPath(svc)| - 1] == PROXY[|PROXY| - 1];
  }

  // --- tables filed under other keys, for debugging ---

  /** One of the `urls` of the plugin is that of a service and is filed under `k`. */
  predicate FiledBy(p: Plugin, key: string -> string, urls: set<string>, k: string, url: string) {
    url in urls && url in p.exposed && p.exposed[url].stype == "service" && key(url) == k
  }

  /** Adding the `urls` of a plugin: a key they are filed under gets one of their routes, any other keeps what it had. */
  ghost predicate Adds(
    before: map<string, Route>, after: map<string, Route>, p: Plugin, api: Url, key: string -> string, urls: set<string>)
  {
    forall k: string ::
      if exists url :: FiledBy(p, key, urls, k, url)
      then k in after && exists url :: FiledBy(p, key, urls, k, url) && after[k] == RouteFor(api, p.exposed[url])
      else Kept(before, after, k)
  }

  predicate Kept(before: map<string, Route>, after: map<string, Route>, k: string) {
    (k in after <==> k in before) && (k in after ==> after[k] == before[k])
  }

  lemma AddsNothing(routes: map<string, Route>, p: Plugin, api: Url, key: string -> string)
    ensures Adds(routes, routes, p, api, key, {})
  {
  }

  lemma AddsOne(before: map<string, Route>, routes: map<string, Route>, p: Plugin, api: Url, key: string -> string, urls: set<string>, url: string)
    requires Adds(before, routes, p, api, key, urls) && url in p.exposed
    ensures p.exposed[url].stype == "service" ==>
              Adds(before, routes[key(url) := RouteFor(api, p.exposed[url])], p, api, key, urls + {url})
    ensures p.exposed[url].stype != "service" ==> Adds(before, routes, p, api, key, urls + {url})
  {
    var more := urls + {url};
    var after := if p.exposed[url].stype == "service" then routes[key(url) := RouteFor(api, p.exposed[url])] else routes;
    forall k: string
      ensures if exists u :: FiledBy(p, key, more, k, u)
              then k in after && exists u :: FiledBy(p, key, more, k, u) && after[k] == RouteFor(api, p.exposed[u])
              else Kept(before, after, k)
    {
      FiledMore(p, key, urls, url, k);
      if FiledBy(p, key, more, k, url) {
        assert after[k] == RouteFor(api, p.exposed[url]);
      } else if exists u :: FiledBy(p, key, urls, k, u) {
        var u :| FiledBy(p, key, urls, k, u) && routes[k] == RouteFor(api, p.exposed[u]);
        assert FiledBy(p, key, more, k, u);
      } else {
        assert Kept(before, routes, k);
      }
    }
  }

  lemma FiledMore(p: Plugin, key: string -> string, urls: set<string>, url: string, k: string)
    ensures forall u :: FiledBy(p, key, urls + {url}, k, u) <==> FiledBy(p, key, urls, k, u) || (u == url && FiledBy(p, key, {url}, k, u))
  {
  }

  predicate RouteOf(routes: map<string, Route>, k: string, r: Option<Route>) {
    r == if k in routes then Some(routes[k]) else None
  }

  /** What may be filed under `k`: a route of the last plugin that files a service there, nothing if there is none. */
  ghost predicate MayHold(plugins: seq<Plugin>, api: Url, key: string -> string, k: string, r: Option<Route>) {
    if plugins == [] then r == None
    else
      var p := plugins[|plugins| - 1];
      if exists url :: FiledBy(p, key, p.exposed.Keys, k, url)
      then exists url :: FiledBy(p, key, p.exposed.Keys, k, url) && r == Some(RouteFor(api, p.exposed[url]))
      else MayHold(plugins[..|plugins| - 1], api, key, k, r)
  }

  ghost predicate Indexed(routes: map<string, Route>, plugins: seq<Plugin>, api: Url, key: string -> string) {
    forall k, r :: RouteOf(routes, k, r) ==> MayHold(plugins, api, key, k, r)
  }

  lemma IndexedMore(
    routes: map<string, Route>, after: map<string, Route>, plugins: seq<Plugin>, p: Plugin, api: Url, key: string -> string)
    requires Indexed(routes, plugins, api, key) && Adds(routes, after, p, api, key, p.exposed.Keys)
    ensures Indexed(after, plugins + [p], api, key)
  {
    var all := plugins + [p];
    assert all[|all| - 1] == p && all[..|all| - 1] == plugins;
    forall k, r | RouteOf(after, k, r) ensures MayHold(all, api, key, k, r) {
      if !exists url :: FiledBy(p, key, p.exposed.Keys, k, url) {
        assert Kept(routes, after, k) && RouteOf(routes, k, r);
      }
    }
  }

  // --- the manager as the source runs it ---

  class ProxyManager {
    var clusters: Clusters
    const dnsDomain: string
    const debugHost: string

    constructor (dnsDomain: string, debugHost: string)
      ensures clusters == map[] && this.dnsDomain == dnsDomain && this.debugHost == debugHost
    {
      clusters, this.dnsDomain, this.debugHost := map[], dnsDomain, debugHost;
    }

    predicate Debugging() {
      debugHost != "" && dnsDomain != ""
    }

    /** The key under which the manager files a URL. */
    function Key(url: string): string {
      if Debugging() then ReplaceAll(url, dnsDomain, debugHost) else url
    }

    method PluginsForCluster(items: seq<Plugin>, cluster: string) returns (configs: seq<Plugin>)
      ensures configs == Filtered(items, cluster)
      ensures forall p :: p in configs <==> p in items && !p.deleting && p.clusterName == cluster
    {
      configs := [];
      for n := 0 to |items|
        invariant configs == Filtered(items[..n], cluster)
        invariant forall p :: p in configs <==> p in items[..n] && !p.deleting && p.clusterName == cluster
      {
        assert items[..n + 1] == items[..n] + [items[n]];
        assert items[..n + 1][..n] == items[..n];
        if items[n].deleting {
          continue;
        }
        if items[n].clusterName == cluster {
          configs := configs + [items[n]];
        }
      }
      assert items[..|items|] == items;
    }

    /** Adds the routes of one plugin; its exposed services come in any order. */
    method AddRoutes(p: Plugin, api: Url, before: map<string, Route>) returns (routes: map<string, Route>)
      ensures Adds(before, routes, p, api, Key, p.exposed.Keys)
      ensures !Debugging() ==> routes == before + PluginRoutes(p, api)
    {
      routes := before;
      AddsNothing(routes, p, api, Key);
      var rest := p.exposed.Keys;
      ghost var done: set<string> := {};
      assert before + RoutesOf(p, api, done) == before;
      while rest != {}
        invariant rest <= p.exposed.Keys && done == p.exposed.Keys - rest
        invariant Adds(before, routes, p, api, Key, done)
        invariant !Debugging() ==> routes == before + RoutesOf(p, api, done)
        decreases rest
      {
        var url :| url in rest;
        var svc := p.exposed[url];
        var key := url;
        if Debugging() {
          key := ReplaceAll(url, dnsDomain, debugHost);
        }
        AddRoute(before, p, api, done, url);
        AddsOne(before, routes, p, api, Key, done, url);
        if svc.stype == "service" {
          routes := routes[key := RouteFor(api, svc)];
        }
        rest := rest - {url};
        done := done + {url};
      }
      assert done == p.exposed.Keys;
    }

    /** The routes of all plugins, each plugin's services in any order. */
    method IndexRoutes(plugins: seq<Plugin>, api: Url) returns (routes: map<string, Route>)
      ensures Indexed(routes, plugins, api, Key)
      ensures !Debugging() ==> routes == AllRoutes(plugins, api)
    {
      routes := map[];
      for n := 0 to |plugins|
        invariant Indexed(routes, plugins[..n], api, Key)
        invariant !Debugging() ==> routes == AllRoutes(plugins[..n], api)
      {
        assert plugins[..n + 1][..n] == plugins[..n];
        assert plugins[..n + 1] == plugins[..n] + [plugins[n]];
        ghost var before := routes;
        routes := AddRoutes(plugins[n], api, routes);
        IndexedMore(before, routes, plugins[..n], plugins[n], api, Key);
      }
      assert plugins[..|plugins|] == plugins;
    }

    /**
     One pass. With no debug host the new table is the one read directly off the plugin list; with one it is the table
     filed under the replaced URLs, where of two services with the same key that of the later plugin counts.
     */
    method Reconcile(i: Input)
      modifies this`clusters
      ensures !Debugging() || !Updates(i) ==> clusters == Step(old(clusters), i)
      ensures Updates(i) ==>
                && i.name in clusters && clusters[i.name].transport == i.connection.value.0
                && Indexed(clusters[i.name].routes, Filtered(i.plugins.value, i.name), i.connection.value.1, Key)
      ensures clusters - {i.name} == old(clusters) - {i.name}
    {
      if i.secret.GetError? {
        return;
      }
      if i.secret.NotFound? || i.secret.deleting {
        clusters := clusters - {i.name};
        return;
      }
      if i.connection.None? {
        return;
      }
      var (transport, api) := i.connection.value;
      if i.plugins.None? {
        return;
      }
      var plugins := PluginsForCluster(i.plugins.value, i.name);
      var routes := IndexRoutes(plugins, api);
      FilteredTable(i.plugins.value, i.name, api);
      clusters := clusters[i.name := ClusterRoutes(transport, routes)];
    }

    /** The outgoing request, or none when the host or its route is unknown. */
    method RewriteRequest(host: string, path: string) returns (out: Option<Outgoing>)
      ensures out == Rewrite(clusters, host, path)
    {
      var cluster := ExtractCluster(host);
      if cluster.Err? {
        return None;
      }
      var route := GetClusterRoute(clusters, cluster.value, HTTPS + host);
      if route.None? {
        return None;
      }
      var up := route.value.url;
      var outPath := path;
      if !HasPrefix(outPath, up.path) {
        outPath := TrimSlash(up.path) + outPath;
      }
      return Some(Outgoing(Url(up.scheme, up.host, outPath), cluster.value));
    }
  }

  lemma AddRoute(before: map<string, Route>, p: Plugin, api: Url, done: set<string>, url: string)
    requires url in p.exposed
    ensures before + RoutesOf(p, api, done + {url}) ==
            if p.exposed[url].stype == "service" then (before + RoutesOf(p, api, done))[url := RouteFor(api, p.exposed[url])]
            else before + RoutesOf(p, api, done)
  {
  }

  function Filtered(items: seq<Plugin>, cluster: string): seq<Plugin> {
    if items == [] then []
    else Filtered(items[..|items| - 1], cluster) + (if Relevant(items[|items| - 1], cluster) then [items[|items| - 1]] else [])
  }

  function AllRoutes(plugins: seq<Plugin>, api: Url): map<string, Route> {
    if plugins == [] then map[]
    else AllRoutes(plugins[..|plugins| - 1], api) + PluginRoutes(plugins[|plugins| - 1], api)
  }

  lemma AllRoutesSnoc(plugins: seq<Plugin>, p: Plugin, api: Url)
    ensures AllRoutes(plugins + [p], api) == AllRoutes(plugins, api) + PluginRoutes(p, api)
  {
    assert (plugins + [p])[..|plugins|] == plugins;
  }

  /** Filtering first and indexing afterwards gives the table of the whole list. */
  lemma {:induction false} FilteredTable(items: seq<Plugin>, cluster: string, api: Url)
    ensures AllRoutes(Filtered(items, cluster), api) == Table(items, cluster, api)
  {
    if items != [] {
      var most, p := items[..|items| - 1], items[|items| - 1];
      FilteredTable(most, cluster, api);
      if Relevant(p, cluster) {
        AllRoutesSnoc(Filtered(most, cluster), p, api);
      } else {
        assert Filtered(items, cluster) == Filtered(most, cluster);
        assert Table(items, cluster, api) == Table(most, cluster, api);
      }
    }
  }
}
