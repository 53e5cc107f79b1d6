/**
 The host name under which a plugin's service is exposed, and the recovery of the cluster from a host.

 The SHA-256 part is a parameter: the first seven characters of a hexadecimal digest.
 */
module ExposedUrl {
  import opened Options
  import opened StringOps

  const HTTPS := "https://"

  predicate IsHash(h: string) {
    |h| == 7 && forall i :: 0 <= i < 7 ==> '0' <= h[i] <= '9' || 'a' <= h[i] <= 'f'
  }

  /** The first DNS label: cluster, two dashes, hash. */
  function Label(cluster: string, hash: string): string {
    cluster + "--" + hash
  }

  function HostFor(cluster: string, hash: string, namespace: string, domain: string): string {
    Label(cluster, hash) + "." + (namespace + "." + domain)
  }

  function UrlFor(cluster: string, hash: string, namespace: string, domain: string): string {
    HTTPS + HostFor(cluster, hash, namespace, domain)
  }

  predicate DashesAt(s: string, i: int) {
    0 <= i && i + 1 < |s| && s[i] == '-' && s[i + 1] == '-'
  }

  /** The first two dashes at or after `i`, or the end. */
  function DashesFrom(s: string, i: nat): (k: nat)
    requires i <= |s|
    ensures i <= k <= |s| && (k < |s| ==> DashesAt(s, k)) && forall j :: i <= j < k ==> !DashesAt(s, j)
    decreases |s| - i
  {
    if i == |s| || DashesAt(s, i) then i else DashesFrom(s, i + 1)
  }

  function ExtractCluster(host: string): Result<string> {
    if HasPrefix(host, HTTPS) then Err("no protocol expected")
    else
      var dot := IndexFrom(host, '.', 0);
      if dot == |host| then Err("invalid host")
      else
        var first := host[..dot];
        var dashes := DashesFrom(first, 0);
        if dashes == |first| then Err("invalid host") else Ok(first[..dashes])
  }

  /** No dot, no two dashes in a row, no dash at the end, and no protocol in front. */
  predicate Routable(cluster: string) {
    && !HasPrefix(cluster, HTTPS)
    && '.' !in cluster
    && forall i :: 0 <= i < |cluster| ==> !DashesAt(cluster + "-", i)
  }

  lemma ProtocolInFront(cluster: string, rest: string)
    ensures HasPrefix(cluster + "--" + rest, HTTPS) <==> HasPrefix(cluster, HTTPS)
  {
    var s := cluster + "--" + rest;
    if |cluster| < |HTTPS| {
      assert s[|cluster|] == '-' && HTTPS[|cluster|] != '-';
      if |HTTPS| <= |s| {
        assert s[..|HTTPS|][|cluster|] == s[|cluster|];
      }
    } else {
      assert s[..|HTTPS|] == cluster[..|HTTPS|];
    }
  }

  /** The first two dashes of a label stand right after the cluster, unless the cluster supplies earlier ones. */
  lemma DashesOfLabel(cluster: string, hash: string)
    ensures var k := DashesFrom(Label(cluster, hash), 0);
            k <= |cluster| && (k == |cluster| <==> forall i :: 0 <= i < |cluster| ==> !DashesAt(cluster + "-", i))
  {
    var s := Label(cluster, hash);
    assert DashesAt(s, |cluster|);
    forall i | 0 <= i < |cluster| ensures DashesAt(s, i) <==> DashesAt(cluster + "-", i) {
    }
  }

  lemma DotOfHost(cluster: string, hash: string, rest: string)
    requires IsHash(hash)
    ensures var host := Label(cluster, hash) + "." + rest;
            && IndexFrom(host, '.', 0) < |host|
            && (if '.' in cluster then IndexFrom(host, '.', 0) < |cluster| else host[..IndexFrom(host, '.', 0)] == Label(cluster, hash))
  {
    var first := Label(cluster, hash);
    var host := first + "." + rest;
    assert host[|first|] == '.';
    assert forall i :: 0 <= i < |first| ==> host[i] == first[i];
    if '.' in cluster {
      var i :| 0 <= i < |cluster| && cluster[i] == '.';
      assert host[i] == '.';
    } else {
      forall i | 0 <= i < |first| ensures first[i] != '.' {
        assert first[i] == if i < |cluster| then cluster[i] else if i < |cluster| + 2 then '-' else hash[i - |cluster| - 2];
      }
    }
  }

  /**
   The host of a generated URL parses back to its cluster exactly when the cluster name is routable. Then its first label
   fits the 63 octets of section 2.3.4 of RFC 1035 exactly up to 54 characters of cluster name.
   */
  lemma ClusterRoundTrip(cluster: string, hash: string, namespace: string, domain: string)
    requires IsHash(hash)
    ensures ExtractCluster(HostFor(cluster, hash, namespace, domain)) == Ok(cluster) <==> Routable(cluster)
    ensures Routable(cluster) ==>
              (IndexFrom(HostFor(cluster, hash, namespace, domain), '.', 0) <= 63 <==> |cluster| <= 54)
  {
    var rest := namespace + "." + domain;
    var host := HostFor(cluster, hash, namespace, domain);
    assert host == cluster + "--" + (hash + "." + rest);
    ProtocolInFront(cluster, hash + "." + rest);
    DotOfHost(cluster, hash, rest);
    DashesOfLabel(cluster, hash);
    var dot := IndexFrom(host, '.', 0);
    if '.' !in cluster {
      assert Label(cluster, hash)[..|cluster|] == cluster;
    }
  }

  /**
   The parts of a generated URL: https, then the host. Up to its first dot the host is the cluster, two dashes and the
   hash; then come the namespace, up to the next dot, and the domain.
   */
  lemma UrlParts(cluster: string, hash: string, namespace: string, domain: string)
    requires IsHash(hash) && '.' !in cluster && '.' !in namespace
    ensures UrlFor(cluster, hash, namespace, domain) == "https://" + HostFor(cluster, hash, namespace, domain)
    ensures var host := HostFor(cluster, hash, namespace, domain);
            var dot := IndexFrom(host, '.', 0);
            && dot < |host| && host[..dot] == cluster + "--" + hash
            && var next := IndexFrom(host, '.', dot + 1);
            && next < |host| && host[dot + 1..next] == namespace && host[next + 1..] == domain
  {
    var host, first := HostFor(cluster, hash, namespace, domain), Label(cluster, hash);
    DotOfHost(cluster, hash, namespace + "." + domain);
    var dot := |first|;
    assert host[..dot] == first;
    forall j | dot + 1 <= j < dot + 1 + |namespace| ensures host[j] != '.' {
      assert host[j] == namespace[j - dot - 1];
    }
    assert host[dot + 1 + |namespace|] == '.';
  }

  /**
   A host yields a cluster exactly when the cluster stands in front of the host's first two dashes, these lie
   before the first dot, and there is a dot but no protocol.
   */
  lemma ExtractExactly(host: string, cluster: string)
    ensures ExtractCluster(host) == Ok(cluster) <==>
            && !HasPrefix(host, HTTPS) && HasPrefix(host, cluster)
            && DashesAt(host, |cluster|) && (forall i :: 0 <= i < |cluster| ==> !DashesAt(host, i))
            && (forall i :: 0 <= i < |cluster| + 2 ==> host[i] != '.')
            && exists i :: |cluster| + 2 <= i < |host| && host[i] == '.'
  {
    var dot := IndexFrom(host, '.', 0);
    var first := host[..dot];
    assert forall i :: 0 <= i < |first| ==> first[i] == host[i];
    assert forall i :: 0 <= i && i + 1 < dot ==> (DashesAt(first, i) <==> DashesAt(host, i));
    var k := DashesFrom(first, 0);
    if ExtractCluster(host) == Ok(cluster) {
      assert cluster == first[..k] == host[..k];
      assert host[dot] == '.';
    }
    if && !HasPrefix(host, HTTPS) && HasPrefix(host, cluster)
       && DashesAt(host, |cluster|) && (forall i :: 0 <= i < |cluster| ==> !DashesAt(host, i))
       && (forall i :: 0 <= i < |cluster| + 2 ==> host[i] != '.')
       && exists i :: |cluster| + 2 <= i < |host| && host[i] == '.' {
      assert |cluster| + 2 <= dot < |host|;
      assert DashesAt(first, |cluster|);
      assert k == |cluster|;
      assert first[..k] == host[..k];
    }
  }
}
