/**
 Group claims and authorization: the claims the identity provider connector derives from an organization's teams,
 and the webhook's decision on them. The two sit in different programs and agree only through the claim text.
 */
module Authorization {
  import opened Options
  import opened StringOps

  const LABEL_PREFIX := "greenhouse.sap/"
  const SUPPORT_GROUP := "greenhouse.sap/support-group"
  const OWNED_BY := "greenhouse.sap/owned-by"
  const CLAIM := "support-group:"

  datatype Team = Team(name: string, mappedIdpGroup: string, labels: map<string, string>)

  // --- the claims of a team ---

  function LabelClaim(key: string, name: string): string
    requires HasPrefix(key, LABEL_PREFIX)
  {
    key[|LABEL_PREFIX|..] + ":" + name
  }

  function LabelClaims(t: Team, keys: set<string>): set<string> {
    set k | k in keys && HasPrefix(k, LABEL_PREFIX) :: LabelClaim(k, t.name)
  }

  function TeamClaims(t: Team): set<string> {
    {"team:" + t.name} + LabelClaims(t, t.labels.Keys)
  }

  /** The claims of all teams mapped to an upstream group. */
  function MappedClaims(teams: seq<Team>, group: string): set<string> {
    if teams == [] then {}
    else
      var t := teams[|teams| - 1];
      MappedClaims(teams[..|teams| - 1], group) + (if t.mappedIdpGroup == group then TeamClaims(t) else {})
  }

  function GroupClaims(org: string, teams: seq<Team>, admins: string, group: string): set<string> {
    MappedClaims(teams, group) + (if group == admins then {"role:" + org + ":admin"} else {})
  }

  function UpstreamClaims(org: string, teams: seq<Team>, admins: string, upstream: seq<string>): set<string> {
    if upstream == [] then {}
    else UpstreamClaims(org, teams, admins, upstream[..|upstream| - 1]) + GroupClaims(org, teams, admins, upstream[|upstream| - 1])
  }

  function Claims(org: string, teams: seq<Team>, admins: string, upstream: seq<string>, keep: bool): set<string> {
    {"organization:" + org} + UpstreamClaims(org, teams, admins, upstream) + (if keep then Elements(upstream) else {})
  }

  // --- who gets which claim ---

  /** A claim a team gives its members: its name, and its name behind each of its Greenhouse label keys. */
  ghost predicate GivenBy(t: Team, claim: string) {
    claim == "team:" + t.name || exists key :: "greenhouse.sap/" + key in t.labels && claim == key + ":" + t.name
  }

  lemma TeamClaimsExactly(t: Team, claim: string)
    ensures claim in TeamClaims(t) <==> GivenBy(t, claim)
  {
    forall key | "greenhouse.sap/" + key in t.labels && claim == key + ":" + t.name ensures claim in TeamClaims(t) {
      var k := LABEL_PREFIX + key;
      assert k[..|LABEL_PREFIX|] == LABEL_PREFIX && k[|LABEL_PREFIX|..] == key;
      assert LabelClaim(k, t.name) in LabelClaims(t, t.labels.Keys);
    }
    if claim in LabelClaims(t, t.labels.Keys) {
      var k :| k in t.labels && HasPrefix(k, LABEL_PREFIX) && claim == LabelClaim(k, t.name);
      assert k == "greenhouse.sap/" + k[|LABEL_PREFIX|..];
    }
  }

  lemma {:induction false} MappedClaimsExactly(teams: seq<Team>, group: string, claim: string)
    ensures claim in MappedClaims(teams, group) <==>
            exists j :: 0 <= j < |teams| && teams[j].mappedIdpGroup == group && GivenBy(teams[j], claim)
  {
    if teams != [] {
      var n := |teams| - 1;
      MappedClaimsExactly(teams[..n], group, claim);
      TeamClaimsExactly(teams[n], claim);
      assert forall j :: 0 <= j < n ==> teams[..n][j] == teams[j];
      if claim in MappedClaims(teams[..n], group) {
        var j :| 0 <= j < n && teams[..n][j].mappedIdpGroup == group && GivenBy(teams[..n][j], claim);
        assert GivenBy(teams[j], claim);
      }
    }
  }

  /** Some team that is mapped to one of the upstream groups gives the claim. */
  ghost predicate TeamGives(teams: seq<Team>, upstream: seq<string>, claim: string) {
    exists j :: 0 <= j < |teams| && teams[j].mappedIdpGroup in upstream && GivenBy(teams[j], claim)
  }

  lemma TeamGivesMore(teams: seq<Team>, upstream: seq<string>, group: string, claim: string)
    ensures TeamGives(teams, upstream + [group], claim) <==>
            TeamGives(teams, upstream, claim)
            || exists j :: 0 <= j < |teams| && teams[j].mappedIdpGroup == group && GivenBy(teams[j], claim)
  {
    if TeamGives(teams, upstream, claim) {
      var j :| 0 <= j < |teams| && teams[j].mappedIdpGroup in upstream && GivenBy(teams[j], claim);
      assert teams[j].mappedIdpGroup in upstream + [group];
    }
    if j :| 0 <= j < |teams| && teams[j].mappedIdpGroup == group && GivenBy(teams[j], claim) {
      assert teams[j].mappedIdpGroup in upstream + [group];
    }
  }

  lemma {:induction false} UpstreamClaimsExactly(org: string, teams: seq<Team>, admins: string, upstream: seq<string>, claim: string)
    ensures claim in UpstreamClaims(org, teams, admins, upstream) <==>
            TeamGives(teams, upstream, claim) || (admins in upstream && claim == "role:" + org + ":admin")
  {
    if upstream != [] {
      var n := |upstream| - 1;
      var most, g := upstream[..n], upstream[n];
      UpstreamClaimsExactly(org, teams, admins, most, claim);
      MappedClaimsExactly(teams, g, claim);
      TeamGivesMore(teams, most, g, claim);
      assert upstream == most + [g];
    }
  }

  /**
   The claims of a user: the organization; what the teams mapped to upstream groups give; the admin role for members of the
   admin group; and the upstream groups themselves if they are kept. Nothing else.
   */
  ghost predicate Deserves(org: string, teams: seq<Team>, admins: string, upstream: seq<string>, keep: bool, claim: string) {
    || claim == "organization:" + org
    || TeamGives(teams, upstream, claim)
    || (admins in upstream && claim == "role:" + org + ":admin")
    || (keep && claim in upstream)
  }

  lemma ClaimsExactly(org: string, teams: seq<Team>, admins: string, upstream: seq<string>, keep: bool, claim: string)
    ensures claim in Claims(org, teams, admins, upstream, keep) <==> Deserves(org, teams, admins, upstream, keep, claim)
  {
    UpstreamClaimsExactly(org, teams, admins, upstream, claim);
    assert claim in Elements(upstream) <==> claim in upstream;
  }

  // --- which claims name a support group ---

  /** A team of that name is labelled as a support group and mapped to the upstream group. */
  predicate SupportTeam(teams: seq<Team>, name: string, group: string) {
    exists i :: 0 <= i < |teams| && SupportTeamAt(teams[i], name, group)
  }

  predicate SupportTeamAt(t: Team, name: string, group: string) {
    t.name == name && t.mappedIdpGroup == group && SUPPORT_GROUP in t.labels
  }

  /** Label keys hold no colon, as Kubernetes demands. */
  ghost predicate PlainKeys(teams: seq<Team>) {
    forall i :: 0 <= i < |teams| ==> PlainTeam(teams[i])
  }

  ghost predicate PlainTeam(t: Team) {
    forall k :: k in t.labels ==> ':' !in k
  }

  lemma LabelClaimIsSupport(key: string, name: string, team: string)
    requires HasPrefix(key, LABEL_PREFIX) && ':' !in key
    ensures LabelClaim(key, name) == CLAIM + team <==> key == SUPPORT_GROUP && name == team
  {
    var after := key[|LABEL_PREFIX|..];
    assert key == LABEL_PREFIX + after;
    assert SUPPORT_GROUP == LABEL_PREFIX + "support-group" && CLAIM == "support-group" + ":";
    assert CLAIM + team == "support-group" + ":" + team;
    assert after == "support-group" <==> key == SUPPORT_GROUP by {
      assert SUPPORT_GROUP[|LABEL_PREFIX|..] == "support-group";
    }
    SplitsOnce(':', after, name, "support-group", team);
  }

  lemma TeamClaimIsSupport(t: Team, team: string)
    requires PlainTeam(t)
    ensures CLAIM + team in TeamClaims(t) <==> SUPPORT_GROUP in t.labels && t.name == team
  {
    assert (CLAIM + team)[0] == 's' && ("team:" + t.name)[0] == 't';
    assert HasPrefix(SUPPORT_GROUP, LABEL_PREFIX);
    forall k | k in t.labels && HasPrefix(k, LABEL_PREFIX)
      ensures LabelClaim(k, t.name) == CLAIM + team <==> k == SUPPORT_GROUP && t.name == team
    {
      LabelClaimIsSupport(k, t.name, team);
    }
  }

  lemma {:induction false} MappedClaimIsSupport(teams: seq<Team>, group: string, team: string)
    requires PlainKeys(teams)
    ensures CLAIM + team in MappedClaims(teams, group) <==> SupportTeam(teams, team, group)
  {
    if teams != [] {
      var most, t := teams[..|teams| - 1], teams[|teams| - 1];
      MappedClaimIsSupport(most, group, team);
      TeamClaimIsSupport(t, team);
      SupportTeamSnoc(most, t, team, group);
      assert teams == most + [t];
    }
  }

  lemma SupportTeamSnoc(teams: seq<Team>, t: Team, name: string, group: string)
    ensures SupportTeam(teams + [t], name, group) <==> SupportTeam(teams, name, group) || SupportTeamAt(t, name, group)
  {
    var all := teams + [t];
    assert all[|teams|] == t && forall i :: 0 <= i < |teams| ==> all[i] == teams[i];
  }

  lemma {:induction false} UpstreamClaimIsSupport(org: string, teams: seq<Team>, admins: string, upstream: seq<string>, team: string)
    requires PlainKeys(teams)
    ensures CLAIM + team in UpstreamClaims(org, teams, admins, upstream) <==>
            exists i :: 0 <= i < |upstream| && SupportTeam(teams, team, upstream[i])
  {
    if upstream != [] {
      var n := |upstream| - 1;
      UpstreamClaimIsSupport(org, teams, admins, upstream[..n], team);
      MappedClaimIsSupport(teams, upstream[n], team);
      assert (CLAIM + team)[0] == 's' && ("role:" + org + ":admin")[0] == 'r';
      assert forall i :: 0 <= i < n ==> upstream[..n][i] == upstream[i];
      if i :| 0 <= i < n && SupportTeam(teams, team, upstream[..n][i]) {
        assert SupportTeam(teams, team, upstream[i]);
      }
    }
  }

  /** A user claims a support group exactly through a mapped team, or by an upstream group of that text that is kept. */
  lemma ClaimIsSupport(org: string, teams: seq<Team>, admins: string, upstream: seq<string>, keep: bool, team: string)
    requires PlainKeys(teams)
    ensures CLAIM + team in Claims(org, teams, admins, upstream, keep) <==>
            || (exists i :: 0 <= i < |upstream| && SupportTeam(teams, team, upstream[i]))
            || (keep && CLAIM + team in upstream)
  {
    UpstreamClaimIsSupport(org, teams, admins, upstream, team);
    assert (CLAIM + team)[0] == 's' && ("organization:" + org)[0] == 'o';
  }

  // --- the decision ---

  type Labels = map<string, string>

  datatype Decision = Allowed(owner: string) | Denied(reason: string)

  function FindTeam(teams: seq<Team>, name: string): Option<Team> {
    if teams == [] then None
    else if teams[0].name == name then Some(teams[0])
    else FindTeam(teams[1..], name)
  }

  predicate ValidTeam(teams: seq<Team>, name: string) {
    var t := FindTeam(teams, name);
    t.Some? && SUPPORT_GROUP in t.value.labels && t.value.labels[SUPPORT_GROUP] == "true"
  }

  /** authorizeAccess on the labels of the requested resource, if it could be read. */
  function AuthorizeAccess(teams: seq<Team>, resource: Result<Labels>, supportGroups: set<string>): Decision {
    if resource.Err? then Denied(resource.error)
    else if OWNED_BY !in resource.value then Denied("no_owned_by_label")
    else
      var owner := resource.value[OWNED_BY];
      if !ValidTeam(teams, owner) then Denied("object_not_found")
      else if owner in supportGroups then Allowed(owner)
      else Denied("support_group_mismatch")
  }

  function ServiceAccountName(user: string, namespace: string): string {
    var prefix := "system:serviceaccount:" + namespace + ":";
    if HasPrefix(user, prefix) then user[|prefix|..] else ""
  }

  /** The user names that stand for the service account `name`, which is not empty. */
  lemma AccountExactly(user: string, namespace: string, name: string)
    requires name != ""
    ensures ServiceAccountName(user, namespace) == name <==> user == "system:serviceaccount:" + namespace + ":" + name
  {
    var prefix := "system:serviceaccount:" + namespace + ":";
    if ServiceAccountName(user, namespace) == name {
      assert user == prefix + user[|prefix|..];
    }
    if user == prefix + name {
      assert user[..|prefix|] == prefix && user[|prefix|..] == name;
    }
  }

  /** A user name that stands for no service account of the namespace. */
  ghost predicate NoAccount(user: string, namespace: string) {
    forall name :: name != "" ==> user != "system:serviceaccount:" + namespace + ":" + name
  }

  lemma NoAccountExactly(user: string, namespace: string)
    ensures NoAccount(user, namespace) <==> ServiceAccountName(user, namespace) == ""
  {
    forall name | name != ""
      ensures ServiceAccountName(user, namespace) == name <==> user == "system:serviceaccount:" + namespace + ":" + name
    {
      AccountExactly(user, namespace, name);
    }
    var found := ServiceAccountName(user, namespace);
    if found != "" {
      AccountExactly(user, namespace, found);
    }
  }

  /** The support groups named by claims. */
  function SupportGroups(groups: set<string>): set<string> {
    set g | g in groups && HasPrefix(g, CLAIM) :: g[|CLAIM|..]
  }

  lemma SupportGroupsHold(groups: set<string>, team: string)
    ensures team in SupportGroups(groups) <==> CLAIM + team in groups
  {
    var c := CLAIM + team;
    assert HasPrefix(c, CLAIM) && c[|CLAIM|..] == team;
    if team in SupportGroups(groups) {
      var g :| g in groups && HasPrefix(g, CLAIM) && g[|CLAIM|..] == team;
      assert g == g[..|CLAIM|] + g[|CLAIM|..];
    }
  }

  /** getSupportGroups: the owner of a service account, or the claims of a user. */
  function IdentityGroups(
    user: string, namespace: string, groups: set<string>, accounts: string -> Option<Labels>): Result<set<string>>
  {
    var account := ServiceAccountName(user, namespace);
    if account != "" then
      var labels := accounts(account);
      if labels.None? then Err("service_account_not_found")
      else if OWNED_BY !in labels.value then Err("no_owned_by_label")
      else Ok({labels.value[OWNED_BY]})
    else
      var found := SupportGroups(groups);
      if found == {} then Err("no_support_group_claims") else Ok(found)
  }

  /** handleAuthorize for a request that names a resource. */
  function Authorize(
    user: string, namespace: string, groups: set<string>, accounts: string -> Option<Labels>,
    teams: seq<Team>, resource: Result<Labels>): Decision
  {
    var supportGroups := IdentityGroups(user, namespace, groups, accounts);
    if supportGroups.Err? then Denied(supportGroups.error) else AuthorizeAccess(teams, resource, supportGroups.value)
  }

  ghost predicate DistinctTeams(teams: seq<Team>) {
    forall i, j :: 0 <= i < j < |teams| ==> teams[i].name != teams[j].name
  }

  /** With distinct names, a support team of that name is the one looked up. */
  lemma SupportTeamFound(teams: seq<Team>, name: string, group: string)
    requires DistinctTeams(teams) && FindTeam(teams, name).Some?
    ensures SupportTeam(teams, name, group) <==> SupportTeamAt(FindTeam(teams, name).value, name, group)
  {
    FindTeamFirst(teams, name);
    var k :| 0 <= k < |teams| && teams[k].name == name && FindTeam(teams, name) == Some(teams[k]);
    if SupportTeam(teams, name, group) {
      var i :| 0 <= i < |teams| && SupportTeamAt(teams[i], name, group);
      assert i == k;
    }
  }

  /** The first team of that name exists and carries the support-group label with the value true. */
  ghost predicate MarkedTeam(teams: seq<Team>, j: int, name: string) {
    && 0 <= j < |teams| && teams[j].name == name && (forall i :: 0 <= i < j ==> teams[i].name != name)
    && "greenhouse.sap/support-group" in teams[j].labels && teams[j].labels["greenhouse.sap/support-group"] == "true"
  }

  lemma ValidExactly(teams: seq<Team>, name: string)
    ensures ValidTeam(teams, name) <==> exists j :: MarkedTeam(teams, j, name)
    ensures forall j :: MarkedTeam(teams, j, name) ==> FindTeam(teams, name) == Some(teams[j])
  {
    FindTeamFirst(teams, name);
    if FindTeam(teams, name).Some? {
      var k :| 0 <= k < |teams| && teams[k].name == name && FindTeam(teams, name) == Some(teams[k])
               && forall i :: 0 <= i < k ==> teams[i].name != name;
      forall j | MarkedTeam(teams, j, name) ensures j == k {
      }
      assert ValidTeam(teams, name) <==> MarkedTeam(teams, k, name);
    }
  }

  lemma {:induction false} FindTeamFirst(teams: seq<Team>, name: string)
    ensures FindTeam(teams, name).Some? ==>
              exists k :: 0 <= k < |teams| && teams[k].name == name && FindTeam(teams, name) == Some(teams[k])
                          && forall i :: 0 <= i < k ==> teams[i].name != name
    ensures FindTeam(teams, name).None? ==> forall i :: 0 <= i < |teams| ==> teams[i].name != name
  {
    if teams != [] {
      var rest := teams[1..];
      FindTeamFirst(rest, name);
      assert forall i :: 1 <= i < |teams| ==> teams[i] == rest[i - 1];
      if teams[0].name == name {
        assert FindTeam(teams, name) == Some(teams[0]);
      } else if FindTeam(teams, name).Some? {
        var k :| 0 <= k < |rest| && rest[k].name == name && FindTeam(rest, name) == Some(rest[k])
                 && forall i :: 0 <= i < k ==> rest[i].name != name;
        assert teams[k + 1].name == name;
      }
    }
  }

  predicate OwnedBy(resource: Result<Labels>, owner: string) {
    resource.Ok? && "greenhouse.sap/owned-by" in resource.value && resource.value["greenhouse.sap/owned-by"] == owner
  }

  /**
   For a user that is no service account, with the claims derived from the same teams, access to a resource is
   allowed exactly when its owner exists, is marked a support group with the value true, and the owner's
   identity provider group is among the user's upstream groups (or, if upstream groups are kept, one of those
   is literally the claim).
   */
  lemma UserAccess(
    user: string, org: string, teams: seq<Team>, admins: string, upstream: seq<string>, keep: bool,
    accounts: string -> Option<Labels>, resource: Result<Labels>, owner: string)
    requires NoAccount(user, org) && PlainKeys(teams) && DistinctTeams(teams)
    ensures Authorize(user, org, Claims(org, teams, admins, upstream, keep), accounts, teams, resource) == Allowed(owner)
            <==> && OwnedBy(resource, owner)
                 && exists j :: MarkedTeam(teams, j, owner)
                                && (teams[j].mappedIdpGroup in upstream || (keep && "support-group:" + owner in upstream))
  {
    var groups := Claims(org, teams, admins, upstream, keep);
    NoAccountExactly(user, org);
    SupportGroupsHold(groups, owner);
    ClaimIsSupport(org, teams, admins, upstream, keep, owner);
    ValidExactly(teams, owner);
    if ValidTeam(teams, owner) {
      var mapped := FindTeam(teams, owner).value.mappedIdpGroup;
      FindTeamFirst(teams, owner);
      forall i | 0 <= i < |upstream| ensures SupportTeam(teams, owner, upstream[i]) <==> upstream[i] == mapped {
        SupportTeamFound(teams, owner, upstream[i]);
      }
      assert mapped in upstream <==> exists i :: 0 <= i < |upstream| && SupportTeam(teams, owner, upstream[i]);
    }
  }

  /** A service account is allowed exactly on resources of its own owner, if that is a support group. */
  lemma AccountAccess(
    name: string, namespace: string, groups: set<string>, accounts: string -> Option<Labels>,
    teams: seq<Team>, resource: Result<Labels>, owner: string)
    requires name != ""
    ensures var user := "system:serviceaccount:" + namespace + ":" + name;
            Authorize(user, namespace, groups, accounts, teams, resource) == Allowed(owner)
            <==> && OwnedBy(resource, owner) && (exists j :: MarkedTeam(teams, j, owner))
                 && accounts(name).Some? && OwnedBy(Ok(accounts(name).value), owner)
  {
    AccountExactly("system:serviceaccount:" + namespace + ":" + name, namespace, name);
    ValidExactly(teams, owner);
  }

  /** Why a request with some support groups is refused: the first of the checks that fails gives the reason. */
  lemma RefusalReasons(teams: seq<Team>, resource: Result<Labels>, supportGroups: set<string>)
    ensures var d := AuthorizeAccess(teams, resource, supportGroups);
            && (resource.Err? ==> d == Denied(resource.error))
            && (resource.Ok? && "greenhouse.sap/owned-by" !in resource.value ==> d == Denied("no_owned_by_label"))
            && forall owner :: OwnedBy(resource, owner) ==>
                 && ((forall j :: !MarkedTeam(teams, j, owner)) ==> d == Denied("object_not_found"))
                 && ((exists j :: MarkedTeam(teams, j, owner)) ==>
                     d == if owner in supportGroups then Allowed(owner) else Denied("support_group_mismatch"))
  {
    forall owner | OwnedBy(resource, owner)
      ensures ValidTeam(teams, owner) <==> exists j :: MarkedTeam(teams, j, owner)
    {
      ValidExactly(teams, owner);
    }
  }

  /** Why an identity is refused before the resource is looked at. */
  lemma IdentityRefused(
    user: string, namespace: string, groups: set<string>, accounts: string -> Option<Labels>,
    teams: seq<Team>, resource: Result<Labels>)
    ensures NoAccount(user, namespace) && (forall team :: "support-group:" + team !in groups) ==>
              Authorize(user, namespace, groups, accounts, teams, resource) == Denied("no_support_group_claims")
    ensures forall name :: name != "" && user == "system:serviceaccount:" + namespace + ":" + name ==>
              && (accounts(name).None? ==>
                  Authorize(user, namespace, groups, accounts, teams, resource) == Denied("service_account_not_found"))
              && (accounts(name).Some? && "greenhouse.sap/owned-by" !in accounts(name).value ==>
                  Authorize(user, namespace, groups, accounts, teams, resource) == Denied("no_owned_by_label"))
  {
    NoAccountExactly(user, namespace);
    forall name | name != "" && user == "system:serviceaccount:" + namespace + ":" + name
      ensures ServiceAccountName(user, namespace) == name
    {
      AccountExactly(user, namespace, name);
    }
    forall team ensures team in SupportGroups(groups) <==> "support-group:" + team in groups {
      SupportGroupsHold(groups, team);
    }
  }

  // --- the loops of the source ---

  lemma LabelClaimsAdd(t: Team, keys: set<string>, k: string)
    ensures LabelClaims(t, keys + {k}) ==
            LabelClaims(t, keys) + if HasPrefix(k, LABEL_PREFIX) then {LabelClaim(k, t.name)} else {}
  {
  }

  /** The claims of one team; its labels come in any order. */
  method ClaimsOfTeam(t: Team) returns (claims: seq<string>)
    ensures Elements(claims) == TeamClaims(t)
  {
    claims := ["team:" + t.name];
    var rest := t.labels.Keys;
    ghost var done: set<string> := {};
    while rest != {}
      invariant rest <= t.labels.Keys && done == t.labels.Keys - rest
      invariant Elements(claims) == {"team:" + t.name} + LabelClaims(t, done)
      decreases rest
    {
      var k :| k in rest;
      LabelClaimsAdd(t, done, k);
      if HasPrefix(k, LABEL_PREFIX) {
        ElementsSnoc(claims, LabelClaim(k, t.name));
        claims := claims + [LabelClaim(k, t.name)];
      }
      rest := rest - {k};
      done := done + {k};
    }
    assert done == t.labels.Keys;
  }

  /** The index from upstream groups to team claims. */
  ghost predicate Indexes(index: map<string, seq<string>>, teams: seq<Team>) {
    forall g :: MappedClaims(teams, g) == if g in index then Elements(index[g]) else {}
  }

  method IndexTeams(teams: seq<Team>) returns (index: map<string, seq<string>>)
    ensures Indexes(index, teams)
  {
    index := map[];
    for n := 0 to |teams|
      invariant Indexes(index, teams[..n])
    {
      assert teams[..n + 1][..n] == teams[..n];
      var t := teams[n];
      var claims := ClaimsOfTeam(t);
      var before := if t.mappedIdpGroup in index then index[t.mappedIdpGroup] else [];
      ElementsConcat(before, claims);
      ghost var old_ := index;
      index := index[t.mappedIdpGroup := before + claims];
      forall g ensures MappedClaims(teams[..n + 1], g) == if g in index then Elements(index[g]) else {} {
        assert MappedClaims(teams[..n], g) == if g in old_ then Elements(old_[g]) else {};
      }
    }
    assert teams[..|teams|] == teams;
  }

  /** getGroups; listing the teams and reading the organization may fail. */
  method GetGroups(org: string, keep: bool, upstream: seq<string>, teams: Option<seq<Team>>, admins: Option<string>)
    returns (r: Option<seq<string>>)
    ensures r.Some? <==> teams.Some? && admins.Some?
    ensures r.Some? ==> Elements(r.value) == Claims(org, teams.value, admins.value, upstream, keep)
    ensures r.Some? ==> forall claim :: claim in r.value <==> Deserves(org, teams.value, admins.value, upstream, keep, claim)
  {
    var groups := ["organization:" + org];
    if teams.None? {
      return None;
    }
    var teamNames := IndexTeams(teams.value);
    if admins.None? {
      return None;
    }
    var roleNames := map[admins.value := "role:" + org + ":admin"];
    for n := 0 to |upstream|
      invariant Elements(groups) == {"organization:" + org} + UpstreamClaims(org, teams.value, admins.value, upstream[..n])
    {
      assert upstream[..n + 1][..n] == upstream[..n];
      var g := upstream[n];
      ghost var before := groups;
      assert MappedClaims(teams.value, g) == if g in teamNames then Elements(teamNames[g]) else {};
      if g in teamNames {
        ElementsConcat(groups, teamNames[g]);
        groups := groups + teamNames[g];
      }
      if g in roleNames {
        ElementsSnoc(groups, roleNames[g]);
        groups := groups + [roleNames[g]];
      }
    }
    assert upstream[..|upstream|] == upstream;
    var all := groups;
    if keep {
      ElementsConcat(upstream, groups);
      all := upstream + groups;
    }
    forall claim ensures claim in all <==> Deserves(org, teams.value, admins.value, upstream, keep, claim) {
      ClaimsExactly(org, teams.value, admins.value, upstream, keep, claim);
      assert claim in all <==> claim in Elements(all);
    }
    return Some(all);
  }

  /** getSupportGroups: the groups it returns, or its reason for refusing. */
  method GetSupportGroups(user: string, namespace: string, groups: seq<string>, accounts: string -> Option<Labels>)
    returns (r: Result<seq<string>>)
    ensures match IdentityGroups(user, namespace, Elements(groups), accounts)
            case Ok(names) => r.Ok? && Elements(r.value) == names
            case Err(reason) => r == Err(reason)
    ensures NoAccount(user, namespace) ==>
              && (r.Ok? ==> forall team :: team in r.value <==> "support-group:" + team in groups)
              && (r.Err? <==> forall team :: "support-group:" + team !in groups)
              && (r.Err? ==> r.error == "no_support_group_claims")
    ensures forall name :: name != "" && user == "system:serviceaccount:" + namespace + ":" + name ==>
              && (accounts(name).None? ==> r == Err("service_account_not_found"))
              && (accounts(name).Some? && "greenhouse.sap/owned-by" !in accounts(name).value ==> r == Err("no_owned_by_label"))
              && (accounts(name).Some? && "greenhouse.sap/owned-by" in accounts(name).value ==>
                  r == Ok([accounts(name).value["greenhouse.sap/owned-by"]]))
  {
    var account := ServiceAccountName(user, namespace);
    NoAccountExactly(user, namespace);
    forall name | name != "" && user == "system:serviceaccount:" + namespace + ":" + name ensures account == name {
      AccountExactly(user, namespace, name);
    }
    forall team ensures team in SupportGroups(Elements(groups)) <==> "support-group:" + team in groups {
      SupportGroupsHold(Elements(groups), team);
    }
    if account != "" {
      var labels := accounts(account);
      if labels.None? {
        return Err("service_account_not_found");
      }
      if OWNED_BY !in labels.value {
        return Err("no_owned_by_label");
      }
      return Ok([labels.value[OWNED_BY]]);
    }
    var names: seq<string> := [];
    for n := 0 to |groups|
      invariant Elements(names) == SupportGroups(Elements(groups[..n]))
    {
      assert groups[..n + 1] == groups[..n] + [groups[n]];
      ElementsSnoc(groups[..n], groups[n]);
      SupportGroupsAdd(Elements(groups[..n]), groups[n]);
      if HasPrefix(groups[n], CLAIM) {
        ElementsSnoc(names, groups[n][|CLAIM|..]);
        names := names + [groups[n][|CLAIM|..]];
      }
    }
    assert groups[..|groups|] == groups;
    if |names| == 0 {
      return Err("no_support_group_claims");
    }
    assert names[0] in Elements(names);
    return Ok(names);
  }

  lemma SupportGroupsAdd(groups: set<string>, g: string)
    ensures SupportGroups(groups + {g}) == SupportGroups(groups) + if HasPrefix(g, CLAIM) then {g[|CLAIM|..]} else {}
  {
  }
}
