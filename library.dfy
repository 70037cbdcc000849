/** The bookkeeping of `update_library`: what each Plex Media Server host
    reports about its library sections, which `show` sections are recorded
    for which host, which of them claim the new episode file, which hosts
    failed, and which sections are then refreshed. The HTTP traffic is
    replaced by its outcomes, given as functions of the request. */
module Library {
  import opened Text
  import opened Paths

  datatype Option<T> = None | Some(value: T)

  /** One `Directory` element of a section listing: its `type` and `key`
      attributes and the `path` attributes of its `Location` elements. */
  datatype Section = Section(kind: string, key: string, locations: seq<string>)

  /** The text of a listing response: empty, or XML whose `Directory`
      elements are given in document order. */
  datatype Body = EmptyText | Xml(directories: seq<Section>)

  /** The outcome of `GET {scheme}://{host}/library/sections`: a transport
      error (a `requests.RequestException`) or a response. */
  datatype Listing = ConnectionError | Response(status: int, body: Body)

  /** The requests the notifier sends, for the record of its traffic: the
      POST to `https://plex.tv/users/sign_in.json`, the GET of
      `{scheme}://{host}/library/sections` and the GET of
      `{scheme}://{host}/library/sections/{key}/refresh`. */
  datatype Request =
    | SignIn(login: string, password: string)
    | ListSections(scheme: string, host: string)
    | RefreshSection(scheme: string, host: string, key: string)

  /** `raise_for_status()` raises for the 4xx and 5xx codes only. */
  predicate RaisesForStatus(status: int) {
    400 <= status < 600
  }

  /** The host is recorded as failed: the request raised, the status is an
      error, the body is empty, or it holds no `Directory` element. */
  predicate ListingFails(l: Listing) {
    match l
    case ConnectionError => true
    case Response(status, body) =>
      RaisesForStatus(status) || body.EmptyText? || body.directories == []
  }

  /** `all_hosts`, `matching_hosts` (both section key to host) and
      `failed_hosts` while the hosts are enumerated. */
  datatype Enumeration = Enumeration(
    allHosts: map<string, string>,
    matchingHosts: map<string, string>,
    failedHosts: set<string>)

  const Start := Enumeration(map[], map[], {})

  /** Some element of `xs` satisfies `p`. */
  predicate Any(xs: seq<string>, p: string -> bool) {
    exists m :: 0 <= m < |xs| && p(xs[m])
  }

  lemma AnySnoc(xs: seq<string>, p: string -> bool)
    requires xs != []
    ensures Any(xs, p) <==> Any(xs[..|xs| - 1], p) || p(xs[|xs| - 1])
  {
    var front := xs[..|xs| - 1];
    if m :| 0 <= m < |xs| && p(xs[m]) {
      if m < |front| { assert front[m] == xs[m]; }
    }
    if m :| 0 <= m < |front| && p(front[m]) {
      assert xs[m] == front[m];
    }
  }

  /** The section roots that claim the file at `fileLocation`. */
  function ClaimsFile(fileLocation: string): string -> bool {
    sectionPath => SectionMatches(sectionPath, fileLocation)
  }

  /** Some `Location` of the section claims the file. */
  predicate LocationsMatch(locations: seq<string>, fileLocation: string) {
    Any(locations, ClaimsFile(fileLocation))
  }

  /** One `Directory` element of `host`'s listing: one pass of the
      `for section in sections` loop of `update_library`. */
  function RecordSection(e: Enumeration, host: string, section: Section, fileLocation: string): Enumeration {
    if section.kind != "show" then e
    else
      Enumeration(
        e.allHosts[section.key := host],
        if fileLocation != "" && LocationsMatch(section.locations, fileLocation)
        then e.matchingHosts[section.key := host] else e.matchingHosts,
        e.failedHosts)
  }

  /** The `Directory` elements of one listing, in document order. */
  function RecordSections(e: Enumeration, host: string, sections: seq<Section>, fileLocation: string): Enumeration
    decreases |sections|
  {
    if sections == [] then e
    else
      RecordSection(RecordSections(e, host, sections[..|sections| - 1], fileLocation),
                    host, sections[|sections| - 1], fileLocation)
  }

  /** One pass of the `for cur_host in hosts` loop of `update_library`. */
  function VisitHost(e: Enumeration, host: string, l: Listing, fileLocation: string): Enumeration {
    if ListingFails(l) then e.(failedHosts := e.failedHosts + {host})
    else RecordSections(e, host, l.body.directories, fileLocation)
  }

  /** The state after the host loop, hosts taken in order. */
  function Enumerate(hosts: seq<string>, listing: string -> Listing, fileLocation: string): Enumeration
    decreases |hosts|
  {
    if hosts == [] then Start
    else
      var last := hosts[|hosts| - 1];
      VisitHost(Enumerate(hosts[..|hosts| - 1], listing, fileLocation), last, listing(last), fileLocation)
  }

  /** `(x.strip() for x in entries if x.strip())`: the stripped non-blank
      entries, in order. */
  function ServerHosts(entries: seq<string>): (hosts: seq<string>)
    ensures |hosts| <= |entries|
    decreases |entries|
  {
    if entries == [] then []
    else
      var h := Strip(entries[|entries| - 1]);
      ServerHosts(entries[..|entries| - 1]) + if h != "" then [h] else []
  }

  /** Every entry that is not blank is listed, stripped. */
  lemma {:induction false} NonBlankEntriesAreListed(entries: seq<string>)
    ensures forall x :: x in entries && !AllSpace(x) ==> Strip(x) in ServerHosts(entries)
    decreases |entries|
  {
    if entries != [] {
      var front, last := entries[..|entries| - 1], entries[|entries| - 1];
      NonBlankEntriesAreListed(front);
      forall x | x in entries && !AllSpace(x) ensures Strip(x) in ServerHosts(entries) {
        StripSpec(x);
        if x != last {
          assert x in front by {
            assert entries == front + [last];
          }
        }
      }
    }
  }

  /** Every listed host is the stripped form of an entry, and is not empty
      and has no whitespace at either end. */
  lemma {:induction false} ListedHostsAreStripped(entries: seq<string>)
    ensures forall h :: h in ServerHosts(entries) ==>
              h != [] && !IsSpace(h[0]) && !IsSpace(h[|h| - 1])
              && exists x :: x in entries && h == Strip(x)
    decreases |entries|
  {
    if entries != [] {
      var front, last := entries[..|entries| - 1], entries[|entries| - 1];
      ListedHostsAreStripped(front);
      forall h | h in ServerHosts(entries)
        ensures h != [] && !IsSpace(h[0]) && !IsSpace(h[|h| - 1])
                && exists x :: x in entries && h == Strip(x)
      {
        if h in ServerHosts(front) {
          var y :| y in front && h == Strip(y);
          assert y in entries;
        } else {
          StripSpec(last);
          assert h == Strip(last) && last in entries;
        }
      }
    }
  }

  /** The listing requests of the host loop, one per host, in order. */
  function ListRequests(scheme: string, hosts: seq<string>): (rs: seq<Request>)
    ensures |rs| == |hosts|
    ensures forall i :: 0 <= i < |hosts| ==> rs[i] == ListSections(scheme, hosts[i])
  {
    if hosts == [] then []
    else ListRequests(scheme, hosts[..|hosts| - 1]) + [ListSections(scheme, hosts[|hosts| - 1])]
  }

  /** The keys of the `show` sections among `sections`. */
  function ShowKeys(sections: seq<Section>): set<string> {
    set s | s in sections && s.kind == "show" :: s.key
  }

  /** The keys of the `show` sections among `sections` that claim the file;
      none when there is no file location. */
  function MatchingKeys(sections: seq<Section>, fileLocation: string): set<string> {
    set s | s in sections && s.kind == "show" && fileLocation != ""
                 && LocationsMatch(s.locations, fileLocation) :: s.key
  }

  lemma ShowKeysSnoc(front: seq<Section>, s: Section)
    ensures ShowKeys(front + [s]) == ShowKeys(front) + if s.kind == "show" then {s.key} else {}
  {
    var sections := front + [s];
    assert forall t :: t in sections <==> t in front || t == s;
  }

  lemma MatchingKeysSnoc(front: seq<Section>, s: Section, fileLocation: string)
    ensures MatchingKeys(front + [s], fileLocation)
            == MatchingKeys(front, fileLocation)
               + if s.kind == "show" && fileLocation != "" && LocationsMatch(s.locations, fileLocation)
                 then {s.key} else {}
  {
    var sections := front + [s];
    assert forall t :: t in sections <==> t in front || t == s;
  }

  /** `m` with every key of `keys` mapped to `v`. */
  function Claim(m: map<string, string>, keys: set<string>, v: string): map<string, string> {
    m + map x | x in keys :: v
  }

  /** The keys of `keys` now map to `v`, the others keep their value. */
  lemma ClaimSpec(m: map<string, string>, keys: set<string>, v: string)
    ensures Claim(m, keys, v).Keys == m.Keys + keys
    ensures forall k :: k in Claim(m, keys, v) ==> Claim(m, keys, v)[k] == if k in keys then v else m[k]
  {
  }

  /** Mapping one more key to `v` after mapping a set of keys to `v`. */
  lemma ClaimOneMore(m: map<string, string>, keys: set<string>, k: string, v: string)
    ensures Claim(m, keys, v)[k := v] == Claim(m, keys + {k}, v)
  {
  }

  lemma ClaimNothing(m: map<string, string>, v: string)
    ensures Claim(m, {}, v) == m
  {
  }

  /** Processing a listing maps every `show` key it holds to the host, and
      every matching one in `matchingHosts` too; a key already present is
      overwritten, nothing else changes. */
  lemma {:induction false} RecordSectionsEffect(e: Enumeration, host: string, sections: seq<Section>, fileLocation: string)
    ensures var e' := RecordSections(e, host, sections, fileLocation);
            && e'.allHosts == Claim(e.allHosts, ShowKeys(sections), host)
            && e'.matchingHosts == Claim(e.matchingHosts, MatchingKeys(sections, fileLocation), host)
            && e'.failedHosts == e.failedHosts
    decreases |sections|
  {
    if sections == [] {
      assert ShowKeys(sections) == {};
      assert MatchingKeys(sections, fileLocation) == {};
      ClaimNothing(e.allHosts, host);
      ClaimNothing(e.matchingHosts, host);
    } else {
      var front, s := sections[..|sections| - 1], sections[|sections| - 1];
      assert sections == front + [s];
      RecordSectionsEffect(e, host, front, fileLocation);
      ShowKeysSnoc(front, s);
      MatchingKeysSnoc(front, s, fileLocation);
      if s.kind == "show" {
        ClaimOneMore(e.allHosts, ShowKeys(front), s.key, host);
        if fileLocation != "" && LocationsMatch(s.locations, fileLocation) {
          ClaimOneMore(e.matchingHosts, MatchingKeys(front, fileLocation), s.key, host);
        } else {
          assert MatchingKeys(sections, fileLocation) == MatchingKeys(front, fileLocation);
        }
      } else {
        assert ShowKeys(sections) == ShowKeys(front);
        assert MatchingKeys(sections, fileLocation) == MatchingKeys(front, fileLocation);
      }
    }
  }

  /** The `show` keys a host's listing contributes (none if it failed). */
  function HostShowKeys(l: Listing): set<string> {
    if ListingFails(l) then {} else ShowKeys(l.body.directories)
  }

  /** The matching keys a host's listing contributes (none if it failed). */
  function HostMatchingKeys(l: Listing, fileLocation: string): set<string> {
    if ListingFails(l) then {} else MatchingKeys(l.body.directories, fileLocation)
  }

  /** The map from each key claimed by some host to the LAST host in
      `hosts` that claims it. */
  function LastClaimant(hosts: seq<string>, claims: string -> set<string>): map<string, string>
    decreases |hosts|
  {
    if hosts == [] then map[]
    else
      var last := hosts[|hosts| - 1];
      Claim(LastClaimant(hosts[..|hosts| - 1], claims), claims(last), last)
  }

  /** Host `hosts[i]` claims `k` and no later host does. */
  predicate IsLastClaim(hosts: seq<string>, claims: string -> set<string>, k: string, i: int) {
    0 <= i < |hosts| && k in claims(hosts[i]) && forall j :: i < j < |hosts| ==> k !in claims(hosts[j])
  }

  /** `LastClaimant` holds exactly the keys that some host claims. */
  lemma {:induction false} LastClaimantKeys(hosts: seq<string>, claims: string -> set<string>)
    ensures forall k :: k in LastClaimant(hosts, claims)
                        <==> exists i :: 0 <= i < |hosts| && k in claims(hosts[i])
    decreases |hosts|
  {
    if hosts != [] {
      var front := hosts[..|hosts| - 1];
      LastClaimantKeys(front, claims);
      ClaimSpec(LastClaimant(front, claims), claims(hosts[|hosts| - 1]), hosts[|hosts| - 1]);
      forall k ensures k in LastClaimant(hosts, claims) <==> exists i :: 0 <= i < |hosts| && k in claims(hosts[i]) {
        if i :| 0 <= i < |hosts| && k in claims(hosts[i]) {
          if i < |front| { assert front[i] == hosts[i]; }
        }
        if k in LastClaimant(front, claims) {
          var i :| 0 <= i < |front| && k in claims(front[i]);
          assert hosts[i] == front[i];
        }
      }
    }
  }

  /** Each key is mapped to the last host that claims it: a later host
      silently overwrites an earlier one. */
  lemma {:induction false} LastClaimantIsLast(hosts: seq<string>, claims: string -> set<string>)
    ensures forall k :: k in LastClaimant(hosts, claims) ==>
              exists i :: IsLastClaim(hosts, claims, k, i) && LastClaimant(hosts, claims)[k] == hosts[i]
    decreases |hosts|
  {
    if hosts != [] {
      var front, last := hosts[..|hosts| - 1], hosts[|hosts| - 1];
      LastClaimantIsLast(front, claims);
      ClaimSpec(LastClaimant(front, claims), claims(last), last);
      var m := LastClaimant(hosts, claims);
      forall k | k in m
        ensures exists i :: IsLastClaim(hosts, claims, k, i) && m[k] == hosts[i]
      {
        if k in claims(last) {
          assert IsLastClaim(hosts, claims, k, |hosts| - 1);
        } else {
          assert k in LastClaimant(front, claims) && m[k] == LastClaimant(front, claims)[k];
          var i :| IsLastClaim(front, claims, k, i) && LastClaimant(front, claims)[k] == front[i];
          ExtendLastClaim(hosts, claims, k, i);
        }
      }
    }
  }

  lemma ExtendLastClaim(hosts: seq<string>, claims: string -> set<string>, k: string, i: int)
    requires |hosts| > 0 && k !in claims(hosts[|hosts| - 1])
    requires IsLastClaim(hosts[..|hosts| - 1], claims, k, i)
    ensures IsLastClaim(hosts, claims, k, i) && hosts[i] == hosts[..|hosts| - 1][i]
  {
    var front := hosts[..|hosts| - 1];
    forall j | i < j < |hosts| ensures k !in claims(hosts[j]) {
      if j < |front| { assert hosts[j] == front[j]; }
    }
  }

  /** The keys each host claims in `all_hosts`. */
  function ShowClaims(listing: string -> Listing): string -> set<string> {
    h => HostShowKeys(listing(h))
  }

  /** The keys each host claims in `matching_hosts`. */
  function MatchingClaims(listing: string -> Listing, fileLocation: string): string -> set<string> {
    h => HostMatchingKeys(listing(h), fileLocation)
  }

  /** After the host loop, `all_hosts` maps every `show` key of every host
      whose listing succeeded to the last such host. */
  lemma {:induction false} AllHostsIsLastClaimant(hosts: seq<string>, listing: string -> Listing, fileLocation: string)
    ensures Enumerate(hosts, listing, fileLocation).allHosts == LastClaimant(hosts, ShowClaims(listing))
    decreases |hosts|
  {
    if hosts != [] {
      var front, last := hosts[..|hosts| - 1], hosts[|hosts| - 1];
      AllHostsIsLastClaimant(front, listing, fileLocation);
      if !ListingFails(listing(last)) {
        RecordSectionsEffect(Enumerate(front, listing, fileLocation), last, listing(last).body.directories, fileLocation);
      } else {
        ClaimNothing(LastClaimant(front, ShowClaims(listing)), last);
      }
    }
  }

  /** After the host loop, `matching_hosts` maps every key of a section that
      claims the file to the last host that reported such a section. */
  lemma {:induction false} MatchingHostsIsLastClaimant(hosts: seq<string>, listing: string -> Listing, fileLocation: string)
    ensures Enumerate(hosts, listing, fileLocation).matchingHosts
            == LastClaimant(hosts, MatchingClaims(listing, fileLocation))
    decreases |hosts|
  {
    if hosts != [] {
      var front, last := hosts[..|hosts| - 1], hosts[|hosts| - 1];
      MatchingHostsIsLastClaimant(front, listing, fileLocation);
      if !ListingFails(listing(last)) {
        RecordSectionsEffect(Enumerate(front, listing, fileLocation), last, listing(last).body.directories, fileLocation);
      } else {
        ClaimNothing(LastClaimant(front, MatchingClaims(listing, fileLocation)), last);
      }
    }
  }

  /** After the host loop, `failed_hosts` holds exactly the hosts whose
      listing failed. */
  lemma {:induction false} FailedHostsAreFailedListings(hosts: seq<string>, listing: string -> Listing, fileLocation: string)
    ensures Enumerate(hosts, listing, fileLocation).failedHosts == set h | h in hosts && ListingFails(listing(h))
    decreases |hosts|
  {
    if hosts != [] {
      var front, last := hosts[..|hosts| - 1], hosts[|hosts| - 1];
      assert hosts == front + [last];
      FailedHostsAreFailedListings(front, listing, fileLocation);
      if !ListingFails(listing(last)) {
        RecordSectionsEffect(Enumerate(front, listing, fileLocation), last, listing(last).body.directories, fileLocation);
      }
    }
  }

  /** Every matching key is also in `all_hosts`. */
  lemma {:induction false} MatchingWithinAll(hosts: seq<string>, listing: string -> Listing, fileLocation: string)
    ensures var e := Enumerate(hosts, listing, fileLocation);
            e.matchingHosts.Keys <= e.allHosts.Keys
    decreases |hosts|
  {
    if hosts != [] {
      var front, last := hosts[..|hosts| - 1], hosts[|hosts| - 1];
      MatchingWithinAll(front, listing, fileLocation);
      var e := Enumerate(front, listing, fileLocation);
      if !ListingFails(listing(last)) {
        var sections := listing(last).body.directories;
        RecordSectionsEffect(e, last, sections, fileLocation);
        MatchingWithinShow(sections, fileLocation);
      }
    }
  }

  /** Without a file location nothing matches. */
  lemma {:induction false} NoFileNoMatching(hosts: seq<string>, listing: string -> Listing)
    ensures Enumerate(hosts, listing, "").matchingHosts == map[]
    decreases |hosts|
  {
    if hosts != [] {
      var front, last := hosts[..|hosts| - 1], hosts[|hosts| - 1];
      NoFileNoMatching(front, listing);
      if !ListingFails(listing(last)) {
        var sections := listing(last).body.directories;
        RecordSectionsEffect(Enumerate(front, listing, ""), last, sections, "");
        assert MatchingKeys(sections, "") == {};
      }
    }
  }

  /** The sections to refresh (`hosts_try`): the matching ones if any
      section matched, else every `show` section of every host. */
  function Targets(e: Enumeration): map<string, string> {
    if |e.matchingHosts| > 0 then e.matchingHosts else e.allHosts
  }

  /** The refresh targets are `show` sections that some listed host
      reported, each paired with a host that reported it; without a file
      location every such section is refreshed. */
  lemma TargetsAreListedSections(hosts: seq<string>, listing: string -> Listing, fileLocation: string)
    ensures var e := Enumerate(hosts, listing, fileLocation);
            && Targets(e).Keys <= e.allHosts.Keys
            && (forall k :: k in Targets(e) ==> Targets(e)[k] in hosts && k in HostShowKeys(listing(Targets(e)[k])))
            && (fileLocation == "" ==> Targets(e) == e.allHosts)
  {
    var e := Enumerate(hosts, listing, fileLocation);
    MatchingWithinAll(hosts, listing, fileLocation);
    if fileLocation == "" {
      NoFileNoMatching(hosts, listing);
    }
    if |e.matchingHosts| > 0 {
      MatchingHostsIsLastClaimant(hosts, listing, fileLocation);
      forall k | k in e.matchingHosts
        ensures e.matchingHosts[k] in hosts && k in HostShowKeys(listing(e.matchingHosts[k]))
      {
        ClaimedByHost(hosts, MatchingClaims(listing, fileLocation), k);
        var l := listing(e.matchingHosts[k]);
        if !ListingFails(l) {
          MatchingWithinShow(l.body.directories, fileLocation);
        }
      }
    } else {
      AllHostsIsLastClaimant(hosts, listing, fileLocation);
      forall k | k in e.allHosts
        ensures e.allHosts[k] in hosts && k in HostShowKeys(listing(e.allHosts[k]))
      {
        ClaimedByHost(hosts, ShowClaims(listing), k);
      }
    }
  }

  lemma MatchingWithinShow(sections: seq<Section>, fileLocation: string)
    ensures MatchingKeys(sections, fileLocation) <= ShowKeys(sections)
  {
  }

  /** A claimed key maps to one of the hosts, which claims it. */
  lemma ClaimedByHost(hosts: seq<string>, claims: string -> set<string>, k: string)
    requires k in LastClaimant(hosts, claims)
    ensures LastClaimant(hosts, claims)[k] in hosts && k in claims(LastClaimant(hosts, claims)[k])
  {
    LastClaimantIsLast(hosts, claims);
    var i :| IsLastClaim(hosts, claims, k, i) && LastClaimant(hosts, claims)[k] == hosts[i];
  }

  /** The hosts whose refresh request, for a target key among `keys`,
      raised. */
  function RefreshFailuresAmong(targets: map<string, string>, keys: set<string>,
                                refreshOk: (string, string) -> bool): set<string> {
    set k | k in keys && k in targets && !refreshOk(targets[k], k) :: targets[k]
  }

  /** The hosts of the refresh targets whose refresh request raised. */
  function RefreshFailures(targets: map<string, string>, refreshOk: (string, string) -> bool): set<string> {
    RefreshFailuresAmong(targets, targets.Keys, refreshOk)
  }

  lemma RefreshFailuresAmongNone(targets: map<string, string>, refreshOk: (string, string) -> bool)
    ensures RefreshFailuresAmong(targets, {}, refreshOk) == {}
  {
  }

  lemma RefreshFailuresAmongOneMore(failed0: set<string>, targets: map<string, string>, keys: set<string>,
                                    k: string, refreshOk: (string, string) -> bool)
    requires k in targets
    ensures refreshOk(targets[k], k) ==>
              failed0 + RefreshFailuresAmong(targets, keys + {k}, refreshOk)
              == failed0 + RefreshFailuresAmong(targets, keys, refreshOk)
    ensures !refreshOk(targets[k], k) ==>
              failed0 + RefreshFailuresAmong(targets, keys + {k}, refreshOk)
              == failed0 + RefreshFailuresAmong(targets, keys, refreshOk) + {targets[k]}
  {
  }

  /** Moving one key from the keys still to visit to the visited ones. */
  lemma MoveKey(all: set<string>, todo: set<string>, done: set<string>, k: string)
    requires todo !! done && todo + done == all && k in todo
    ensures (todo - {k}) !! (done + {k}) && (todo - {k}) + (done + {k}) == all
    ensures |todo - {k}| < |todo| && |done + {k}| == |done| + 1
  {
  }

  /** The `for cur_host in hosts` loop of `update_library` over the
      configured host entries. */
  method EnumerateHosts(entries: seq<string>, scheme: string, listing: string -> Listing, fileLocation: string)
    returns (e: Enumeration, ghost sent: seq<Request>)
    ensures e == Enumerate(ServerHosts(entries), listing, fileLocation)
    ensures sent == ListRequests(scheme, ServerHosts(entries))
  {
    e := Start;
    sent := [];
    for i := 0 to |entries|
      invariant e == Enumerate(ServerHosts(entries[..i]), listing, fileLocation)
      invariant sent == ListRequests(scheme, ServerHosts(entries[..i]))
    {
      assert entries[..i + 1][..i] == entries[..i];
      var host := Strip(entries[i]);
      if host != "" {
        ghost var done := ServerHosts(entries[..i]);
        assert ServerHosts(entries[..i + 1]) == done + [host];
        assert (done + [host])[..|done|] == done;
        sent := sent + [ListSections(scheme, host)];
        e := VisitListing(e, host, listing(host), fileLocation);
      } else {
        assert ServerHosts(entries[..i + 1]) == ServerHosts(entries[..i]);
      }
    }
    assert entries[..|entries|] == entries;
  }

  /** The body of the host loop for one host, once its listing is in: a
      failed listing adds the host to the failed set, otherwise its
      sections are recorded. */
  method VisitListing(e0: Enumeration, host: string, response: Listing, fileLocation: string)
    returns (e: Enumeration)
    ensures e == VisitHost(e0, host, response, fileLocation)
  {
    match response
    case ConnectionError =>
      e := e0.(failedHosts := e0.failedHosts + {host});
    case Response(status, body) =>
      if RaisesForStatus(status) || body.EmptyText? {
        // a 401 only changes the log message
        e := e0.(failedHosts := e0.failedHosts + {host});
      } else if body.directories == [] {
        e := e0.(failedHosts := e0.failedHosts + {host});
      } else {
        e := RecordShowSections(e0, host, body.directories, fileLocation);
      }
  }

  /** The `for section in sections` loop of `update_library` for one host. */
  method RecordShowSections(e0: Enumeration, host: string, sections: seq<Section>, fileLocation: string)
    returns (e: Enumeration)
    ensures e == RecordSections(e0, host, sections, fileLocation)
  {
    e := e0;
    for j := 0 to |sections|
      invariant e == RecordSections(e0, host, sections[..j], fileLocation)
    {
      assert sections[..j + 1][..j] == sections[..j];
      var section := sections[j];
      if section.kind == "show" {
        var key := section.key;
        e := e.(allHosts := e.allHosts[key := host]);
        if fileLocation != "" {
          var matching := RecordMatches(e.matchingHosts, key, host, section.locations, ClaimsFile(fileLocation));
          e := e.(matchingHosts := matching);
        }
      }
    }
    assert sections[..|sections|] == sections;
  }

  /** The `for section_location in ...` loop of `update_library` for one
      `show` section, with `claims` its path test (`ClaimsFile`): the section's key
      is mapped to the host once some location is claimed. */
  method RecordMatches(matching0: map<string, string>, key: string, host: string,
                       locations: seq<string>, claims: string -> bool)
    returns (matching: map<string, string>)
    ensures matching == if Any(locations, claims) then matching0[key := host] else matching0
  {
    matching := matching0;
    for m := 0 to |locations|
      invariant matching == if Any(locations[..m], claims) then matching0[key := host] else matching0
    {
      AnySnoc(locations[..m + 1], claims);
      assert locations[..m + 1][..m] == locations[..m];
      if claims(locations[m]) {
        matching := matching[key := host];
      }
    }
    assert locations[..|locations|] == locations;
  }

  /** `sent` holds one refresh request for each key of `done`, and nothing
      else. */
  ghost predicate RefreshLog(sent: seq<Request>, scheme: string, targets: map<string, string>, done: set<string>) {
    && done <= targets.Keys
    && |sent| == |done|
    && (forall k :: k in done ==> RefreshSection(scheme, targets[k], k) in sent)
    && (forall r :: r in sent ==>
          r.RefreshSection? && r.scheme == scheme && r.key in done && r.host == targets[r.key])
  }

  lemma RefreshLogStep(sent: seq<Request>, scheme: string, targets: map<string, string>, done: set<string>, key: string)
    requires RefreshLog(sent, scheme, targets, done) && key in targets && key !in done
    ensures RefreshLog(sent + [RefreshSection(scheme, targets[key], key)], scheme, targets, done + {key})
  {
  }

  /** The `for section_key, cur_host in iteritems(hosts_try)` loop of
      `update_library`: one request per target section; a
      request that raises adds its host to the failed set. */
  method RefreshSections(targets: map<string, string>, scheme: string, refreshOk: (string, string) -> bool,
                         failed0: set<string>)
    returns (failed: set<string>, ghost sent: seq<Request>)
    ensures failed == failed0 + RefreshFailures(targets, refreshOk)
    ensures RefreshLog(sent, scheme, targets, targets.Keys)
  {
    failed := failed0;
    sent := [];
    var todo := targets.Keys;
    ghost var done: set<string> := {};
    RefreshFailuresAmongNone(targets, refreshOk);
    while todo != {}
      invariant todo !! done && todo + done == targets.Keys
      invariant failed == failed0 + RefreshFailuresAmong(targets, done, refreshOk)
      invariant RefreshLog(sent, scheme, targets, done)
      decreases |todo|
    {
      var key :| key in todo;
      var host := targets[key];
      RefreshLogStep(sent, scheme, targets, done, key);
      sent := sent + [RefreshSection(scheme, host, key)];
      if !refreshOk(host, key) {
        failed := failed + {host};
      }
      RefreshFailuresAmongOneMore(failed0, targets, done, key, refreshOk);
      MoveKey(targets.Keys, todo, done, key);
      todo := todo - {key};
      done := done + {key};
    }
    assert done == targets.Keys;
  }
}
