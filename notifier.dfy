/** The Plex Media Server side of the notifier: the `Notifier` object with
    its persistent request headers, token acquisition (`get_token`) and the
    library update (`update_library`, `test_notify_pms`). The configuration
    globals are a `Config` value; what the network answers is a `Network`
    value, so every request has a fixed outcome. */
module PlexNotifier {
  import opened Text
  import opened Library

  const TokenHeader := "X-Plex-Token"

  /** The four identity headers every request carries. */
  function IdentityHeaders(userAgent: string): (h: map<string, string>)
    ensures TokenHeader !in h
    ensures h.Keys == {"X-Plex-Device-Name", "X-Plex-Product", "X-Plex-Client-Identifier", "X-Plex-Version"}
    ensures h["X-Plex-Client-Identifier"] == userAgent
  {
    map["X-Plex-Device-Name" := "Medusa",
        "X-Plex-Product" := "Medusa Notifier",
        "X-Plex-Client-Identifier" := userAgent,
        "X-Plex-Version" := "2016.02.10"]
  }

  /** The `app.PLEX_*` settings the routines read; an unset string setting
      is the empty string. */
  datatype Config = Config(
    useServer: bool,
    updateLibrary: bool,
    serverHost: string,
    serverUsername: string,
    serverPassword: string,
    serverToken: string,
    serverHttps: bool)

  /** What signing in at plex.tv yields: the `authentication_token` of the
      JSON reply, or an exception (transport error, bad reply, missing
      field). */
  datatype SignInReply = Token(token: string) | SignInFailed

  /** The answers of the network: the sign-in reply for a login and
      password, the section listing of a host, and whether the refresh of
      a section on a host goes through without raising. */
  datatype Network = Network(
    signIn: (string, string) -> SignInReply,
    listing: string -> Listing,
    refreshOk: (string, string) -> bool)

  /** `None`, `False`, or the comma-joined failed hosts. */
  datatype UpdateResult = NoIssue | Refused | HostsFailed(hosts: set<string>)

  /** Python's `value or setting` on strings. */
  function Or(value: string, setting: string): string {
    if value != "" then value else setting
  }

  function Scheme(cfg: Config): string {
    if cfg.serverHttps then "https" else "http"
  }

  /** The final `', '.join(failed_hosts) if failed_hosts else None`. */
  function Outcome(failed: set<string>): (r: UpdateResult)
    ensures r == NoIssue <==> failed == {}
    ensures r != Refused
    ensures r.HostsFailed? ==> r.hosts == failed
  {
    if failed == {} then NoIssue else HostsFailed(failed)
  }

  /** The effect of one `get_token` call: the new headers, the result and
      the sign-in request if one was sent. */
  datatype TokenAttempt = TokenAttempt(headers: map<string, string>, ok: bool, signIn: Option<Request>)

  function SignInRequests(signIn: Option<Request>): seq<Request> {
    if signIn.Some? then [signIn.value] else []
  }

  /** `get_token` on the headers `headers`. A token given or configured is
      installed and accepted as is; a token already present is kept; with
      no token and no full credentials the call succeeds without a token;
      otherwise plex.tv is asked once, and the call fails exactly when the
      sign-in fails, leaving no token behind. Only the token header ever
      changes, and a token once present is never removed. */
  function Authenticate(headers: map<string, string>, username: string, password: string, token: string,
                        cfg: Config, signIn: (string, string) -> SignInReply): (a: TokenAttempt)
    ensures a.headers - {TokenHeader} == headers - {TokenHeader}
    ensures TokenHeader in headers ==> a.ok && TokenHeader in a.headers && a.signIn.None?
    ensures Or(token, cfg.serverToken) != "" ==>
              a.ok && a.signIn.None? && a.headers == headers[TokenHeader := Or(token, cfg.serverToken)]
    ensures Or(token, cfg.serverToken) == "" && TokenHeader in headers ==> a.headers == headers
    ensures a.signIn.Some? <==>
              && Or(token, cfg.serverToken) == "" && TokenHeader !in headers
              && Or(username, cfg.serverUsername) != "" && Or(password, cfg.serverPassword) != ""
    ensures a.signIn.Some? ==>
              a.signIn.value == SignIn(Or(username, cfg.serverUsername), Or(password, cfg.serverPassword))
    ensures a.signIn.None? ==> a.ok
    ensures a.signIn.Some? ==>
              match signIn(a.signIn.value.login, a.signIn.value.password)
              case Token(t) => a.ok && a.headers == headers[TokenHeader := t]
              case SignInFailed => !a.ok && a.headers == headers
    ensures !a.ok ==> TokenHeader !in a.headers
    ensures a.ok <==> TokenHeader in a.headers || (a.signIn.None? && a.headers == headers)
    ensures a.ok && TokenHeader !in a.headers <==>
              && Or(token, cfg.serverToken) == "" && TokenHeader !in headers
              && (Or(username, cfg.serverUsername) == "" || Or(password, cfg.serverPassword) == "")
  {
    var login, secret, supplied :=
      Or(username, cfg.serverUsername), Or(password, cfg.serverPassword), Or(token, cfg.serverToken);
    var withToken := if supplied != "" then headers[TokenHeader := supplied] else headers;
    if TokenHeader in withToken then TokenAttempt(withToken, true, None)
    else if !(login != "" && secret != "") then TokenAttempt(withToken, true, None)
    else
      match signIn(login, secret)
      case Token(t) => TokenAttempt(withToken[TokenHeader := t], true, Some(SignIn(login, secret)))
      case SignInFailed => TokenAttempt(withToken, false, Some(SignIn(login, secret)))
  }

  /** The feature is on, or the call is forced. */
  predicate Enabled(cfg: Config, force: bool) {
    (cfg.useServer && cfg.updateLibrary) || force
  }

  /** `'' if not ep_obj else ep_obj.location`. */
  function FileLocation(episodeLocation: Option<string>): string {
    if episodeLocation.Some? then episodeLocation.value else ""
  }

  /** The effect of one `update_library` call: the result, the new headers,
      the sign-in request if any, the hosts whose sections were listed (in
      order) and the sections refreshed (key to host). */
  datatype Update = Update(
    result: UpdateResult,
    headers: map<string, string>,
    signIn: Option<Request>,
    listed: seq<string>,
    refreshed: map<string, string>)

  /** `update_library` as a function of the headers, the arguments, the
      settings, the host-list splitter `generate` and the network. */
  function LibraryUpdate(headers: map<string, string>, cfg: Config, episodeLocation: Option<string>,
                         hosts: string, username: string, password: string, token: string, force: bool,
                         generate: string -> seq<string>, net: Network): (u: Update)
    ensures u.headers - {TokenHeader} == headers - {TokenHeader}
  {
    if !Enabled(cfg, force) then Update(NoIssue, headers, None, [], map[])
    else
      var resolved := Or(hosts, cfg.serverHost);
      if resolved == "" then Update(Refused, headers, None, [], map[])
      else
        var a := Authenticate(headers, username, password, token, cfg, net.signIn);
        if !a.ok then Update(Refused, a.headers, a.signIn, [], map[])
        else
          var listed := ServerHosts(generate(resolved));
          var e := Enumerate(listed, net.listing, FileLocation(episodeLocation));
          if force then Update(Outcome(e.failedHosts), a.headers, a.signIn, listed, map[])
          else
            var targets := Targets(e);
            Update(Outcome(e.failedHosts + RefreshFailures(targets, net.refreshOk)),
                   a.headers, a.signIn, listed, targets)
  }

  /** The guards, in order: disabled and not forced gives `None`, no host
      gives `False`, a failed token gives `False`; none of them contacts a
      Plex Media Server, and only the last may contact plex.tv. Past the
      guards the result is never `False`. */
  lemma GuardsComeFirst(headers: map<string, string>, cfg: Config, episodeLocation: Option<string>,
                        hosts: string, username: string, password: string, token: string, force: bool,
                        generate: string -> seq<string>, net: Network)
    ensures var u := LibraryUpdate(headers, cfg, episodeLocation, hosts, username, password, token,
                                   force, generate, net);
            && (!Enabled(cfg, force) ==> u == Update(NoIssue, headers, None, [], map[]))
            && (Enabled(cfg, force) && Or(hosts, cfg.serverHost) == "" ==>
                  u == Update(Refused, headers, None, [], map[]))
            && (u.result == Refused <==>
                  Enabled(cfg, force)
                  && (Or(hosts, cfg.serverHost) == ""
                      || !Authenticate(headers, username, password, token, cfg, net.signIn).ok))
            && (u.result == Refused ==> u.listed == [] && u.refreshed == map[])
            && (u.result == Refused && Or(hosts, cfg.serverHost) != "" ==> TokenHeader !in u.headers)
  {
  }

  /** Every configured host entry that is not blank is listed, stripped,
      and nothing else is; no listed host is blank. */
  lemma ListedHostsAreEntries(headers: map<string, string>, cfg: Config, episodeLocation: Option<string>,
                              hosts: string, username: string, password: string, token: string, force: bool,
                              generate: string -> seq<string>, net: Network)
    ensures var u := LibraryUpdate(headers, cfg, episodeLocation, hosts, username, password, token,
                                   force, generate, net);
            var entries := generate(Or(hosts, cfg.serverHost));
            && (u.result != Refused && Enabled(cfg, force) ==>
                  forall x :: x in entries && !AllSpace(x) ==> Strip(x) in u.listed)
            && (forall h :: h in u.listed ==> h != [] && exists x :: x in entries && h == Strip(x))
  {
    var entries := generate(Or(hosts, cfg.serverHost));
    NonBlankEntriesAreListed(entries);
    ListedHostsAreStripped(entries);
  }

  /** With `force` nothing is refreshed, and the result is `None` exactly
      when every listed host answered with sections; otherwise it names
      exactly the hosts whose listing failed. */
  lemma ForceOnlyLists(headers: map<string, string>, cfg: Config, episodeLocation: Option<string>,
                       hosts: string, username: string, password: string, token: string,
                       generate: string -> seq<string>, net: Network)
    ensures var u := LibraryUpdate(headers, cfg, episodeLocation, hosts, username, password, token,
                                   true, generate, net);
            && u.refreshed == map[]
            && (u.result != Refused ==>
                  && (u.result == NoIssue <==> forall h :: h in u.listed ==> !ListingFails(net.listing(h)))
                  && (u.result.HostsFailed? ==>
                        u.result.hosts == set h | h in u.listed && ListingFails(net.listing(h))))
  {
    var u := LibraryUpdate(headers, cfg, episodeLocation, hosts, username, password, token, true, generate, net);
    if u.result != Refused {
      FailedHostsAreFailedListings(u.listed, net.listing, FileLocation(episodeLocation));
      var failed := set h | h in u.listed && ListingFails(net.listing(h));
      if failed == {} {
        forall h | h in u.listed ensures !ListingFails(net.listing(h)) {
          assert h in failed <==> ListingFails(net.listing(h));
        }
      }
    }
  }

  /** Without `force`, the sections refreshed are those whose location
      claims the episode file if there are any, else every `show` section;
      each is refreshed on a listed host that reported it, and without an
      episode every `show` section is refreshed. */
  lemma RefreshTargetsChosen(headers: map<string, string>, cfg: Config, episodeLocation: Option<string>,
                             hosts: string, username: string, password: string, token: string,
                             generate: string -> seq<string>, net: Network)
    ensures var u := LibraryUpdate(headers, cfg, episodeLocation, hosts, username, password, token,
                                   false, generate, net);
            var e := Enumerate(u.listed, net.listing, FileLocation(episodeLocation));
            u.result != Refused && Enabled(cfg, false) ==>
              && u.refreshed == (if |e.matchingHosts| > 0 then e.matchingHosts else e.allHosts)
              && u.refreshed.Keys <= e.allHosts.Keys
              && (forall k :: k in u.refreshed ==>
                    u.refreshed[k] in u.listed && k in HostShowKeys(net.listing(u.refreshed[k])))
              && (episodeLocation.None? ==> u.refreshed == e.allHosts)
  {
    var u := LibraryUpdate(headers, cfg, episodeLocation, hosts, username, password, token, false, generate, net);
    TargetsAreListedSections(u.listed, net.listing, FileLocation(episodeLocation));
  }

  /** Every host the result names was listed, and failed either its listing
      or the refresh of a section it was chosen for. */
  lemma FailedHostsWereContacted(headers: map<string, string>, cfg: Config, episodeLocation: Option<string>,
                                 hosts: string, username: string, password: string, token: string, force: bool,
                                 generate: string -> seq<string>, net: Network)
    ensures var u := LibraryUpdate(headers, cfg, episodeLocation, hosts, username, password, token,
                                   force, generate, net);
            u.result.HostsFailed? ==>
              forall h :: h in u.result.hosts ==>
                h in u.listed
                && (ListingFails(net.listing(h))
                    || exists k :: k in u.refreshed && u.refreshed[k] == h && !net.refreshOk(h, k))
  {
    var u := LibraryUpdate(headers, cfg, episodeLocation, hosts, username, password, token, force, generate, net);
    if u.result.HostsFailed? {
      var f := FileLocation(episodeLocation);
      var e := Enumerate(u.listed, net.listing, f);
      FailedHostsAreFailedListings(u.listed, net.listing, f);
      TargetsAreListedSections(u.listed, net.listing, f);
      FailuresAreContacted(e, u.listed, net.listing, u.refreshed, net.refreshOk);
    }
  }

  /** Without `force`, the result names exactly the listed hosts whose
      listing failed and the hosts of the refreshed sections whose refresh
      raised; it is `None` exactly when there are none. */
  lemma UnforcedFailuresAreReported(headers: map<string, string>, cfg: Config, episodeLocation: Option<string>,
                                    hosts: string, username: string, password: string, token: string,
                                    generate: string -> seq<string>, net: Network)
    ensures var u := LibraryUpdate(headers, cfg, episodeLocation, hosts, username, password, token,
                                   false, generate, net);
            u.result != Refused ==>
              && u.result == Outcome((set h | h in u.listed && ListingFails(net.listing(h)))
                                     + RefreshFailures(u.refreshed, net.refreshOk))
              && (forall h :: h in u.listed && ListingFails(net.listing(h)) ==>
                    u.result.HostsFailed? && h in u.result.hosts)
              && (forall k :: k in u.refreshed && !net.refreshOk(u.refreshed[k], k) ==>
                    u.result.HostsFailed? && u.refreshed[k] in u.result.hosts)
  {
    var u := LibraryUpdate(headers, cfg, episodeLocation, hosts, username, password, token, false, generate, net);
    if !Enabled(cfg, false) {
      assert (set h | h in u.listed && ListingFails(net.listing(h))) == {};
      assert RefreshFailures(u.refreshed, net.refreshOk) == {};
    } else if u.result != Refused {
      GuardsComeFirst(headers, cfg, episodeLocation, hosts, username, password, token, false, generate, net);
      PastGuards(headers, cfg, episodeLocation, hosts, username, password, token, false, generate, net);
      var e := Enumerate(u.listed, net.listing, FileLocation(episodeLocation));
      FailedHostsAreFailedListings(u.listed, net.listing, FileLocation(episodeLocation));
      FailuresAreReported(e.failedHosts, u.listed, net.listing, u.refreshed, net.refreshOk);
    }
  }

  /** The hosts named by the final join: every failed listing and every
      raised refresh. */
  lemma FailuresAreReported(failed: set<string>, listed: seq<string>, listing: string -> Listing,
                            refreshed: map<string, string>, refreshOk: (string, string) -> bool)
    requires failed == set h | h in listed && ListingFails(listing(h))
    ensures var r := Outcome(failed + RefreshFailures(refreshed, refreshOk));
            && (forall h :: h in listed && ListingFails(listing(h)) ==> r.HostsFailed? && h in r.hosts)
            && (forall k :: k in refreshed && !refreshOk(refreshed[k], k) ==> r.HostsFailed? && refreshed[k] in r.hosts)
  {
    var all := failed + RefreshFailures(refreshed, refreshOk);
    forall k | k in refreshed && !refreshOk(refreshed[k], k) ensures refreshed[k] in all {
      assert refreshed[k] in RefreshFailures(refreshed, refreshOk);
    }
    forall h | h in listed && ListingFails(listing(h)) ensures h in all {
      assert h in failed;
    }
    if all != {} {
      assert Outcome(all) == HostsFailed(all);
    }
  }

  lemma FailuresAreContacted(e: Enumeration, listed: seq<string>, listing: string -> Listing,
                             refreshed: map<string, string>, refreshOk: (string, string) -> bool)
    requires e.failedHosts == set h | h in listed && ListingFails(listing(h))
    requires forall k :: k in refreshed ==> refreshed[k] in listed
    ensures forall h :: h in e.failedHosts + RefreshFailures(refreshed, refreshOk) ==>
              h in listed
              && (ListingFails(listing(h))
                  || exists k :: k in refreshed && refreshed[k] == h && !refreshOk(h, k))
  {
  }

  class Notifier {
    /** The headers sent with every request; they persist across calls. */
    var headers: map<string, string>
    /** The identity headers set when the object was made. */
    ghost const identity: map<string, string>
    /** Every request sent so far, in order. */
    ghost var sent: seq<Request>

    /** The identity headers are in place and never hold the token. */
    ghost predicate Valid()
      reads this`headers
    {
      && TokenHeader !in identity
      && forall h :: h in identity ==> h in headers && headers[h] == identity[h]
    }

    constructor(userAgent: string)
      ensures Valid()
      ensures headers == IdentityHeaders(userAgent) && identity == headers
      ensures sent == []
    {
      headers := IdentityHeaders(userAgent);
      identity := IdentityHeaders(userAgent);
      sent := [];
    }

    /** Changing only the token header keeps the identity headers. */
    lemma KeepsIdentity(h: map<string, string>)
      requires Valid() && h - {TokenHeader} == headers - {TokenHeader}
      ensures forall k :: k in identity ==> k in h && h[k] == identity[k]
    {
      forall k | k in identity ensures k in h && h[k] == identity[k] {
        assert k in headers - {TokenHeader};
      }
    }

    /** `get_token`. */
    method GetToken(username: string, password: string, token: string, cfg: Config,
                    signIn: (string, string) -> SignInReply)
      returns (ok: bool)
      requires Valid()
      modifies this
      ensures Valid()
      ensures var a := Authenticate(old(headers), username, password, token, cfg, signIn);
              headers == a.headers && ok == a.ok && sent == old(sent) + SignInRequests(a.signIn)
    {
      ghost var a := Authenticate(headers, username, password, token, cfg, signIn);
      KeepsIdentity(a.headers);
      var login := Or(username, cfg.serverUsername);
      var secret := Or(password, cfg.serverPassword);
      var supplied := Or(token, cfg.serverToken);
      if supplied != "" {
        headers := headers[TokenHeader := supplied];
      }
      if TokenHeader in headers {
        return true;
      }
      if !(login != "" && secret != "") {
        return true;
      }
      sent := sent + [SignIn(login, secret)];
      match signIn(login, secret) {
        case Token(t) =>
          headers := headers[TokenHeader := t];
        case SignInFailed =>
          headers := headers - {TokenHeader};
      }
      ok := TokenHeader in headers;
    }

    /** `update_library`: the guards, then the host loop, then (unless
        forced) the refresh loop. */
    method UpdateLibrary(cfg: Config, episodeLocation: Option<string>, hosts: string,
                         username: string, password: string, token: string, force: bool,
                         generate: string -> seq<string>, net: Network)
      returns (r: UpdateResult)
      requires Valid()
      modifies this
      ensures Valid()
      ensures var u := LibraryUpdate(old(headers), cfg, episodeLocation, hosts, username, password, token,
                                     force, generate, net);
              && r == u.result
              && headers == u.headers
              && UpdateLog(sent, old(sent) + SignInRequests(u.signIn) + ListRequests(Scheme(cfg), u.listed),
                           Scheme(cfg), u.refreshed)
    {
      if !Enabled(cfg, force) {
        UpdateLogEmpty(sent, Scheme(cfg));
        return NoIssue;
      }
      var resolved := Or(hosts, cfg.serverHost);
      if resolved == "" {
        UpdateLogEmpty(sent, Scheme(cfg));
        return Refused;
      }
      var ok := GetToken(username, password, token, cfg, net.signIn);
      if !ok {
        UpdateLogEmpty(sent, Scheme(cfg));
        return Refused;
      }
      var fileLocation := FileLocation(episodeLocation);
      var schema := Scheme(cfg);
      PastGuards(old(headers), cfg, episodeLocation, hosts, username, password, token, force, generate, net);
      ghost var listings;
      r, listings := SyncHosts(generate(resolved), schema, fileLocation, force, net);
      UpdateLogExtend(listings, sent, ListRequests(schema, ServerHosts(generate(resolved))), schema,
                      if force then map[] else Targets(Enumerate(ServerHosts(generate(resolved)), net.listing, fileLocation)));
      sent := sent + listings;
    }

    /** `test_notify_pms`: a forced library update with no episode. */
    method TestNotifyPms(cfg: Config, hosts: string, username: string, password: string, token: string,
                         generate: string -> seq<string>, net: Network)
      returns (r: UpdateResult)
      requires Valid()
      modifies this
      ensures Valid()
      ensures var u := LibraryUpdate(old(headers), cfg, None, hosts, username, password, token,
                                     true, generate, net);
              r == u.result && headers == u.headers && u.refreshed == map[]
              && sent == old(sent) + SignInRequests(u.signIn) + ListRequests(Scheme(cfg), u.listed)
    {
      ForceOnlyLists(headers, cfg, None, hosts, username, password, token, generate, net);
      r := UpdateLibrary(cfg, None, hosts, username, password, token, true, generate, net);
    }
  }

  /** What `update_library` does once the guards pass. */
  lemma PastGuards(headers: map<string, string>, cfg: Config, episodeLocation: Option<string>,
                   hosts: string, username: string, password: string, token: string, force: bool,
                   generate: string -> seq<string>, net: Network)
    requires Enabled(cfg, force) && Or(hosts, cfg.serverHost) != ""
    requires Authenticate(headers, username, password, token, cfg, net.signIn).ok
    ensures var a := Authenticate(headers, username, password, token, cfg, net.signIn);
            var listed := ServerHosts(generate(Or(hosts, cfg.serverHost)));
            var e := Enumerate(listed, net.listing, FileLocation(episodeLocation));
            LibraryUpdate(headers, cfg, episodeLocation, hosts, username, password, token, force, generate, net)
            == Update(if force then Outcome(e.failedHosts)
                      else Outcome(e.failedHosts + RefreshFailures(Targets(e), net.refreshOk)),
                      a.headers, a.signIn, listed, if force then map[] else Targets(e))
  {
  }

  /** The part of `update_library` past the guards: the host loop,
      then, unless forced, the refresh of the chosen sections. */
  method SyncHosts(entries: seq<string>, scheme: string, fileLocation: string, force: bool, net: Network)
    returns (r: UpdateResult, ghost log: seq<Request>)
    ensures var e := Enumerate(ServerHosts(entries), net.listing, fileLocation);
            r == if force then Outcome(e.failedHosts)
                 else Outcome(e.failedHosts + RefreshFailures(Targets(e), net.refreshOk))
    ensures var listed := ServerHosts(entries);
            var e := Enumerate(listed, net.listing, fileLocation);
            UpdateLog(log, ListRequests(scheme, listed), scheme, if force then map[] else Targets(e))
  {
    var e, listings := EnumerateHosts(entries, scheme, net.listing, fileLocation);
    if force {
      UpdateLogEmpty(listings, scheme);
      return Outcome(e.failedHosts), listings;
    }
    var targets := Targets(e);
    var failed, refreshes := RefreshSections(targets, scheme, net.refreshOk, e.failedHosts);
    log := listings + refreshes;
    assert log[..|listings|] == listings && log[|listings|..] == refreshes;
    r := Outcome(failed);
  }

  /** `log` starts with `prefix`, followed by exactly the refresh requests
      for the sections of `refreshed`, one each, in some order. */
  ghost predicate UpdateLog(log: seq<Request>, prefix: seq<Request>, scheme: string, refreshed: map<string, string>) {
    |prefix| <= |log| && log[..|prefix|] == prefix && RefreshLog(log[|prefix|..], scheme, refreshed, refreshed.Keys)
  }

  lemma UpdateLogExtend(log: seq<Request>, before: seq<Request>, prefix: seq<Request>, scheme: string,
                        refreshed: map<string, string>)
    requires UpdateLog(log, prefix, scheme, refreshed)
    ensures UpdateLog(before + log, before + prefix, scheme, refreshed)
  {
    assert (before + log)[..|before + prefix|] == before + log[..|prefix|];
    assert (before + log)[|before + prefix|..] == log[|prefix|..];
  }

  lemma UpdateLogEmpty(log: seq<Request>, scheme: string)
    ensures UpdateLog(log, log, scheme, map[])
  {
    assert log[|log|..] == [];
  }
}
