# Plex notifier: token acquisition and library update

A model of the Plex Media Server side of Medusa's Plex notifier
(`medusa/notifiers/plex.py`). It covers four parts:

- **`Notifier` object.** It keeps a persistent map of request headers. The
  constructor installs four identity headers, and `get_token` adds
  `X-Plex-Token` to them.
- **`get_token`.** It installs a given or configured token, keeps one that
  is already present, or signs in at plex.tv with a login and password.
- **`update_library`.** It has three guard sentinels. It then strips the
  configured host entries and lists every host's library sections. It
  records `show` sections in `all_hosts` (section key to host), and records
  the sections whose root folder holds the new episode file in
  `matching_hosts`. Finally it refreshes the matching sections, or all of
  them, and reports the hosts that failed.
- **Path test.** It decides whether a section's root folder holds the
  episode file. Both paths are lower-cased, separator runs are collapsed,
  and a short drive or root prefix is removed. The section matches when its
  normal form occurs as a substring of the file's.

Modules:

- `Text` (text.dfy): ASCII `lower()` and `strip()`.
- `Paths` (paths.dfy): the two regular-expression rewrites and the substring
  test, with their properties.
- `Library` (library.dfy): the outcome types of the HTTP calls and the
  bookkeeping of the host loop and the refresh loop. Each is given as a
  specification function plus a method with the loop, proved equal to it.
  Lemmas characterise the functions: `all_hosts` maps each key to the last
  host that reported it, and `failed_hosts` holds exactly the hosts whose
  listing failed.
- `PlexNotifier` (notifier.dfy): the `Notifier` class with its `headers`
  field, `GetToken`, `UpdateLibrary` and `TestNotifyPms`. The functions
  `Authenticate` and `LibraryUpdate` give their effect, and lemmas state
  the guard order, forced mode and the choice of refresh targets.

Everything the notifier reads from outside is a parameter:

- the `app.PLEX_*` settings are a `Config` value;
- the host-list splitter `generate` is a function from the host string to
  its entries;
- the network is a `Network` value with three parts: the sign-in reply for
  a login and password, the section listing of a host, and whether a
  refresh request raises.

The object carries a ghost log, `sent`, of the requests it sends, so the
model can state which hosts are contacted.

Three behaviours of the code that are easy to miss:

- `get_token` returns true with no token when no token is given or
  configured and the login or password is missing
  (`medusa/notifiers/plex.py:225-226`). `update_library` then lists the
  hosts without a token. `Authenticate` states exactly when this happens.
- A failed sign-in makes `update_library` return `False` before it contacts
  any host (`medusa/notifiers/plex.py:121-123`).
- Matching is by substring, so the root `/tv` also claims a file under
  `/tv2` (`SiblingFolderMatches`).

## Model

| member | source | states |
|---|---|---|
| Text.Lower | medusa/notifiers/plex.py:180 | `lower()`: same length, no upper-case letter left, each upper-case letter replaced by its lower-case partner, every other character kept |
| Text.StripSpec | medusa/notifiers/plex.py:127 | `strip()` returns the infix of `s` that has only whitespace around it and neither starts nor ends with whitespace; it is empty exactly when `s` is blank |
| Paths.CollapseSpec | medusa/notifiers/plex.py:180 | the separator-run rewrite yields a string with no `\` and no `//`, no longer than its input, starting like it, and holding only its characters and `/` |
| Paths.CollapseSnoc | medusa/notifiers/plex.py:180 | read from the right, a separator right after a separator adds nothing and any other character is appended (a separator as `/`): every run becomes exactly one `/` |
| Paths.CollapseFixesCollapsed | medusa/notifiers/plex.py:180 | a path with no `\` and no `//` is left unchanged, so the rewrite is idempotent |
| Paths.CollapseKeepsNames | medusa/notifiers/plex.py:180 | the rewrite keeps every non-separator character, in order |
| Paths.CollapseDoubledSep | medusa/notifiers/plex.py:180 | a doubled separator anywhere in a path gives the same result as a single one |
| Paths.CollapseIgnoresSepKind | medusa/notifiers/plex.py:180 | writing every `\` as `/` first does not change the result |
| Paths.StripPrefixSpec | medusa/notifiers/plex.py:181 | the prefix rewrite keeps a suffix of its input: all of it when `^(.{,2})[/\\]` does not match (in particular with no separator among the first three characters), otherwise what follows the longest match |
| Paths.NormalizeSpec | medusa/notifiers/plex.py:180-183 | a normalised path has no upper-case letter, no `\` and no `//`, and is no longer than the path |
| Paths.NormalizeIgnoresCaseAndSepKind | medusa/notifiers/plex.py:180-183 | paths that differ only in letter case or separator kind normalise alike |
| Paths.ContainsIsSubstring | medusa/notifiers/plex.py:185 | the `in` test holds exactly when the needle occurs at some index of the haystack |
| Paths.SectionMatchesIsSubstring | medusa/notifiers/plex.py:180-185 | a section root claims a file exactly when its normal form occurs somewhere in the file location's normal form |
| Paths.NormalizeWindowsRoot | medusa/notifiers/plex.py:180-181 | `C:\TV` normalises to `tv` |
| Paths.WindowsRootMatches | medusa/notifiers/plex.py:180-185 | the root `C:\TV` claims the file `c:/tv/x` |
| Paths.ShortFirstFolderIsStripped | medusa/notifiers/plex.py:180-181 | `/a/b` normalises to `b`: a first folder of up to two characters is removed with the slash |
| Paths.SiblingFolderMatches | medusa/notifiers/plex.py:180-185 | the root `/tv` claims `/tv2/x`: the test is by substring, not by folder |
| Library.NonBlankEntriesAreListed | medusa/notifiers/plex.py:126-127 | every host entry that is not blank is contacted, in its stripped form |
| Library.ListedHostsAreStripped | medusa/notifiers/plex.py:126-127 | every contacted host is the stripped form of an entry, not empty, with no whitespace at either end |
| Library.ListRequests | medusa/notifiers/plex.py:133-139 | one section-listing request per host, in host order |
| Library.RecordSectionsEffect | medusa/notifiers/plex.py:169-186 | one listing maps each of its `show` keys to the host in `all_hosts`, and each key whose section claims the file in `matching_hosts`, overwriting earlier entries; the failed set is unchanged |
| Library.ClaimSpec | medusa/notifiers/plex.py:172-175 | `dict.update` with one key per section: the claimed keys map to the host, the other keys keep their value |
| Library.LastClaimantKeys | medusa/notifiers/plex.py:133-175 | the keys of the map built host by host are exactly the keys some host claims |
| Library.LastClaimantIsLast | medusa/notifiers/plex.py:133-175 | each key maps to the last host that claims it: a later host overwrites an earlier one |
| Library.AllHostsIsLastClaimant | medusa/notifiers/plex.py:133-177 | after the host loop, `all_hosts` maps each `show` key of a successful listing to the last host that reported it |
| Library.MatchingHostsIsLastClaimant | medusa/notifiers/plex.py:133-186 | after the host loop, `matching_hosts` maps each key of a section claiming the file to the last host that reported such a section |
| Library.FailedHostsAreFailedListings | medusa/notifiers/plex.py:138-167 | after the host loop, `failed_hosts` is exactly the hosts whose listing raised, had a 4xx/5xx status, an empty body or no `Directory` |
| Library.MatchingWithinAll | medusa/notifiers/plex.py:169-186 | the keys of `matching_hosts` are among those of `all_hosts` |
| Library.NoFileNoMatching | medusa/notifiers/plex.py:176-177 | with no file location `matching_hosts` stays empty |
| Library.TargetsAreListedSections | medusa/notifiers/plex.py:191-196 | each section refreshed is a `show` section reported by its (contacted) host; without a file location every `show` section is refreshed |
| Library.EnumerateHosts | medusa/notifiers/plex.py:125-186 | the host loop ends in the state `Enumerate` describes, having sent one listing request per non-blank host in order |
| Library.VisitListing | medusa/notifiers/plex.py:138-186 | one host's listing: a transport error, a 4xx/5xx status, an empty body or no `Directory` adds the host to the failed set; otherwise its sections are recorded, as `VisitHost` describes |
| Library.RecordShowSections | medusa/notifiers/plex.py:169-186 | the section loop for one host ends in the state `RecordSections` describes |
| Library.RecordMatches | medusa/notifiers/plex.py:179-186 | the location loop maps the key to the host exactly when some location of the section claims the file |
| Library.RefreshSections | medusa/notifiers/plex.py:199-210 | the refresh loop sends exactly one refresh request per target section and adds to the failed set exactly the hosts of the requests that raised |
| PlexNotifier.IdentityHeaders | medusa/notifiers/plex.py:26-31 | the four identity headers, the client identifier being the user agent; no token |
| PlexNotifier.Outcome | medusa/notifiers/plex.py:212 | the result is `None` exactly when no host failed, and otherwise names exactly the failed hosts |
| PlexNotifier.Authenticate | medusa/notifiers/plex.py:214-246 | only the token header changes. A supplied token is installed and an existing token is kept. Plex.tv is asked exactly when there is no token and both credentials are present; the call then fails exactly when sign-in fails, leaving no token. It succeeds without a token exactly when credentials are missing |
| PlexNotifier.LibraryUpdate | medusa/notifiers/plex.py:100-212 | an update changes no header but the token header |
| PlexNotifier.GuardsComeFirst | medusa/notifiers/plex.py:113-123 | disabled and not forced gives `None` with no effect; no host gives `False` with no effect; the result is `False` exactly when one of the later two guards fires, and then no host is contacted |
| PlexNotifier.ListedHostsAreEntries | medusa/notifiers/plex.py:125-133 | past the guards every non-blank host entry is contacted, stripped, and every contacted host is a stripped entry |
| PlexNotifier.ForceOnlyLists | medusa/notifiers/plex.py:188-189 | when forced nothing is refreshed, and the result is `None` exactly when every listing succeeded, else exactly the hosts whose listing failed |
| PlexNotifier.RefreshTargetsChosen | medusa/notifiers/plex.py:191-199 | unforced, the refreshed sections are `matching_hosts` if non-empty, else `all_hosts`, each on a contacted host that reported it |
| PlexNotifier.UnforcedFailuresAreReported | medusa/notifiers/plex.py:138-212 | unforced, the result is `None` exactly when no listing failed and no refresh raised, and otherwise names exactly the listed hosts whose listing failed and the hosts of the refreshed sections whose refresh raised |
| PlexNotifier.FailuresAreReported | medusa/notifiers/plex.py:208-212 | every failed listing and every raised refresh puts its host into the joined result |
| PlexNotifier.FailedHostsWereContacted | medusa/notifiers/plex.py:138-212 | every host named in the result was contacted and failed its listing or the refresh of a section it was chosen for |
| PlexNotifier.SyncHosts | medusa/notifiers/plex.py:125-212 | past the guards, the host loop and (unless forced) the refresh loop yield the result `LibraryUpdate` describes and send exactly its listing and refresh requests |
| PlexNotifier.Notifier.constructor | medusa/notifiers/plex.py:25-31 | a new notifier holds exactly the identity headers and has sent nothing |
| PlexNotifier.Notifier.KeepsIdentity | medusa/notifiers/plex.py:220-243 | changing only the token header keeps every identity header |
| PlexNotifier.Notifier.GetToken | medusa/notifiers/plex.py:214-246 | the headers and result are those of `Authenticate`, the identity headers stay, and a sign-in request is sent exactly when `Authenticate` asks plex.tv |
| PlexNotifier.Notifier.UpdateLibrary | medusa/notifiers/plex.py:100-212 | result and headers are those of `LibraryUpdate`, the identity headers stay, and the requests sent are the sign-in (if any), one listing per contacted host in order, then one refresh per chosen section |
| PlexNotifier.Notifier.TestNotifyPms | medusa/notifiers/plex.py:96-98 | a forced update with no episode: it lists hosts, refreshes nothing |

## Left out

- HTTP traffic, the `MedusaSession` object and `requests` exceptions: each request's outcome is an input value (`Network`). One call gives each host one fixed listing outcome and each section one fixed refresh outcome.
- The difference between a 401 and other 4xx/5xx statuses, which only changes the log message.
- XML parsing (`etree.fromstring`, `findall`) and JSON decoding of the sign-in reply: the parsed `Directory` elements and the token (or the failure) are inputs. A malformed XML body that would raise in `etree.fromstring` is not modelled.
- Library.RecordSections: every `Directory` element is taken to have a `type` and a `key` attribute and every `Location` a `path`; in the code a missing attribute raises `KeyError`, which leaves `update_library` and skips the remaining hosts and the refresh loop. That aborting path is not modelled.
- Logging. `_notify_pht`, `notify_snatch`, `notify_download`, `notify_subtitle_download`, `notify_git_update`, `notify_login` and `test_notify_pht`: these are flag-gated forwards to the Kodi notifier, which is not part of this model.
- `generate` (the host-list splitter in `medusa/helpers/utils.py`) is not part of this model; it is a function parameter.
- `app` settings are a `Config` value; an unset setting is the empty string.
- Text.Lower: ASCII letters only; Python's Unicode case mapping is not modelled.
- Text.StripSpec: whitespace is the ASCII whitespace of `str.isspace()`; the Unicode space characters are not modelled.
- Library.RefreshSections: the refresh loop visits the keys in an arbitrary order, where Python follows dict insertion order. The model states the set of requests sent and the failures, not their order.
- PlexNotifier.Outcome: the result string `', '.join(failed_hosts)` is modelled as the set of failed hosts, since the order of a Python set is unspecified.
