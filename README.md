# sensecam-discovery: the address filter of `discover`, in Dafny

`discover` in `sensecam_discovery/SenseCamDiscovery.py` finds ONVIF cameras on the local
network. It runs a WS-Discovery search and then reduces each match to two strings: the
rendered transport addresses (`get_ip`) and the rendered service types (`get_types`).
For every match and every whitespace-separated entry of the scope (by default the
output of `hostname -I`) it does four things:

- builds a key from the first two '.'-separated parts of the entry, e.g. `192.168`;
- looks for the key in `get_ip`;
- when the key's first occurrence in `get_ip` is at an index greater than 0, and the
  first `onvif` in `get_types` is too,
  cuts 13 characters from the match and keeps what comes before the first '/';
- appends that token to a list.

The list is then sorted in place and returned.

This project models that filtering, extraction and sorting:

- `pystr.dfy` (module `PyStrings`) holds the Python `str` operations the loop relies
  on, each with its defining properties:
  - `find`, and `split('.')` with its inverse `join`;
  - `split()` on the characters for which `str.isspace` holds;
  - the `<=` ordering of `str` that `list.sort` uses.
- `pysort.dfy` (module `PySort`) holds `lst.sort()`. It is an in-place sort of an array,
  proved to leave the array sorted and a permutation of what it held. A further lemma
  shows that only one sorted permutation exists.
- `discovery.dfy` (module `SenseCamDiscovery`) holds `discover` itself.
  - `Discover` is the outer loop over the matches, `ScanScope` the inner loop over the
    scope entries, and `MatchEntry` the body of the inner loop.
  - Each is proved against the specification function `Collected`. `Collected` gives the
    list as the nested loops leave it: services outer, scope entries inner.
  - Lemmas state what that list holds: which pairs contribute, the form of each token,
    its length, and how services combine.

Each WS-Discovery match enters as a `Service(xaddrs, types)` value that holds the two
rendered strings. The scope enters as the string that `split()` is applied to.

Three behaviours of the code are kept as written:

- The 13-character slice keeps whatever follows the address. For
  `http://192.168.1.50:80/onvif/device_service` and the scope `192.168.1.10`, the token is
  `192.168.1.50:`, with the ':' (see `CameraExample`). It is not `192.168.1.50`.
- Duplicate tokens are kept. Sorting does not remove them.
- A scope entry without a '.' makes `ip_scope.split('.')[1]` raise `IndexError` as soon as
  there is a service to test it against. The model returns `IndexError` in exactly that
  case. It does not skip the entry or return an empty list.

## Model

| member | source | states |
|---|---|---|
| SenseCamDiscovery.Discover | sensecam_discovery/SenseCamDiscovery.py:27-37 | raises `IndexError` exactly when there is at least one service and some scope entry has no '.'; otherwise returns a sorted list that holds the tokens of the nested loops (services outer, scope entries inner), each as often as appended, at most one per (service, entry) pair, each at most 13 characters long and free of '/' |
| SenseCamDiscovery.ScanScope | sensecam_discovery/SenseCamDiscovery.py:30-35 | the inner loop for one service fails exactly when some scope entry has no '.'; otherwise it appends what each entry appends, in scope order |
| SenseCamDiscovery.MatchEntry | sensecam_discovery/SenseCamDiscovery.py:31-35 | one (service, entry) pair fails exactly when the entry has no '.'; otherwise it appends the token when the pair is accepted and nothing when it is not |
| SenseCamDiscovery.Key | sensecam_discovery/SenseCamDiscovery.py:31 | the key `ip_scope.split('.')[0] + '.' + ip_scope.split('.')[1]`, defined on entries holding a '.'; characterized by KeyShape and, conversely, KeyOf |
| SenseCamDiscovery.MatchIndex | sensecam_discovery/SenseCamDiscovery.py:31 | `get_ip.find(key)`, the first index of the key or -1; characterized through `PyStrings.Find` and AcceptsIff |
| SenseCamDiscovery.IsOnvif | sensecam_discovery/SenseCamDiscovery.py:32 | `get_types.find('onvif') > 0`; characterized by AcceptsIff and `PyStrings.FindPositive` |
| SenseCamDiscovery.Accepts | sensecam_discovery/SenseCamDiscovery.py:32 | the condition of line 32 on one pair; characterized by AcceptsIff as occurrence conditions |
| SenseCamDiscovery.TokenFor | sensecam_discovery/SenseCamDiscovery.py:33-34 | the token of an accepted pair, `Token` at the match index; its shape is stated by Token, YieldsCut and TokenFull |
| SenseCamDiscovery.Emitted | sensecam_discovery/SenseCamDiscovery.py:32-35 | what one pair appends: one token when accepted, nothing otherwise; MatchEntry is proved equal to it |
| SenseCamDiscovery.ServiceTokens | sensecam_discovery/SenseCamDiscovery.py:30-35 | what the inner loop appends for one service, in scope order; ScanScope is proved equal to it, ServiceTokensMember characterizes its members |
| SenseCamDiscovery.Collected | sensecam_discovery/SenseCamDiscovery.py:27-35 | the list before the sort, services outer and scope entries inner; Discover is proved against it, CollectedMember characterizes its members |
| SenseCamDiscovery.KeyShape | sensecam_discovery/SenseCamDiscovery.py:31 | the key `parts[0] + '.' + parts[1]` is the entry cut just before its second '.' (or the whole entry), so it is a prefix of the entry holding exactly one '.' |
| SenseCamDiscovery.KeyParts | sensecam_discovery/SenseCamDiscovery.py:31 | the key is the text before the first '.', a '.', and the '.'-free piece that follows up to the next '.' or the end |
| SenseCamDiscovery.KeyPieces | sensecam_discovery/SenseCamDiscovery.py:31 | such a text-dot-piece key is a prefix of the entry that ends at a '.' or at the end, with its only '.' at the first one |
| SenseCamDiscovery.KeyOf | sensecam_discovery/SenseCamDiscovery.py:31 | conversely, an entry `a.b` followed by nothing or by '.'-something, with `a` and `b` free of '.', has the key `a.b` |
| SenseCamDiscovery.Token | sensecam_discovery/SenseCamDiscovery.py:33-34 | the token is the longest piece of the address string from the match on that has at most 13 characters and no '/': it is a prefix of `get_ip[result:]` that stops at 13 characters, at the first '/' or at the end |
| SenseCamDiscovery.AcceptsIff | sensecam_discovery/SenseCamDiscovery.py:31-32 | a pair is accepted exactly when the key occurs somewhere past index 0 of the address string but not at index 0, and `onvif` likewise in the type string; an absent key or a key first found at index 0 is rejected |
| SenseCamDiscovery.ServiceTokensSnoc | sensecam_discovery/SenseCamDiscovery.py:30-35 | one more scope entry appends what that entry yields after what the earlier entries appended |
| SenseCamDiscovery.ServiceTokensStep | sensecam_discovery/SenseCamDiscovery.py:30-35 | the inner loop's step: entries up to `j` append what entries before `j` appended followed by what entry `j` yields |
| SenseCamDiscovery.CollectedSnoc | sensecam_discovery/SenseCamDiscovery.py:27-35 | one more service appends what its inner loop appends after the earlier services' tokens |
| SenseCamDiscovery.CollectedStep | sensecam_discovery/SenseCamDiscovery.py:27-35 | the outer loop's step, stated on prefixes of the service list |
| SenseCamDiscovery.ServiceTokensMember | sensecam_discovery/SenseCamDiscovery.py:30-35 | a token is appended for a service exactly when some scope entry paired with it is accepted and yields that token |
| SenseCamDiscovery.CollectedMember | sensecam_discovery/SenseCamDiscovery.py:27-35 | a token is in the collected list exactly when some (service, scope entry) pair is accepted and yields it |
| SenseCamDiscovery.YieldsCut | sensecam_discovery/SenseCamDiscovery.py:31-35 | what an accepted pair yields occurs in its service's address string at a position past index 0 |
| SenseCamDiscovery.CollectedFromAddresses | sensecam_discovery/SenseCamDiscovery.py:27-35 | every collected token occurs, past index 0, in the address string of some service |
| SenseCamDiscovery.CollectedShape | sensecam_discovery/SenseCamDiscovery.py:33-35 | every collected token has at most 13 characters and no '/' |
| SenseCamDiscovery.CollectedLength | sensecam_discovery/SenseCamDiscovery.py:27-35 | the collected list has at most one token per (service, scope entry) pair |
| SenseCamDiscovery.CollectedNoEntries | sensecam_discovery/SenseCamDiscovery.py:30 | a scope with no entries collects nothing, whatever the services |
| SenseCamDiscovery.NonOnvifAddsNothing | sensecam_discovery/SenseCamDiscovery.py:32 | a service whose type string does not have its first `onvif` at an index greater than 0 appends nothing, whatever the scope |
| SenseCamDiscovery.DropNonOnvif | sensecam_discovery/SenseCamDiscovery.py:32 | removing such a service from the search results leaves the collected list unchanged |
| SenseCamDiscovery.CollectedAppend | sensecam_discovery/SenseCamDiscovery.py:27 | the services are processed one after another: the tokens of two service lists in a row are the tokens of the first followed by those of the second |
| SenseCamDiscovery.SingleCollected | sensecam_discovery/SenseCamDiscovery.py:27-35 | one service and one scope entry collect exactly what that pair yields |
| SenseCamDiscovery.SingleAccepted | sensecam_discovery/SenseCamDiscovery.py:31-35 | an ONVIF service whose address string has the key after text lacking the key's first character, with no '/' in the 13 characters from there, collects exactly those 13 characters |
| SenseCamDiscovery.FindFirst | sensecam_discovery/SenseCamDiscovery.py:31 | `find` returns the position of a pattern whose first character does not occur before it |
| SenseCamDiscovery.TokenFull | sensecam_discovery/SenseCamDiscovery.py:33-34 | when the 13 characters from the match hold no '/', the token is those 13 characters |
| SenseCamDiscovery.CameraExample | sensecam_discovery/SenseCamDiscovery.py:27-37 | a camera at `http://192.168.1.50:80/onvif/device_service`, searched from the host `192.168.1.10`, is reported as `192.168.1.50:` |
| SenseCamDiscovery.MatchAtStartExample | sensecam_discovery/SenseCamDiscovery.py:32 | an address string that begins with the key is rejected |
| SenseCamDiscovery.KeyExample | sensecam_discovery/SenseCamDiscovery.py:31 | the key of `192.168.1.10` is `192.168` |
| SenseCamDiscovery.ScopeExample | sensecam_discovery/SenseCamDiscovery.py:30 | `hostname -I` output `192.168.1.10 10.0.0.7 \n` splits into the two addresses |
| SenseCamDiscovery.TwoFields | sensecam_discovery/SenseCamDiscovery.py:30 | two fields separated by a blank and followed by whitespace split back into those two fields |
| SenseCamDiscovery.OneField | sensecam_discovery/SenseCamDiscovery.py:30 | a field followed by whitespace splits into that one field |
| PyStrings.Find | sensecam_discovery/SenseCamDiscovery.py:31 | `str.find`: -1 exactly when the pattern occurs nowhere; otherwise an index where it occurs, with no occurrence before it |
| PyStrings.FindPositive | sensecam_discovery/SenseCamDiscovery.py:32 | `find(...) > 0` holds exactly when the pattern occurs past index 0 and not at index 0 |
| PyStrings.SplitOn | sensecam_discovery/SenseCamDiscovery.py:31 | `split(c)` gives at least one piece, at least two exactly when `c` occurs, no piece holding `c`, and a first piece that is the text before the first `c` |
| PyStrings.JoinSplitOn | sensecam_discovery/SenseCamDiscovery.py:34 | joining the pieces of `split(c)` with `c` gives back the string |
| PyStrings.SplitOnJoin | sensecam_discovery/SenseCamDiscovery.py:34 | splitting the join of `c`-free pieces gives back the pieces |
| PyStrings.SplitOnCons | sensecam_discovery/SenseCamDiscovery.py:31 | a `c`-free piece, `c` and a rest split into that piece followed by the pieces of the rest |
| PyStrings.SplitOnSecond | sensecam_discovery/SenseCamDiscovery.py:31 | with a `c` present, the first two pieces are the text before the first `c` and the first piece of the text after it |
| PyStrings.SplitWhitespace | sensecam_discovery/SenseCamDiscovery.py:30 | `scope.split()`: the maximal runs of non-whitespace characters in order; characterized by SplitWhitespaceFields, SplitWhitespaceEmpty and the round trip SplitWhitespaceJoin |
| PyStrings.SplitWhitespaceFields | sensecam_discovery/SenseCamDiscovery.py:30 | every field of `split()` is non-empty and free of whitespace |
| PyStrings.SplitWhitespaceEmpty | sensecam_discovery/SenseCamDiscovery.py:30 | `split()` gives no fields exactly when the string is all whitespace |
| PyStrings.SplitWhitespaceSkipsSpace | sensecam_discovery/SenseCamDiscovery.py:30 | leading whitespace does not change the fields |
| PyStrings.SplitWhitespaceWord | sensecam_discovery/SenseCamDiscovery.py:30 | a whitespace-free word followed by whitespace or nothing is the first field |
| PyStrings.SplitWhitespaceJoinCons | sensecam_discovery/SenseCamDiscovery.py:30 | the first of several blank-joined fields splits off as the first field |
| PyStrings.SplitWhitespaceJoin | sensecam_discovery/SenseCamDiscovery.py:30 | joining non-empty whitespace-free fields with a blank and splitting again gives back the fields |
| PyStrings.LexLe | sensecam_discovery/SenseCamDiscovery.py:37 | Python's `<=` on `str`: lexicographic by code point, a proper prefix first; proved a total order by LexLeRefl, LexLeTotal, LexLeAntisym and LexLeTrans |
| PyStrings.LexLeRefl | sensecam_discovery/SenseCamDiscovery.py:37 | the `str` ordering is reflexive |
| PyStrings.LexLeTotal | sensecam_discovery/SenseCamDiscovery.py:37 | any two strings are comparable |
| PyStrings.LexLeAntisym | sensecam_discovery/SenseCamDiscovery.py:37 | strings that are `<=` each other are equal |
| PyStrings.LexLeTrans | sensecam_discovery/SenseCamDiscovery.py:37 | the ordering is transitive |
| PySort.Sorted | sensecam_discovery/SenseCamDiscovery.py:37 | the order `lst.sort()` leaves: every string `<=` every later one; SortedUnique shows it fixes a permutation uniquely |
| PySort.SortInPlace | sensecam_discovery/SenseCamDiscovery.py:37 | `lst.sort()` leaves the array sorted and holding the same strings, each as often as before |
| PySort.InsertDown | sensecam_discovery/SenseCamDiscovery.py:37 | one insertion step extends the sorted prefix by one, keeps the array a permutation of what it held and leaves the elements after the step's position unchanged |
| PySort.SortList | sensecam_discovery/SenseCamDiscovery.py:37 | the sorted list is sorted, of the same length and a permutation of the collected list |
| PySort.SortedSameHead | sensecam_discovery/SenseCamDiscovery.py:37 | two sorted permutations of one non-empty list start with the same string |
| PySort.SortedUnique | sensecam_discovery/SenseCamDiscovery.py:37 | two sorted permutations of one list are equal, so the result does not depend on the sorting algorithm |

## Left out

- The WS-Discovery session (`WSDiscovery()`, `start`, `searchServices`, `stop`, lines
  24-26 and 36) is UDP multicast in a foreign library. Its matches are the input
  `services`.
- The rendering `str(service.getXAddrs())` and `str(service.getTypes())` (lines 28-29)
  is Python's `repr` of library objects. Each match enters as the two rendered strings.
- The `hostname -I` fallback when `scope` is `None` (lines 21-23) is OS process I/O. The
  scope is always an input string. `ScopeExample` shows how typical `hostname -I` output
  splits.
- The `CameraONVIF` class (lines 41-170) is a pass-through to the `onvif` SOAP client,
  which is network I/O. It is not part of this model.
- PySort.SortInPlace: Python's `list.sort` is Timsort, but the model sorts by insertion.
  Its contract (sorted, same multiset) is the one Timsort meets, and `SortedUnique` shows
  that contract fixes the result. Stability is not stated because equal `str` values
  cannot be told apart.
- SenseCamDiscovery.Discover: in the model the list is collected as a sequence and
  copied into an array for the in-place sort. Python sorts the list object itself.
  Aliasing of that list is not modelled.
- Python strings are modelled as sequences of Unicode code points (`string` in Dafny).
  The `decode('utf-8')` of the subprocess output is not modelled.
