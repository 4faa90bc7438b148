/** The response filtering and address extraction of `discover` in
    sensecam_discovery/SenseCamDiscovery.py. The WS-Discovery search is an input: each
    match arrives already rendered as the two strings the loop searches. */
module SenseCamDiscovery {
  import opened PyStrings
  import opened PySort

  /** One WS-Discovery match as the loop sees it: `str(service.getXAddrs())` and
      `str(service.getTypes())`. */
  datatype Service = Service(xaddrs: string, types: string)

  /** The list `discover` returns, or the `IndexError` that `ip_scope.split('.')[1]`
      raises for a scope entry without a '.'. */
  datatype Outcome = Addresses(ips: seq<string>) | IndexError

  /** Width of the slice taken from the transport-address string at the match. */
  const SliceWidth: nat := 13

  /** The marker that the service-type string must contain. */
  const OnvifMarker: string := "onvif"

  /** Every scope entry splits on '.' into at least two parts. */
  predicate AllDotted(entries: seq<string>) {
    forall k :: 0 <= k < |entries| ==> '.' in entries[k]
  }

  /** The match key `parts[0] + '.' + parts[1]` of a scope entry, `parts` being
      `entry.split('.')`. */
  function Key(entry: string): string
    requires '.' in entry
  {
    var parts := SplitOn(entry, '.');
    parts[0] + "." + parts[1]
  }

  /** The key is the entry cut just before its second '.' (or the whole entry when
      it has only one), so it keeps exactly one '.'. */
  lemma KeyShape(entry: string)
    requires '.' in entry
    ensures var k := Key(entry);
      |k| <= |entry| && k == entry[..|k|]
      && (|k| == |entry| || entry[|k|] == '.')
      && IndexOf(k, '.') < |k| && '.' !in k[IndexOf(k, '.') + 1..]
  {
    var d, p1 := KeyParts(entry);
    KeyPieces(entry, d, p1);
  }

  /** The key is the text before the first '.', a '.', and the piece after it. */
  lemma KeyParts(entry: string) returns (d: nat, p1: string)
    requires '.' in entry
    ensures d < |entry| && entry[d] == '.' && '.' !in entry[..d] && '.' !in p1
    ensures d + 1 + |p1| <= |entry| && p1 == entry[d + 1..d + 1 + |p1|]
    ensures d + 1 + |p1| == |entry| || entry[d + 1 + |p1|] == '.'
    ensures Key(entry) == entry[..d] + "." + p1
  {
    d := IndexOf(entry, '.');
    SplitOnSecond(entry, '.');
    var tail := entry[d + 1..];
    p1 := SplitOn(tail, '.')[0];
    assert p1 in SplitOn(tail, '.');
    assert entry[d + 1..d + 1 + |p1|] == tail[..|p1|];
  }

  /** The key assembled from the text before the first '.' and the piece after it. */
  lemma KeyPieces(entry: string, d: nat, p1: string)
    requires d < |entry| && entry[d] == '.' && '.' !in entry[..d] && '.' !in p1
    requires d + 1 + |p1| <= |entry| && p1 == entry[d + 1..d + 1 + |p1|]
    requires d + 1 + |p1| == |entry| || entry[d + 1 + |p1|] == '.'
    ensures var k := entry[..d] + "." + p1;
      |k| <= |entry| && k == entry[..|k|]
      && (|k| == |entry| || entry[|k|] == '.')
      && IndexOf(k, '.') == d && '.' !in k[d + 1..]
  {
    var k := entry[..d] + "." + p1;
    IndexOfAfter(entry[..d], '.', p1);
    assert k[d + 1..] == p1;
    assert entry == entry[..d] + "." + entry[d + 1..];
    assert k == entry[..d + 1 + |p1|];
  }

  /** Conversely, an entry made of two dot-free parts, a '.' between them and
      nothing or a '.' after them has those two parts and the '.' as its key. */
  lemma KeyOf(a: string, b: string, rest: string)
    requires '.' !in a && '.' !in b
    requires rest == [] || rest[0] == '.'
    ensures Key(a + "." + b + rest) == a + "." + b
  {
    var e := a + "." + b + rest;
    IndexOfAfter(a, '.', b + rest);
    assert e == a + ['.'] + (b + rest);
    var d := IndexOf(e, '.');
    assert e[..d] == a && e[d + 1..] == b + rest;
    if rest == [] {
      assert b + rest == b;
      assert SplitOn(b, '.')[0] == b;
    } else {
      IndexOfAfter(b, '.', rest[1..]);
      assert b + rest == b + ['.'] + rest[1..];
      assert SplitOn(b + rest, '.')[0] == b;
    }
  }

  /** The address token cut out of `xaddrs` at index `start`:
      `xaddrs[start:start + 13].split('/')[0]`. It is the longest piece of `xaddrs`
      from `start` on that has at most 13 characters and no '/'. */
  function Token(xaddrs: string, start: nat): (t: string)
    requires start <= |xaddrs|
    ensures |t| <= SliceWidth && '/' !in t
    ensures start + |t| <= |xaddrs| && t == xaddrs[start..start + |t|]
    ensures |t| == SliceWidth || start + |t| == |xaddrs| || xaddrs[start + |t|] == '/'
  {
    var end := if start + SliceWidth <= |xaddrs| then start + SliceWidth else |xaddrs|;
    var parts := SplitOn(xaddrs[start..end], '/');
    assert parts[0] in parts;
    parts[0]
  }

  /** `get_ip.find(key)` for the service and the scope entry. */
  function MatchIndex(svc: Service, entry: string): int
    requires '.' in entry
  {
    Find(svc.xaddrs, Key(entry))
  }

  /** `get_types.find('onvif') > 0`. */
  predicate IsOnvif(svc: Service) {
    Find(svc.types, OnvifMarker) > 0
  }

  /** The condition on line 32: the key first found at an index greater than 0, and
      the marker too. */
  predicate Accepts(svc: Service, entry: string)
    requires '.' in entry
  {
    MatchIndex(svc, entry) > 0 && IsOnvif(svc)
  }

  /** A pair is accepted exactly when the entry's key occurs in the transport-address
      string somewhere past index 0 but not at index 0, and the marker likewise in the
      type string: a key that is absent or first found at index 0 is rejected. */
  lemma AcceptsIff(svc: Service, entry: string)
    requires '.' in entry
    ensures Accepts(svc, entry) <==>
      !OccursAt(svc.xaddrs, Key(entry), 0) && (exists i :: 0 < i && OccursAt(svc.xaddrs, Key(entry), i))
      && !OccursAt(svc.types, OnvifMarker, 0) && (exists i :: 0 < i && OccursAt(svc.types, OnvifMarker, i))
  {
    FindPositive(svc.xaddrs, Key(entry));
    FindPositive(svc.types, OnvifMarker);
  }

  /** The token appended for an accepted pair. */
  function TokenFor(svc: Service, entry: string): string
    requires '.' in entry && Accepts(svc, entry)
  {
    Token(svc.xaddrs, MatchIndex(svc, entry))
  }

  /** What one (service, scope entry) pair appends to the list. */
  function Emitted(svc: Service, entry: string): seq<string>
    requires '.' in entry
  {
    if Accepts(svc, entry) then [TokenFor(svc, entry)] else []
  }

  /** What each scope entry appends for one service, in scope order. */
  function PerEntry(svc: Service, entries: seq<string>): (r: seq<seq<string>>)
    requires AllDotted(entries)
    ensures |r| == |entries|
  {
    seq(|entries|, j requires 0 <= j < |entries| => Emitted(svc, entries[j]))
  }

  /** What the inner loop appends for one service. */
  function ServiceTokens(svc: Service, entries: seq<string>): seq<string>
    requires AllDotted(entries)
  {
    Flatten(PerEntry(svc, entries))
  }

  /** What the inner loop appends for each service, in service order. */
  function PerService(services: seq<Service>, entries: seq<string>): (r: seq<seq<string>>)
    requires services == [] || AllDotted(entries)
    ensures |r| == |services|
  {
    seq(|services|, i requires 0 <= i < |services| => ServiceTokens(services[i], entries))
  }

  /** The list as the nested loops leave it before the sort: services outer, scope
      entries inner. With no services the entries are never split. */
  function Collected(services: seq<Service>, entries: seq<string>): seq<string>
    requires services == [] || AllDotted(entries)
  {
    Flatten(PerService(services, entries))
  }

  /** `discover(scope)` once the WS-Discovery search has returned `services`: for each
      service and each whitespace-separated scope entry, append the token when the
      entry's key is first found at an index greater than 0 of the transport-address
      string and "onvif" likewise in the type string; then sort. The result is the sorted
      rearrangement of the collected tokens, or the error the first entry without a
      '.' raises while there is a service to test it against. */
  method Discover(services: seq<Service>, scope: string) returns (r: Outcome)
    ensures r.IndexError? <==> |services| > 0 && !AllDotted(SplitWhitespace(scope))
    ensures r.Addresses? ==> Sorted(r.ips)
    ensures r.Addresses? ==> multiset(r.ips) == multiset(Collected(services, SplitWhitespace(scope)))
    ensures r.Addresses? ==> |r.ips| <= |services| * |SplitWhitespace(scope)|
    ensures r.Addresses? ==> forall t :: t in r.ips ==> |t| <= SliceWidth && '/' !in t
  {
    var entries := SplitWhitespace(scope);
    var lst: seq<string> := [];
    assert PerService([], entries) == [];
    var i := 0;
    while i < |services|
      invariant 0 <= i <= |services|
      invariant i > 0 ==> AllDotted(entries)
      invariant lst == Collected(services[..i], entries)
    {
      var failed, appended := ScanScope(services[i].xaddrs, services[i].types, entries);
      if failed {
        return IndexError;
      }
      CollectedStep(services, i, entries);
      lst := lst + appended;
      i := i + 1;
    }
    assert services[..i] == services;
    CollectedShape(services, entries);
    CollectedLength(services, entries);
    var sorted := SortList(lst);
    r := Addresses(sorted);
    assert forall t :: t in sorted ==> t in multiset(lst);
  }

  /** The inner loop for one service: every scope entry in turn, appending what each
      (service, entry) pair appends; it stops at the first entry without a '.'. */
  method ScanScope(getIp: string, getTypes: string, entries: seq<string>) returns (failed: bool, appended: seq<string>)
    ensures failed <==> !AllDotted(entries)
    ensures !failed ==> appended == ServiceTokens(Service(getIp, getTypes), entries)
  {
    ghost var svc := Service(getIp, getTypes);
    appended := [];
    assert PerEntry(svc, entries[..0]) == [];
    var j := 0;
    while j < |entries|
      invariant 0 <= j <= |entries|
      invariant AllDotted(entries[..j])
      invariant appended == ServiceTokens(svc, entries[..j])
    {
      var ipScope := entries[j];
      var pairFailed, pairAppended := MatchEntry(getIp, getTypes, ipScope);
      if pairFailed {
        return true, appended;
      }
      ServiceTokensStep(svc, entries, j);
      appended := appended + pairAppended;
      j := j + 1;
    }
    assert entries[..j] == entries;
    failed := false;
  }

  /** The body of the inner loop for one (service, scope entry) pair: build the key
      from the first two '.'-separated parts of the entry, which fails when there is
      no '.'; find it in `getIp`; when it is first found at an index greater than 0
      and "onvif" likewise in `getTypes`, cut out the token. Returns what the pair appends. */
  method MatchEntry(getIp: string, getTypes: string, ipScope: string) returns (failed: bool, appended: seq<string>)
    ensures failed <==> '.' !in ipScope
    ensures !failed ==> appended == Emitted(Service(getIp, getTypes), ipScope)
  {
    var parts := SplitOn(ipScope, '.');
    if |parts| < 2 {
      return true, [];
    }
    failed, appended := false, [];
    var result := Find(getIp, parts[0] + "." + parts[1]);
    if result > 0 && Find(getTypes, OnvifMarker) > 0 {
      var end := if result + SliceWidth <= |getIp| then result + SliceWidth else |getIp|;
      var stringResult := getIp[result..end];
      stringResult := SplitOn(stringResult, '/')[0];
      appended := [stringResult];
    }
  }

  // ---------------------------------------------------------------------------
  // Concatenation
  // ---------------------------------------------------------------------------

  /** The concatenation of a list of lists, in order. */
  function Flatten(xss: seq<seq<string>>): seq<string>
  {
    if xss == [] then [] else Flatten(xss[..|xss| - 1]) + xss[|xss| - 1]
  }

  lemma {:induction false} FlattenMember(xss: seq<seq<string>>, t: string)
    ensures t in Flatten(xss) <==> exists j :: 0 <= j < |xss| && t in xss[j]
  {
    if xss != [] {
      var n := |xss| - 1;
      var front := xss[..n];
      FlattenMember(front, t);
      if exists j :: 0 <= j < |xss| && t in xss[j] {
        var j :| 0 <= j < |xss| && t in xss[j];
        if j < n {
          assert front[j] == xss[j];
        }
      }
      if t in Flatten(front) {
        var j :| 0 <= j < |front| && t in front[j];
        assert xss[j] == front[j];
      }
    }
  }

  lemma {:induction false} FlattenAppend(a: seq<seq<string>>, b: seq<seq<string>>)
    ensures Flatten(a + b) == Flatten(a) + Flatten(b)
    decreases |b|
  {
    if b == [] {
      assert a + b == a;
    } else {
      var n := |b| - 1;
      assert (a + b)[..|a + b| - 1] == a + b[..n];
      FlattenAppend(a, b[..n]);
    }
  }

  lemma {:induction false} FlattenLength(xss: seq<seq<string>>, m: nat)
    requires forall j :: 0 <= j < |xss| ==> |xss[j]| <= m
    ensures |Flatten(xss)| <= |xss| * m
  {
    if xss != [] {
      var n := |xss| - 1;
      FlattenLength(xss[..n], m);
      assert |xss| * m == n * m + m;
    }
  }

  lemma {:induction false} FlattenOfEmpties(xss: seq<seq<string>>)
    requires forall j :: 0 <= j < |xss| ==> xss[j] == []
    ensures Flatten(xss) == []
  {
    if xss != [] {
      FlattenOfEmpties(xss[..|xss| - 1]);
    }
  }

  // ---------------------------------------------------------------------------
  // Properties of the collected list
  // ---------------------------------------------------------------------------

  /** One more scope entry appends what that entry yields, after the rest. */
  lemma ServiceTokensSnoc(svc: Service, entries: seq<string>, entry: string)
    requires AllDotted(entries) && '.' in entry
    ensures AllDotted(entries + [entry])
    ensures ServiceTokens(svc, entries + [entry]) == ServiceTokens(svc, entries) + Emitted(svc, entry)
  {
    var all := entries + [entry];
    assert all[|entries|] == entry;
    assert AllDotted(all);
    assert PerEntry(svc, all) == PerEntry(svc, entries) + [Emitted(svc, entry)];
    assert (PerEntry(svc, entries) + [Emitted(svc, entry)])[..|entries|] == PerEntry(svc, entries);
  }

  /** The inner loop's step: scope entries `0..j` append what entries `0..j - 1`
      appended and then what entry `j` appends. */
  lemma ServiceTokensStep(svc: Service, entries: seq<string>, j: nat)
    requires j < |entries| && AllDotted(entries[..j]) && '.' in entries[j]
    ensures AllDotted(entries[..j + 1])
    ensures ServiceTokens(svc, entries[..j + 1]) == ServiceTokens(svc, entries[..j]) + Emitted(svc, entries[j])
  {
    assert entries[..j + 1] == entries[..j] + [entries[j]];
    ServiceTokensSnoc(svc, entries[..j], entries[j]);
  }

  /** The outer loop's step, likewise for services. */
  lemma CollectedStep(services: seq<Service>, i: nat, entries: seq<string>)
    requires i < |services| && AllDotted(entries)
    ensures Collected(services[..i + 1], entries) == Collected(services[..i], entries) + ServiceTokens(services[i], entries)
  {
    assert services[..i + 1] == services[..i] + [services[i]];
    CollectedSnoc(services[..i], services[i], entries);
  }

  /** One more service appends what that service yields, after the rest. */
  lemma CollectedSnoc(services: seq<Service>, svc: Service, entries: seq<string>)
    requires AllDotted(entries)
    ensures Collected(services + [svc], entries) == Collected(services, entries) + ServiceTokens(svc, entries)
  {
    var all := services + [svc];
    assert PerService(all, entries) == PerService(services, entries) + [ServiceTokens(svc, entries)];
    assert (PerService(services, entries) + [ServiceTokens(svc, entries)])[..|services|] == PerService(services, entries);
  }

  /** The (service, scope entry) pair is accepted and yields `t`. */
  predicate Yields(svc: Service, entry: string, t: string) {
    '.' in entry && Accepts(svc, entry) && t == TokenFor(svc, entry)
  }

  /** The inner loop appends `t` for a service exactly when some scope entry, paired
      with that service, is accepted and yields `t`. */
  lemma ServiceTokensMember(svc: Service, entries: seq<string>, t: string)
    requires AllDotted(entries)
    ensures t in ServiceTokens(svc, entries) <==> exists j :: 0 <= j < |entries| && Yields(svc, entries[j], t)
  {
    var per := PerEntry(svc, entries);
    FlattenMember(per, t);
    if t in ServiceTokens(svc, entries) {
      var j :| 0 <= j < |per| && t in per[j];
      assert per[j] == Emitted(svc, entries[j]);
      assert Yields(svc, entries[j], t);
    }
    if exists j :: 0 <= j < |entries| && Yields(svc, entries[j], t) {
      var j :| 0 <= j < |entries| && Yields(svc, entries[j], t);
      assert per[j] == Emitted(svc, entries[j]);
      assert t in per[j];
    }
  }

  /** A token is in the collected list exactly when some (service, scope entry) pair
      is accepted and yields it. */
  lemma CollectedMember(services: seq<Service>, entries: seq<string>, t: string)
    requires services == [] || AllDotted(entries)
    ensures t in Collected(services, entries) <==>
      exists i, j :: 0 <= i < |services| && 0 <= j < |entries| && Yields(services[i], entries[j], t)
  {
    var per := PerService(services, entries);
    FlattenMember(per, t);
    if t in Collected(services, entries) {
      var i :| 0 <= i < |per| && t in per[i];
      assert per[i] == ServiceTokens(services[i], entries);
      ServiceTokensMember(services[i], entries, t);
      var j :| 0 <= j < |entries| && Yields(services[i], entries[j], t);
    }
    if exists i, j :: 0 <= i < |services| && 0 <= j < |entries| && Yields(services[i], entries[j], t) {
      var i, j :| 0 <= i < |services| && 0 <= j < |entries| && Yields(services[i], entries[j], t);
      assert per[i] == ServiceTokens(services[i], entries);
      ServiceTokensMember(services[i], entries, t);
      assert t in per[i];
    }
  }

  /** Every collected token has at most 13 characters and no '/'. */
  lemma CollectedShape(services: seq<Service>, entries: seq<string>)
    requires services == [] || AllDotted(entries)
    ensures forall t :: t in Collected(services, entries) ==> |t| <= SliceWidth && '/' !in t
  {
    forall t | t in Collected(services, entries)
      ensures |t| <= SliceWidth && '/' !in t
    {
      CollectedMember(services, entries, t);
    }
  }

  /** `t` occurs in the transport-address string of `svc` past index 0. */
  ghost predicate CutFrom(t: string, svc: Service) {
    exists p :: 0 < p && OccursAt(svc.xaddrs, t, p)
  }

  /** Every collected token is cut out of some service's transport-address string,
      from a position past index 0. */
  lemma CollectedFromAddresses(services: seq<Service>, entries: seq<string>)
    requires services == [] || AllDotted(entries)
    ensures forall t :: t in Collected(services, entries) ==>
      exists i :: 0 <= i < |services| && CutFrom(t, services[i])
  {
    forall t | t in Collected(services, entries)
      ensures exists i :: 0 <= i < |services| && CutFrom(t, services[i])
    {
      CollectedMember(services, entries, t);
      var i, j :| 0 <= i < |services| && 0 <= j < |entries| && Yields(services[i], entries[j], t);
      YieldsCut(services[i], entries[j], t);
    }
  }

  /** What a pair yields is cut from its service's transport-address string at the
      match index. */
  lemma YieldsCut(svc: Service, entry: string, t: string)
    requires Yields(svc, entry, t)
    ensures CutFrom(t, svc)
  {
    assert OccursAt(svc.xaddrs, t, MatchIndex(svc, entry));
  }

  /** At most one token per (service, scope entry) pair. */
  lemma CollectedLength(services: seq<Service>, entries: seq<string>)
    requires services == [] || AllDotted(entries)
    ensures |Collected(services, entries)| <= |services| * |entries|
  {
    var per := PerService(services, entries);
    forall i | 0 <= i < |per|
      ensures |per[i]| <= |entries|
    {
      FlattenLength(PerEntry(services[i], entries), 1);
    }
    FlattenLength(per, |entries|);
  }

  /** An empty scope collects nothing, whatever the services. */
  lemma CollectedNoEntries(services: seq<Service>)
    ensures Collected(services, []) == []
  {
    var per := PerService(services, []);
    forall i | 0 <= i < |per|
      ensures per[i] == []
    {
      assert PerEntry(services[i], []) == [];
    }
    FlattenOfEmpties(per);
  }

  /** A service whose type string does not have its first "onvif" at an index greater
      than 0 adds nothing, whatever the scope. */
  lemma NonOnvifAddsNothing(svc: Service, entries: seq<string>)
    requires AllDotted(entries)
    requires !IsOnvif(svc)
    ensures ServiceTokens(svc, entries) == []
  {
    FlattenOfEmpties(PerEntry(svc, entries));
  }

  /** The services are processed one after another: the tokens of a concatenation are
      the tokens of each part, in order. */
  lemma CollectedAppend(a: seq<Service>, b: seq<Service>, entries: seq<string>)
    requires AllDotted(entries)
    ensures Collected(a + b, entries) == Collected(a, entries) + Collected(b, entries)
  {
    var pa, pb := PerService(a, entries), PerService(b, entries);
    forall i | 0 <= i < |a + b|
      ensures PerService(a + b, entries)[i] == (pa + pb)[i]
    {
      if i < |a| {
        assert (a + b)[i] == a[i];
      } else {
        assert (a + b)[i] == b[i - |a|];
      }
    }
    assert PerService(a + b, entries) == pa + pb;
    FlattenAppend(pa, pb);
  }

  /** Dropping a service that is not an ONVIF device leaves the collected list as it
      was. */
  lemma DropNonOnvif(services: seq<Service>, i: nat, entries: seq<string>)
    requires AllDotted(entries)
    requires i < |services| && !IsOnvif(services[i])
    ensures Collected(services, entries) == Collected(services[..i] + services[i + 1..], entries)
  {
    var before, after := services[..i], services[i + 1..];
    assert services == before + [services[i]] + after;
    CollectedAppend(before + [services[i]], after, entries);
    CollectedSnoc(before, services[i], entries);
    NonOnvifAddsNothing(services[i], entries);
    CollectedAppend(before, after, entries);
  }

  // ---------------------------------------------------------------------------
  // Worked examples
  // ---------------------------------------------------------------------------

  /** The output of `hostname -I`, a trailing blank and newline included, splits into
      one entry per address. */
  lemma ScopeExample(output: string)
    requires output == "192.168.1.10 10.0.0.7 \n"
    ensures SplitWhitespace(output) == ["192.168.1.10", "10.0.0.7"]
  {
    var a, b, w := "192.168.1.10", "10.0.0.7", " \n";
    assert IsField(a) && IsField(b) && AllSpace(w);
    assert output == a + " " + b + w;
    TwoFields(a, b, w);
  }

  /** Two fields separated by a blank and followed by whitespace split back into
      those two fields. */
  lemma TwoFields(a: string, b: string, w: string)
    requires IsField(a) && IsField(b) && AllSpace(w)
    ensures SplitWhitespace(a + " " + b + w) == [a, b]
  {
    var rest := [' '] + (b + w);
    assert a + " " + b + w == a + rest;
    BlankThenField(b, w);
    FieldBeforeOne(a, rest, b);
  }

  /** A field in front of a string that starts with whitespace and splits into one
      field makes two fields. */
  lemma FieldBeforeOne(a: string, rest: string, b: string)
    requires IsField(a) && rest != [] && IsSpace(rest[0]) && SplitWhitespace(rest) == [b]
    ensures SplitWhitespace(a + rest) == [a, b]
  {
    SplitWhitespaceWord(a, rest);
  }

  /** A blank, a field and whitespace split into that field. */
  lemma BlankThenField(b: string, w: string)
    requires IsField(b) && AllSpace(w)
    ensures SplitWhitespace([' '] + (b + w)) == [b]
  {
    SplitWhitespaceSkipsSpace(' ', b + w);
    OneField(b, w);
  }

  /** A field followed by whitespace splits back into that field. */
  lemma OneField(b: string, w: string)
    requires IsField(b) && AllSpace(w)
    ensures SplitWhitespace(b + w) == [b]
  {
    assert w == [] || IsSpace(w[0]);
    SplitWhitespaceWord(b, w);
    SplitWhitespaceEmpty(w);
  }

  /** A single service and a single scope entry collect what that pair emits. */
  lemma SingleCollected(svc: Service, entry: string)
    requires '.' in entry
    ensures Collected([svc], [entry]) == Emitted(svc, entry)
  {
    assert PerEntry(svc, []) == [] && PerService([], [entry]) == [];
    assert [] + [entry] == [entry] && [] + [svc] == [svc];
    ServiceTokensSnoc(svc, [], entry);
    CollectedSnoc([], svc, [entry]);
  }

  /** `Find` locates a pattern whose first character does not occur before it. */
  lemma FindFirst(a: string, pat: string, c: string)
    requires pat != [] && pat[0] !in a
    ensures Find(a + pat + c, pat) == |a|
  {
    var s := a + pat + c;
    assert s[|a|..|a| + |pat|] == pat;
    assert OccursAt(s, pat, |a|);
    forall k | OccursAt(s, pat, k)
      ensures s[k] == pat[0]
    {
      assert s[k..k + |pat|][0] == s[k];
    }
    assert forall k :: 0 <= k < |a| ==> s[k] == a[k];
  }

  /** The token at the start of 13 characters without a '/' is those 13 characters. */
  lemma TokenFull(a: string, t: string, c: string)
    requires |t| == SliceWidth && '/' !in t
    ensures Token(a + t + c, |a|) == t
  {
    var s := a + t + c;
    assert forall k :: 0 <= k < SliceWidth ==> s[|a| + k] == t[k];
    assert s[|a|..|a| + SliceWidth] == t;
  }

  /** A single ONVIF service whose address string holds the key of the single scope
      entry after some text in which the key's first character does not occur, followed
      by characters that make up 13 with the key and hold no '/', collects exactly the
      key and those characters. */
  lemma SingleAccepted(pre: string, key: string, mid: string, post: string,
                       tpre: string, tpost: string, entry: string)
    requires '.' in entry && Key(entry) == key
    requires pre != [] && key != [] && key[0] !in pre
    requires tpre != [] && OnvifMarker[0] !in tpre
    requires |key + mid| == SliceWidth && '/' !in key + mid
    ensures Collected([Service(pre + key + (mid + post), tpre + OnvifMarker + tpost)], [entry])
         == [key + mid]
  {
    var svc := Service(pre + key + (mid + post), tpre + OnvifMarker + tpost);
    FindFirst(pre, key, mid + post);
    FindFirst(tpre, OnvifMarker, tpost);
    assert pre + key + (mid + post) == pre + (key + mid) + post;
    TokenFull(pre, key + mid, post);
    SingleCollected(svc, entry);
  }

  /** A camera at 192.168.1.50 answering with its device service URL, seen from the
      host 192.168.1.10. The address string is written as the text before the match,
      the key, the rest of the 13-character slice and the text after it. The slice ends
      just after the ':' before the port, so the collected token keeps that ':'. */
  lemma CameraExample(xaddrs: string, types: string, host: string)
    requires xaddrs == "['http://" + "192.168" + (".1.50:" + "80/onvif/device_service']")
    requires types == "[QName('http://www." + "onvif" + ".org/ver10/network/wsdl', 'NetworkVideoTransmitter')]"
    requires host == "192.168.1.10"
    ensures Collected([Service(xaddrs, types)], [host]) == ["192.168.1.50:"]
  {
    var tpre, tpost := "[QName('http://www.", ".org/ver10/network/wsdl', 'NetworkVideoTransmitter')]";
    CameraPieces();
    assert types == tpre + OnvifMarker + tpost;
    KeyExample(host);
    SingleAccepted("['http://", "192.168", ".1.50:", "80/onvif/device_service']", tpre, tpost, host);
  }

  /** The character-level facts about the camera's strings that `SingleAccepted` needs. */
  lemma CameraPieces()
    ensures "192.168"[0] !in "['http://" && OnvifMarker[0] !in "[QName('http://www."
    ensures "192.168" + ".1.50:" == "192.168.1.50:" && '/' !in "192.168.1.50:"
    ensures OnvifMarker == "onvif"
  {
  }

  /** A service whose address string begins with the key is rejected, as if the key
      were absent, because the match index must be greater than 0. */
  lemma MatchAtStartExample(xaddrs: string, host: string)
    requires xaddrs == "192.168" + ".1.50:80/onvif"
    requires host == "192.168.1.10"
    ensures Collected([Service(xaddrs, "[onvif]")], [host]) == []
  {
    KeyExample(host);
    FindFirst([], "192.168", ".1.50:80/onvif");
    assert [] + "192.168" + ".1.50:80/onvif" == xaddrs;
    SingleCollected(Service(xaddrs, "[onvif]"), host);
  }

  /** The key of the host address 192.168.1.10 is its first two octets. */
  lemma KeyExample(host: string)
    requires host == "192.168.1.10"
    ensures Key(host) == "192.168"
  {
    HostPieces(host);
    KeyOf("192", "168", ".1.10");
  }

  /** The host address 192.168.1.10 cut at its first two '.'s. */
  lemma HostPieces(host: string)
    requires host == "192.168.1.10"
    ensures host == "192" + "." + "168" + ".1.10" && "192" + "." + "168" == "192.168"
  {
  }
}
