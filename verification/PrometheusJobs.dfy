/** The scrape jobs of the generated prometheus.yml. */
module PrometheusJobs {
  import opened Text

  /** An exporter installed on a guest, and one installed on a host. */
  datatype Exporter = Exporter(kind: string, ip: string, port: nat)
  datatype HostExporter = HostExporter(kind: string, hostname: string, ipmiAddress: string, port: nat, name: string)

  datatype Job = Job(name: string, targets: seq<string>)

  /** What else is scraped: the tool's own metrics ("" if not), the videobridge, and unpoller. */
  datatype Extras = Extras(mstdnca: string, jitsi: Option<string>, unpoller: Option<string>)

  // ---- Names -----------------------------------------------------------------------------------

  function Suffixed(base: string, n: nat): string { base + "_" + Decimal(n) }

  lemma SuffixesDiffer(base: string, n: nat, k: nat)
    ensures Suffixed(base, n) == Suffixed(base, k) ==> n == k
    ensures Suffixed(base, n) != base && '_' in Suffixed(base, n)
  {
    hide Decimal;
    NumberDecimal(n);
    NumberDecimal(k);
    assert Suffixed(base, n)[|base| + 1..] == Decimal(n) && Suffixed(base, k)[|base| + 1..] == Decimal(k);
    assert Suffixed(base, n)[|base|] == '_';
  }

  /** The name is the base, or if that is in use, the base with the least free number from 2 on. */
  predicate Deduped(base: string, used: set<string>, name: string) {
    && name !in used
    && if base !in used then name == base
       else exists n | 2 <= n <= |used| + 2 :: name == Suffixed(base, n) && forall k | 2 <= k < n :: Suffixed(base, k) in used
  }

  /** `_dedupe_job_name`. The loop ends because all the candidates differ, and finitely many are used. */
  method Dedupe(base: string, used: set<string>) returns (name: string, after: set<string>)
    ensures Deduped(base, used, name) && after == used + {name}
  {
    hide Suffixed;
    name := base;
    var n := 2;
    ghost var tried: set<string> := {};
    while name in used
      invariant 2 <= n && |tried| == n - 2 && tried <= used
      invariant if n == 2 then name == base else name == Suffixed(base, n - 1)
      invariant n > 2 ==> base in used && forall k | 2 <= k < n - 1 :: Suffixed(base, k) in used
      invariant forall t | t in tried :: (t == base && n > 2) || exists k | 2 <= k < n - 1 :: t == Suffixed(base, k)
      decreases |used| - |tried|
    {
      forall k | 2 <= k < n ensures Suffixed(base, k) == Suffixed(base, n - 1) ==> k == n - 1 { SuffixesDiffer(base, k, n - 1); }
      SuffixesDiffer(base, n - 1, 0);
      assert name !in tried;
      Smaller(tried + {name}, used);
      tried := tried + {name};
      name := Suffixed(base, n);
      n := n + 1;
    }
    Smaller(tried, used);
    after := used + {name};
  }

  predicate SlugChar(c: char) { 'a' <= c <= 'z' || '0' <= c <= '9' || c == '_' || c == '-' }

  /** `re.sub("[^a-z0-9_-]+", "_", ..)`; `cut` tells that the run of other characters goes on. */
  function Replaced(s: string, cut: bool): (r: string)
    ensures forall c | c in r :: SlugChar(c)
  {
    if s == "" then ""
    else if SlugChar(s[0]) then [s[0]] + Replaced(s[1..], false)
    else (if cut then "" else "_") + Replaced(s[1..], true)
  }

  function LeftTrimmed(s: string): (r: string)
    ensures (forall c | c in r :: c in s) && (r != "" ==> r[0] != '_')
  {
    if s != "" && s[0] == '_' then LeftTrimmed(s[1..]) else s
  }

  function RightTrimmed(s: string): (r: string)
    ensures r <= s && (r != "" ==> r[|r| - 1] != '_')
  {
    if s != "" && s[|s| - 1] == '_' then RightTrimmed(s[..|s| - 1]) else s
  }

  /** `_slugify_job_name` on the stripped and lower-cased text. */
  function Slug(lowered: string): string {
    var slug := RightTrimmed(LeftTrimmed(Replaced(lowered, false)));
    if slug == "" then "unnamed" else slug
  }

  lemma {:induction false} ReplacedPlain(s: string)
    requires forall c | c in s :: SlugChar(c)
    ensures Replaced(s, false) == s
  {
    if s != "" {
      assert s[0] in s;
      ReplacedPlain(s[1..]);
    }
  }

  /** A slug is never empty, has only safe characters and no underscore at its ends, and is its own slug. */
  lemma SlugIsSafe(lowered: string)
    ensures var g := Slug(lowered);
            g != "" && (forall c | c in g :: SlugChar(c)) && g[0] != '_' && g[|g| - 1] != '_' && Slug(g) == g
  {
    hide Replaced;
    var r := Replaced(lowered, false);
    var l := LeftTrimmed(r);
    var t := RightTrimmed(l);
    assert forall c | c in t :: c in l;
    if t != "" {
      assert t[0] == l[0];
      ReplacedPlain(t);
      assert LeftTrimmed(t) == t && RightTrimmed(t) == t;
    } else {
      ReplacedPlain("unnamed");
      assert LeftTrimmed("unnamed") == "unnamed" && RightTrimmed("unnamed") == "unnamed";
    }
  }

  function Prometheus(): string { "prometheus" }
  function Mstdnca(): string { "mstdnca" }
  function Unpoller(): string { "unpoller" }
  function IpmiPrefix(): string { "ipmi_" }

  /** The job name of the exporters in the two registries; any other type goes by its own name. */
  function Base(kind: string): string {
    if kind == "node_exporter" then "node"
    else if kind == "postgres_exporter" then "postgres"
    else if kind == "redis_exporter" then "redis"
    else if kind == "elasticsearch_exporter" then "elasticsearch"
    else if kind == "ipmi_exporter" then "ipmi"
    else kind
  }

  predicate Registered(kind: string) {
    || kind == "node_exporter" || kind == "postgres_exporter" || kind == "redis_exporter" || kind == "elasticsearch_exporter"
    || kind == "jitsi_jvb" || kind == "ipmi_exporter" || kind == "mastodon"
  }

  // ---- Targets ---------------------------------------------------------------------------------

  function Lower(c: char): char { if 'A' <= c <= 'Z' then ((c as int) + 32) as char else c }

  function Lowered(s: string): string { seq(|s|, i requires 0 <= i < |s| => Lower(s[i])) }

  /** The guest has an address, and not only a way of getting one. */
  predicate Usable(ip: string) { ip != "" && Lowered(ip) != "dhcp" && Lowered(ip) != "dhcp6" && Lowered(ip) != "auto" }

  function Address(ip: string, port: nat): string { ip + ":" + Decimal(port) }

  /** The targets of one type, in the order in which they are found. */
  function GuestTargets(exporters: seq<Exporter>, kind: string): seq<string> {
    if exporters == [] then []
    else
      var e := exporters[|exporters| - 1];
      GuestTargets(exporters[..|exporters| - 1], kind) +
      if e.kind == kind && Usable(e.ip) then [Address(e.ip, e.port)] else []
  }

  predicate Ipmi(h: HostExporter) { h.kind == "ipmi_exporter" }

  function HostTargets(hosts: seq<HostExporter>, kind: string): seq<string> {
    if hosts == [] then []
    else
      var h := hosts[|hosts| - 1];
      HostTargets(hosts[..|hosts| - 1], kind) + if h.kind == kind && !Ipmi(h) then [Address(h.hostname, h.port)] else []
  }

  function JitsiTargets(jitsi: Option<string>, kind: string): seq<string> {
    if kind == "jitsi_jvb" && jitsi.Some? && Usable(jitsi.value) then [Address(jitsi.value, 8080)] else []
  }

  function TargetsOf(exporters: seq<Exporter>, hosts: seq<HostExporter>, jitsi: Option<string>, kind: string): seq<string> {
    GuestTargets(exporters, kind) + HostTargets(hosts, kind) + JitsiTargets(jitsi, kind)
  }

  /** `by_type`, a dictionary of lists. */
  type Groups = map<string, seq<string>>

  function GroupOf(g: Groups, kind: string): seq<string> { if kind in g then g[kind] else [] }

  /** `setdefault(kind, []).append(target)`. */
  function Appended(g: Groups, kind: string, target: string): (r: Groups)
    ensures forall k :: GroupOf(r, k) == GroupOf(g, k) + if k == kind then [target] else []
    ensures Filled(g) ==> Filled(r)
  {
    g[kind := GroupOf(g, kind) + [target]]
  }

  predicate Filled(g: Groups) { forall k | k in g :: g[k] != [] }

  /** The loop over the exporters on guests. */
  method GroupGuests(exporters: seq<Exporter>) returns (byType: Groups)
    ensures forall k :: GroupOf(byType, k) == GuestTargets(exporters, k)
    ensures Filled(byType)
  {
    hide GroupOf, Usable, Address;
    byType := map[];
    NoGroups();
    for i := 0 to |exporters|
      invariant Filled(byType)
      invariant forall k :: GroupOf(byType, k) == GuestTargets(exporters[..i], k)
    {
      var e := exporters[i];
      assert exporters[..i + 1][..i] == exporters[..i];
      if Usable(e.ip) { byType := Appended(byType, e.kind, Address(e.ip, e.port)); }
    }
    assert exporters[..|exporters|] == exporters;
  }

  /** The loop over the exporters on hosts; those for IPMI are set aside. */
  method GroupHosts(guests: Groups, hosts: seq<HostExporter>) returns (byType: Groups, ipmi: seq<HostExporter>)
    requires Filled(guests)
    ensures forall k :: GroupOf(byType, k) == GroupOf(guests, k) + HostTargets(hosts, k)
    ensures Filled(byType) && ipmi == IpmiHosts(hosts)
  {
    hide GroupOf, Address, Ipmi;
    byType, ipmi := guests, [];
    for i := 0 to |hosts|
      invariant Filled(byType)
      invariant forall k :: GroupOf(byType, k) == GroupOf(guests, k) + HostTargets(hosts[..i], k)
      invariant ipmi == IpmiHosts(hosts[..i])
    {
      var h := hosts[i];
      assert hosts[..i + 1][..i] == hosts[..i];
      if Ipmi(h) {
        ipmi := ipmi + [h];
      } else {
        byType := Appended(byType, h.kind, Address(h.hostname, h.port));
      }
    }
    assert hosts[..|hosts|] == hosts;
  }

  /** The targets grouped by type. */
  method Group(exporters: seq<Exporter>, hosts: seq<HostExporter>, jitsi: Option<string>)
    returns (byType: Groups, ipmi: seq<HostExporter>)
    ensures forall k :: GroupOf(byType, k) == TargetsOf(exporters, hosts, jitsi, k)
    ensures Filled(byType) && ipmi == IpmiHosts(hosts)
  {
    hide GroupOf, Usable, Address, Ipmi, GuestTargets, HostTargets;
    byType := GroupGuests(exporters);
    byType, ipmi := GroupHosts(byType, hosts);
    if jitsi.Some? && Usable(jitsi.value) {
      byType := Appended(byType, "jitsi_jvb", Address(jitsi.value, 8080));
    }
  }

  lemma NoGroups()
    ensures forall k :: GroupOf(map[], k) == []
  {}

  function IpmiHosts(hosts: seq<HostExporter>): seq<HostExporter> {
    if hosts == [] then []
    else IpmiHosts(hosts[..|hosts| - 1]) + if Ipmi(hosts[|hosts| - 1]) then [hosts[|hosts| - 1]] else []
  }

  // ---- Sorting ---------------------------------------------------------------------------------

  function Inserted<T>(s: seq<T>, x: T, less: (T, T) -> bool): (r: seq<T>)
    ensures multiset(r) == multiset(s) + multiset{x}
  {
    if s == [] || less(x, s[0]) then [x] + s else
      assert s == [s[0]] + s[1..];
      [s[0]] + Inserted(s[1..], x, less)
  }

  /** `sorted(..)`. */
  function Sort<T>(s: seq<T>, less: (T, T) -> bool): (r: seq<T>)
    ensures multiset(r) == multiset(s)
  {
    if s == [] then [] else
      assert s == s[..|s| - 1] + [s[|s| - 1]];
      Inserted(Sort(s[..|s| - 1], less), s[|s| - 1], less)
  }

  /** `less` is asymmetric and transitive. */
  ghost predicate StrictOrder<T(!new)>(less: (T, T) -> bool) {
    && (forall a, b :: less(a, b) ==> !less(b, a))
    && (forall a, b, c :: less(a, b) && less(b, c) ==> less(a, c))
  }

  predicate Ascending<T>(s: seq<T>, less: (T, T) -> bool) { forall i, j | 0 <= i < j < |s| :: !less(s[j], s[i]) }

  lemma {:induction false} InsertedAscending<T(!new)>(s: seq<T>, x: T, less: (T, T) -> bool)
    requires StrictOrder(less) && Ascending(s, less)
    ensures Ascending(Inserted(s, x, less), less)
  {
    if s != [] {
      var rest := s[1..];
      InsertedAscending(rest, x, less);
      var r := Inserted(rest, x, less);
      if less(x, s[0]) {
        forall j | 0 <= j < |s| ensures !less(s[j], x) { assert !less(s[j], s[0]); }
      } else {
        forall j | 0 <= j < |r| ensures !less(r[j], s[0]) {
          assert r[j] in multiset(r);
          if r[j] != x { assert r[j] in rest; }
        }
      }
    }
  }

  lemma {:induction false} SortAscending<T(!new)>(s: seq<T>, less: (T, T) -> bool)
    requires StrictOrder(less)
    ensures Ascending(Sort(s, less), less)
  {
    hide StrictOrder, Ascending;
    if s != [] {
      SortAscending(s[..|s| - 1], less);
      InsertedAscending(Sort(s[..|s| - 1], less), s[|s| - 1], less);
    } else {
      NothingAscending(less);
    }
  }

  lemma NothingAscending<T>(less: (T, T) -> bool)
    ensures Ascending([], less)
  {}

  lemma TextOrder()
    ensures StrictOrder(TextLess)
  {
    hide TextLess;
    forall a, b | TextLess(a, b) ensures !TextLess(b, a) { TextTrichotomy(a, b); }
    forall a, b, c | TextLess(a, b) && TextLess(b, c) ensures TextLess(a, c) { TextTransitive(a, b, c); }
  }

  // ---- Distinct names --------------------------------------------------------------------------

  predicate Distinct(s: seq<string>) { forall i, j | 0 <= i < j < |s| :: s[i] != s[j] }

  function NameSet(s: seq<string>): set<string> { set n | n in s }

  /** Each name is made from its base, given those before it. */
  predicate Named(bases: seq<string>, names: seq<string>) {
    |bases| == |names| && forall i | 0 <= i < |names| :: Deduped(bases[i], NameSet(names[..i]), names[i])
  }

  lemma NamedMore(bases: seq<string>, names: seq<string>, base: string, name: string)
    requires Named(bases, names) && Deduped(base, NameSet(names), name)
    ensures Named(bases + [base], names + [name]) && NameSet(names + [name]) == NameSet(names) + {name}
  {
    hide Deduped;
    var b, n := bases + [base], names + [name];
    forall i | 0 <= i < |n| ensures Deduped(b[i], NameSet(n[..i]), n[i]) {
      assert n[..i] == if i < |names| then names[..i] else names;
    }
  }

  lemma NamesDiffer(bases: seq<string>, names: seq<string>)
    requires Named(bases, names)
    ensures Distinct(names)
  {
    forall i, j | 0 <= i < j < |names| ensures names[i] != names[j] {
      assert Deduped(bases[j], NameSet(names[..j]), names[j]);
      assert names[..j][i] == names[i];
      assert names[i] in NameSet(names[..j]);
    }
  }

  /** A name without an underscore is given exactly if it is a base. */
  lemma PlainName(bases: seq<string>, names: seq<string>, f: string)
    requires Named(bases, names) && '_' !in f
    ensures f in names <==> f in bases
  {
    hide Suffixed;
    if f in names {
      var i :| 0 <= i < |names| && names[i] == f;
      assert Deduped(bases[i], NameSet(names[..i]), names[i]);
      if names[i] != bases[i] {
        var n :| 2 <= n && names[i] == Suffixed(bases[i], n);
        SuffixesDiffer(bases[i], n, n);
      }
      assert bases[i] in bases;
    }
    if f in bases {
      var i :| 0 <= i < |bases| && bases[i] == f;
      assert Deduped(bases[i], NameSet(names[..i]), names[i]);
      if names[i] != f {
        assert f in names[..i];
        var j :| 0 <= j < i && names[..i][j] == f;
        assert names[j] == f;
      } else {
        assert names[i] in names;
      }
    }
  }

  lemma DistinctConcat(a: seq<string>, b: seq<string>)
    ensures Distinct(a + b) <==> Distinct(a) && Distinct(b) && forall x | x in b :: x !in a
  {
    var s := a + b;
    assert forall i | 0 <= i < |a| :: s[i] == a[i];
    assert forall j | 0 <= j < |b| :: s[|a| + j] == b[j];
    if Distinct(s) { ConcatParts(a, b); }
    if Distinct(a) && Distinct(b) && forall x | x in b :: x !in a {
      forall i, j | 0 <= i < j < |s| ensures s[i] != s[j] {
        if i < |a| <= j {
          assert s[j] == b[j - |a|] && b[j - |a|] in b;
        } else if |a| <= i {
          assert b[i - |a|] != b[j - |a|];
        }
      }
    }
  }

  lemma ConcatParts(a: seq<string>, b: seq<string>)
    requires Distinct(a + b)
    ensures Distinct(a) && Distinct(b) && forall x | x in b :: x !in a
  {
    var s := a + b;
    forall i, j | 0 <= i < j < |a| ensures a[i] != a[j] { assert s[i] != s[j]; }
    forall i, j | 0 <= i < j < |b| ensures b[i] != b[j] { assert s[|a| + i] != s[|a| + j]; }
    forall i, j | 0 <= i < |a| && 0 <= j < |b| ensures a[i] != b[j] { assert s[i] != s[|a| + j]; }
  }

  function FixedHead(e: Extras): seq<Job> {
    [Job(Prometheus(), ["localhost:9090"])] + if e.mstdnca != "" then [Job(Mstdnca(), [e.mstdnca])] else []
  }

  function FixedTail(e: Extras): seq<Job> { if e.unpoller.Some? then [Job(Unpoller(), [e.unpoller.value])] else [] }

  function JobNames(jobs: seq<Job>): (r: seq<string>)
    ensures |r| == |jobs| && forall i | 0 <= i < |jobs| :: r[i] == jobs[i].name
  {
    seq(|jobs|, i requires 0 <= i < |jobs| => jobs[i].name)
  }

  /** The names that are given without a look at the others. */
  function FixedNames(e: Extras): seq<string> { JobNames(FixedHead(e)) + JobNames(FixedTail(e)) }

  lemma FixedFacts()
    ensures '_' !in Prometheus() && '_' !in Mstdnca() && '_' !in Unpoller()
    ensures |Prometheus()| == 10 && |Mstdnca()| == 7 && |Unpoller()| == 8
  {}

  lemma FixedPlain(e: Extras)
    ensures forall f | f in FixedNames(e) :: '_' !in f
    ensures Distinct(JobNames(FixedHead(e))) && Distinct(JobNames(FixedTail(e)))
    ensures forall f | f in JobNames(FixedTail(e)) :: f !in JobNames(FixedHead(e))
  {
    hide Prometheus, Mstdnca, Unpoller;
    FixedFacts();
    var h, t := JobNames(FixedHead(e)), JobNames(FixedTail(e));
    assert h[0] == Prometheus() && (|h| > 1 ==> |h| == 2 && h[1] == Mstdnca());
    assert t != [] ==> |t| == 1 && t[0] == Unpoller();
    forall f | f in FixedNames(e) ensures '_' !in f {
      var i :| 0 <= i < |FixedNames(e)| && FixedNames(e)[i] == f;
      assert f == if i < |h| then h[i] else t[i - |h|];
    }
  }

  /** The names in the file differ exactly if no base is one of the fixed names. */
  lemma WholeFile(e: Extras, bases: seq<string>, names: seq<string>)
    requires Named(bases, names)
    ensures Distinct(JobNames(FixedHead(e)) + names + JobNames(FixedTail(e))) <==>
            forall b | b in bases :: b !in FixedNames(e)
  {
    hide Named, FixedHead, FixedTail, Distinct;
    var h, t := JobNames(FixedHead(e)), JobNames(FixedTail(e));
    NamesDiffer(bases, names);
    FixedPlain(e);
    DistinctConcat(h + names, t);
    DistinctConcat(h, names);
    forall f | f in FixedNames(e) ensures f in names <==> f in bases { PlainName(bases, names, f); }
  }

  lemma IpmiBases(name: string)
    ensures '_' in IpmiPrefix() + name
  {
    assert (IpmiPrefix() + name)[4] == '_';
  }

  /** The types in the registries never clash with a fixed name. */
  lemma RegisteredIsSafe(kind: string, e: Extras)
    requires Registered(kind)
    ensures Base(kind) !in FixedNames(e)
  {
    hide Prometheus, Mstdnca, Unpoller, Base, Registered;
    BaseDiffers(kind);
    var h, t, all := JobNames(FixedHead(e)), JobNames(FixedTail(e)), FixedNames(e);
    forall i | 0 <= i < |all| ensures all[i] == Prometheus() || all[i] == Mstdnca() || all[i] == Unpoller() {
      assert all[i] == if i < |h| then h[i] else t[i - |h|];
    }
  }

  lemma BaseDiffers(kind: string)
    requires Registered(kind)
    ensures Base(kind) != Prometheus() && Base(kind) != Mstdnca() && Base(kind) != Unpoller()
  {
    BaseShape(kind);
    FixedFacts();
    assert Prometheus()[0] == 'p' && Unpoller()[0] == 'u';
  }

  lemma BaseShape(kind: string)
    requires Registered(kind)
    ensures |Base(kind)| !in {7, 10} && (|Base(kind)| == 8 ==> Base(kind)[0] != 'u')
  {}

  // ---- The jobs --------------------------------------------------------------------------------

  method KeysOf(g: Groups) returns (keys: seq<string>)
    ensures multiset(keys) == multiset(g.Keys)
  {
    keys := [];
    var rest := g.Keys;
    while rest != {}
      invariant rest <= g.Keys && multiset(keys) + multiset(rest) == multiset(g.Keys)
      decreases |rest|
    {
      var k :| k in rest;
      assert multiset(rest) == multiset(rest - {k}) + multiset{k};
      keys, rest := keys + [k], rest - {k};
    }
  }

  lemma Twice(s: seq<string>, i: nat, j: nat)
    requires i < j < |s| && s[i] == s[j]
    ensures multiset(s)[s[i]] >= 2
  {
    assert s == s[..j] + s[j..];
    assert s[i] == s[..j][i] && s[j] == s[j..][0];
    assert s[i] in multiset(s[..j]) && s[i] in multiset(s[j..]);
  }

  lemma KeysDistinct(keys: seq<string>, s: set<string>)
    requires multiset(keys) == multiset(s)
    ensures Distinct(keys) && NameSet(keys) == s
  {
    forall i, j | 0 <= i < j < |keys| ensures keys[i] != keys[j] {
      if keys[i] == keys[j] { Twice(keys, i, j); }
    }
    forall k | k in s ensures k in NameSet(keys) { assert k in multiset(keys); }
    forall k | k in NameSet(keys) ensures k in s { assert k in multiset(s); }
  }

  /** The jobs have the targets of their types, in order. */
  ghost predicate WithTargets(jobs: seq<Job>, kinds: seq<string>, byType: Groups) {
    |jobs| == |kinds| && forall i | 0 <= i < |jobs| ::
      kinds[i] in byType && multiset(jobs[i].targets) == multiset(byType[kinds[i]]) && Ascending(jobs[i].targets, TextLess)
  }

  lemma WithTargetsMore(jobs: seq<Job>, kinds: seq<string>, byType: Groups, kind: string, job: Job)
    requires WithTargets(jobs, kinds, byType) && kind in byType && job.targets == Sort(byType[kind], TextLess)
    ensures WithTargets(jobs + [job], kinds + [kind], byType)
  {
    hide TextLess, Ascending;
    TextOrder();
    SortAscending(byType[kind], TextLess);
  }

  /** One job for each type, in the order of the types. */
  ghost predicate TypeJobs(jobs: seq<Job>, kinds: seq<string>, byType: Groups) {
    && Ascending(kinds, TextLess) && Distinct(kinds) && NameSet(kinds) == byType.Keys && WithTargets(jobs, kinds, byType)
  }

  lemma JobNamesMore(jobs: seq<Job>, job: Job)
    ensures JobNames(jobs + [job]) == JobNames(jobs) + [job.name]
  {}

  lemma BasesMore(kinds: seq<string>, i: nat)
    requires i < |kinds|
    ensures Bases(kinds[..i + 1]) == Bases(kinds[..i]) + [Base(kinds[i])]
  {
    hide Base;
  }

  function Bases(kinds: seq<string>): (r: seq<string>)
    ensures |r| == |kinds| && forall i | 0 <= i < |kinds| :: r[i] == Base(kinds[i])
  {
    seq(|kinds|, i requires 0 <= i < |kinds| => Base(kinds[i]))
  }

  function IpmiBase(h: HostExporter): string { IpmiPrefix() + Slug(Lowered(Strip(h.name))) }

  function IpmiBasesOf(hosts: seq<HostExporter>): (r: seq<string>)
    ensures |r| == |hosts| && forall i | 0 <= i < |hosts| :: r[i] == IpmiBase(hosts[i])
  {
    seq(|hosts|, i requires 0 <= i < |hosts| => IpmiBase(hosts[i]))
  }

  /** `host.ipmi_address or host.hostname`. */
  function Bmc(h: HostExporter): string { if h.ipmiAddress != "" then h.ipmiAddress else h.hostname }

  /** Order of the tuples `(bmc_ip, hostname, port, name)`. */
  predicate IpmiLess(a: HostExporter, b: HostExporter) {
    || TextLess(Bmc(a), Bmc(b))
    || (Bmc(a) == Bmc(b) && (|| TextLess(a.hostname, b.hostname)
        || (a.hostname == b.hostname && (a.port < b.port || (a.port == b.port && TextLess(a.name, b.name))))))
  }

  lemma IpmiOrder()
    ensures StrictOrder(IpmiLess)
  {
    hide TextLess, Bmc;
    forall a, b | IpmiLess(a, b) ensures !IpmiLess(b, a) {
      TextTrichotomy(Bmc(a), Bmc(b));
      TextTrichotomy(a.hostname, b.hostname);
      TextTrichotomy(a.name, b.name);
    }
    forall a, b, c | IpmiLess(a, b) && IpmiLess(b, c) ensures IpmiLess(a, c) { IpmiTransitive(a, b, c); }
  }

  lemma IpmiTransitive(a: HostExporter, b: HostExporter, c: HostExporter)
    requires IpmiLess(a, b) && IpmiLess(b, c)
    ensures IpmiLess(a, c)
  {
    hide TextLess, Bmc;
    if TextLess(Bmc(a), Bmc(b)) && TextLess(Bmc(b), Bmc(c)) { TextTransitive(Bmc(a), Bmc(b), Bmc(c)); }
    if TextLess(a.hostname, b.hostname) && TextLess(b.hostname, c.hostname) { TextTransitive(a.hostname, b.hostname, c.hostname); }
    if TextLess(a.name, b.name) && TextLess(b.name, c.name) { TextTransitive(a.name, b.name, c.name); }
  }

  method EmitTypes(byType: Groups) returns (jobs: seq<Job>, used: set<string>, ghost kinds: seq<string>)
    ensures TypeJobs(jobs, kinds, byType)
    ensures Named(Bases(kinds), JobNames(jobs)) && used == NameSet(JobNames(jobs))
  {
    hide Deduped, Named, Ascending, Distinct, NameSet, Base, Bases, JobNames, WithTargets, TextLess, Sort;
    var keys := KeysOf(byType);
    var sorted := Sort(keys, TextLess);
    kinds := sorted;
    TextOrder();
    SortAscending(keys, TextLess);
    KeysDistinct(sorted, byType.Keys);
    jobs, used := [], {};
    NothingNamed(sorted, byType);
    for i := 0 to |sorted|
      invariant used == NameSet(JobNames(jobs)) && Named(Bases(sorted[..i]), JobNames(jobs))
      invariant WithTargets(jobs, sorted[..i], byType)
    {
      var kind := sorted[i];
      InNameSet(sorted, i);
      var name;
      name, used := Dedupe(Base(kind), used);
      NamedMore(Bases(sorted[..i]), JobNames(jobs), Base(kind), name);
      BasesMore(sorted, i);
      var job := Job(name, Sort(byType[kind], TextLess));
      JobNamesMore(jobs, job);
      WithTargetsMore(jobs, sorted[..i], byType, kind, job);
      assert sorted[..i + 1] == sorted[..i] + [kind];
      jobs := jobs + [job];
    }
    assert sorted[..|sorted|] == sorted;
  }

  lemma InNameSet(s: seq<string>, i: nat)
    requires i < |s|
    ensures s[i] in NameSet(s)
  {}

  lemma NothingNamed(kinds: seq<string>, byType: Groups)
    ensures Named(Bases(kinds[..0]), JobNames([])) && NameSet(JobNames([])) == {} && WithTargets([], kinds[..0], byType)
  {}

  /** One job for each IPMI exporter, after the others. */
  method EmitIpmi(hosts: seq<HostExporter>, typeJobs: seq<Job>, used: set<string>, ghost bases: seq<string>)
    returns (jobs: seq<Job>, ghost order: seq<HostExporter>)
    requires used == NameSet(JobNames(typeJobs)) && Named(bases, JobNames(typeJobs))
    ensures multiset(order) == multiset(hosts) && Ascending(order, IpmiLess) && |jobs| == |order|
    ensures forall i | 0 <= i < |jobs| :: jobs[i].targets == [Bmc(order[i])]
    ensures Named(bases + IpmiBasesOf(order), JobNames(typeJobs + jobs))
  {
    hide Deduped, Named, NameSet, IpmiBase, Bmc, Ascending, IpmiLess, StrictOrder, Sort;
    IpmiOrder();
    SortAscending(hosts, IpmiLess);
    var sorted := Sort(hosts, IpmiLess);
    order := sorted;
    var now := used;
    jobs := [];
    assert typeJobs + jobs == typeJobs && bases + IpmiBasesOf(sorted[..0]) == bases;
    for i := 0 to |sorted|
      invariant |jobs| == i && now == NameSet(JobNames(typeJobs + jobs))
      invariant Named(bases + IpmiBasesOf(sorted[..i]), JobNames(typeJobs + jobs))
      invariant forall k | 0 <= k < i :: jobs[k].targets == [Bmc(sorted[k])]
    {
      var h := sorted[i];
      ghost var names := JobNames(typeJobs + jobs);
      var name;
      name, now := Dedupe(IpmiBase(h), now);
      NamedMore(bases + IpmiBasesOf(sorted[..i]), names, IpmiBase(h), name);
      jobs := jobs + [Job(name, [Bmc(h)])];
      assert JobNames(typeJobs + jobs) == names + [name];
      assert bases + IpmiBasesOf(sorted[..i + 1]) == bases + IpmiBasesOf(sorted[..i]) + [IpmiBase(h)];
    }
    assert sorted[..|sorted|] == sorted;
  }

  /** A type that has a target somewhere. */
  predicate Present(exporters: seq<Exporter>, hosts: seq<HostExporter>, jitsi: Option<string>, kind: string) {
    TargetsOf(exporters, hosts, jitsi, kind) != []
  }

  /** The scrape jobs of the file. Each type that has targets has one job, with exactly its targets; each
      IPMI exporter has one; and all the names differ exactly if no type goes by a fixed name. */
  method Generate(exporters: seq<Exporter>, hosts: seq<HostExporter>, e: Extras)
    returns (jobs: seq<Job>, types: seq<Job>, ipmi: seq<Job>, ghost kinds: seq<string>, ghost order: seq<HostExporter>)
    ensures jobs == [Job("prometheus", ["localhost:9090"])] + (if e.mstdnca == "" then [] else [Job("mstdnca", [e.mstdnca])])
                    + types + ipmi + (if e.unpoller.None? then [] else [Job("unpoller", [e.unpoller.value])])
    ensures Named(Bases(kinds) + IpmiBasesOf(order), JobNames(types + ipmi))
    ensures |types| == |kinds| && Distinct(kinds) && Ascending(kinds, TextLess)
    ensures forall k :: k in kinds <==> Present(exporters, hosts, e.jitsi, k)
    ensures forall i | 0 <= i < |types| ::
              multiset(types[i].targets) == multiset(TargetsOf(exporters, hosts, e.jitsi, kinds[i])) && Ascending(types[i].targets, TextLess)
    ensures multiset(order) == multiset(IpmiHosts(hosts)) && Ascending(order, IpmiLess) && |ipmi| == |order|
    ensures forall i | 0 <= i < |ipmi| ::
              ipmi[i].targets == [if order[i].ipmiAddress == "" then order[i].hostname else order[i].ipmiAddress]
    ensures Distinct(JobNames(jobs)) <==> forall k | Present(exporters, hosts, e.jitsi, k) :: Base(k) !in FixedNames(e)
  {
    hide Named, FixedHead, FixedTail, Distinct, Ascending, TargetsOf, Bmc, Base, IpmiBase, IpmiBasesOf, NameSet, TypeJobs, Bases,
         JobNames, FixedNames, Filled, IpmiHosts;
    var byType, ipmiHosts := Group(exporters, hosts, e.jitsi);
    var used;
    types, used, kinds := EmitTypes(byType);
    ipmi, order := EmitIpmi(ipmiHosts, types, used, Bases(kinds));
    jobs := FixedHead(e) + types + ipmi + FixedTail(e);
    FixedJobs(e);
    TypesMean(types, kinds, byType);
    forall h ensures Bmc(h) == if h.ipmiAddress == "" then h.hostname else h.ipmiAddress { BmcOf(h); }
    AllNames(FixedHead(e), types, ipmi, FixedTail(e));
    WholeFile(e, Bases(kinds) + IpmiBasesOf(order), JobNames(types + ipmi));
    BasesClash(kinds, order, e);
  }

  lemma FixedJobs(e: Extras)
    ensures FixedHead(e) == [Job("prometheus", ["localhost:9090"])] + if e.mstdnca == "" then [] else [Job("mstdnca", [e.mstdnca])]
    ensures FixedTail(e) == if e.unpoller.None? then [] else [Job("unpoller", [e.unpoller.value])]
  {}

  lemma BmcOf(h: HostExporter)
    ensures Bmc(h) == if h.ipmiAddress == "" then h.hostname else h.ipmiAddress
  {}

  lemma AllNames(a: seq<Job>, b: seq<Job>, c: seq<Job>, d: seq<Job>)
    ensures JobNames(a + b + c + d) == JobNames(a) + JobNames(b + c) + JobNames(d)
  {}

  lemma TypesMean(types: seq<Job>, kinds: seq<string>, byType: Groups)
    requires TypeJobs(types, kinds, byType) && Filled(byType)
    ensures |types| == |kinds| && Distinct(kinds) && Ascending(kinds, TextLess)
    ensures forall k :: k in kinds <==> GroupOf(byType, k) != []
    ensures forall i | 0 <= i < |types| ::
              multiset(types[i].targets) == multiset(GroupOf(byType, kinds[i])) && Ascending(types[i].targets, TextLess)
  {
    hide Distinct, Ascending;
    forall k ensures k in kinds <==> k in byType { assert k in kinds <==> k in NameSet(kinds); }
  }

  lemma BasesClash(kinds: seq<string>, order: seq<HostExporter>, e: Extras)
    ensures (forall b | b in Bases(kinds) + IpmiBasesOf(order) :: b !in FixedNames(e)) <==>
            forall k | k in kinds :: Base(k) !in FixedNames(e)
  {
    hide Base, FixedNames, Bases, IpmiBasesOf;
    var fixed := FixedNames(e);
    KindBases(kinds, fixed);
    NoIpmiClash(order, e);
    var a, b := Bases(kinds), IpmiBasesOf(order);
    forall x ensures x in a + b <==> x in a || x in b {}
  }

  lemma KindBases(kinds: seq<string>, fixed: seq<string>)
    ensures (forall b | b in Bases(kinds) :: b !in fixed) <==> forall k | k in kinds :: Base(k) !in fixed
  {
    hide Base;
    var bases := Bases(kinds);
    if forall b | b in bases :: b !in fixed {
      forall k | k in kinds ensures Base(k) !in fixed {
        var i :| 0 <= i < |kinds| && kinds[i] == k;
        assert bases[i] in bases;
      }
    }
    if forall k | k in kinds :: Base(k) !in fixed {
      forall b | b in bases ensures b !in fixed {
        var i :| 0 <= i < |bases| && bases[i] == b;
        assert kinds[i] in kinds;
      }
    }
  }

  lemma NoIpmiClash(order: seq<HostExporter>, e: Extras)
    ensures forall b | b in IpmiBasesOf(order) :: b !in FixedNames(e)
  {
    hide FixedNames, Slug, IpmiPrefix;
    FixedPlain(e);
    forall b | b in IpmiBasesOf(order) ensures b !in FixedNames(e) {
      var i :| 0 <= i < |order| && IpmiBasesOf(order)[i] == b;
      IpmiBases(Slug(Lowered(Strip(order[i].name))));
    }
  }

  /** With types of the registries alone, all the names in the file differ. */
  lemma RegistryNamesDiffer(exporters: seq<Exporter>, hosts: seq<HostExporter>, e: Extras)
    requires forall x | x in exporters :: Registered(x.kind)
    requires forall h | h in hosts :: Registered(h.kind)
    ensures forall k | Present(exporters, hosts, e.jitsi, k) :: Base(k) !in FixedNames(e)
  {
    hide Base, FixedNames, Registered, Address, Usable;
    forall k | Present(exporters, hosts, e.jitsi, k) ensures Base(k) !in FixedNames(e) {
      PresentKind(exporters, hosts, e.jitsi, k);
      JitsiRegistered();
      RegisteredIsSafe(k, e);
    }
  }

  lemma JitsiRegistered()
    ensures Registered("jitsi_jvb")
  {}

  lemma PresentKind(exporters: seq<Exporter>, hosts: seq<HostExporter>, jitsi: Option<string>, kind: string)
    requires Present(exporters, hosts, jitsi, kind)
    ensures kind == "jitsi_jvb" || (exists x | x in exporters :: x.kind == kind) || exists h | h in hosts :: h.kind == kind
  {
    hide Address, Usable;
    GuestKind(exporters, kind);
    HostKind(hosts, kind);
  }

  lemma {:induction false} GuestKind(exporters: seq<Exporter>, kind: string)
    ensures GuestTargets(exporters, kind) != [] ==> exists x | x in exporters :: x.kind == kind
  {
    hide Address, Usable;
    if exporters != [] {
      GuestKind(exporters[..|exporters| - 1], kind);
      assert exporters[|exporters| - 1] in exporters;
      if x :| x in exporters[..|exporters| - 1] && x.kind == kind { assert x in exporters; }
    }
  }

  lemma {:induction false} HostKind(hosts: seq<HostExporter>, kind: string)
    ensures HostTargets(hosts, kind) != [] ==> exists h | h in hosts :: h.kind == kind
  {
    hide Address;
    if hosts != [] {
      HostKind(hosts[..|hosts| - 1], kind);
      assert hosts[|hosts| - 1] in hosts;
      if h :| h in hosts[..|hosts| - 1] && h.kind == kind { assert h in hosts; }
    }
  }
}
