/** What the texts in the generated prometheus.yml are: names, targets and their order. */
module PrometheusTexts {
  import opened Text
  import opened PrometheusJobs

  // ---- Names -----------------------------------------------------------------------------------

  /** The names that the registries give; a type they do not know goes by its own. */
  lemma RegistryNames(kind: string)
    ensures Base("node_exporter") == "node" && Base("postgres_exporter") == "postgres" && Base("redis_exporter") == "redis"
    ensures Base("elasticsearch_exporter") == "elasticsearch" && Base("ipmi_exporter") == "ipmi"
    ensures kind !in ["node_exporter", "postgres_exporter", "redis_exporter", "elasticsearch_exporter", "ipmi_exporter"] ==>
              Base(kind) == kind
  {}

  /** The types of the registries. */
  lemma RegistryTypes(kind: string)
    ensures Registered(kind) <==>
              kind in ["node_exporter", "postgres_exporter", "redis_exporter", "elasticsearch_exporter", "jitsi_jvb",
                       "ipmi_exporter", "mastodon"]
  {}

  /** An IPMI job is named after its host. */
  lemma IpmiNames(h: HostExporter)
    ensures IpmiBase(h) == "ipmi_" + Slug(Lowered(Strip(h.name)))
  {}

  /** The capital letters, and nothing else, are lowered. */
  lemma LoweredLetters(s: string)
    ensures Lowered("ABCDEFGHIJKLMNOPQRSTUVWXYZ") == "abcdefghijklmnopqrstuvwxyz"
    ensures |Lowered(s)| == |s| && forall i | 0 <= i < |s| && !('A' <= s[i] <= 'Z') :: Lowered(s)[i] == s[i]
    ensures forall i, j | 0 <= i < |s| && 0 <= j < 26 && s[i] == "ABCDEFGHIJKLMNOPQRSTUVWXYZ"[j] ::
              Lowered(s)[i] == "abcdefghijklmnopqrstuvwxyz"[j]
  {
    var upper, lower := "ABCDEFGHIJKLMNOPQRSTUVWXYZ", "abcdefghijklmnopqrstuvwxyz";
    forall j | 0 <= j < 26 ensures Lower(upper[j]) == lower[j] {}
  }

  lemma {:induction false} ReplacedConcat(a: string, b: string, cut: bool)
    requires a != ""
    ensures Replaced(a + b, cut) == Replaced(a, cut) + Replaced(b, !SlugChar(a[|a| - 1]))
  {
    assert (a + b)[1..] == a[1..] + b;
    if |a| > 1 {
      ReplacedConcat(a[1..], b, !SlugChar(a[0]));
      assert a[1..][|a| - 2] == a[|a| - 1];
    } else {
      assert a[1..] == "" && "" + b == b;
    }
  }

  /** The characters of a slug. */
  predicate Safe(c: char) { 'a' <= c <= 'z' || '0' <= c <= '9' || c == '_' || c == '-' }

  lemma {:induction false} RunReplaced(run: string, cut: bool)
    requires forall c | c in run :: !Safe(c)
    ensures Replaced(run, cut) == if run == "" || cut then "" else "_"
  {
    if run != "" {
      assert run[0] in run;
      RunReplaced(run[1..], true);
    }
  }

  /** A whole run of other characters counts as one underscore. */
  lemma SlugJoins(a: string, run: string, b: string)
    requires run != "" && forall c | c in run :: !Safe(c)
    requires (a != "" ==> Safe(a[|a| - 1])) && (b != "" ==> Safe(b[0]))
    ensures Slug(a + run + b) == Slug(a + "_" + b)
  {
    hide Replaced, Safe, LeftTrimmed, RightTrimmed;
    SafeOnes();
    RunReplaced(run, false);
    assert run[|run| - 1] in run;
    var tail, line := run + b, "_" + b;
    ReplacedConcat(run, b, false);
    ReplacedConcat("_", b, false);
    UnderscoreStays();
    AfterRun(b);
    assert a + run + b == a + tail && a + "_" + b == a + line;
    if a != "" {
      ReplacedConcat(a, tail, false);
      ReplacedConcat(a, line, false);
    } else {
      assert a + tail == tail && a + line == line;
    }
  }

  lemma SafeOnes()
    ensures forall c :: Safe(c) <==> SlugChar(c)
    ensures Safe('_')
  {}

  lemma UnderscoreStays()
    ensures Replaced("_", false) == "_"
  {
    assert "_"[1..] == "";
  }

  lemma AfterRun(b: string)
    requires b == "" || SlugChar(b[0])
    ensures Replaced(b, true) == Replaced(b, false)
  {}

  predicate Underscores(s: string) { forall c | c in s :: c == '_' }

  lemma {:induction false} LeftOff(u: string, m: string)
    requires Underscores(u) && (m != "" ==> m[0] != '_')
    ensures LeftTrimmed(u + m) == m
  {
    if u == "" {
      assert u + m == m;
    } else {
      assert (u + m)[1..] == u[1..] + m && u[0] in u;
      forall c | c in u[1..] ensures c == '_' { assert c in u; }
      LeftOff(u[1..], m);
    }
  }

  lemma {:induction false} RightOff(m: string, v: string)
    requires Underscores(v) && (m != "" ==> m[|m| - 1] != '_')
    ensures RightTrimmed(m + v) == m
  {
    if v == "" {
      assert m + v == m;
    } else {
      assert (m + v)[..|m + v| - 1] == m + v[..|v| - 1] && v[|v| - 1] in v;
      var w := v[..|v| - 1];
      forall c | c in w ensures c == '_' { assert c in v; }
      RightOff(m, w);
    }
  }

  /** A text of such characters loses the underscores at its ends; of nothing, "unnamed" is made. */
  lemma SlugTrims(u: string, m: string, v: string)
    requires Underscores(u) && Underscores(v) && forall c | c in m :: Safe(c)
    requires m != "" ==> m[0] != '_' && m[|m| - 1] != '_'
    requires m == "" ==> v == ""
    ensures Slug(u + m + v) == if m == "" then "unnamed" else m
  {
    hide Replaced, Safe, LeftTrimmed, RightTrimmed;
    SafeOnes();
    var s := u + m + v;
    forall c | c in s ensures SlugChar(c) {}
    ReplacedPlain(s);
    assert s == u + (m + v);
    LeftOff(u, m + v);
    RightOff(m, v);
  }

  // ---- Targets ---------------------------------------------------------------------------------

  /** The text is the word, in small letters or capitals. */
  predicate Spelled(s: string, word: string) {
    |s| == |word| && forall i | 0 <= i < |s| :: s[i] == word[i] || ('A' <= s[i] <= 'Z' && s[i] as int + 32 == word[i] as int)
  }

  predicate HasAddress(ip: string) { ip != "" && !Spelled(ip, "dhcp") && !Spelled(ip, "dhcp6") && !Spelled(ip, "auto") }

  lemma SpelledMeans(s: string, word: string)
    requires forall c | c in word :: 'a' <= c <= 'z' || '0' <= c <= '9'
    ensures Lowered(s) == word <==> Spelled(s, word)
  {
    if Spelled(s, word) {
      forall i | 0 <= i < |s| ensures Lowered(s)[i] == word[i] { assert word[i] in word; }
    }
  }

  lemma UsableMeans(ip: string)
    ensures Usable(ip) <==> HasAddress(ip)
  {
    hide Spelled, Lowered;
    SpelledMeans(ip, "dhcp");
    SpelledMeans(ip, "dhcp6");
    SpelledMeans(ip, "auto");
  }

  lemma {:induction false} GuestTargetsMean(exporters: seq<Exporter>, kind: string, t: string)
    ensures t in GuestTargets(exporters, kind) <==>
              exists i | 0 <= i < |exporters| ::
                exporters[i].kind == kind && HasAddress(exporters[i].ip) && t == exporters[i].ip + ":" + Decimal(exporters[i].port)
  {
    hide HasAddress, Usable, Decimal;
    if exporters != [] {
      var n := |exporters| - 1;
      var e, front := exporters[n], exporters[..n];
      GuestTargetsMean(front, kind, t);
      UsableMeans(e.ip);
      if t in GuestTargets(front, kind) {
        var i :| 0 <= i < n && front[i].kind == kind && HasAddress(front[i].ip) && t == front[i].ip + ":" + Decimal(front[i].port);
        assert exporters[i] == front[i];
      }
      if i :| 0 <= i < |exporters| && exporters[i].kind == kind && HasAddress(exporters[i].ip)
              && t == exporters[i].ip + ":" + Decimal(exporters[i].port) {
        if i < n { assert front[i] == exporters[i]; }
      }
    }
  }

  lemma {:induction false} HostTargetsMean(hosts: seq<HostExporter>, kind: string, t: string)
    ensures t in HostTargets(hosts, kind) <==>
              && kind != "ipmi_exporter"
              && exists i | 0 <= i < |hosts| :: hosts[i].kind == kind && t == hosts[i].hostname + ":" + Decimal(hosts[i].port)
  {
    hide Decimal;
    if hosts != [] {
      var n := |hosts| - 1;
      var front := hosts[..n];
      HostTargetsMean(front, kind, t);
      if t in HostTargets(front, kind) {
        var i :| 0 <= i < n && front[i].kind == kind && t == front[i].hostname + ":" + Decimal(front[i].port);
        assert hosts[i] == front[i];
      }
      if i :| 0 <= i < |hosts| && hosts[i].kind == kind && t == hosts[i].hostname + ":" + Decimal(hosts[i].port) {
        if i < n { assert front[i] == hosts[i]; }
      }
    }
  }

  lemma JitsiTargetsMean(jitsi: Option<string>, kind: string, t: string)
    ensures t in JitsiTargets(jitsi, kind) <==> kind == "jitsi_jvb" && jitsi.Some? && HasAddress(jitsi.value) && t == jitsi.value + ":8080"
  {
    hide HasAddress, Usable;
    if jitsi.Some? {
      UsableMeans(jitsi.value);
      Port();
      assert jitsi.value + ":" + "8080" == jitsi.value + ":8080";
    }
  }

  lemma Port()
    ensures Decimal(8080) == "8080"
  {
    assert Decimal(8) == "8" && Decimal(80) == "80" && Decimal(808) == "808";
  }

  /** The targets of a type: of the guests with an address of their own, of the hosts unless they are for
      IPMI, and of the videobridge on its port. */
  lemma TargetsMean(exporters: seq<Exporter>, hosts: seq<HostExporter>, jitsi: Option<string>, kind: string, t: string)
    ensures t in TargetsOf(exporters, hosts, jitsi, kind) <==>
              || (exists i | 0 <= i < |exporters| ::
                    exporters[i].kind == kind && HasAddress(exporters[i].ip) && t == exporters[i].ip + ":" + Decimal(exporters[i].port))
              || (kind != "ipmi_exporter"
                  && exists i | 0 <= i < |hosts| :: hosts[i].kind == kind && t == hosts[i].hostname + ":" + Decimal(hosts[i].port))
              || (kind == "jitsi_jvb" && jitsi.Some? && HasAddress(jitsi.value) && t == jitsi.value + ":8080")
  {
    hide HasAddress, GuestTargets, HostTargets, JitsiTargets, Decimal;
    GuestTargetsMean(exporters, kind, t);
    HostTargetsMean(hosts, kind, t);
    JitsiTargetsMean(jitsi, kind, t);
  }

  function OtherHosts(hosts: seq<HostExporter>): (r: seq<HostExporter>)
    ensures forall h | h in r :: h.kind != "ipmi_exporter"
  {
    if hosts == [] then [] else
      OtherHosts(hosts[..|hosts| - 1]) + if hosts[|hosts| - 1].kind != "ipmi_exporter" then [hosts[|hosts| - 1]] else []
  }

  /** The IPMI exporters are those of this type: all of them, and no others. */
  lemma {:induction false} IpmiHostsMean(hosts: seq<HostExporter>)
    ensures multiset(IpmiHosts(hosts)) + multiset(OtherHosts(hosts)) == multiset(hosts)
    ensures forall h | h in IpmiHosts(hosts) :: h.kind == "ipmi_exporter"
  {
    if hosts != [] {
      var front, last := hosts[..|hosts| - 1], hosts[|hosts| - 1];
      IpmiHostsMean(front);
      assert hosts == front + [last];
      assert multiset(hosts) == multiset(front) + multiset{last};
      if Ipmi(last) {
        assert IpmiHosts(hosts) == IpmiHosts(front) + [last] && OtherHosts(hosts) == OtherHosts(front) + [];
      } else {
        assert IpmiHosts(hosts) == IpmiHosts(front) + [] && OtherHosts(hosts) == OtherHosts(front) + [last];
      }
    }
  }

  /** IPMI jobs go by the address of the controller, then by the host, the port and the name. */
  lemma IpmiOrderMeans(a: HostExporter, b: HostExporter)
    ensures TextLess(Bmc(a), Bmc(b)) ==> IpmiLess(a, b) && !IpmiLess(b, a)
    ensures Bmc(a) == Bmc(b) && TextLess(a.hostname, b.hostname) ==> IpmiLess(a, b) && !IpmiLess(b, a)
    ensures Bmc(a) == Bmc(b) && a.hostname == b.hostname && a.port < b.port ==> IpmiLess(a, b) && !IpmiLess(b, a)
    ensures Bmc(a) == Bmc(b) && a.hostname == b.hostname && a.port == b.port && TextLess(a.name, b.name) ==>
              IpmiLess(a, b) && !IpmiLess(b, a)
  {
    hide TextLess, Bmc;
    TextTrichotomy(Bmc(a), Bmc(b));
    TextTrichotomy(a.hostname, b.hostname);
    TextTrichotomy(a.name, b.name);
  }
}
