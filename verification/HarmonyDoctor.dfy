/** The health checks after a Harmony upgrade: what `evaluate_doctor_output` and
    `check_realtime_policy` make of the output of the instance's own tools. */
module HarmonyDoctor {
  import opened Text

  datatype Level = Good | Warn | Fail

  /** One verdict of the report. */
  datatype Result = Result(check: string, passed: bool)

  function Containers(): string { "Containers" }

  /** The checks that must not fail, and whether they must be there. */
  function Gated(): seq<(string, bool)> {
    [("database", false), ("migrations", true), ("auth", true), ("livekit", false)]
  }

  function ReadLevel(s: string): Option<(Level, string)> {
    if "OK" <= s then Some((Good, s[2..]))
    else if "WARN" <= s then Some((Warn, s[4..]))
    else if "FAIL" <= s then Some((Fail, s[4..]))
    else None
  }

  /** `^\[\s*(OK|WARN|FAIL)\s*\]\s+(.*)$` on a line without blanks at its end. */
  function ParseLine(line: string): Option<(Level, string)> {
    if line == "" || line[0] != '[' then None
    else
      match ReadLevel(LStrip(line[1..]))
      case None => None
      case Some(level) =>
        var t := LStrip(level.1);
        if t == "" || t[0] != ']' || |t| == 1 || !IsSpace(t[1]) then None else Some((level.0, LStrip(t[1..])))
  }

  /** `rest.split(None, 1)[0]`, or nothing for a blank text. */
  function FirstWord(s: string): string { UpToSpace(LStrip(s)) }

  function UpToSpace(s: string): string {
    if s == "" || IsSpace(s[0]) then "" else [s[0]] + UpToSpace(s[1..])
  }

  /** The check on a line of the output, if it holds one. */
  function Check(raw: string): Option<(Level, string)> {
    var line := RStrip(raw);
    if Strip(line) == "" then None else ParseLine(line)
  }

  /** The line opens a section. */
  predicate Heading(raw: string) {
    var line := RStrip(raw);
    Strip(line) != "" && ParseLine(line).None? && !(" " <= line) && !("\t" <= line) && !("Harmony doctor" <= line)
  }

  // ---- What the output means -------------------------------------------------------------------

  /** The section of line `i`: the last heading before it. */
  function Section(lines: seq<string>, i: nat): string
    requires i <= |lines|
  {
    if i == 0 then "" else if Heading(lines[i - 1]) then Strip(RStrip(lines[i - 1])) else Section(lines, i - 1)
  }

  predicate InContainers(lines: seq<string>, i: nat)
    requires i < |lines|
  {
    Check(lines[i]).Some? && Section(lines, i) == Containers()
  }

  /** Line `i` reports the check `name`, outside the Containers section. */
  predicate Reports(lines: seq<string>, i: nat, name: string)
    requires i < |lines|
  {
    Check(lines[i]).Some? && FirstWord(Check(lines[i]).value.1) == name && Section(lines, i) != Containers()
  }

  predicate Fails(lines: seq<string>, i: nat)
    requires i < |lines|
  {
    Check(lines[i]).Some? && Check(lines[i]).value.0 == Fail
  }

  predicate AnyContainer(lines: seq<string>, n: nat)
    requires n <= |lines|
  {
    exists i | 0 <= i < n :: InContainers(lines, i)
  }

  predicate ContainerFails(lines: seq<string>, n: nat)
    requires n <= |lines|
  {
    exists i | 0 <= i < n :: InContainers(lines, i) && Fails(lines, i)
  }

  predicate Reported(lines: seq<string>, n: nat, name: string)
    requires n <= |lines|
  {
    exists i | 0 <= i < n :: Reports(lines, i, name)
  }

  predicate ReportedFailed(lines: seq<string>, n: nat, name: string)
    requires n <= |lines|
  {
    exists i | 0 <= i < n :: Reports(lines, i, name) && Fails(lines, i)
  }

  /** A gated check is there if it has to be, and failed nowhere. */
  predicate Passes(lines: seq<string>, gate: (string, bool)) {
    (gate.1 ==> Reported(lines, |lines|, gate.0)) && !ReportedFailed(lines, |lines|, gate.0)
  }

  predicate ContainersPass(lines: seq<string>) { AnyContainer(lines, |lines|) && !ContainerFails(lines, |lines|) }

  predicate Healthy(lines: seq<string>) {
    ContainersPass(lines) && forall k | 0 <= k < |Gated()| :: Passes(lines, Gated()[k])
  }

  // ---- The loop --------------------------------------------------------------------------------

  type Found = map<string, (Level, string)>

  ghost predicate GatedName(name: string) { exists k | 0 <= k < |Gated()| :: Gated()[k].0 == name }

  /** What was found in the first `n` lines: of each gated check, the worst report. */
  ghost predicate Tells(found: Found, lines: seq<string>, n: nat)
    requires n <= |lines|
  {
    forall name | GatedName(name) ::
      && (name in found <==> Reported(lines, n, name))
      && (name in found ==> (found[name].0 == Fail <==> ReportedFailed(lines, n, name)))
  }

  /** The inner loop over the gated checks. */
  method Note(found: Found, name: string, outside: bool, level: Level, detail: string) returns (r: Found)
    ensures forall c | GatedName(c) ::
              if c == name && outside
              then c in r && (r[c].0 == Fail <==> level == Fail || (c in found && found[c].0 == Fail))
              else (c in r <==> c in found) && (c in r ==> r[c] == found[c])
  {
    r := found;
    for k := 0 to |Gated()|
      invariant forall c | exists j :: 0 <= j < k && Gated()[j].0 == c ::
                  if c == name && outside
                  then c in r && (r[c].0 == Fail <==> level == Fail || (c in found && found[c].0 == Fail))
                  else (c in r <==> c in found) && (c in r ==> r[c] == found[c])
      invariant forall c | c != name || !outside || (forall j :: 0 <= j < k ==> Gated()[j].0 != c) ::
                  (c in r <==> c in found) && (c in r ==> r[c] == found[c])
    {
      var check := Gated()[k].0;
      if name == check && outside {
        if check !in r || r[check].0 != Fail { r := r[check := (level, detail)]; }
      }
    }
  }

  /** The verdict on a gated check: none for one that is not reported and need not be. */
  function Verdict(lines: seq<string>, gate: (string, bool)): seq<Result> {
    if Reported(lines, |lines|, gate.0) then [Result(gate.0, !ReportedFailed(lines, |lines|, gate.0))]
    else if gate.1 then [Result(gate.0, false)]
    else []
  }

  function Verdicts(lines: seq<string>, n: nat): seq<Result>
    requires n <= |Gated()|
  {
    if n == 0 then [Result("containers", ContainersPass(lines))]
    else Verdicts(lines, n - 1) + Verdict(lines, Gated()[n - 1])
  }

  predicate AllPassed(results: seq<Result>) { forall k | 0 <= k < |results| :: results[k].passed }

  lemma PassedConcat(a: seq<Result>, b: seq<Result>)
    ensures AllPassed(a + b) <==> AllPassed(a) && AllPassed(b)
  {
    if AllPassed(a + b) {
      forall k | 0 <= k < |b| ensures b[k].passed { assert (a + b)[|a| + k] == b[k]; }
      forall k | 0 <= k < |a| ensures a[k].passed { assert (a + b)[k] == a[k]; }
    }
  }

  lemma {:induction false} VerdictsMean(lines: seq<string>, n: nat)
    requires n <= |Gated()|
    ensures AllPassed(Verdicts(lines, n)) <==>
            ContainersPass(lines) && forall k | 0 <= k < n :: Passes(lines, Gated()[k])
  {
    hide Gated, ContainersPass, Reported, ReportedFailed;
    if n > 0 {
      VerdictsMean(lines, n - 1);
      PassedConcat(Verdicts(lines, n - 1), Verdict(lines, Gated()[n - 1]));
      OneVerdict(lines, Gated()[n - 1]);
    } else {
      assert Verdicts(lines, 0)[0].passed == ContainersPass(lines);
    }
  }

  lemma OneVerdict(lines: seq<string>, gate: (string, bool))
    ensures AllPassed(Verdict(lines, gate)) <==> Passes(lines, gate)
  {
    hide Reported;
    var v := Verdict(lines, gate);
    assert v != [] ==> |v| == 1 && AllPassed(v) == v[0].passed;
    if ReportedFailed(lines, |lines|, gate.0) {
      var i :| 0 <= i < |lines| && Reports(lines, i, gate.0) && Fails(lines, i);
      assert Reported(lines, |lines|, gate.0) by { ReportedAt(lines, i, gate.0); }
    }
  }

  lemma ReportedAt(lines: seq<string>, i: nat, name: string)
    requires i < |lines| && Reports(lines, i, name)
    ensures Reported(lines, |lines|, name)
  {}

  lemma OneMoreLine(lines: seq<string>, n: nat, name: string)
    requires n < |lines|
    ensures Reported(lines, n + 1, name) <==> Reported(lines, n, name) || Reports(lines, n, name)
    ensures ReportedFailed(lines, n + 1, name) <==> ReportedFailed(lines, n, name) || (Reports(lines, n, name) && Fails(lines, n))
    ensures AnyContainer(lines, n + 1) <==> AnyContainer(lines, n) || InContainers(lines, n)
    ensures ContainerFails(lines, n + 1) <==> ContainerFails(lines, n) || (InContainers(lines, n) && Fails(lines, n))
  {
    hide Reports, InContainers, Fails;
  }

  /** A line without a check changes nothing, and one with a check is noted. */
  lemma TellsMore(was: Found, now: Found, lines: seq<string>, n: nat)
    requires n < |lines| && Tells(was, lines, n)
    requires forall c | GatedName(c) ::
               if Reports(lines, n, c)
               then c in now && (now[c].0 == Fail <==> Fails(lines, n) || (c in was && was[c].0 == Fail))
               else (c in now <==> c in was) && (c in now ==> now[c] == was[c])
    ensures Tells(now, lines, n + 1)
  {
    hide Reports, Fails, Reported, ReportedFailed, GatedName;
    forall c | GatedName(c)
      ensures (c in now <==> Reported(lines, n + 1, c)) && (c in now ==> (now[c].0 == Fail <==> ReportedFailed(lines, n + 1, c)))
    {
      OneMoreLine(lines, n, c);
      if ReportedFailed(lines, n, c) { FailedIsReported(lines, n, c); }
    }
  }

  lemma FailedIsReported(lines: seq<string>, n: nat, name: string)
    requires n <= |lines| && ReportedFailed(lines, n, name)
    ensures Reported(lines, n, name)
  {
    hide Reports, Fails;
  }

  /** `evaluate_doctor_output` on the lines of the output. */
  method Evaluate(lines: seq<string>) returns (ok: bool, results: seq<Result>)
    ensures ok <==> Healthy(lines)
    ensures results == Verdicts(lines, |Gated()|) && (ok <==> AllPassed(results))
  {
    hide Gated, Section, Check, Heading, ParseLine, FirstWord, Containers, ContainersPass, AnyContainer, ContainerFails,
         Reported, ReportedFailed, GatedName, Tells;
    var section, seen, found: Found := "", false, map[];
    var containerFails: seq<string> := [];
    NothingTold(lines);
    for i := 0 to |lines|
      invariant section == Section(lines, i)
      invariant seen <==> AnyContainer(lines, i)
      invariant containerFails != [] <==> ContainerFails(lines, i)
      invariant Tells(found, lines, i)
    {
      var check := Check(lines[i]);
      NextSection(lines, i);
      OneMoreLine(lines, i, "");
      if check.None? {
        if Heading(lines[i]) { section := Strip(RStrip(lines[i])); }
        TellsMore(found, found, lines, i);
        continue;
      }
      var level, rest := check.value.0, check.value.1;
      if section == Containers() {
        seen := true;
        if level == Fail { containerFails := containerFails + [Strip(rest)]; }
      }
      var now := Note(found, FirstWord(rest), section != Containers(), level, Strip(rest));
      TellsMore(found, now, lines, i);
      found := now;
    }
    ContainersMean(lines);
    results := [Result("containers", seen && containerFails == [])];
    for k := 0 to |Gated()|
      invariant results == Verdicts(lines, k)
    {
      var gate := Gated()[k];
      GatedTold(found, lines, k);
      if gate.0 in found {
        results := results + [Result(gate.0, found[gate.0].0 != Fail)];
      } else if gate.1 {
        results := results + [Result(gate.0, false)];
      }
    }
    VerdictsMean(lines, |Gated()|);
    ok := AllPassed(results);
  }

  lemma NothingTold(lines: seq<string>)
    ensures Tells(map[], lines, 0) && !AnyContainer(lines, 0) && !ContainerFails(lines, 0) && Section(lines, 0) == ""
  {}

  lemma NextSection(lines: seq<string>, i: nat)
    requires i < |lines|
    ensures Section(lines, i + 1) == if Heading(lines[i]) then Strip(RStrip(lines[i])) else Section(lines, i)
    ensures Check(lines[i]).Some? ==> !Heading(lines[i])
  {}

  lemma ContainersMean(lines: seq<string>)
    ensures ContainersPass(lines) <==> AnyContainer(lines, |lines|) && !ContainerFails(lines, |lines|)
  {}

  lemma GatedTold(found: Found, lines: seq<string>, k: nat)
    requires Tells(found, lines, |lines|) && k < |Gated()|
    ensures var name := Gated()[k].0;
            && (name in found <==> Reported(lines, |lines|, name))
            && (name in found ==> (found[name].0 == Fail <==> ReportedFailed(lines, |lines|, name)))
  {
    hide Reported, ReportedFailed;
    assert GatedName(Gated()[k].0);
  }

  // ---- The realtime policy ---------------------------------------------------------------------

  function LastFilled(lines: seq<string>): string {
    if lines == [] then "" else if Strip(lines[|lines| - 1]) != "" then Strip(lines[|lines| - 1]) else LastFilled(lines[..|lines| - 1])
  }

  /** `check_realtime_policy` on the exit code and the output lines of the query. */
  predicate PolicyPasses(code: int, lines: seq<string>) {
    var count := LastFilled(lines);
    code == 0 && count != "" && (forall c | c in count :: IsDigit(c)) && Number(count) >= 1
  }

  /** The query succeeded, and the last line it filled holds a number other than zero. */
  lemma PolicyMeans(code: int, lines: seq<string>)
    ensures PolicyPasses(code, lines) <==>
            && code == 0
            && exists k | 0 <= k < |lines| ::
                 && (forall j | k < j < |lines| :: Strip(lines[j]) == "")
                 && (forall c | c in Strip(lines[k]) :: IsDigit(c))
                 && exists c :: c in Strip(lines[k]) && c != '0'
  {
    hide Strip;
    LastFilledMeans(lines);
    var count := LastFilled(lines);
    if forall c | c in count :: IsDigit(c) { PositiveNumber(count); }
  }

  lemma {:induction false} PositiveNumber(s: string)
    requires forall c | c in s :: IsDigit(c)
    ensures Number(s) >= 1 <==> exists c :: c in s && c != '0'
  {
    if s != "" {
      var init := s[..|s| - 1];
      var last := s[|s| - 1];
      assert s == init + [last] && IsDigit(last) && last in s;
      PositiveNumber(init);
      assert Number(s) >= 1 <==> Number(init) >= 1 || last != '0';
      if c :| c in init && c != '0' { assert c in s; }
    }
  }

  lemma {:induction false} LastFilledMeans(lines: seq<string>)
    ensures LastFilled(lines) == "" ==> forall j | 0 <= j < |lines| :: Strip(lines[j]) == ""
    ensures LastFilled(lines) != "" ==>
              exists k | 0 <= k < |lines| :: Strip(lines[k]) == LastFilled(lines) && forall j | k < j < |lines| :: Strip(lines[j]) == ""
  {
    hide Strip;
    if lines != [] {
      var n := |lines| - 1;
      if Strip(lines[n]) != "" {
        assert Strip(lines[n]) == LastFilled(lines);
      } else {
        LastFilledMeans(lines[..n]);
        if LastFilled(lines) != "" {
          var k :| 0 <= k < n && Strip(lines[..n][k]) == LastFilled(lines) && forall j | k < j < n :: Strip(lines[..n][j]) == "";
          assert forall j | k < j < |lines| :: Strip(lines[j]) == "" by {
            forall j | k < j < |lines| ensures Strip(lines[j]) == "" { if j < n { assert lines[..n][j] == lines[j]; } }
          }
          assert Strip(lines[k]) == LastFilled(lines);
        } else {
          forall j | 0 <= j < |lines| ensures Strip(lines[j]) == "" { if j < n { assert lines[..n][j] == lines[j]; } }
        }
      }
    }
  }
}
