/** `run_harmony_upgrade`: the guards before the update, and the verification after it that decides
    whether the new version is recorded. */
module HarmonyUpgrade {
  import opened Text
  import opened HarmonyDoctor
  import VersionOrder

  const ATTEMPTS := 3

  /** What one round of checks gets to see of the instance. */
  datatype Round = Round(version: Option<string>, doctor: seq<string>, policyCode: int, policy: seq<string>)

  /** What the guest and the hypervisor answer in one run; `None` stands for an SSH exception. A round
      that is never reached has an answer too. */
  datatype Answers = Answers(
    resolved: bool, protected: bool, before: Option<Option<string>>, backup: Option<int>,
    update: Option<(int, bool)>, rounds: seq<Option<Round>>)

  /** `Protected`: the snapshot or backup of the guest was made, or skipped on request. */
  datatype Event = Protected | BackedUp(code: int) | UpdateIssued(target: string, skipBackup: bool) | Checked(round: Round)

  /** `_STRICT_VERSION_RE.fullmatch`. */
  predicate Strict(s: string) {
    match VersionOrder.ReadNumber(s)
    case None => false
    case Some(major) =>
      match VersionOrder.ReadDot(major.1)
      case None => false
      case Some(t) =>
        match VersionOrder.ReadNumber(t)
        case None => false
        case Some(minor) =>
          match VersionOrder.ReadDot(minor.1)
          case None => false
          case Some(u) => VersionOrder.ReadNumber(u).Some? && VersionOrder.ReadNumber(u).value.1 == ""
  }

  /** The instance runs `target` and passes every check. */
  predicate Verified(round: Round, target: string) {
    round.version == Some(target) && Healthy(round.doctor) && PolicyPasses(round.policyCode, round.policy)
  }

  /** Round `n` is the first that verifies, and none before it broke off. */
  predicate VerifiedAt(rounds: seq<Option<Round>>, target: string, n: nat) {
    && n < |rounds| && rounds[n].Some? && Verified(rounds[n].value, target)
    && forall k | 0 <= k < n :: rounds[k].Some? && !Verified(rounds[k].value, target)
  }

  /** The checks of the first `n` rounds. */
  ghost predicate ChecksOf(run: seq<Event>, rounds: seq<Option<Round>>, n: nat) {
    && |run| == n <= |rounds|
    && forall k | 0 <= k < n :: rounds[k].Some? && run[k] == Checked(rounds[k].value)
  }

  /** The verification loop; `None` if an exception broke it off. */
  method Verify(rounds: seq<Option<Round>>, target: string) returns (ok: Option<bool>, ghost run: seq<Event>)
    requires |rounds| == 3
    ensures |run| <= 3 && ChecksOf(run, rounds, |run|)
    ensures match ok
            case Some(true) => |run| > 0 && VerifiedAt(rounds, target, |run| - 1)
            case Some(false) => |run| == 3 && !VerifiedSoon(rounds, target)
            case None => |run| < 3 && rounds[|run|].None? && !VerifiedSoon(rounds, target)
  {
    hide Verified;
    run := [];
    for attempt := 1 to ATTEMPTS + 1
      invariant |run| == attempt - 1 && ChecksOf(run, rounds, |run|)
      invariant forall k | 0 <= k < |run| :: !Verified(rounds[k].value, target)
    {
      if rounds[attempt - 1].None? { return None, run; }
      var round := rounds[attempt - 1].value;
      run := run + [Checked(round)];
      var ok := CheckRound(round, target);
      if ok { return Some(true), run; }
    }
    return Some(false), run;
  }

  /** `_read_version` and `_run_health_checks`, put together. */
  method CheckRound(round: Round, target: string) returns (ok: bool)
    ensures ok <==> Verified(round, target)
  {
    hide Healthy, PolicyPasses;
    var versionOk := round.version == Some(target);
    var doctorOk, results := Evaluate(round.doctor);
    var policy := [Result("realtime policy", PolicyPasses(round.policyCode, round.policy))];
    PassedConcat(results, policy);
    assert AllPassed(policy) == policy[0].passed;
    results := results + policy;
    ok := AllPassed(results);
    ok := ok && versionOk;
  }

  predicate VerifiedSoon(rounds: seq<Option<Round>>, target: string) {
    exists n | 0 <= n < |rounds| :: VerifiedAt(rounds, target, n)
  }

  /** `harmony_latest_version`, `harmony_current_version` and `harmony_update_available`. */
  datatype Tracking = Tracking(latest: string, current: string, available: bool)

  /** The target is a release, newer than the one recorded, and newer than the one installed. */
  predicate Upgradable(t: Tracking, before: string) {
    && Strict(t.latest) && VersionOrder.Gt(t.latest, before)
    && (t.current == "" || VersionOrder.Gt(t.latest, t.current))
  }

  /** All that has to hold before the update is started. */
  predicate Admitted(t: Tracking, a: Answers, skip: bool) {
    && a.resolved && a.before.Some? && a.before.value.Some? && Upgradable(t, a.before.value.value)
    && a.backup.Some? && (skip || (a.protected && a.backup.value == 0))
  }

  /** `run` is the whole run, up to where it stopped: the protection steps, at most one update, and the
      checks after it. */
  ghost predicate Orderly(run: seq<Event>, t: Tracking, a: Answers, skip: bool) {
    if Admitted(t, a, skip) then
      && |run| >= 3 && run[0] == Protected && run[1] == BackedUp(a.backup.value)
      && run[2] == UpdateIssued(t.latest, a.backup.value == 0)
      && |run| - 3 <= |a.rounds| && ChecksOf(run[3..], a.rounds, |run| - 3)
      && (|run| > 3 ==> a.update == Some((0, false)))
    else forall i | 0 <= i < |run| :: run[i].Protected? || run[i].BackedUp?
  }

  /** `run_harmony_upgrade`. The update is issued exactly when it is admitted, and the new version is
      recorded exactly when the update went through and one of the rounds verified it. */
  method Run(t: Tracking, a: Answers, skip: bool) returns (ok: bool, after: Tracking, ghost run: seq<Event>)
    requires |a.rounds| == 3
    ensures Orderly(run, t, a, skip)
    ensures ok <==> Admitted(t, a, skip) && a.update == Some((0, false)) && VerifiedSoon(a.rounds, t.latest)
    ensures after == if ok then Tracking(t.latest, t.latest, false) else t
    ensures ok ==> |run| > 3 && run[|run| - 1].Checked? && Verified(run[|run| - 1].round, t.latest)
  {
    hide Strict, Verified, VerifiedAt, VerifiedSoon, VersionOrder.Gt;
    run, after := [], t;
    if !a.resolved { return false, t, run; }
    if t.latest == "" {
      EmptyNotStrict();
      return false, t, run;
    }
    if !Strict(t.latest) { return false, t, run; }
    if t.current != "" && !VersionOrder.Gt(t.latest, t.current) { return false, t, run; }
    if !(skip || a.protected) { return false, t, run; }
    run := run + [Protected];
    if a.before.None? || a.before.value.None? { return false, t, run; }
    if !VersionOrder.Gt(t.latest, a.before.value.value) { return false, t, run; }
    if a.backup.None? { return false, t, run; }
    run := run + [BackedUp(a.backup.value)];
    var backupOk := a.backup.value == 0;
    if !backupOk && !skip { return false, t, run; }
    run := run + [UpdateIssued(t.latest, backupOk)];
    ghost var before := run;
    if a.update.None? || a.update.value.1 || a.update.value.0 != 0 { return false, t, run; }
    var verified, checks := Verify(a.rounds, t.latest);
    run := before + checks;
    assert run[3..] == checks;
    if verified != Some(true) { return false, t, run; }
    VerifiedLast(a.rounds, t.latest, |checks| - 1);
    assert run[|run| - 1] == checks[|checks| - 1];
    return true, Tracking(t.latest, t.latest, false), run;
  }

  lemma EmptyNotStrict()
    ensures !Strict("")
  {}

  lemma VerifiedLast(rounds: seq<Option<Round>>, target: string, n: nat)
    requires VerifiedAt(rounds, target, n)
    ensures VerifiedSoon(rounds, target) && n < |rounds| && rounds[n].Some? && Verified(rounds[n].value, target)
  {}

  // ---- What the guards mean --------------------------------------------------------------------

  lemma NumberThen(s: string)
    requires VersionOrder.ReadNumber(s).Some?
    ensures s != "" && IsDigit(s[0])
    ensures forall c | c in s :: IsDigit(c) || c in VersionOrder.ReadNumber(s).value.1
  {
    var n := VersionOrder.Digits(s);
    assert s[0] == s[..n][0];
    assert s == s[..n] + s[n..];
  }

  lemma DotThen(s: string)
    requires VersionOrder.ReadDot(s).Some?
    ensures forall c | c in s :: c == '.' || c in VersionOrder.ReadDot(s).value
  {
    assert s == [s[0]] + s[1..];
  }

  /** A strict version is a stable release. */
  lemma StrictParses(s: string)
    requires Strict(s)
    ensures VersionOrder.Parse(s).Some? && VersionOrder.Parse(s).value.pre == None
  {
    hide VersionOrder.ReadNumber, VersionOrder.ReadDot;
    var major := VersionOrder.ReadNumber(s).value;
    var t := VersionOrder.ReadDot(major.1).value;
    var minor := VersionOrder.ReadNumber(t).value;
    var u := VersionOrder.ReadDot(minor.1).value;
    NumberThen(s);
    DotThen(major.1);
    NumberThen(t);
    DotThen(minor.1);
    NumberThen(u);
    forall c | c in s ensures c != '+' {}
    VersionOrder.NoPlus(s);
    assert VersionOrder.WithoutV(s) == s;
    assert VersionOrder.ReadTag("") == Some(None);
  }

  /** Three numbers with dots between them, and nothing else. */
  predicate ThreeNumbers(s: string, a: string, b: string, c: string) {
    VersionOrder.AllDigits(a) && VersionOrder.AllDigits(b) && VersionOrder.AllDigits(c) && s == a + "." + b + "." + c
  }

  /** Exactly these texts are admitted as targets. */
  lemma StrictMeans(s: string)
    ensures Strict(s) <==> exists a, b, c :: ThreeNumbers(s, a, b, c)
  {
    if Strict(s) { StrictGives(s); }
    if a, b, c :| ThreeNumbers(s, a, b, c) { GivesStrict(s, a, b, c); }
  }

  lemma StrictGives(s: string)
    requires Strict(s)
    ensures exists a, b, c :: ThreeNumbers(s, a, b, c)
  {
    hide VersionOrder.ReadNumber, VersionOrder.ReadDot, VersionOrder.AllDigits, VersionOrder.Digits;
    var major := VersionOrder.ReadNumber(s).value.1;
    var t := VersionOrder.ReadDot(major).value;
    var minor := VersionOrder.ReadNumber(t).value.1;
    var u := VersionOrder.ReadDot(minor).value;
    VersionOrder.ReadDigitsBack(s);
    VersionOrder.ReadDotBack(major);
    VersionOrder.ReadDigitsBack(t);
    VersionOrder.ReadDotBack(minor);
    VersionOrder.ReadDigitsBack(u);
    var a, b, c := s[..VersionOrder.Digits(s)], t[..VersionOrder.Digits(t)], u[..VersionOrder.Digits(u)];
    assert s == a + "." + b + "." + c;
    assert ThreeNumbers(s, a, b, c);
  }

  lemma GivesStrict(s: string, a: string, b: string, c: string)
    requires ThreeNumbers(s, a, b, c)
    ensures Strict(s)
  {
    hide VersionOrder.ReadNumber, VersionOrder.AllDigits;
    var u := b + ("." + c);
    assert s == a + ("." + u) && c == c + "";
    VersionOrder.ReadDigits(a, "." + u);
    VersionOrder.ReadDigits(b, "." + c);
    VersionOrder.ReadDigits(c, "");
    assert ("." + u)[1..] == u && ("." + c)[1..] == c;
  }

  /** An admitted update never goes back: the three numbers of the target are above those of the installed
      version, or they are the same and the installed version is a pre-release. */
  lemma NeverBack(t: Tracking, a: Answers, skip: bool)
    requires Admitted(t, a, skip)
    ensures a.before.value.value != t.latest && !VersionOrder.Gt(a.before.value.value, t.latest)
    ensures VersionOrder.Parse(t.latest).Some? && VersionOrder.Parse(a.before.value.value).Some?
    ensures var to, from := VersionOrder.Parse(t.latest).value, VersionOrder.Parse(a.before.value.value).value;
            && to.pre == None
            && if to.major != from.major then to.major > from.major
               else if to.minor != from.minor then to.minor > from.minor
               else if to.patch != from.patch then to.patch > from.patch
               else from.pre.Some?
  {
    hide VersionOrder.Parse, Strict;
    var before := a.before.value.value;
    StrictParses(t.latest);
    VersionOrder.Irreflexive(t.latest);
    if VersionOrder.Gt(before, t.latest) { VersionOrder.Transitive(t.latest, before, t.latest); }
  }
}
