/** `run_mastodon_upgrade` from the SSH sequence onwards. `n` carries what the run changes: the
    guest, `env_swapped`, `stash_pending` and the commands issued. `Sequence` is cut into
    consecutive pieces; `start`, the guest as it was found, is there for the proof. */
module MastodonRun {
  import opened MastodonGuest
  import opened MastodonUpgrade
  import opened MastodonSteps
  import opened MastodonEnv

  function SwapCmds(db: Database): seq<Cmd> { [SedHost(db.host), SedPort(db.port), GrepEnv] }

  /** `now` is `was` and the first commands of a swap to `db`, in order. */
  predicate SwapTried(was: seq<Cmd>, now: seq<Cmd>, db: Database) {
    |was| <= |now| <= |was| + 3 && now == was + SwapCmds(db)[..|now| - |was|]
  }

  function Target(cfg: Config, toDirect: bool): Database { if toDirect then cfg.direct else cfg.pgbouncer }

  /** Runs `cmd` on the guest, which may answer, or raise, in any way `Effect` allows. */
  method Exec(s: Run, cmd: Cmd) returns (r: Try<Reply>, n: Run)
    ensures Stepped(s, cmd, r, n)
  {
    var reply: Reply, next: Guest := *, *;
    if !Effect(cmd, s.guest, reply, next) { reply, next := Raised, s.guest; }
    r := if reply.Raised? then Threw else Got(reply);
    n := s.(guest := next, trace := s.trace + [Event(cmd, reply, s.guest)]);
  }

  method ExecReadOnly(cfg: Config, ghost start: Guest, s: Run, cmd: Cmd) returns (r: Try<Reply>, n: Run)
    requires Valid(cfg, start, s) && MayIssue(cfg, s, cmd) && ReadOnly(cmd)
    ensures Valid(cfg, start, n)
    ensures n == s.(trace := n.trace)
    ensures Issued(n.trace) == Issued(s.trace) + [cmd]
    ensures r.Got? ==> r.value.Done? && (NothingStopped(n.trace) <==> NothingStopped(s.trace) && (r.value.ok || !Gating(cmd)))
    ensures r.Threw? ==> !NothingStopped(n.trace)
    ensures !cmd.Connect? ==> (PopsWorked(n.trace) <==> PopsWorked(s.trace))
    ensures cmd.Connect? && r.Threw? ==> !PopsWorked(n.trace) && !UndoWorked(n.trace)
    ensures CheckedOut(n.trace) == CheckedOut(s.trace)
    ensures Effect(cmd, s.guest, Answer(r), s.guest) && n.trace == s.trace + [Event(cmd, Answer(r), s.guest)]
  {
    hide Valid, NothingStopped, MayIssue, Issued, Effect, PopsWorked, CheckedOut;
    r, n := Exec(s, cmd);
    ReadOnlyStep(cfg, start, s, cmd, r, n);
  }

  method ExecSwap(cfg: Config, ghost start: Guest, s: Run, cmd: Cmd) returns (r: Try<Reply>, n: Run)
    requires ValidButEnv(cfg, start, s) && MayIssue(cfg, s, cmd) && IsSwap(cmd)
    ensures ValidButEnv(cfg, start, n)
    ensures n == s.(guest := s.guest.(env := n.guest.env), trace := n.trace)
    ensures Issued(n.trace) == Issued(s.trace) + [cmd]
    ensures r.Got? ==> r.value.Done?
    ensures UndoWorked(n.trace) <==> UndoWorked(s.trace) && r.Got? && r.value.ok
    ensures NothingStopped(n.trace) <==> NothingStopped(s.trace) && r.Got? && r.value.ok
    ensures n.trace == s.trace + [Event(cmd, Answer(r), s.guest)]
    ensures !(r.Got? && r.value.ok) ==> n.guest.env == s.guest.env
    ensures r.Got? && r.value.ok ==>
              match cmd
              case SedHost(h) => n.guest.env == SetHost(s.guest.env, h)
              case SedPort(p) => n.guest.env == SetPort(s.guest.env, p) && '\n' !in p
              case _ => n.guest.env == s.guest.env && r.value.shown == Grep(s.guest.env)
  {
    hide ValidButEnv, NothingStopped, UndoWorked, MayIssue, Issued;
    r, n := Exec(s, cmd);
    SwapStep(cfg, start, s, cmd, r, n);
  }

  /** The two `sed` commands of `_swap_env_db`; true when both exit with 0. */
  method SubstituteDb(cfg: Config, ghost start: Guest, s: Run, db: Database) returns (r: Try<bool>, n: Run)
    requires ValidButEnv(cfg, start, s) && (NothingStopped(s.trace) || db == cfg.pgbouncer)
    ensures ValidButEnv(cfg, start, n)
    ensures n == s.(guest := s.guest.(env := n.guest.env), trace := n.trace)
    ensures s.trace <= n.trace
    ensures UndoWorked(n.trace) <==> UndoWorked(s.trace) && r == Got(true)
    ensures NothingStopped(n.trace) <==> NothingStopped(s.trace) && r == Got(true)
    ensures r == Got(true) ==>
              && n.guest.env == Swapped(s.guest.env, db) && '\n' !in db.port
              && Issued(n.trace) == Issued(s.trace) + [SedHost(db.host), SedPort(db.port)]
    ensures SwapTried(Issued(s.trace), Issued(n.trace), db)
    ensures |n.trace| > |s.trace| && n.trace[|s.trace|].cmd == SedHost(db.host)
    ensures r != Got(true) ==>
              n.guest.env == if Succeeded(n.trace[|s.trace|]) then SetHost(s.guest.env, db.host) else s.guest.env
    ensures r != Got(true) ==>
              (n.guest.env != s.guest.env <==> Succeeded(n.trace[|s.trace|]) && !HostsAre(s.guest.env, db.host))
  {
    hide ValidButEnv, NothingStopped, UndoWorked, Issued, SetHost, SetPort, HostsAre;
    SetHostChanges(s.guest.env, db.host);
    n := s;
    var host; host, n :- ExecSwap(cfg, start, n, SedHost(db.host));
    if !host.ok { return Got(false), n; }
    ghost var first := n.trace[|s.trace|];
    var port; port, n :- ExecSwap(cfg, start, n, SedPort(db.port));
    assert n.trace[|s.trace|] == first;
    assert Issued(n.trace) == Issued(s.trace) + [SedHost(db.host), SedPort(db.port)];
    return Got(port.ok), n;
  }

  /** `_swap_env_db`. */
  method SwapEnvDb(cfg: Config, ghost start: Guest, s: Run, toDirect: bool) returns (r: Try<bool>, n: Run)
    requires Valid(cfg, start, s) && (NothingStopped(s.trace) || !toDirect)
    ensures n == s.(guest := s.guest.(env := n.guest.env), trace := n.trace) && s.trace <= n.trace
    ensures r != Got(true) ==> Valid(cfg, start, n)
    ensures r == Got(true) ==>
              && Valid(cfg, start, n.(envSwapped := toDirect))
              && OnDb(n.guest.env, Target(cfg, toDirect))
              && Issued(n.trace) == Issued(s.trace) + SwapCmds(Target(cfg, toDirect))
              && (NothingStopped(s.trace) ==> NothingStopped(n.trace))
    ensures r == Got(true) ==> DatabaseOk(Target(cfg, toDirect)) && HasBoth(s.guest.env)
    ensures NothingStopped(n.trace) && DatabaseOk(Target(cfg, toDirect)) ==> r == Got(HasBoth(s.guest.env))
    ensures !NothingStopped(s.trace) ==> !NothingStopped(n.trace)
    ensures SwapTried(Issued(s.trace), Issued(n.trace), Target(cfg, toDirect))
    ensures UndoWorked(n.trace) && DatabaseOk(Target(cfg, toDirect)) ==> r == Got(HasBoth(s.guest.env))
  {
    hide ValidButEnv, NothingStopped, UndoWorked, Issued, OnDb, HasBoth, Shows, HostAccepted, PortAccepted, Digits, Swapped, Effect, Grep;
    n := s;
    var db := Target(cfg, toDirect);
    if !HostAccepted(db.host) { return Threw, n; }
    if !PortAccepted(db.port) {
      DigitsAccepted(db.port);
      return Got(false), n;
    }
    StartHasBoth(cfg, start, s);
    var ok; ok, n :- SubstituteDb(cfg, start, n, db);
    if !ok { return Got(false), n; }
    PortHasNoBreak(db.port);
    SwapOutcome(s.guest.env, db);
    var back; back, n :- ExecSwap(cfg, start, n, GrepEnv);
    if !back.ok { return Got(false), n; }
    assert Issued(n.trace) == Issued(s.trace) + SwapCmds(db);
    SetSwapped(cfg, start, n, toDirect);
    return Got(Shows(back.shown, db)), n;
  }

  /** `_restore_env`. */
  method RestoreEnv(cfg: Config, ghost start: Guest, s: Run) returns (r: Try<bool>, n: Run)
    requires Valid(cfg, start, s)
    ensures Valid(cfg, start, n)
    ensures n == s.(guest := s.guest.(env := n.guest.env), trace := n.trace, envSwapped := n.envSwapped)
    ensures s.trace <= n.trace
    ensures r == Got(true) ==>
              && !n.envSwapped && OnDb(n.guest.env, cfg.pgbouncer)
              && Issued(n.trace) == Issued(s.trace) + SwapCmds(cfg.pgbouncer)
              && (NothingStopped(s.trace) ==> NothingStopped(n.trace))
    ensures r == Got(true) ==> DatabaseOk(cfg.pgbouncer)
    ensures NothingStopped(n.trace) && DatabaseOk(cfg.pgbouncer) && HasBoth(start.env) ==> r == Got(true)
    ensures !NothingStopped(s.trace) ==> !NothingStopped(n.trace)
    ensures SwapTried(Issued(s.trace), Issued(n.trace), cfg.pgbouncer)
    ensures UndoWorked(n.trace) && Usable(cfg) && HasBoth(start.env) ==> r == Got(true)
  {
    hide Valid, NothingStopped, UndoWorked, Issued, OnDb, HasBoth;
    ValidHasBoth(cfg, start, s);
    var ok;
    ok, n :- SwapEnvDb(cfg, start, s, false);
    if ok { n := n.(envSwapped := false); }
    return Got(ok), n;
  }

  /** `_git_stash_pop`; `_abort` calls it and then clears `stash_pending`, whatever came of it. */
  method PopOwed(cfg: Config, ghost start: Guest, s: Run) returns (r: Try<bool>, n: Run)
    requires Valid(cfg, start, s) && s.stashPending
    ensures r.Got? ==> Valid(cfg, start, n.(stashPending := false))
    ensures r != Got(true) ==> Valid(cfg, start, n) && !PopsWorked(n.trace)
    ensures r.Threw? ==> !UndoWorked(n.trace)
    ensures r.Threw? ==> !NothingStopped(n.trace)
    ensures n.stashPending && n.envSwapped == s.envSwapped && n.guest.env == s.guest.env
    ensures r.Got? ==> (NothingStopped(n.trace) <==> NothingStopped(s.trace))
    ensures |n.trace| == |s.trace| + 1 && (r == Got(true) <==> Succeeded(n.trace[|s.trace|]))
    ensures Issued(n.trace) == Issued(s.trace) + [StashPop]
    ensures r == Got(false) && s.guest.local == map[] && s.guest.unmerged == map[] ==>
              n.guest.unmerged == map[] || Conflicted(start.local, n.guest)
    ensures s.trace <= n.trace
  {
    hide Valid, NothingStopped, UndoWorked, PopsWorked, Issued, Effect, Conflicted;
    var q;
    q, n := Exec(s, StashPop);
    PopTheStash(cfg, start, s, q, n);
    r := if q.Threw? then Threw else Got(q.value.ok);
  }

  /** `_abort`: the failure value, after undoing the stash and the swap. */
  method Abort(cfg: Config, ghost start: Guest, s: Run, restoreEnv: bool) returns (r: Try<bool>, n: Run)
    requires Valid(cfg, start, s)
    ensures Valid(cfg, start, n) && r != Got(true) && s.trace <= n.trace
    ensures r.Got? ==> !n.stashPending
    ensures !NothingStopped(s.trace) ==> !NothingStopped(n.trace)
    ensures n.stashPending ==> !PopsWorked(n.trace)
    ensures !s.stashPending ==> !n.stashPending
    ensures !(restoreEnv && s.envSwapped) ==>
              n.guest.env == s.guest.env && Issued(n.trace) == Issued(s.trace) + if s.stashPending then [StashPop] else []
    ensures UndoWorked(n.trace) && Usable(cfg) && HasBoth(start.env) && (restoreEnv || !s.envSwapped) ==>
              r == Got(false) && !n.envSwapped && !n.stashPending
  {
    hide Valid, NothingStopped, UndoWorked, PopsWorked, Issued, Conflicted, HasBoth;
    n := s;
    if n.stashPending {
      var popped; popped, n :- PopOwed(cfg, start, n);
      n := n.(stashPending := false);
    }
    if restoreEnv && n.envSwapped {
      var restored; restored, n :- RestoreEnv(cfg, start, n);
    }
    return Got(false), n;
  }

  method ExecTree(cfg: Config, ghost start: Guest, s: Run, cmd: Cmd) returns (r: Try<Reply>, n: Run)
    requires Valid(cfg, start, s) && MayIssue(cfg, s, cmd)
    requires cmd.GitPull? || (s.stashPending && (cmd.CheckoutTheirs? || cmd.GitAdd?))
    ensures Valid(cfg, start, n) && Stepped(s, cmd, r, n) && s.trace <= n.trace
    ensures n == s.(guest := s.guest.(local := n.guest.local, unmerged := n.guest.unmerged), trace := n.trace)
    ensures cmd.GitPull? ==> n.guest.local == s.guest.local
    ensures Issued(n.trace) == Issued(s.trace) + [cmd]
    ensures PopsWorked(n.trace) <==> PopsWorked(s.trace)
    ensures Missed(n.trace) <==> Missed(s.trace) || MissesFile(Event(cmd, Answer(r), s.guest))
    ensures r.Got? ==> (NothingStopped(n.trace) <==> NothingStopped(s.trace) && (r.value.ok || !Gating(cmd)))
    ensures r.Threw? ==> !NothingStopped(n.trace)
    ensures CheckedOut(n.trace) == CheckedOut(s.trace) + if cmd.CheckoutTheirs? && r.Got? && r.value.ok then {cmd.file} else {}
  {
    hide Valid, NothingStopped, PopsWorked, MayIssue, Missed, CheckedOut, Effect;
    r, n := Exec(s, cmd);
    TreeStep(cfg, start, s, cmd, r, n);
    MishapGrows(s.trace, Event(cmd, Answer(r), s.guest), n.trace);
  }

  method ExecDrop(cfg: Config, ghost start: Guest, s: Run) returns (r: Try<Reply>, n: Run)
    requires Valid(cfg, start, s) && MayIssue(cfg, s, StashDrop)
    requires s.stashPending && !PopsWorked(s.trace)
    requires Within(start.local, s.guest.local) || Missed(s.trace)
    ensures r.Threw? ==> Valid(cfg, start, n)
    ensures r.Got? ==> Valid(cfg, start, n.(stashPending := false))
    ensures r.Got? ==> (NothingStopped(n.trace) <==> NothingStopped(s.trace))
    ensures r.Threw? ==> !NothingStopped(n.trace)
    ensures n == s.(guest := s.guest.(stash := n.guest.stash), trace := n.trace) && s.trace <= n.trace
    ensures Issued(n.trace) == Issued(s.trace) + [StashDrop]
    ensures CheckedOut(n.trace) == CheckedOut(s.trace)
  {
    hide Valid, NothingStopped, PopsWorked, MayIssue, Missed, CheckedOut, Effect, Within;
    r, n := Exec(s, StashDrop);
    DropStep(cfg, start, s, r, n);
    MishapGrows(s.trace, Event(StashDrop, Answer(r), s.guest), n.trace);
  }

  /** One round of the loop in `_resolve_stash_conflicts`. */
  method ResolveOne(cfg: Config, ghost start: Guest, s: Run, f: string, ghost u: set<string>, ghost todo: set<string>)
    returns (r: Try<()>, n: Run)
    requires Valid(cfg, start, s) && s.stashPending && !PopsWorked(s.trace) && NothingStopped(s.trace)
    requires Resolving(start.local, u, s.guest, CheckedOut(s.trace), todo + {f}) && f !in todo
    ensures Valid(cfg, start, n) && !PopsWorked(n.trace) && s.trace <= n.trace
    ensures n == s.(guest := s.guest.(local := n.guest.local, unmerged := n.guest.unmerged), trace := n.trace)
    ensures r.Got? ==>
              && NothingStopped(n.trace)
              && Resolving(start.local, u, n.guest, CheckedOut(n.trace), todo)
              && (f in CheckedOut(n.trace) || Missed(n.trace))
              && Issued(n.trace) == Issued(s.trace) + [CheckoutTheirs(f), GitAdd(f)]
    ensures r.Threw? ==> !NothingStopped(n.trace)
    ensures CheckedOut(s.trace) <= CheckedOut(n.trace) && (Missed(s.trace) ==> Missed(n.trace))
  {
    hide Valid, NothingStopped, PopsWorked, Issued, Missed, CheckedOut, Resolving, Effect;
    n := s;
    var theirs; theirs, n :- ExecTree(cfg, start, n, CheckoutTheirs(f));
    ghost var between := n;
    var added; added, n :- ExecTree(cfg, start, n, GitAdd(f));
    ResolveFile(start.local, u, CheckedOut(s.trace), todo, s, f, Got(theirs), between, Got(added), n);
    assert CheckedOut(n.trace) == CheckedOut(s.trace) + if theirs.ok then {f} else {};
    return Got(()), n;
  }

  function FileCmds(names: seq<string>): seq<Cmd> {
    if names == [] then []
    else FileCmds(names[..|names| - 1]) + [CheckoutTheirs(names[|names| - 1]), GitAdd(names[|names| - 1])]
  }

  function From(names: seq<string>, i: nat): set<string> { set k | i <= k < |names| :: names[k] }

  lemma FromStep(names: seq<string>, i: nat)
    requires i < |names| && forall a, b | 0 <= a < b < |names| :: names[a] != names[b]
    ensures From(names, i) == From(names, i + 1) + {names[i]} && names[i] !in From(names, i + 1)
    ensures FileCmds(names[..i + 1]) == FileCmds(names[..i]) + [CheckoutTheirs(names[i]), GitAdd(names[i])]
  {
    assert names[..i + 1][..i] == names[..i];
  }

  method CheckOutAll(cfg: Config, ghost start: Guest, s: Run, names: seq<string>, ghost u: set<string>)
    returns (r: Try<()>, n: Run)
    requires Valid(cfg, start, s) && s.stashPending && !PopsWorked(s.trace) && NothingStopped(s.trace)
    requires forall a, b | 0 <= a < b < |names| :: names[a] != names[b]
    requires Resolving(start.local, u, s.guest, CheckedOut(s.trace), From(names, 0))
    ensures Valid(cfg, start, n) && !PopsWorked(n.trace) && s.trace <= n.trace
    ensures n == s.(guest := s.guest.(local := n.guest.local, unmerged := n.guest.unmerged), trace := n.trace)
    ensures r.Got? ==>
              && NothingStopped(n.trace)
              && Resolving(start.local, u, n.guest, CheckedOut(n.trace), {})
              && (forall f | f in names :: f in CheckedOut(n.trace) || Missed(n.trace))
              && Issued(n.trace) == Issued(s.trace) + FileCmds(names)
    ensures r.Threw? ==> !NothingStopped(n.trace)
  {
    hide Valid, NothingStopped, PopsWorked, Issued, Missed, CheckedOut, Resolving, From, FileCmds;
    n := s;
    NoneLeft(names);
    for i := 0 to |names|
      invariant Valid(cfg, start, n) && NothingStopped(n.trace) && !PopsWorked(n.trace) && s.trace <= n.trace
      invariant n == s.(guest := s.guest.(local := n.guest.local, unmerged := n.guest.unmerged), trace := n.trace)
      invariant Resolving(start.local, u, n.guest, CheckedOut(n.trace), From(names, i))
      invariant forall f | f in names[..i] :: f in CheckedOut(n.trace) || Missed(n.trace)
      invariant Issued(n.trace) == Issued(s.trace) + FileCmds(names[..i])
    {
      FromStep(names, i);
      var done; done, n :- ResolveOne(cfg, start, n, names[i], u, From(names, i + 1));
      assert names[..i + 1] == names[..i] + [names[i]];
    }
    assert names[..|names|] == names;
    return Got(()), n;
  }

  lemma NoneLeft(names: seq<string>)
    ensures From(names, |names|) == {} && FileCmds(names[..0]) == []
  {}

  /** `_resolve_stash_conflicts`. Once it answers true, the local changes are still there exactly
      when the entry was not dropped or each conflicted file was checked out. */
  method ResolveStashConflicts(cfg: Config, ghost start: Guest, s: Run) returns (r: Try<bool>, n: Run, names: seq<string>)
    requires Valid(cfg, start, s) && s.stashPending && !PopsWorked(s.trace) && NothingStopped(s.trace)
    requires s.guest.unmerged == map[] || Conflicted(start.local, s.guest)
    requires CheckedOut(s.trace) == {}
    ensures r != Got(true) ==> Valid(cfg, start, n)
    ensures r == Got(true) ==>
              && Valid(cfg, start, n.(stashPending := false))
              && (ChangesKept(start, n.guest) <==>
                    EntryOnTop(start, n.guest) || s.guest.unmerged.Keys <= CheckedOut(n.trace))
    ensures r.Got? ==> NothingStopped(n.trace)
    ensures r.Threw? ==> !NothingStopped(n.trace)
    ensures r.Got? ==>
              && |n.trace| > |s.trace| && n.trace[|s.trace|].cmd == DiffUnmerged && n.trace[|s.trace|].before == s.guest
              && (r.value <==> Listed(s.guest, n.trace, |s.trace|))
    ensures n.stashPending && n.envSwapped == s.envSwapped && n.guest.env == s.guest.env && s.trace <= n.trace
    ensures r == Got(false) ==> Issued(n.trace) == Issued(s.trace) + [DiffUnmerged]
    ensures r == Got(true) ==>
              Issued(n.trace) == Issued(s.trace) + ([DiffUnmerged] + FileCmds(names) + [StashDrop])
  {
    hide Valid, NothingStopped, PopsWorked, Issued, Missed, CheckedOut, Conflicted, Resolving, AnyName, Effect,
      Within, Names, From, FileCmds;
    names := [];
    var list; list, n :- ExecReadOnly(cfg, start, s, DiffUnmerged);
    ListingNames(s.guest, list);
    if !AnyName(list.out) { return Got(false), n, names; }
    names := Names(list.out);
    ResolveStarts(start.local, s.guest, list, From(names, 0));
    ghost var e, at := Event(DiffUnmerged, list, s.guest), |s.trace|;
    assert n.trace[at] == e;
    var all; all, n :- CheckOutAll(cfg, start, n, names, s.guest.unmerged.Keys);
    assert n.trace[at] == e;
    ResolveEnds(start.local, s.guest, list, n, CheckedOut(n.trace));
    var dropped; dropped, n :- ExecDrop(cfg, start, n);
    assert n.trace[at] == e;
    return Got(true), n, names;
  }

  /** How the owed `git stash pop` after the pull went. */
  datatype PopCase = NothingOwed | Popped | Unresolved | Resolved(names: seq<string>)

  function PopCmds(p: PopCase): seq<Cmd> {
    match p
    case NothingOwed => []
    case Popped => [StashPop]
    case Unresolved => [StashPop] + [DiffUnmerged]
    case Resolved(names) => [StashPop] + ([DiffUnmerged] + FileCmds(names) + [StashDrop])
  }

  /** The pop is the command at `i`. If it worked, nothing more is done about it; if not, the conflicts are
      listed, and resolved if there are some. */
  predicate PopWent(p: PopCase, t: seq<Event>, i: nat) {
    && i < |t|
    && match p
       case NothingOwed => false
       case Popped => Succeeded(t[i])
       case Unresolved => !Succeeded(t[i]) && i + 1 < |t| && !Listed(t[i + 1].before, t, i + 1)
       case Resolved(_) => !Succeeded(t[i]) && i + 1 < |t| && Listed(t[i + 1].before, t, i + 1)
  }

  lemma PopWentStays(p: PopCase, t: seq<Event>, n: seq<Event>, i: nat)
    requires PopWent(p, t, i) && t <= n
    ensures PopWent(p, n, i)
  {}

  function PrepareCmds(cfg: Config): seq<Cmd> { [Connect, DiffUnmerged, GitStash] + SwapCmds(cfg.direct) }

  const BUILD_CMDS := [Remediate, BundleInstall, YarnInstall, Migrate(false), Precompile]

  function MiddleCmds(cfg: Config): seq<Cmd> { SwapCmds(cfg.pgbouncer) + [RestartServices, CacheClear] }

  function FinishCmds(cfg: Config): seq<Cmd> {
    SwapCmds(cfg.direct) + [Migrate(true)] + SwapCmds(cfg.pgbouncer) + [RestartServices, ReadVersion]
  }

  /** The commands of a successful run, in order. */
  function PlanCmds(cfg: Config, p: PopCase): seq<Cmd> {
    PrepareCmds(cfg) + [GitPull] + PopCmds(p) + BUILD_CMDS + MiddleCmds(cfg) + FinishCmds(cfg)
  }

  /** The plan in full, when the stash is empty; the conflict cases are in `PopCmds`. */
  lemma PlanMeans(cfg: Config)
    ensures PlanCmds(cfg, NothingOwed) ==
              [Connect, DiffUnmerged, GitStash, SedHost(cfg.direct.host), SedPort(cfg.direct.port), GrepEnv,
               GitPull, Remediate, BundleInstall, YarnInstall, Migrate(false), Precompile,
               SedHost(cfg.pgbouncer.host), SedPort(cfg.pgbouncer.port), GrepEnv, RestartServices, CacheClear,
               SedHost(cfg.direct.host), SedPort(cfg.direct.port), GrepEnv, Migrate(true),
               SedHost(cfg.pgbouncer.host), SedPort(cfg.pgbouncer.port), GrepEnv, RestartServices, ReadVersion]
    ensures PopCmds(Popped) == [StashPop] && PopCmds(Unresolved) == [StashPop, DiffUnmerged]
    ensures forall f :: PopCmds(Resolved([f])) == [StashPop, DiffUnmerged, CheckoutTheirs(f), GitAdd(f), StashDrop]
  {
    forall f ensures FileCmds([f]) == [CheckoutTheirs(f), GitAdd(f)] { assert [f][..0] == []; }
  }

  lemma NoCheckouts(t: seq<Event>)
    requires forall c | c in Issued(t) :: !c.CheckoutTheirs?
    ensures CheckedOut(t) == {}
  {
    forall e | e in t ensures !e.cmd.CheckoutTheirs? {
      var i :| 0 <= i < |t| && t[i] == e;
      assert Issued(t)[i] == e.cmd;
    }
  }

  lemma PoppedNoCheckouts(cfg: Config, t: seq<Event>)
    requires Issued(t) == PrepareCmds(cfg) + [GitPull] + [StashPop]
    ensures CheckedOut(t) == {}
  {
    hide CheckedOut, Issued;
    NoCheckouts(t);
  }

  lemma ListedStays(g: Guest, t: seq<Event>, n: seq<Event>, i: nat)
    requires i < |t| && t <= n
    ensures Listed(g, n, i) <==> Listed(g, t, i)
  {}

  lemma PopsStayFailed(t: seq<Event>, n: seq<Event>)
    requires t <= n && !PopsWorked(t)
    ensures !PopsWorked(n)
  {
    var e :| e in t && !PopStep(e);
    assert e in n;
  }

  lemma UndoStaysFailed(t: seq<Event>, n: seq<Event>)
    requires t <= n && !UndoWorked(t)
    ensures !UndoWorked(n)
  {
    var e :| e in t && !UndoStep(e);
    assert e in n;
  }

  method ExecStash(cfg: Config, ghost start: Guest, s: Run) returns (r: Try<Reply>, n: Run)
    requires Valid(cfg, start, s) && NothingStopped(s.trace) && s.guest == start && !s.stashPending
    ensures r.Got? ==> r.value.Done?
    ensures r.Threw? || !r.value.ok ==> Valid(cfg, start, n)
    ensures r.Got? && r.value.ok ==>
              && Valid(cfg, start, n.(stashPending := Stashed(r.value.out)))
              && n.guest.unmerged == map[] && n.guest.local == map[] && NothingStopped(n.trace)
    ensures s.trace <= n.trace
    ensures r.Got? && r.value.ok ==> (Stashed(r.value.out) <==> start.local != map[])
    ensures NothingStopped(n.trace) <==> r.Got? && r.value.ok
    ensures Issued(n.trace) == Issued(s.trace) + [GitStash]
    ensures n.guest.env == s.guest.env && n.envSwapped == s.envSwapped && n.stashPending == s.stashPending
  {
    hide Valid, NothingStopped, Issued, Effect;
    r, n := Exec(s, GitStash);
    StashStep(cfg, start, s, r, n);
  }

  /** The upgrade goes on, with the file on the direct database. */
  predicate OnDirect(cfg: Config, start: Guest, s: Run) {
    Valid(cfg, start, s) && NothingStopped(s.trace) && s.envSwapped && OnDb(s.guest.env, cfg.direct)
  }

  /** What is left when the upgrade has returned False. */
  predicate Undone(cfg: Config, start: Guest, s: Run) {
    && Valid(cfg, start, s) && !s.stashPending
    && (UndoWorked(s.trace) && Usable(cfg) && HasBoth(start.env) ==> !s.envSwapped)
  }

  /** From the check for unmerged files to the first swap. */
  method Prepare(cfg: Config, ghost start: Guest, s: Run) returns (r: Try<bool>, n: Run)
    requires Valid(cfg, start, s) && NothingStopped(s.trace) && s.guest == start && !s.stashPending && !s.envSwapped
    ensures Valid(cfg, start, n)
    ensures s.trace <= n.trace && |n.trace| > |s.trace|
    ensures r == Got(true) ==> (n.stashPending <==> start.local != map[])
    ensures r == Got(true) ==> DatabaseOk(cfg.direct) && HasBoth(start.env) && !Listed(start, n.trace, |s.trace|)
    ensures NothingStopped(n.trace) && DatabaseOk(cfg.direct) && HasBoth(start.env) ==>
              r == Got(!Listed(start, n.trace, |s.trace|))
    ensures r == Got(false) ==> Undone(cfg, start, n)
    ensures r == Got(true) ==>
              && OnDirect(cfg, start, n) && n.guest.local == map[] && n.guest.unmerged == map[]
              && Issued(n.trace) == Issued(s.trace) + ([DiffUnmerged, GitStash] + SwapCmds(cfg.direct))
  {
    hide Valid, NothingStopped, Issued, Effect, OnDb, UndoWorked, HasBoth, PopsWorked, CheckedOut, AnyName;
    n := s;
    var list; list, n :- ExecReadOnly(cfg, start, n, DiffUnmerged);
    ListingNames(start, list);
    ghost var e, at := Event(DiffUnmerged, list, start), |s.trace|;
    assert n.trace[at] == e;
    if AnyName(list.out) { return Got(false), n; }
    var stash; stash, n :- ExecStash(cfg, start, n);
    if !stash.ok { return Got(false), n; }
    n := n.(stashPending := Stashed(stash.out));
    assert n.trace[at] == e;
    var ok; ok, n :- SwapEnvDb(cfg, start, n, true);
    if !ok {
      r, n := Abort(cfg, start, n, false);
      return;
    }
    assert n.trace[at] == e;
    n := n.(envSwapped := true);
    assert Issued(n.trace) == Issued(s.trace) + ([DiffUnmerged, GitStash] + SwapCmds(cfg.direct));
    return Got(true), n;
  }

  /** The owed `git stash pop` after the pull, with its conflict resolution. */
  method PopPulled(cfg: Config, ghost start: Guest, s: Run) returns (r: Try<bool>, n: Run, p: PopCase)
    requires OnDirect(cfg, start, s) && s.stashPending && s.guest.local == map[] && s.guest.unmerged == map[]
    requires Issued(s.trace) == PrepareCmds(cfg) + [GitPull]
    ensures Valid(cfg, start, n) && r != Got(false)
    ensures s.trace <= n.trace
    ensures r == Got(true) ==> PopWent(p, n.trace, |s.trace|)
    ensures NothingStopped(n.trace) ==> r == Got(true)
    ensures r == Got(true) ==>
              && OnDirect(cfg, start, n) && (n.stashPending ==> !PopsWorked(n.trace))
              && Issued(n.trace) == Issued(s.trace) + PopCmds(p)
  {
    hide Valid, NothingStopped, Issued, Effect, OnDb, UndoWorked, HasBoth, PopsWorked, CheckedOut, Missed, FileCmds, Conflicted, PrepareCmds, Listed, Succeeded;
    p := Popped;
    var popped; popped, n :- PopOwed(cfg, start, s);
    ghost var pop, at := n.trace[|s.trace|], |s.trace|;
    n := n.(stashPending := !popped);
    if !popped {
      PoppedNoCheckouts(cfg, n.trace);
      ghost var t := n.trace;
      var resolved, names; resolved, n, names :- ResolveStashConflicts(cfg, start, n);
      assert n.trace[at] == pop;
      if resolved {
        n := n.(stashPending := false);
        p := Resolved(names);
      } else {
        p := Unresolved;
        PopsStayFailed(t, n.trace);
      }
    }
    return Got(true), n, p;
  }

  /** `git pull`, then the owed `git stash pop`. */
  method PullAndPop(cfg: Config, ghost start: Guest, s: Run) returns (r: Try<bool>, n: Run, p: PopCase)
    requires OnDirect(cfg, start, s) && s.guest.local == map[] && s.guest.unmerged == map[]
    requires Issued(s.trace) == PrepareCmds(cfg)
    ensures Valid(cfg, start, n)
    ensures r == Got(false) ==> Undone(cfg, start, n)
    ensures s.trace <= n.trace
    ensures r == Got(true) ==> if s.stashPending then PopWent(p, n.trace, |s.trace| + 1) else p == NothingOwed
    ensures NothingStopped(n.trace) ==> r == Got(true)
    ensures r == Got(true) ==>
              && OnDirect(cfg, start, n) && (n.stashPending ==> !PopsWorked(n.trace))
              && Issued(n.trace) == Issued(s.trace) + ([GitPull] + PopCmds(p))
  {
    hide Valid, NothingStopped, Issued, Effect, OnDb, UndoWorked, HasBoth, PopsWorked, CheckedOut, Missed, PopCmds, Conflicted, PrepareCmds, PopWent;
    n, p := s, NothingOwed;
    var pull; pull, n :- ExecTree(cfg, start, n, GitPull);
    if !pull.ok {
      r, n := Abort(cfg, start, n, true);
      return;
    }
    NothingPopped();
    if n.stashPending {
      PulledClean(s, Got(pull), n);
      var done; done, n, p :- PopPulled(cfg, start, n);
    }
    assert Issued(n.trace) == Issued(s.trace) + ([GitPull] + PopCmds(p));
    return Got(true), n, p;
  }

  lemma NothingPopped()
    ensures PopCmds(NothingOwed) == []
  {}

  /** A command whose failure ends the upgrade through `_abort`. */
  method Gate(cfg: Config, ghost start: Guest, s: Run, cmd: Cmd) returns (r: Try<bool>, n: Run)
    requires OnDirect(cfg, start, s) && ReadOnly(cmd) && Gating(cmd)
    ensures Valid(cfg, start, n) && s.trace <= n.trace
    ensures r == Got(false) ==> Undone(cfg, start, n)
    ensures NothingStopped(n.trace) ==> r == Got(true)
    ensures r == Got(true) ==>
              OnDirect(cfg, start, n) && n == s.(trace := n.trace) && Issued(n.trace) == Issued(s.trace) + [cmd]
  {
    hide Valid, NothingStopped, Issued, Effect, OnDb, UndoWorked, HasBoth, PopsWorked, CheckedOut;
    var done; done, n :- ExecReadOnly(cfg, start, s, cmd);
    if !done.ok {
      r, n := Abort(cfg, start, n, true);
      return;
    }
    return Got(true), n;
  }

  /** From the runtime versions to asset precompilation. */
  method Build(cfg: Config, ghost start: Guest, s: Run) returns (r: Try<bool>, n: Run)
    requires OnDirect(cfg, start, s)
    ensures Valid(cfg, start, n) && s.trace <= n.trace
    ensures r == Got(false) ==> Undone(cfg, start, n)
    ensures NothingStopped(n.trace) ==> r == Got(true)
    ensures r == Got(true) ==>
              OnDirect(cfg, start, n) && n == s.(trace := n.trace) && Issued(n.trace) == Issued(s.trace) + [Remediate, BundleInstall, YarnInstall, Migrate(false), Precompile]
  {
    hide OnDirect, Undone, Valid, Issued;
    n := s;
    for i := 0 to |BUILD_CMDS|
      invariant OnDirect(cfg, start, n) && n == s.(trace := n.trace) && s.trace <= n.trace
      invariant Issued(n.trace) == Issued(s.trace) + BUILD_CMDS[..i]
    {
      OnDirectIsValid(cfg, start, n);
      var ok; ok, n :- Gate(cfg, start, n, BUILD_CMDS[i]);
      if !ok { return Got(false), n; }
    }
    OnDirectIsValid(cfg, start, n);
    return Got(true), n;
  }

  lemma OnDirectIsValid(cfg: Config, start: Guest, s: Run)
    requires OnDirect(cfg, start, s)
    ensures Valid(cfg, start, s)
  {}

  /** `_restore_env`, or the end of the upgrade. */
  method RestoreOrAbort(cfg: Config, ghost start: Guest, s: Run) returns (r: Try<bool>, n: Run)
    requires OnDirect(cfg, start, s)
    ensures Valid(cfg, start, n) && s.trace <= n.trace
    ensures r != Got(true) ==>
              exists t :: SwapTried(Issued(s.trace), t, cfg.pgbouncer) && (Issued(n.trace) == t || Issued(n.trace) == t + [StashPop])
    ensures r == Got(false) ==> Undone(cfg, start, n)
    ensures r == Got(true) ==> DatabaseOk(cfg.pgbouncer)
    ensures NothingStopped(n.trace) && DatabaseOk(cfg.pgbouncer) && HasBoth(start.env) ==> r == Got(true)
    ensures r == Got(true) ==>
              && NothingStopped(n.trace) && !n.envSwapped && OnDb(n.guest.env, cfg.pgbouncer)
              && Issued(n.trace) == Issued(s.trace) + SwapCmds(cfg.pgbouncer)
              && n.stashPending == s.stashPending
  {
    hide Valid, NothingStopped, Issued, OnDb, UndoWorked, HasBoth, PopsWorked;
    var restored; restored, n :- RestoreEnv(cfg, start, s);
    if !restored {
      ghost var t := n.trace;
      r, n := Abort(cfg, start, n, false);
      if !UndoWorked(t) { UndoStaysFailed(t, n.trace); }
      return;
    }
    return Got(true), n;
  }

  /** The first restart, on PGBouncer, and the swap back for the second migration. */
  method Middle(cfg: Config, ghost start: Guest, s: Run) returns (r: Try<bool>, n: Run)
    requires OnDirect(cfg, start, s)
    ensures Valid(cfg, start, n) && s.trace <= n.trace
    ensures r == Got(false) ==> Undone(cfg, start, n)
    ensures NothingStopped(n.trace) && Usable(cfg) && HasBoth(start.env) ==> r == Got(true)
    ensures r == Got(true) ==>
              && OnDirect(cfg, start, n) && n.stashPending == s.stashPending
              && Issued(n.trace) == Issued(s.trace) + (MiddleCmds(cfg) + SwapCmds(cfg.direct))
  {
    hide Valid, NothingStopped, Issued, OnDb, UndoWorked, HasBoth, PopsWorked, CheckedOut, Effect;
    var ok; ok, n :- RestoreOrAbort(cfg, start, s);
    if !ok { return Got(false), n; }
    var restarted; restarted, n :- ExecReadOnly(cfg, start, n, RestartServices);
    var cleared; cleared, n :- ExecReadOnly(cfg, start, n, CacheClear);
    ValidHasBoth(cfg, start, n);
    ok, n :- SwapEnvDb(cfg, start, n, true);
    if !ok {
      r, n := Abort(cfg, start, n, false);
      return;
    }
    n := n.(envSwapped := true);
    assert Issued(n.trace) == Issued(s.trace) + (MiddleCmds(cfg) + SwapCmds(cfg.direct));
    return Got(true), n;
  }

  /** The second migration, the final restart and the version read-out. */
  method Finish(cfg: Config, ghost start: Guest, s: Run) returns (r: Try<bool>, n: Run)
    requires OnDirect(cfg, start, s)
    ensures Valid(cfg, start, n) && s.trace <= n.trace
    ensures r == Got(false) ==> Undone(cfg, start, n)
    ensures r == Got(true) ==> DatabaseOk(cfg.pgbouncer)
    ensures NothingStopped(n.trace) && DatabaseOk(cfg.pgbouncer) && HasBoth(start.env) ==> r == Got(true)
    ensures r == Got(true) ==>
              && NothingStopped(n.trace) && !n.envSwapped && OnDb(n.guest.env, cfg.pgbouncer)
              && n.stashPending == s.stashPending
              && Issued(n.trace) == Issued(s.trace) + ([Migrate(true)] + SwapCmds(cfg.pgbouncer) + [RestartServices, ReadVersion])
  {
    hide Valid, NothingStopped, Issued, OnDb, UndoWorked, HasBoth, PopsWorked, CheckedOut, Effect;
    var ok; ok, n :- Gate(cfg, start, s, Migrate(true));
    if !ok { return Got(false), n; }
    ok, n :- RestoreOrAbort(cfg, start, n);
    if !ok { return Got(false), n; }
    var restarted; restarted, n :- ExecReadOnly(cfg, start, n, RestartServices);
    var version; version, n :- ExecReadOnly(cfg, start, n, ReadVersion);
    return Got(true), n;
  }

  function RestCmds(cfg: Config): seq<Cmd> { BUILD_CMDS + MiddleCmds(cfg) + FinishCmds(cfg) }

  /** The last three pieces. */
  method Rest(cfg: Config, ghost start: Guest, s: Run) returns (r: Try<bool>, n: Run)
    requires OnDirect(cfg, start, s)
    ensures Valid(cfg, start, n) && s.trace <= n.trace
    ensures r == Got(false) ==> Undone(cfg, start, n)
    ensures r == Got(true) ==> DatabaseOk(cfg.pgbouncer)
    ensures NothingStopped(n.trace) && Usable(cfg) && HasBoth(start.env) ==> r == Got(true)
    ensures r == Got(true) ==>
              && NothingStopped(n.trace) && !n.envSwapped && OnDb(n.guest.env, cfg.pgbouncer)
              && n.stashPending == s.stashPending
              && Issued(n.trace) == Issued(s.trace) + RestCmds(cfg)
  {
    hide Valid, Undone, NothingStopped, Issued, OnDb, UndoWorked, HasBoth, PopsWorked, DatabaseOk;
    var ok; ok, n :- Build(cfg, start, s);
    if !ok { return Got(false), n; }
    ok, n :- Middle(cfg, start, n);
    if !ok { return Got(false), n; }
    ok, n :- Finish(cfg, start, n);
    if !ok { return Got(false), n; }
    assert Issued(n.trace) == Issued(s.trace) + RestCmds(cfg);
    return Got(true), n;
  }

  lemma PlanParts(cfg: Config, p: PopCase)
    ensures PlanCmds(cfg, p) == PrepareCmds(cfg) + ([GitPull] + PopCmds(p)) + RestCmds(cfg)
  {
    hide PrepareCmds, PopCmds, MiddleCmds, FinishCmds;
  }

  /** The body of the `with SSHClient` block. */
  method Sequence(cfg: Config, ghost start: Guest, s: Run) returns (r: Try<bool>, n: Run, p: PopCase)
    requires Valid(cfg, start, s) && NothingStopped(s.trace) && s.guest == start && !s.stashPending && !s.envSwapped
    requires Issued(s.trace) == [Connect]
    ensures Valid(cfg, start, n)
    ensures r == Got(false) ==> Undone(cfg, start, n)
    ensures s.trace <= n.trace
    ensures r == Got(true) ==> if start.local == map[] then p == NothingOwed else PopWent(p, n.trace, |s.trace| + 6)
    ensures r == Got(true) ==> Usable(cfg) && HasBoth(start.env) && !Listed(start, n.trace, |s.trace|)
    ensures NothingStopped(n.trace) && Usable(cfg) && HasBoth(start.env) ==> r == Got(!Listed(start, n.trace, |s.trace|))
    ensures r == Got(true) ==>
              && NothingStopped(n.trace) && !n.envSwapped && OnDb(n.guest.env, cfg.pgbouncer)
              && (n.stashPending ==> !PopsWorked(n.trace))
              && Issued(n.trace) == PlanCmds(cfg, p)
  {
    hide Valid, Undone, NothingStopped, Issued, OnDb, UndoWorked, HasBoth, PopsWorked, PopCmds, PlanCmds, RestCmds, Listed, DatabaseOk, PopWent;
    p := NothingOwed;
    var ok; ok, n :- Prepare(cfg, start, s);
    if !ok { return Got(false), n, p; }
    ghost var prepared := n.trace;
    ok, n, p :- PullAndPop(cfg, start, n);
    if !ok { return Got(false), n, p; }
    ghost var t := n.trace;
    ok, n :- Rest(cfg, start, n);
    if !ok { return Got(false), n, p; }
    ListedStays(start, prepared, n.trace, |s.trace|);
    PlanParts(cfg, p);
    if start.local != map[] { PopWentStays(p, t, n.trace, |s.trace| + 6); }
    if !PopsWorked(t) { PopsStayFailed(t, n.trace); }
    return Got(true), n, p;
  }

  lemma StartsValid(cfg: Config, g: Guest)
    ensures Valid(cfg, g, Initial(g)) && NothingStopped([]) && Issued([]) == []
  {}

  /** The reconnection after an exception. */
  method Reconnect(cfg: Config, ghost start: Guest, s: Run) returns (n: Run)
    requires Valid(cfg, start, s)
    ensures Valid(cfg, start, n) && s.trace <= n.trace
    ensures UndoWorked(n.trace) && Usable(cfg) && HasBoth(start.env) ==> !n.envSwapped && !n.stashPending
    ensures !NothingStopped(s.trace) ==> !NothingStopped(n.trace)
    ensures |n.trace| > |s.trace| && n.trace[|s.trace|].cmd == Connect
    ensures n.trace[|s.trace|].reply.Raised? ==> |n.trace| == |s.trace| + 1
    ensures n.stashPending ==> !PopsWorked(n.trace)
  {
    hide Valid, NothingStopped, Issued, UndoWorked, HasBoth, PopsWorked, CheckedOut, Effect;
    var c;
    c, n := ExecReadOnly(cfg, start, s, Connect);
    if c.Got? {
      var aborted;
      aborted, n := Abort(cfg, start, n, true);
    }
  }

  lemma Ending(cfg: Config, g: Guest, n: Run)
    requires EnvTraced(g.env, n.guest.env, n.trace)
    ensures HasBoth(g.env) ==>
              (n.guest.env == g.env || OnDb(n.guest.env, cfg.pgbouncer) <==> EndsWell(g.env, n.trace, cfg.pgbouncer))
  {
    if HasBoth(g.env) { RestoredExactly(g.env, n.trace, cfg.pgbouncer); }
  }

  /** The whole run: whatever the guest answers, and wherever an exception strikes,
      - the run returns True exactly if the databases are well-formed, the file has a line of each kind,
        the checkout had no unmerged files, and nothing stopped it;
      - every restart sees only PGBouncer, every migration only the direct database (`Safe`);
      - once a gating command has failed only undo commands follow (`Orderly`), and a run that
        returns True has issued its plan without one;
      - the other lines of `.env.production` and the older stash entries are untouched;
      - the local changes are in the working tree or on the stash, unless a conflict resolution
        dropped the entry after missing a file;
      - a file with a line of each kind ends as it was or on PGBouncer exactly if the last values that
        substitutions wrote to it are all its own or all PGBouncer's (`EndsWell`), and so it does if no
        swap command failed and no exception cut the undoing short. */
  method RunUpgrade(cfg: Config, g: Guest) returns (ok: bool, n: Run, p: PopCase)
    ensures Safe(cfg, n.trace) && Orderly(cfg, n.trace)
    ensures OtherLinesKept(g.env, n.guest.env) && Intact(g, n.guest)
    ensures n.guest.env == EnvAfter(g.env, n.trace)
    ensures HasBoth(g.env) ==>
              (n.guest.env == g.env || OnDb(n.guest.env, cfg.pgbouncer) <==> EndsWell(g.env, n.trace, cfg.pgbouncer))
    ensures ChangesKept(g, n.guest) || Mishap(n.trace)
    ensures PopsWorked(n.trace) ==> n.guest.stash == g.stash
    ensures ok ==> OnDb(n.guest.env, cfg.pgbouncer) && NothingStopped(n.trace) && Issued(n.trace) == PlanCmds(cfg, p)
    ensures ok <==> Usable(cfg) && HasBoth(g.env) && NothingStopped(n.trace) && !Listed(g, n.trace, 1)
    ensures ok ==> if g.local == map[] then p == NothingOwed else PopWent(p, n.trace, 7)
    ensures UndoWorked(n.trace) && Usable(cfg) && HasBoth(g.env) ==>
              n.guest.env == g.env || OnDb(n.guest.env, cfg.pgbouncer)
  {
    hide NothingStopped, Issued, OnDb, UndoWorked, HasBoth, PopsWorked, CheckedOut, Effect, Safe, Orderly,
      OtherLinesKept, Intact, ChangesKept, Mishap, PlanCmds, EndsWell;
    StartsValid(cfg, g);
    n, p := Initial(g), NothingOwed;
    var r: Try<bool>;
    var c;
    c, n := ExecReadOnly(cfg, g, n, Connect);
    r := Threw;
    if c.Got? { r, n, p := Sequence(cfg, g, n); }
    if r.Threw? {
      if n.envSwapped || n.stashPending { n := Reconnect(cfg, g, n); }
      Ending(cfg, g, n);
      return false, n, p;
    }
    Ending(cfg, g, n);
    return r.value, n, p;
  }
}
