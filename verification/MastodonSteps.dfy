/** The steps of the run, one lemma for each kind of command. */
module MastodonSteps {
  import opened Text
  import opened MastodonGuest
  import opened MastodonUpgrade

  /** `ln.strip()` of a line that begins with `DB_HOST=` or `DB_PORT=`. */
  function StripLine(l: EnvLine): EnvLine {
    match l
    case HostLine(v) => HostLine(RStrip(v))
    case PortLine(v) => PortLine(RStrip(v))
    case Other(t) => Other(Strip(t))
  }

  function Swapped(env: seq<EnvLine>, db: Database): seq<EnvLine> { SetPort(SetHost(env, db.host), db.port) }

  lemma SafeIsSolid(s: string)
    requires forall c | c in s :: SafeChar(c)
    ensures RStrip(s) == s
  {
    if s != "" { assert s[|s| - 1] in s; }
  }

  lemma SwapKeeps(env: seq<EnvLine>, db: Database)
    ensures OtherLinesKept(env, SetHost(env, db.host)) && OtherLinesKept(env, Swapped(env, db))
    ensures HasBoth(env) <==> HasBoth(Swapped(env, db))
  {
    KeptHasBoth(env, Swapped(env, db));
  }

  /** The read-back shows both expected lines. */
  predicate Shows(shown: seq<EnvLine>, db: Database) {
    var lines := set l | l in shown :: StripLine(l);
    HostLine(db.host) in lines && PortLine(db.port) in lines
  }

  /** The substitutions give every database line the new value. So the read-back shows both values
      exactly when the file had a line of each kind to rewrite. */
  lemma SwapOutcome(env: seq<EnvLine>, db: Database)
    requires DatabaseOk(db)
    ensures Shows(Grep(Swapped(env, db)), db) <==> HasBoth(env)
    ensures HasBoth(env) ==> OnDb(Swapped(env, db), db)
  {
    var n := Swapped(env, db);
    SwapKeeps(env, db);
    forall l | l in n ensures l.Other? || l == HostLine(db.host) || l == PortLine(db.port) {}
    SafeIsSolid(db.host);
    SafeIsSolid(db.port);
    var out := Grep(n);
    assert forall l | l in out :: StripLine(l) == l;
  }

  /** What one more command adds to the trace. */
  lemma TraceGrows(t: seq<Event>, e: Event, n: seq<Event>)
    requires n == t + [e]
    ensures NothingStopped(n) <==> NothingStopped(t) && !Stopping(e)
    ensures UndoWorked(n) <==> UndoWorked(t) && UndoStep(e)
    ensures PopsWorked(n) <==> PopsWorked(t) && PopStep(e)
    ensures Issued(n) == Issued(t) + [e.cmd]
  {
    assert forall x :: x in n <==> x in t || x == e;
  }

  lemma MishapGrows(t: seq<Event>, e: Event, n: seq<Event>)
    requires n == t + [e]
    ensures Missed(n) <==> Missed(t) || MissesFile(e)
    ensures Dropped(n) <==> Dropped(t) || (e.cmd.StashDrop? && Succeeded(e))
    ensures CheckedOut(n) == CheckedOut(t) + if e.cmd.CheckoutTheirs? && Succeeded(e) then {e.cmd.file} else {}
  {
    assert forall x :: x in n <==> x in t || x == e;
  }

  lemma OrderGrows(cfg: Config, t: seq<Event>, e: Event, n: seq<Event>)
    requires n == t + [e] && Safe(cfg, t) && Orderly(cfg, t)
    requires EventSafe(cfg, e.cmd, e.before) && (NothingStopped(t) || Undo(cfg, e.cmd))
    ensures Safe(cfg, n) && Orderly(cfg, n)
  {
    forall i, j | 0 <= i < j < |n| && Stopping(n[i]) ensures Undo(cfg, n[j].cmd) {
      assert n[i] == t[i] && t[i] in t;
      if j < |t| { assert Stopping(t[i]) && n[j] == t[j]; }
    }
  }

  /** Only the two substitutions change the file. */
  lemma EnvTracedStep(found: seq<EnvLine>, s: Run, cmd: Cmd, r: Try<Reply>, n: Run)
    requires EnvTraced(found, s.guest.env, s.trace) && Stepped(s, cmd, r, n)
    ensures EnvTraced(found, n.guest.env, n.trace)
  {
    EffectOnEnv(s.guest, cmd, Answer(r), n.guest);
    assert n.trace[..|n.trace| - 1] == s.trace;
  }

  lemma EffectOnEnv(g: Guest, cmd: Cmd, r: Reply, n: Guest)
    requires Effect(cmd, g, r, n)
    ensures n.env == EnvOf(g.env, Event(cmd, r, g))
  {
    hide SetHost, SetPort;
  }

  lemma EnvKept(a: seq<EnvLine>, b: seq<EnvLine>, c: seq<EnvLine>)
    requires OtherLinesKept(a, b) && OtherLinesKept(b, c)
    ensures OtherLinesKept(a, c) && (HasBoth(a) <==> HasBoth(c))
  {
    KeptHasBoth(a, c);
  }

  /** Commands that leave the guest as it is. */
  predicate ReadOnly(cmd: Cmd) {
    || cmd.GrepEnv? || cmd.Connect? || cmd.DiffUnmerged? || cmd.Remediate? || cmd.BundleInstall?
    || cmd.YarnInstall? || cmd.Precompile? || cmd.CacheClear? || cmd.ReadVersion? || cmd.Migrate?
    || cmd.RestartServices?
  }

  /** A step that changes nothing but the database lines. */
  lemma EnvStep(cfg: Config, start: Guest, s: Run, cmd: Cmd, r: Try<Reply>, n: Run)
    requires ValidButEnv(cfg, start, s) && MayIssue(cfg, s, cmd) && Stepped(s, cmd, r, n)
    requires n.guest == s.guest.(env := n.guest.env) && OtherLinesKept(s.guest.env, n.guest.env)
    ensures ValidButEnv(cfg, start, n)
    ensures Issued(n.trace) == Issued(s.trace) + [cmd]
    ensures var e := Event(cmd, Answer(r), s.guest);
            && (UndoWorked(n.trace) <==> UndoWorked(s.trace) && UndoStep(e))
            && (NothingStopped(n.trace) <==> NothingStopped(s.trace) && !Stopping(e))
  {
    hide EnvTraced, Safe, Orderly, OtherLinesKept, Missed, Dropped, PopsWorked, UndoWorked, NothingStopped, Effect, Issued, EventSafe, Undo;
    var e := Event(cmd, Answer(r), s.guest);
    TraceGrows(s.trace, e, n.trace);
    MishapGrows(s.trace, e, n.trace);
    EnvTracedStep(start.env, s, cmd, r, n);
    OrderGrows(cfg, s.trace, e, n.trace);
    EnvKept(start.env, s.guest.env, n.guest.env);
  }

  lemma ReadOnlyStep(cfg: Config, start: Guest, s: Run, cmd: Cmd, r: Try<Reply>, n: Run)
    requires Valid(cfg, start, s) && MayIssue(cfg, s, cmd) && ReadOnly(cmd) && Stepped(s, cmd, r, n)
    ensures Valid(cfg, start, n) && n.guest == s.guest
    ensures Issued(n.trace) == Issued(s.trace) + [cmd]
    ensures NothingStopped(n.trace) <==> NothingStopped(s.trace) && !Stopping(Event(cmd, Answer(r), s.guest))
    ensures !cmd.Connect? ==> (PopsWorked(n.trace) <==> PopsWorked(s.trace))
    ensures cmd.Connect? && r.Threw? ==> !PopsWorked(n.trace) && !UndoWorked(n.trace)
    ensures CheckedOut(n.trace) == CheckedOut(s.trace)
  {
    hide Safe, Orderly, Missed, Dropped, Issued, ValidButEnv, NothingStopped, CheckedOut;
    assert OtherLinesKept(s.guest.env, n.guest.env);
    EnvStep(cfg, start, s, cmd, r, n);
    TraceGrows(s.trace, Event(cmd, Answer(r), s.guest), n.trace);
    MishapGrows(s.trace, Event(cmd, Answer(r), s.guest), n.trace);
  }

  /** A swap command either succeeds or is on record as failed. */
  lemma SwapStep(cfg: Config, start: Guest, s: Run, cmd: Cmd, r: Try<Reply>, n: Run)
    requires ValidButEnv(cfg, start, s) && MayIssue(cfg, s, cmd) && IsSwap(cmd) && Stepped(s, cmd, r, n)
    ensures ValidButEnv(cfg, start, n)
    ensures n == s.(guest := s.guest.(env := n.guest.env), trace := n.trace)
    ensures Issued(n.trace) == Issued(s.trace) + [cmd]
    ensures UndoWorked(n.trace) <==> UndoWorked(s.trace) && r.Got? && r.value.ok
    ensures NothingStopped(n.trace) <==> NothingStopped(s.trace) && r.Got? && r.value.ok
  {
    hide Safe, Orderly, Mishap, PopsWorked, UndoWorked, NothingStopped, Issued, EventSafe, Undo, ValidButEnv;
    assert OtherLinesKept(s.guest.env, n.guest.env) by {
      if cmd.SedPort? && r.Got? && r.value.ok { assert n.guest.env == SetPort(s.guest.env, cmd.port); }
    }
    EnvStep(cfg, start, s, cmd, r, n);
  }

  /** A git step that leaves the file and the stash alone. */
  lemma TreeStep(cfg: Config, start: Guest, s: Run, cmd: Cmd, r: Try<Reply>, n: Run)
    requires Valid(cfg, start, s) && MayIssue(cfg, s, cmd) && Stepped(s, cmd, r, n)
    requires cmd.GitPull? || cmd.CheckoutTheirs? || cmd.GitAdd?
    requires cmd.GitPull? || s.stashPending
    ensures Valid(cfg, start, n)
    ensures n.guest == s.guest.(local := n.guest.local, unmerged := n.guest.unmerged)
    ensures cmd.GitPull? ==> n.guest.local == s.guest.local
    ensures Issued(n.trace) == Issued(s.trace) + [cmd]
    ensures PopsWorked(n.trace) <==> PopsWorked(s.trace)
    ensures Missed(n.trace) <==> Missed(s.trace) || MissesFile(Event(cmd, Answer(r), s.guest))
    ensures NothingStopped(n.trace) <==> NothingStopped(s.trace) && !Stopping(Event(cmd, Answer(r), s.guest))
  {
    hide EnvTraced, Safe, Orderly, OtherLinesKept, Missed, Dropped, PopsWorked, UndoWorked, NothingStopped, Issued, EventSafe, Undo, HasBoth, OnDb;
    var e := Event(cmd, Answer(r), s.guest);
    TraceGrows(s.trace, e, n.trace);
    MishapGrows(s.trace, e, n.trace);
    EnvTracedStep(start.env, s, cmd, r, n);
    OrderGrows(cfg, s.trace, e, n.trace);
  }

  /** `git stash` on the guest as it was found. */
  lemma StashStep(cfg: Config, start: Guest, s: Run, r: Try<Reply>, n: Run)
    requires Valid(cfg, start, s) && MayIssue(cfg, s, GitStash) && Stepped(s, GitStash, r, n)
    requires s.guest == start && !s.stashPending
    ensures r.Threw? || !r.value.ok ==> Valid(cfg, start, n)
    ensures r.Got? && r.value.ok ==>
              && Valid(cfg, start, n.(stashPending := Stashed(r.value.out)))
              && n.guest.unmerged == map[] && n.guest.local == map[]
              && (NothingStopped(s.trace) ==> NothingStopped(n.trace))
    ensures r.Got? && r.value.ok ==> (Stashed(r.value.out) <==> s.guest.local != map[])
    ensures Issued(n.trace) == Issued(s.trace) + [GitStash]
    ensures n.guest.env == s.guest.env
    ensures NothingStopped(n.trace) <==> NothingStopped(s.trace) && r.Got? && r.value.ok
  {
    hide EnvTraced, Stashed, Safe, Orderly, OtherLinesKept, Missed, Dropped, PopsWorked, UndoWorked, NothingStopped, Issued, EventSafe, Undo, HasBoth, OnDb;
    if r.Got? && r.value.ok && s.guest.local == map[] { NothingStashed(r.value.out); }
    var e := Event(GitStash, Answer(r), s.guest);
    TraceGrows(s.trace, e, n.trace);
    MishapGrows(s.trace, e, n.trace);
    EnvTracedStep(start.env, s, GitStash, r, n);
    OrderGrows(cfg, s.trace, e, n.trace);
  }

  /** `git stash pop` while an entry is owed. */
  lemma PopTheStash(cfg: Config, start: Guest, s: Run, r: Try<Reply>, n: Run)
    requires Valid(cfg, start, s) && MayIssue(cfg, s, StashPop) && Stepped(s, StashPop, r, n) && s.stashPending
    ensures r.Got? ==> Valid(cfg, start, n.(stashPending := false))
    ensures r.Threw? || !r.value.ok ==> Valid(cfg, start, n) && !PopsWorked(n.trace)
    ensures r.Got? && !r.value.ok && s.guest.local == map[] && s.guest.unmerged == map[] ==>
              n.guest.unmerged == map[] || Conflicted(start.local, n.guest)
    ensures r.Got? ==> (NothingStopped(n.trace) <==> NothingStopped(s.trace))
    ensures r.Got? ==> (UndoWorked(n.trace) <==> UndoWorked(s.trace))
    ensures r.Threw? ==> !UndoWorked(n.trace)
    ensures r.Threw? ==> !NothingStopped(n.trace)
    ensures Issued(n.trace) == Issued(s.trace) + [StashPop]
    ensures n.guest.env == s.guest.env
  {
    hide EnvTraced, Safe, Orderly, OtherLinesKept, Missed, Dropped, PopsWorked, UndoWorked, NothingStopped, Issued, EventSafe, Undo, HasBoth, OnDb;
    var e := Event(StashPop, Answer(r), s.guest);
    TraceGrows(s.trace, e, n.trace);
    MishapGrows(s.trace, e, n.trace);
    EnvTracedStep(start.env, s, StashPop, r, n);
    OrderGrows(cfg, s.trace, e, n.trace);
  }

  /** `git checkout --theirs -- f` and `git add -- f` during conflict resolution. */
  lemma ResolveFile(mine: Files, u: set<string>, done: set<string>, todo: set<string>,
                                       s: Run, f: string, r: Try<Reply>, m: Run, q: Try<Reply>, n: Run)
    requires Resolving(mine, u, s.guest, done, todo + {f}) && f !in todo
    requires Stepped(s, CheckoutTheirs(f), r, m) && Stepped(m, GitAdd(f), q, n)
    ensures Resolving(mine, u, n.guest, done + if r.Got? && r.value.ok then {f} else {}, todo)
  {
    hide Missed, Dropped, Issued;
  }

  /** Without the stash entry, the changes are kept exactly when every conflicted file was done. */
  lemma ResolvedKeeps(mine: Files, u: set<string>, g: Guest, done: set<string>, todo: set<string>)
    requires Resolving(mine, u, g, done, todo)
    ensures Within(mine, g.local) <==> u <= done
  {
    if u <= done {
      forall f | f in mine ensures f in g.local && g.local[f] == mine[f] {}
    } else {
      var f :| f in u && f !in done;
      assert f in mine && f !in g.local;
    }
  }

  /** `git stash drop` at the end of conflict resolution. */
  lemma DropStep(cfg: Config, start: Guest, s: Run, r: Try<Reply>, n: Run)
    requires Valid(cfg, start, s) && MayIssue(cfg, s, StashDrop) && Stepped(s, StashDrop, r, n)
    requires s.stashPending && !PopsWorked(s.trace)
    requires Within(start.local, s.guest.local) || Missed(s.trace)
    ensures r.Threw? ==> Valid(cfg, start, n)
    ensures r.Threw? ==> !NothingStopped(n.trace)
    ensures r.Got? ==> Valid(cfg, start, n.(stashPending := false))
    ensures r.Got? ==> (NothingStopped(n.trace) <==> NothingStopped(s.trace))
    ensures n.guest == s.guest.(stash := n.guest.stash)
    ensures r.Got? && r.value.ok ==> n.guest.stash == start.stash
    ensures Issued(n.trace) == Issued(s.trace) + [StashDrop]
  {
    hide EnvTraced, Safe, Orderly, OtherLinesKept, Missed, Dropped, PopsWorked, UndoWorked, NothingStopped, Issued, EventSafe, Undo, HasBoth, OnDb;
    var e := Event(StashDrop, Answer(r), s.guest);
    TraceGrows(s.trace, e, n.trace);
    MishapGrows(s.trace, e, n.trace);
    EnvTracedStep(start.env, s, StashDrop, r, n);
    OrderGrows(cfg, s.trace, e, n.trace);
  }

  lemma StopStays(t: seq<Event>, n: seq<Event>)
    requires t <= n && !NothingStopped(t)
    ensures !NothingStopped(n)
  {
    var e :| e in t && Stopping(e);
    assert e in n;
  }

  /** The listing names something exactly if it worked and a file with a visible name is unmerged. */
  lemma ListingNames(g: Guest, list: Reply)
    requires list.Done? && Effect(DiffUnmerged, g, list, g)
    ensures AnyName(list.out) <==> list.ok && exists f | f in g.unmerged :: Visible(f)
  {
    hide Visible;
    if f :| f in g.unmerged && Visible(f) && list.ok { assert f in list.out; }
  }

  lemma StartHasBoth(cfg: Config, start: Guest, s: Run)
    requires ValidButEnv(cfg, start, s)
    ensures HasBoth(start.env) <==> HasBoth(s.guest.env)
  {
    KeptHasBoth(start.env, s.guest.env);
  }

  /** A port that `sed` accepts is made of digits only. */
  lemma PortHasNoBreak(p: string)
    requires PortAccepted(p) && '\n' !in p
    ensures Digits(p)
  {
    assert p != "" ==> p[|p| - 1] in p;
  }

  lemma DigitsAccepted(p: string)
    ensures Digits(p) ==> PortAccepted(p)
  {}

  lemma SetSwapped(cfg: Config, start: Guest, s: Run, flag: bool)
    requires ValidButEnv(cfg, start, s)
    ensures ValidButEnv(cfg, start, s.(envSwapped := flag))
  {}

  lemma ValidHasBoth(cfg: Config, start: Guest, s: Run)
    requires Valid(cfg, start, s)
    ensures HasBoth(start.env) <==> HasBoth(s.guest.env)
  {
    StartHasBoth(cfg, start, s);
  }

  lemma ResolveStarts(mine: Files, g: Guest, list: Reply, todo: set<string>)
    requires g.unmerged == map[] || Conflicted(mine, g)
    requires list.Done? && Effect(DiffUnmerged, g, list, g) && AnyName(list.out)
    ensures Resolving(mine, g.unmerged.Keys, g, {}, todo) && list.ok && "" !in g.unmerged
  {
    var f :| f in list.out;
    assert f in g.unmerged;
  }

  /** What is known when the last file has been handled. */
  lemma ResolveEnds(mine: Files, g0: Guest, list: Reply, s: Run, done: set<string>)
    requires list.Done? && list.ok && Effect(DiffUnmerged, g0, list, g0) && "" !in g0.unmerged
    requires Event(DiffUnmerged, list, g0) in s.trace
    requires Resolving(mine, g0.unmerged.Keys, s.guest, done, {})
    requires forall f | f in Names(list.out) :: f in done || Missed(s.trace)
    ensures Within(mine, s.guest.local) <==> g0.unmerged.Keys <= done
    ensures g0.unmerged.Keys <= done || Missed(s.trace)
  {
    ResolvedKeeps(mine, g0.unmerged.Keys, s.guest, done, {});
    ListingCovers(g0, s.trace, Event(DiffUnmerged, list, g0), done);
  }

  /** What the listing names is what has to be checked out, unless a name was mangled. */
  lemma ListingCovers(g: Guest, t: seq<Event>, e: Event, done: set<string>)
    requires e in t && e.cmd == DiffUnmerged && e.reply.Done? && Effect(DiffUnmerged, g, e.reply, g)
    requires e.reply.ok && "" !in g.unmerged
    requires forall f | f in Names(e.reply.out) :: f in done || Missed(t)
    ensures g.unmerged.Keys <= done || Missed(t)
  {
    if !(g.unmerged.Keys <= done) {
      var f :| f in g.unmerged && f !in done;
      assert f in e.reply.out;
      if TrimBreaks(f) != f {
        assert MissesFile(e);
      } else {
        assert f in Trimmed(e.reply.out);
        assert f in Names(e.reply.out);
      }
    }
  }

  lemma PulledClean(s: Run, r: Try<Reply>, n: Run)
    requires Stepped(s, GitPull, r, n) && r.Got? && r.value.ok
    ensures n.guest == s.guest && n.guest.unmerged == map[]
  {}

  /** A swap on a file without a line of each kind is refused after the substitutions: it has left
      the file alone only if no line had another value. `env_swapped` is then still false. */
  lemma SwapRefused(env: seq<EnvLine>, db: Database)
    requires DatabaseOk(db) && !HasBoth(env)
    ensures !Shows(Grep(Swapped(env, db)), db)
    ensures Swapped(env, db) == env <==>
              forall l | l in env :: (l.HostLine? ==> l.value == db.host) && (l.PortLine? ==> l.value == db.port)
  {
    SwapOutcome(env, db);
    var n := Swapped(env, db);
    if n == env {
      forall l | l in env ensures (l.HostLine? ==> l.value == db.host) && (l.PortLine? ==> l.value == db.port) {
        var i :| 0 <= i < |env| && env[i] == l;
        assert n[i] == l;
      }
    } else {
      var i :| 0 <= i < |env| && n[i] != env[i];
      assert env[i] in env;
    }
  }
}
