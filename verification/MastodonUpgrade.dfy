/** `run_mastodon_upgrade` from the SSH sequence onwards, with its two undo flags, the abort helper
    and the reconnect path, and what every run keeps. */
module MastodonUpgrade {
  import opened Text
  import opened MastodonGuest

  /** A result or a Python exception on its way up. */
  datatype Try<+T> = Got(value: T) | Threw {
    predicate IsFailure() { Threw? }
    function PropagateFailure<U>(): Try<U> requires Threw? { Threw }
    function Extract(): T requires Got? { value }
  }

  datatype Config = Config(direct: Database, pgbouncer: Database)

  /** `[\w.\-/:~]`; characters beyond ASCII count as word characters unless they are blank. */
  predicate SafeChar(c: char) {
    || 'a' <= c <= 'z' || 'A' <= c <= 'Z' || '0' <= c <= '9' || c in "_.-/:~"
    || (c as int >= 0x80 && !IsSpace(c))
  }

  /** `_validate_shell_param` does not raise. */
  predicate HostAccepted(h: string) { h != "" && forall c | c in h :: SafeChar(c) }

  predicate Digits(s: string) { s != "" && forall c | c in s :: IsDigit(c) }

  /** `re.match(r'^\d+$', port)`: `$` also matches before a final line break. */
  predicate PortAccepted(p: string) {
    Digits(p) || (p != "" && p[|p| - 1] == '\n' && Digits(p[..|p| - 1]))
  }

  predicate DatabaseOk(db: Database) { HostAccepted(db.host) && Digits(db.port) }

  // ---- What is said of the commands issued so far --------------------------------------------

  function Issued(t: seq<Event>): (r: seq<Cmd>)
    ensures |r| == |t| && forall i | 0 <= i < |t| :: r[i] == t[i].cmd
  {
    seq(|t|, i requires 0 <= i < |t| => t[i].cmd)
  }

  /** Restarts see only PGBouncer, migrations only the direct database. */
  predicate EventSafe(cfg: Config, cmd: Cmd, g: Guest) {
    && (cmd.RestartServices? ==> OnDb(g.env, cfg.pgbouncer))
    && (cmd.Migrate? ==> OnDb(g.env, cfg.direct))
  }

  /** The commands whose non-zero exit code stops the upgrade. */
  predicate Gating(cmd: Cmd) {
    || cmd.GitStash? || cmd.GitPull? || IsSwap(cmd) || cmd.Remediate? || cmd.BundleInstall?
    || cmd.YarnInstall? || cmd.Precompile? || cmd.Migrate?
  }

  predicate IsSwap(cmd: Cmd) { cmd.SedHost? || cmd.SedPort? || cmd.GrepEnv? }

  predicate Succeeded(e: Event) { e.reply.Done? && e.reply.ok }

  predicate Stopping(e: Event) { e.reply.Raised? || (Gating(e.cmd) && !e.reply.ok) }

  /** The commands of `_abort` and of the reconnect path. */
  predicate Undo(cfg: Config, cmd: Cmd) {
    || cmd.Connect? || cmd.StashPop? || cmd.GrepEnv?
    || cmd == SedHost(cfg.pgbouncer.host) || cmd == SedPort(cfg.pgbouncer.port)
  }

  predicate NothingStopped(t: seq<Event>) { forall e | e in t :: !Stopping(e) }

  predicate Safe(cfg: Config, t: seq<Event>) { forall e | e in t :: EventSafe(cfg, e.cmd, e.before) }

  /** Once a command has stopped the upgrade, only undo commands follow. */
  predicate Orderly(cfg: Config, t: seq<Event>) {
    forall i, j | 0 <= i < j < |t| && Stopping(t[i]) :: Undo(cfg, t[j].cmd)
  }

  predicate UndoStep(e: Event) {
    && (IsSwap(e.cmd) ==> Succeeded(e))
    && (e.cmd.Connect? || e.cmd.StashPop? ==> e.reply.Done?)
  }

  /** Every swap command succeeded, and no undo step was cut off by an exception. */
  predicate UndoWorked(t: seq<Event>) { forall e | e in t :: UndoStep(e) }

  predicate PopStep(e: Event) {
    && (e.cmd.StashPop? ==> Succeeded(e))
    && (e.cmd.Connect? ==> e.reply.Done?)
  }

  predicate PopsWorked(t: seq<Event>) { forall e | e in t :: PopStep(e) }

  /** The files whose `git checkout --theirs` exited with 0. */
  function CheckedOut(t: seq<Event>): set<string> {
    set e | e in t && e.cmd.CheckoutTheirs? && Succeeded(e) :: e.cmd.file
  }

  /** A `git checkout --theirs` failed, or a listed path begins or ends with a line break. */
  predicate MissesFile(e: Event) {
    || (e.cmd.CheckoutTheirs? && !Succeeded(e))
    || (e.cmd.DiffUnmerged? && e.reply.Done? && exists f | f in e.reply.out :: TrimBreaks(f) != f)
  }

  predicate Missed(t: seq<Event>) { exists e | e in t :: MissesFile(e) }

  predicate Dropped(t: seq<Event>) { exists e | e in t :: e.cmd.StashDrop? && Succeeded(e) }

  /** The stash entry was dropped although a conflicted file had been missed. */
  predicate Mishap(t: seq<Event>) { Dropped(t) && Missed(t) }

  // ---- What is said of the guest -------------------------------------------------------------

  predicate Within(a: Files, b: Files) { forall f | f in a :: f in b && b[f] == a[f] }

  predicate EntryOnTop(start: Guest, g: Guest) { g.stash == [start.local] + start.stash }

  /** The stash entries that were there before the run are still there, in order. */
  predicate Intact(start: Guest, g: Guest) { g.stash == start.stash || EntryOnTop(start, g) }

  /** The local changes are in the working tree or still on the stash. */
  predicate ChangesKept(start: Guest, g: Guest) { EntryOnTop(start, g) || Within(start.local, g.local) }

  /** `git stash pop` left conflicts: their files are unmerged, the others have been applied. */
  predicate Conflicted(mine: Files, g: Guest) {
    && g.unmerged.Keys <= mine.Keys && Within(g.unmerged, mine) && "" !in g.unmerged
    && (forall f | f in mine :: f in g.local <==> f !in g.unmerged)
    && (forall f | f in mine && f in g.local :: g.local[f] == mine[f])
  }

  // ---- File names listed by git --------------------------------------------------------------

  /** `f.strip("\r\n")`. */
  function TrimBreaks(s: string): string
    decreases |s|
  {
    if s != "" && s[0] in "\r\n" then TrimBreaks(s[1..])
    else if s != "" && s[|s| - 1] in "\r\n" then TrimBreaks(s[..|s| - 1])
    else s
  }

  /** `unmerged_out.strip("\x00 \t\r\n")` is not empty. */
  predicate AnyName(out: seq<string>) { exists f | f in out :: Visible(f) }

  predicate Visible(f: string) { exists c | c in f :: c !in "\0 \t\r\n" }

  /** The check for unmerged files, the command at `i`, worked, and there were some. */
  predicate Listed(g: Guest, t: seq<Event>, i: nat) {
    i < |t| && Succeeded(t[i]) && exists f | f in g.unmerged :: Visible(f)
  }

  function Trimmed(out: seq<string>): set<string> { set o | o in out :: TrimBreaks(o) }

  /** The trimmed, non-empty names, each once, in order of first occurrence. */
  function Names(out: seq<string>): (r: seq<string>)
    ensures forall f :: f in r <==> f != "" && f in Trimmed(out)
    ensures forall i, j | 0 <= i < j < |r| :: r[i] != r[j]
  {
    if out == [] then []
    else
      var n := |out| - 1;
      var rest, f := Names(out[..n]), TrimBreaks(out[n]);
      assert Trimmed(out) == Trimmed(out[..n]) + {f} by { assert out == out[..n] + [out[n]]; }
      if f == "" || f in rest then rest else rest + [f]
  }

  // ---- What every step keeps -----------------------------------------------------------------

  /** During conflict resolution: the files in `done` have their local version back, those in `todo`
      are still unmerged, the files that did not conflict have it anyway, the others do not. */
  predicate Resolving(mine: Files, u: set<string>, g: Guest, done: set<string>, todo: set<string>) {
    && done <= u <= mine.Keys
    && (forall f | f in mine :: f in g.local <==> f !in u || f in done)
    && (forall f | f in mine && f in g.local :: g.local[f] == mine[f])
    && (forall f | f in g.unmerged :: f in mine && g.unmerged[f] == mine[f] && f in u)
    && (forall f | f in u && f in todo :: f in g.unmerged)
  }

  /** Everything a run has changed so far: the guest, the two undo flags, the commands issued. */
  datatype Run = Run(guest: Guest, envSwapped: bool, stashPending: bool, trace: seq<Event>)

  function Initial(g: Guest): Run { Run(g, false, false, []) }

  predicate Usable(cfg: Config) { DatabaseOk(cfg.direct) && DatabaseOk(cfg.pgbouncer) }

  /** What one command makes of the file. */
  function EnvOf(env: seq<EnvLine>, e: Event): seq<EnvLine> {
    if !Succeeded(e) then env
    else if e.cmd.SedHost? then SetHost(env, e.cmd.host)
    else if e.cmd.SedPort? then SetPort(env, e.cmd.port)
    else env
  }

  /** The file after the commands of a trace. */
  function EnvAfter(env: seq<EnvLine>, t: seq<Event>): seq<EnvLine> {
    if t == [] then env else EnvOf(EnvAfter(env, t[..|t| - 1]), t[|t| - 1])
  }

  predicate EnvTraced(found: seq<EnvLine>, env: seq<EnvLine>, t: seq<Event>) { env == EnvAfter(found, t) }

  /** All of `Valid` except where the database lines point. */
  predicate ValidButEnv(cfg: Config, start: Guest, s: Run) {
    && Safe(cfg, s.trace) && Orderly(cfg, s.trace)
    && OtherLinesKept(start.env, s.guest.env) && EnvTraced(start.env, s.guest.env, s.trace)
    && Intact(start, s.guest)
    && (s.stashPending ==> EntryOnTop(start, s.guest))
    && (ChangesKept(start, s.guest) || Mishap(s.trace))
    && (PopsWorked(s.trace) && !s.stashPending ==> s.guest.stash == start.stash)
  }

  /** Unless a swap command failed, the flag tells where the database lines point. */
  predicate EnvTracked(cfg: Config, start: Guest, s: Run) {
    UndoWorked(s.trace) && Usable(cfg) && HasBoth(start.env) ==>
      if s.envSwapped then OnDb(s.guest.env, cfg.direct)
      else s.guest.env == start.env || OnDb(s.guest.env, cfg.pgbouncer)
  }

  predicate Valid(cfg: Config, start: Guest, s: Run) {
    ValidButEnv(cfg, start, s) && EnvTracked(cfg, start, s)
  }

  /** The upgrade has not been stopped: any command may follow, else only an undo command. */
  predicate MayIssue(cfg: Config, s: Run, cmd: Cmd) {
    EventSafe(cfg, cmd, s.guest) && (NothingStopped(s.trace) || Undo(cfg, cmd))
  }

  function Answer(r: Try<Reply>): Reply { if r.Threw? then Raised else r.value }

  /** `cmd` ran from `s` with result `r`, and left `n`. */
  predicate Stepped(s: Run, cmd: Cmd, r: Try<Reply>, n: Run) {
    && (r.Got? ==> r.value.Done?)
    && Effect(cmd, s.guest, Answer(r), n.guest)
    && n == s.(guest := n.guest, trace := s.trace + [Event(cmd, Answer(r), s.guest)])
  }
}
