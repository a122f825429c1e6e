/** The guest that `run_mastodon_upgrade` drives over SSH: the lines of `.env.production`, the
    working tree, the index and the stash of the checkout, and what each remote command may do to
    them. A reply is chosen by the guest; an SSH exception means the command had no effect. */
module MastodonGuest {
  import opened Text

  /** A line of `.env.production`: one that begins with `DB_HOST=`, one that begins with
      `DB_PORT=`, each with the text after the `=`, or any other line. */
  datatype EnvLine = HostLine(value: string) | PortLine(value: string) | Other(text: string)

  /** File contents by path. */
  type Files = map<string, string>

  /** `local`: locally modified files. `unmerged`: conflicted paths, each with the version that
      `git checkout --theirs` writes. `stash`: the stash entries, newest first. */
  datatype Guest = Guest(env: seq<EnvLine>, local: Files, unmerged: Files, stash: seq<Files>)

  datatype Database = Database(host: string, port: string)

  datatype Cmd =
    | Connect | DiffUnmerged | GitStash | StashPop | StashDrop | GitPull
    | CheckoutTheirs(file: string) | GitAdd(file: string)
    | SedHost(host: string) | SedPort(port: string) | GrepEnv
    | Remediate | BundleInstall | YarnInstall | Precompile | CacheClear | ReadVersion
    | Migrate(post: bool) | RestartServices

  /** `ok` is `code == 0`. The output is file names or messages in `out`, env lines in `shown`. */
  datatype Reply = Done(ok: bool, out: seq<string>, shown: seq<EnvLine>) | Raised

  datatype Event = Event(cmd: Cmd, reply: Reply, before: Guest)

  /** `git stash` does not say that there was nothing to stash. */
  predicate Stashed(out: seq<string>) { forall m | m in out :: !Contains(m, "No local changes") }

  lemma NothingStashed(out: seq<string>)
    requires "No local changes to save" in out
    ensures !Stashed(out)
  {
    var m := "No local changes to save";
    assert m == "" + "No local changes" + " to save";
    ContainsMiddle("", "No local changes", " to save");
  }

  function WithHost(l: EnvLine, h: string): EnvLine { if l.HostLine? then HostLine(h) else l }

  function WithPort(l: EnvLine, p: string): EnvLine { if l.PortLine? then PortLine(p) else l }

  /** `sed -i 's|^DB_HOST=.*|DB_HOST=<h>|'`. */
  function SetHost(env: seq<EnvLine>, h: string): (r: seq<EnvLine>)
    ensures |r| == |env| && forall i | 0 <= i < |env| :: r[i] == WithHost(env[i], h)
  {
    seq(|env|, i requires 0 <= i < |env| => WithHost(env[i], h))
  }

  /** `sed -i 's|^DB_PORT=.*|DB_PORT=<p>|'`. */
  function SetPort(env: seq<EnvLine>, p: string): (r: seq<EnvLine>)
    ensures |r| == |env| && forall i | 0 <= i < |env| :: r[i] == WithPort(env[i], p)
  {
    seq(|env|, i requires 0 <= i < |env| => WithPort(env[i], p))
  }

  /** `grep -E '^DB_HOST=|^DB_PORT='`. */
  function Grep(env: seq<EnvLine>): (r: seq<EnvLine>)
    ensures forall l :: l in r <==> l in env && !l.Other?
  {
    if env == [] then [] else (if env[0].Other? then [] else [env[0]]) + Grep(env[1..])
  }

  /** What `cmd` may do: the guest goes from `g` to `n` and answers `r`. */
  predicate Effect(cmd: Cmd, g: Guest, r: Reply, n: Guest) {
    match r
    case Raised => n == g
    case Done(ok, out, shown) =>
      match cmd
      case SedHost(h) => n == if ok then g.(env := SetHost(g.env, h)) else g
      // A line break in the replacement text is a syntax error to sed.
      case SedPort(p) => (ok ==> '\n' !in p) && n == if ok then g.(env := SetPort(g.env, p)) else g
      case GrepEnv => n == g && (ok ==> shown == Grep(g.env) && shown != [])
      case DiffUnmerged =>
        && n == g && (forall f | f in out :: f in g.unmerged)
        && if ok then forall f | f in g.unmerged :: f in out else out == []
      // git refuses to stash or to pop while conflicts are unresolved.
      case GitStash =>
        if !ok then n == g
        else if g.local == map[] then n == g && g.unmerged == map[] && "No local changes to save" in out
        else && n == g.(local := map[], stash := [g.local] + g.stash)
             && g.unmerged == map[] && Stashed(out)
      case StashPop =>
        if ok then && g.stash != [] && g.unmerged == map[]
                   && n == g.(local := g.local + g.stash[0], stash := g.stash[1..])
        else n == g || PopConflict(g, n)
      case StashDrop => if ok then g.stash != [] && n == g.(stash := g.stash[1..]) else n == g
      case CheckoutTheirs(f) =>
        if ok then f in g.unmerged && n == g.(local := g.local[f := g.unmerged[f]]) else n == g
      case GitAdd(f) => n == if ok then g.(unmerged := g.unmerged - {f}) else g
      // A failed pull may leave a merge in progress.
      case GitPull => if ok then n == g && g.unmerged == map[] else n == g.(unmerged := n.unmerged)
      case _ => n == g
  }

  /** A pop that conflicts applies the other files, and keeps the entry on the stash. */
  predicate PopConflict(g: Guest, n: Guest) {
    && g.stash != [] && g.unmerged == map[] && n.unmerged != map[] && "" !in n.unmerged
    && n.unmerged.Keys <= g.stash[0].Keys
    && n == g.(local := (g.local + g.stash[0]) - n.unmerged.Keys, unmerged := n.unmerged)
    && forall f | f in n.unmerged :: n.unmerged[f] == g.stash[0][f]
  }

  /** Every database line of the file names `db`, and there is a line of each kind. */
  predicate OnDb(env: seq<EnvLine>, db: Database) {
    && (forall l | l in env :: l.Other? || l == HostLine(db.host) || l == PortLine(db.port))
    && HostLine(db.host) in env && PortLine(db.port) in env
  }

  predicate HasBoth(env: seq<EnvLine>) {
    (exists l | l in env :: l.HostLine?) && exists l | l in env :: l.PortLine?
  }

  /** Same lines in the same places, except for the values of the database lines. */
  predicate OtherLinesKept(a: seq<EnvLine>, b: seq<EnvLine>) {
    && |a| == |b|
    && forall i | 0 <= i < |a| ::
         if a[i].HostLine? then b[i].HostLine? else if a[i].PortLine? then b[i].PortLine? else b[i] == a[i]
  }

  lemma KeptHasBoth(a: seq<EnvLine>, b: seq<EnvLine>)
    requires OtherLinesKept(a, b)
    ensures HasBoth(a) <==> HasBoth(b)
  {
    forall i | 0 <= i < |a| ensures a[i] in a && b[i] in b {}
  }
}
