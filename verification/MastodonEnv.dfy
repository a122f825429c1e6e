/** Where `.env.production` is left by the substitutions of a run, whatever failed. */
module MastodonEnv {
  import opened Text
  import opened MastodonGuest
  import opened MastodonUpgrade

  /** The host that the last successful substitution wrote. */
  function LastHost(t: seq<Event>): Option<string> {
    if t == [] then None
    else
      var e := t[|t| - 1];
      if Succeeded(e) && e.cmd.SedHost? then Some(e.cmd.host) else LastHost(t[..|t| - 1])
  }

  function LastPort(t: seq<Event>): Option<string> {
    if t == [] then None
    else
      var e := t[|t| - 1];
      if Succeeded(e) && e.cmd.SedPort? then Some(e.cmd.port) else LastPort(t[..|t| - 1])
  }

  function Written(env: seq<EnvLine>, host: Option<string>, port: Option<string>): seq<EnvLine> {
    var hosts := if host.Some? then SetHost(env, host.value) else env;
    if port.Some? then SetPort(hosts, port.value) else hosts
  }

  /** Of all substitutions only the last of each kind can be seen in the file. */
  lemma {:induction false} LastOnesCount(env: seq<EnvLine>, t: seq<Event>)
    ensures EnvAfter(env, t) == Written(env, LastHost(t), LastPort(t))
  {
    if t != [] {
      var front, e := t[..|t| - 1], t[|t| - 1];
      LastOnesCount(env, front);
      if Succeeded(e) && e.cmd.SedHost? { HostOver(env, LastHost(front), LastPort(front), e.cmd.host); }
      if Succeeded(e) && e.cmd.SedPort? { PortOver(env, LastHost(front), LastPort(front), e.cmd.port); }
    }
  }

  lemma HostOver(env: seq<EnvLine>, host: Option<string>, port: Option<string>, h: string)
    ensures SetHost(Written(env, host, port), h) == Written(env, Some(h), port)
  {}

  lemma PortOver(env: seq<EnvLine>, host: Option<string>, port: Option<string>, p: string)
    ensures SetPort(Written(env, host, port), p) == Written(env, host, Some(p))
  {}

  /** Every host line has the value `h`. */
  predicate HostsAre(env: seq<EnvLine>, h: string) { forall l | l in env && l.HostLine? :: l.value == h }

  predicate PortsAre(env: seq<EnvLine>, p: string) { forall l | l in env && l.PortLine? :: l.value == p }

  /** The substitution of the host changes the file exactly if a host line has another value. */
  lemma SetHostChanges(env: seq<EnvLine>, h: string)
    ensures SetHost(env, h) == env <==> HostsAre(env, h)
  {
    if SetHost(env, h) == env {
      forall l | l in env && l.HostLine? ensures l.value == h {
        var i :| 0 <= i < |env| && env[i] == l;
        assert SetHost(env, h)[i] == env[i];
      }
    } else {
      var i :| 0 <= i < |env| && SetHost(env, h)[i] != env[i];
      assert env[i] in env;
    }
  }

  lemma SetPortChanges(env: seq<EnvLine>, p: string)
    ensures SetPort(env, p) == env <==> PortsAre(env, p)
  {
    if SetPort(env, p) == env {
      forall l | l in env && l.PortLine? ensures l.value == p {
        var i :| 0 <= i < |env| && env[i] == l;
        assert SetPort(env, p)[i] == env[i];
      }
    } else {
      var i :| 0 <= i < |env| && SetPort(env, p)[i] != env[i];
      assert env[i] in env;
    }
  }

  /** The last host written, if any, is the one that the file had. */
  predicate HostsStill(env: seq<EnvLine>, t: seq<Event>) {
    LastHost(t).Some? ==> HostsAre(env, LastHost(t).value)
  }

  predicate PortsStill(env: seq<EnvLine>, t: seq<Event>) {
    LastPort(t).Some? ==> PortsAre(env, LastPort(t).value)
  }

  /** The last host written, or if there was none the one that the file had, is `h`. */
  predicate HostsBecome(env: seq<EnvLine>, t: seq<Event>, h: string) {
    if LastHost(t).Some? then LastHost(t).value == h else HostsAre(env, h)
  }

  predicate PortsBecome(env: seq<EnvLine>, t: seq<Event>, p: string) {
    if LastPort(t).Some? then LastPort(t).value == p else PortsAre(env, p)
  }

  lemma LinesOf(env: seq<EnvLine>, host: Option<string>, port: Option<string>, i: nat)
    requires i < |env|
    ensures |Written(env, host, port)| == |env|
    ensures Written(env, host, port)[i] ==
            if env[i].HostLine? && host.Some? then HostLine(host.value)
            else if env[i].PortLine? && port.Some? then PortLine(port.value) else env[i]
  {}

  lemma WrittenStill(env: seq<EnvLine>, host: Option<string>, port: Option<string>)
    ensures Written(env, host, port) == env <==> (host.Some? ==> HostsAre(env, host.value)) && (port.Some? ==> PortsAre(env, port.value))
  {
    var n := Written(env, host, port);
    var hosts := if host.Some? then SetHost(env, host.value) else env;
    if host.Some? { SetHostChanges(env, host.value); }
    if port.Some? { SetPortChanges(env, port.value); }
    forall i | 0 <= i < |env| ensures n[i] == env[i] ==> hosts[i] == env[i] { LinesOf(env, host, port, i); }
    if n == env { assert hosts == env; }
  }

  lemma WrittenOn(env: seq<EnvLine>, host: Option<string>, port: Option<string>, db: Database)
    requires HasBoth(env)
    ensures OnDb(Written(env, host, port), db) <==>
              && (if host.Some? then host.value == db.host else HostsAre(env, db.host))
              && (if port.Some? then port.value == db.port else PortsAre(env, db.port))
  {
    hide Written;
    var n := Written(env, host, port);
    var hl :| hl in env && hl.HostLine?;
    var pl :| pl in env && pl.PortLine?;
    var i :| 0 <= i < |env| && env[i] == hl;
    var j :| 0 <= j < |env| && env[j] == pl;
    forall k | 0 <= k < |env|
      ensures |n| == |env|
      ensures n[k] == if env[k].HostLine? && host.Some? then HostLine(host.value)
                      else if env[k].PortLine? && port.Some? then PortLine(port.value) else env[k]
    {
      LinesOf(env, host, port, k);
    }
    assert |n| == |env| by { LinesOf(env, host, port, i); }
    assert n[i] in n && n[j] in n;
    if OnDb(n, db) {
      forall l | l in env ensures (host.None? && l.HostLine? ==> l.value == db.host) && (port.None? && l.PortLine? ==> l.value == db.port) {
        var k :| 0 <= k < |env| && env[k] == l;
        assert n[k] in n;
      }
    }
  }

  /** The file ends as it was found or on `db` exactly if the last values written, or the ones it had
      where none was written, are all those it had or all those of `db`. */
  predicate EndsWell(env: seq<EnvLine>, t: seq<Event>, db: Database) {
    || (HostsStill(env, t) && PortsStill(env, t))
    || (HostsBecome(env, t, db.host) && PortsBecome(env, t, db.port))
  }

  lemma RestoredExactly(env: seq<EnvLine>, t: seq<Event>, db: Database)
    requires HasBoth(env)
    ensures EnvAfter(env, t) == env || OnDb(EnvAfter(env, t), db) <==> EndsWell(env, t, db)
  {
    LastOnesCount(env, t);
    WrittenStill(env, LastHost(t), LastPort(t));
    WrittenOn(env, LastHost(t), LastPort(t), db);
  }

  // ---- A run that leaves a mixed file ----------------------------------------------------------

  /** Every event is a possible step from its guest to that of the next one, and the last one to `n`. */
  predicate Possible(t: seq<Event>, n: Guest) {
    forall i | 0 <= i < |t| :: Effect(t[i].cmd, t[i].before, t[i].reply, if i + 1 < |t| then t[i + 1].before else n)
  }

  /** The first swap of a run on a clean checkout: the substitution of the host works, that of the port
      does not. Neither flag is set then, so nothing is undone, and the file has the direct host with
      PGBouncer's port. */
  lemma MixedFile(cfg: Config, g: Guest) returns (t: seq<Event>, n: Guest)
    requires OnDb(g.env, cfg.pgbouncer) && g.local == map[] && g.unmerged == map[]
    requires cfg.direct.host != cfg.pgbouncer.host
    ensures t != [] && t[0].before == g && Possible(t, n)
    ensures Issued(t) == [Connect, DiffUnmerged, GitStash, SedHost(cfg.direct.host), SedPort(cfg.direct.port)]
    ensures forall i | 0 <= i < 4 :: Succeeded(t[i])
    ensures n.env == EnvAfter(g.env, t) && n.env != g.env && !OnDb(n.env, cfg.pgbouncer)
  {
    var yes, none := Done(true, [], []), Done(true, ["No local changes to save"], []);
    n := g.(env := SetHost(g.env, cfg.direct.host));
    var ready := [Event(Connect, yes, g), Event(DiffUnmerged, yes, g), Event(GitStash, none, g)];
    var host, port := Event(SedHost(cfg.direct.host), yes, g), Event(SedPort(cfg.direct.port), Done(false, [], []), n);
    t := ready + [host, port];
    assert Effect(GitStash, g, none, g) by { assert none.out[0] == "No local changes to save"; }
    assert Effect(DiffUnmerged, g, yes, g);
    assert Effect(port.cmd, n, port.reply, n);
    assert Possible(t, n) by { hide Effect; }
    EnvSame(g.env, ready);
    assert t[..4] == ready + [host] && t[..4][..3] == ready;
    assert EnvAfter(g.env, t[..4]) == n.env;
    SetHostChanges(g.env, cfg.direct.host);
    assert HostLine(cfg.pgbouncer.host) in g.env;
    RestoredExactly(g.env, t, cfg.pgbouncer);
    assert LastHost(t[..4]) == Some(cfg.direct.host);
  }

  lemma {:induction false} EnvSame(env: seq<EnvLine>, t: seq<Event>)
    requires forall e | e in t :: !e.cmd.SedHost? && !e.cmd.SedPort?
    ensures EnvAfter(env, t) == env && LastPort(t) == None
  {
    if t != [] {
      assert t[|t| - 1] in t;
      EnvSame(env, t[..|t| - 1]);
    }
  }
}
