/** Who a browser request runs as: the remember-me restore, the local-network bypass, Cloudflare Access
    and session tracking, in the order in which they are registered. */
module RequestAuth {
  import opened Text

  /** What the signed session cookie holds: the user, the opaque session id ("" if none), and whether
      the local-network bypass established the session. */
  datatype Session = Session(user: Option<int>, id: string, bypass: bool)

  const EMPTY := Session(None, "", false)

  /** A `UserSession` row, found by the hash of the opaque id. */
  datatype Row = Row(user: int, revoked: bool)

  datatype Account = Account(active: bool)

  datatype Settings = Settings(bypassEnabled: bool, trusted: set<string>, cfEnabled: bool, cfConfigured: bool, cfOnly: bool)

  /** The verdict on the Access token: missing, invalid, or valid for an account, if it names one. */
  datatype Claim = NoToken | BadToken | Identity(named: bool, account: Option<int>)

  /** The remember-me cookie, if it names an account, and whether its marker is refused. */
  datatype Remember = NoCookie | Restores(user: int, refused: bool)

  datatype Request = Request(
    path: string, headers: map<string, string>, cookies: map<string, string>, ip: Option<string>,
    remember: Remember, claim: Claim, loginPage: bool, mustChange: bool)

  /** A hook lets the request go on, or answers it. */
  datatype Step = Go(session: Session) | Halt(session: Session)

  predicate Exempt(req: Request) { "/static/" <= req.path || "/api/v1/" <= req.path }

  predicate Present(m: map<string, string>, name: string) { name in m && m[name] != "" }

  /** `_came_through_cloudflare`. */
  predicate CameThroughCloudflare(req: Request) {
    || Present(req.headers, "Cf-Access-Jwt-Assertion") || Present(req.headers, "CF-Connecting-IP")
    || Present(req.headers, "Cf-Ray") || Present(req.cookies, "CF_Authorization")
  }

  /** The conditions under which the bypass may speak for a client. */
  predicate BypassHolds(settings: Settings, req: Request) {
    settings.bypassEnabled && !CameThroughCloudflare(req) && req.ip.Some? && req.ip.value in settings.trusted
  }

  /** Static files and the mobile interface, and nothing else, get by without the hooks. */
  lemma ExemptMeans(req: Request)
    ensures Exempt(req) <==> exists rest :: req.path == "/static/" + rest || req.path == "/api/v1/" + rest
  {
    if "/static/" <= req.path { assert req.path == "/static/" + req.path[8..]; }
    if "/api/v1/" <= req.path { assert req.path == "/api/v1/" + req.path[8..]; }
  }

  /** A request is taken to have come through Cloudflare exactly if one of three headers or the Access
      cookie is there and not empty. */
  lemma CloudflareMeans(req: Request)
    ensures CameThroughCloudflare(req) <==>
            || (exists name | name in req.headers ::
                  name in ["Cf-Access-Jwt-Assertion", "CF-Connecting-IP", "Cf-Ray"] && req.headers[name] != "")
            || ("CF_Authorization" in req.cookies && req.cookies["CF_Authorization"] != "")
  {}

  /** The bypass speaks for nobody unless it is on, for nobody who came through Cloudflare, and only for
      a trusted address. */
  lemma BypassMeans(settings: Settings, req: Request, ip: string)
    requires req.ip == Some(ip)
    ensures BypassHolds(settings, req) <==> settings.bypassEnabled && ip in settings.trusted && !CameThroughCloudflare(req)
  {
    hide CameThroughCloudflare;
  }

  /** Access is in use, local login is barred, and nobody vouches for the client: there is no token and
      this is not the login page, or the token is not valid, or it is for nobody with an account. */
  predicate AccessStops(settings: Settings, req: Request) {
    && settings.cfEnabled && settings.cfConfigured && settings.cfOnly
    && match req.claim
       case NoToken => !req.loginPage
       case BadToken => true
       case Identity(named, account) => named && account.None?
  }

  // ---- What every step keeps -------------------------------------------------------------------

  type Rows = map<string, Row>

  predicate LiveIn(rows: Rows, id: string) { id in rows && !rows[id].revoked }

  /** The rows with the one under `id` revoked, if there is a live one. */
  function Revoked(rows: Rows, id: string): Rows {
    if LiveIn(rows, id) then rows[id := Row(rows[id].user, true)] else rows
  }

  /** A session with a live row names the user of the row. */
  ghost predicate Owned(s: Session, rows: Rows, used: set<string>) {
    (s.id != "" ==> s.id in used) && (LiveIn(rows, s.id) ==> s.user == Some(rows[s.id].user))
  }

  /** The ids ever drawn, those among them that have no live row, and the session cookies sent out. */
  datatype Trace = Trace(used: set<string>, dead: set<string>, issued: set<Session>)

  /** Ids are never used twice, the dead ones stay without a live row, rows belong to accounts, and the
      cookies sent out are owned. */
  ghost predicate Sound(rows: Rows, users: set<int>, t: Trace) {
    && rows.Keys <= t.used && "" !in t.used && t.dead <= t.used
    && (forall id | id in t.used :: id in t.dead <==> !LiveIn(rows, id))
    && (forall id | id in rows :: rows[id].user in users)
    && forall s | s in t.issued :: Owned(s, rows, t.used)
  }

  /** Cookies owned before are owned afterwards. */
  ghost predicate StillOwned(rows: Rows, used: set<string>, rows': Rows, used': set<string>) {
    forall s | Owned(s, rows, used) :: Owned(s, rows', used')
  }

  lemma SoundStart(rows: Rows, users: set<int>, t: Trace, user: int, raw: string)
    requires Sound(rows, users, t) && raw !in t.used && raw != "" && user in users
    ensures var now := rows[raw := Row(user, false)];
            Sound(now, users, t.(used := t.used + {raw})) && StillOwned(rows, t.used, now, t.used + {raw})
  {}

  /** An id drawn whose row was never committed is dead. */
  lemma SoundDraw(rows: Rows, users: set<int>, t: Trace, raw: string)
    requires Sound(rows, users, t) && raw !in t.used && raw != ""
    ensures Sound(rows, users, t.(used := t.used + {raw}, dead := t.dead + {raw}))
    ensures StillOwned(rows, t.used, rows, t.used + {raw})
  {}

  lemma SoundRevoke(rows: Rows, users: set<int>, t: Trace, id: string)
    requires Sound(rows, users, t) && id in rows
    ensures var now := rows[id := Row(rows[id].user, true)];
            Sound(now, users, t.(dead := t.dead + {id})) && StillOwned(rows, t.used, now, t.used)
  {}

  /** The rows of an account go with it. */
  lemma SoundRemove(rows: Rows, users: set<int>, t: Trace, user: int, gone: set<string>)
    requires Sound(rows, users, t) && gone == set id | id in rows && rows[id].user == user
    ensures Sound(rows - gone, users - {user}, t.(dead := t.dead + gone))
  {
    forall id | id in gone ensures id in t.used {}
  }

  lemma SoundIssue(rows: Rows, users: set<int>, t: Trace, s: Session)
    requires Sound(rows, users, t) && Owned(s, rows, t.used)
    ensures Sound(rows, users, t.(issued := t.issued + {s}))
  {}

  lemma SoundFacts(rows: Rows, users: set<int>, t: Trace)
    requires Sound(rows, users, t)
    ensures rows.Keys <= t.used && "" !in t.used && "" !in rows
    ensures forall id | LiveIn(rows, id) :: id !in t.dead && rows[id].user in users
    ensures Owned(EMPTY, rows, t.used)
    ensures forall s | s in t.issued :: Owned(s, rows, t.used)
  {}

  class Server {
    var rows: Rows
    var accounts: map<int, Account>
    var admin: Option<int>
    var settings: Settings
    ghost var trace: Trace

    ghost predicate Valid()
      reads this
    {
      Sound(rows, accounts.Keys, trace) && (admin.Some? ==> admin.value in accounts)
    }

    ghost predicate Mine(s: Session)
      reads this`rows, this`trace
    {
      Owned(s, rows, trace.used)
    }

    predicate ActiveUser(user: Option<int>)
      reads this`accounts
    {
      user.Some? && user.value in accounts && accounts[user.value].active
    }

    /** `current_user.is_authenticated`. */
    predicate Authenticated(s: Session)
      reads this`accounts
    {
      ActiveUser(s.user)
    }

    constructor (accounts: map<int, Account>, admin: Option<int>, settings: Settings)
      requires admin.Some? ==> admin.value in accounts
      ensures Valid() && rows == map[] && trace == Trace({}, {}, {})
      ensures this.accounts == accounts && this.admin == admin && this.settings == settings
    {
      rows, this.accounts, this.admin, this.settings := map[], accounts, admin, settings;
      trace := Trace({}, {}, {});
    }

    /** `start_session` and the commit that follows it. */
    method StartSession(s: Session, raw: string, dbFails: bool) returns (r: Session)
      requires Valid() && raw !in trace.used && raw != "" && s.user.Some? && s.user.value in accounts
      modifies this`rows, this`trace
      ensures Valid() && r == s.(id := raw) && Mine(r)
      ensures rows == if dbFails then old(rows) else old(rows)[raw := Row(s.user.value, false)]
      ensures trace == old(trace).(used := old(trace).used + {raw},
                                   dead := if dbFails then old(trace).dead + {raw} else old(trace).dead)
      ensures StillOwned(old(rows), old(trace).used, rows, trace.used)
    {
      hide Sound, StillOwned;
      r := s.(id := raw);
      SoundFacts(rows, accounts.Keys, trace);
      if dbFails {
        SoundDraw(rows, accounts.Keys, trace, raw);
        trace := trace.(used := trace.used + {raw}, dead := trace.dead + {raw});
      } else {
        SoundStart(rows, accounts.Keys, trace, s.user.value, raw);
        rows, trace := rows[raw := Row(s.user.value, false)], trace.(used := trace.used + {raw});
      }
    }

    /** `revoke_current_session` and the commit that follows it. */
    method RevokeSession(s: Session)
      requires Valid()
      modifies this`rows, this`trace
      ensures Valid() && !LiveIn(rows, s.id)
      ensures if old(LiveIn(rows, s.id))
              then rows == old(rows)[s.id := Row(old(rows)[s.id].user, true)] && trace == old(trace).(dead := old(trace).dead + {s.id})
              else rows == old(rows) && trace == old(trace)
      ensures StillOwned(old(rows), old(trace).used, rows, trace.used)
    {
      hide Sound;
      if s.id != "" && s.id in rows && !rows[s.id].revoked {
        SoundRevoke(rows, accounts.Keys, trace, s.id);
        rows, trace := rows[s.id := Row(rows[s.id].user, true)], trace.(dead := trace.dead + {s.id});
      } else {
        SoundFacts(rows, accounts.Keys, trace);
      }
    }

    /** The answer of the restore and the rows after it. A user who is known keeps the session; the
        remember-me cookie only counts for an unknown one. */
    ghost function RestoreGives(was: Rows, req: Request, s: Session, raw: string, dbFails: bool): (Step, Rows)
      reads this`accounts
    {
      if s.user.Some? && s.user.value in accounts then
        (if Authenticated(s) && req.mustChange then Halt(s) else Go(s), was)
      else
        match req.remember
        case NoCookie => (Go(s), was)
        case Restores(user, false) =>
          var now := Session(Some(user), raw, s.bypass);
          (if req.mustChange then Halt(now) else Go(now), if dbFails then was else was[raw := Row(user, false)])
        case Restores(user, true) =>
          (if ActiveUser(Some(user)) then Halt(Session(None, "", s.bypass)) else Go(s.(user := Some(user))), was)
    }

    /** The remember-me restore of Flask-Login with its signal handler, and the hook that follows it. */
    method Restore(req: Request, s: Session, raw: string, dbFails: bool) returns (r: Step)
      requires Valid() && raw !in trace.used && raw != ""
      requires req.remember.Restores? && !req.remember.refused ==> ActiveUser(Some(req.remember.user))
      modifies this`rows, this`trace
      ensures Valid() && Grown(old(trace), trace) && trace.used <= old(trace).used + {raw}
      ensures old(Mine(s)) ==> Mine(r.session)
      ensures Authenticated(s) ==> r == (if req.mustChange then Halt(s) else Go(s)) && rows == old(rows) && trace == old(trace)
      ensures r.Go? ==> r.session.bypass == s.bypass
      ensures (r, rows) == RestoreGives(old(rows), req, s, raw, dbFails)
      ensures !Authenticated(s) && Authenticated(r.session) ==>
                req.remember.Restores? && !req.remember.refused && r.session.user == Some(req.remember.user)
    {
      hide Sound, StillOwned;
      var now := s;
      var refused := false;
      ghost var mine := Mine(s);
      SoundFacts(rows, accounts.Keys, trace);
      if !(s.user.Some? && s.user.value in accounts) && req.remember.Restores? {
        now := now.(user := Some(req.remember.user));
        if req.remember.refused {
          refused := true;
        } else {
          now := StartSession(now, raw, dbFails);
        }
      }
      if !Authenticated(now) { return Go(now); }
      if refused {
        return Halt(now.(user := None, id := ""));
      }
      return if req.mustChange then Halt(now) else Go(now);
    }

    /** `_local_network_bypass`. */
    method LocalBypass(req: Request, s: Session, raw: string, dbFails: bool) returns (r: Step)
      requires Valid() && raw !in trace.used && raw != ""
      modifies this`rows, this`trace
      ensures Valid() && Grown(old(trace), trace) && trace.used <= old(trace).used + {raw}
      ensures old(Mine(s)) ==> Mine(r.session)
      ensures r.Go? && Authenticated(r.session) && r.session.bypass ==> BypassHolds(settings, req)
      ensures Authenticated(s) && (s.bypass ==> BypassHolds(settings, req)) ==> r == Go(s) && rows == old(rows) && trace == old(trace)
      ensures Authenticated(s) && s.bypass && !BypassHolds(settings, req) ==>
                if dbFails then r == Halt(s) && rows == old(rows)
                else r == Go(Session(None, "", false)) && !LiveIn(rows, s.id) && rows == Revoked(old(rows), s.id)
      ensures !Authenticated(s) ==>
                if BypassHolds(settings, req) && ActiveUser(admin)
                then if dbFails then r == Halt(Session(admin, raw, true)) && rows == old(rows)
                     else r == Go(Session(admin, raw, true)) && rows == old(rows)[raw := Row(admin.value, false)]
                else r == Go(s) && rows == old(rows) && trace == old(trace)
    {
      hide Sound, StillOwned, CameThroughCloudflare;
      SoundFacts(rows, accounts.Keys, trace);
      if Authenticated(s) {
        if s.bypass && !BypassHolds(settings, req) {
          if dbFails { return Halt(s); }
          RevokeSession(s);
          SoundFacts(rows, accounts.Keys, trace);
          return Go(EMPTY);
        }
        return Go(s);
      }
      if !settings.bypassEnabled { return Go(s); }
      if CameThroughCloudflare(req) { return Go(s); }
      if !(req.ip.Some? && req.ip.value in settings.trusted) { return Go(s); }
      if ActiveUser(admin) {
        var now := StartSession(EMPTY.(user := admin), raw, dbFails);
        now := now.(bypass := true);
        return if dbFails then Halt(now) else Go(now);
      }
      return Go(s);
    }

    /** Access is in use and vouches for an active account. */
    predicate AccessLogsIn(req: Request)
      reads this`accounts, this`settings
    {
      && settings.cfEnabled && settings.cfConfigured
      && req.claim.Identity? && req.claim.named && ActiveUser(req.claim.account)
    }

    /** `_check_cf_access`. */
    method CloudflareAccess(req: Request, s: Session, raw: string, dbFails: bool) returns (r: Step)
      requires Valid() && raw !in trace.used && raw != ""
      modifies this`rows, this`trace
      ensures Valid() && Grown(old(trace), trace) && trace.used <= old(trace).used + {raw}
      ensures old(Mine(s)) ==> Mine(r.session)
      ensures Authenticated(s) ==> r == Go(s) && rows == old(rows) && trace == old(trace)
      ensures !Authenticated(s) && Authenticated(r.session) ==>
                && settings.cfEnabled && settings.cfConfigured && req.claim.Identity? && req.claim.named
                && r.session == Session(req.claim.account, raw, false)
      ensures !Authenticated(s) && !Authenticated(r.session) ==> r.session == s && rows == old(rows) && trace == old(trace)
      ensures !Authenticated(s) && AccessLogsIn(req) ==>
                if dbFails then r == Halt(Session(req.claim.account, raw, false)) && rows == old(rows)
                else r == Go(Session(req.claim.account, raw, false)) && rows == old(rows)[raw := Row(req.claim.account.value, false)]
      ensures !Authenticated(s) && !AccessLogsIn(req) ==>
                r == (if AccessStops(settings, req) then Halt(s) else Go(s)) && rows == old(rows) && trace == old(trace)
    {
      hide Sound, StillOwned;
      if Authenticated(s) { return Go(s); }
      if !settings.cfEnabled || !settings.cfConfigured { return Go(s); }
      match req.claim
      case NoToken =>
        return if settings.cfOnly && !req.loginPage then Halt(s) else Go(s);
      case BadToken =>
        return if settings.cfOnly then Halt(s) else Go(s);
      case Identity(named, account) =>
        if named {
          if ActiveUser(account) {
            var now := StartSession(EMPTY.(user := account), raw, dbFails);
            return if dbFails then Halt(now) else Go(now);
          } else if account.None? && settings.cfOnly {
            return Halt(s);
          }
        }
        return Go(s);
    }

    /** `_enforce_session_state`. */
    method EnforceSession(s: Session) returns (r: Session)
      requires Valid()
      ensures Authenticated(r) ==> LiveIn(rows, r.id)
      ensures r == if !Authenticated(s) || LiveIn(rows, s.id) then s else s.(user := None, id := "")
      ensures Mine(s) ==> Mine(r)
    {
      hide Sound;
      SoundFacts(rows, accounts.Keys, trace);
      if !Authenticated(s) { return s; }
      if s.id == "" { return s.(user := None); }
      if s.id !in rows || rows[s.id].revoked { return s.(user := None, id := ""); }
      return s;
    }

    /** The answer of the three hooks and the rows after them, when the database works. */
    ghost function HooksGive(was: Rows, req: Request, s: Session, draws: (string, string)): (Step, Rows)
      reads this`accounts, this`settings, this`admin
    {
      var holds := BypassHolds(settings, req);
      if Authenticated(s) && (s.bypass ==> holds) then
        (Go(if LiveIn(was, s.id) then s else Session(None, "", s.bypass)), was)
      else if !Authenticated(s) && holds && ActiveUser(admin) then
        (Go(Session(admin, draws.0, true)), was[draws.0 := Row(admin.value, false)])
      else
        var left := if Authenticated(s) then Session(None, "", false) else s;
        var rest := if Authenticated(s) then Revoked(was, s.id) else was;
        if AccessLogsIn(req) then
          (Go(Session(req.claim.account, draws.1, false)), rest[draws.1 := Row(req.claim.account.value, false)])
        else (if AccessStops(settings, req) then Halt(left) else Go(left), rest)
    }

    /** The three hooks, in the order in which they are registered. */
    method ThreeHooks(req: Request, s: Session, draws: (string, string), dbFails: (bool, bool)) returns (r: Step)
      requires Valid() && draws.0 != draws.1 && draws.0 !in trace.used && draws.1 !in trace.used && draws.0 != "" && draws.1 != ""
      modifies this`rows, this`trace
      ensures Valid() && Grown(old(trace), trace)
      ensures old(Mine(s)) ==> Mine(r.session)
      ensures r.Go? && Authenticated(r.session) ==>
                LiveIn(rows, r.session.id) && (r.session.bypass ==> BypassHolds(settings, req))
      ensures Authenticated(s) && old(LiveIn(rows, s.id)) && (s.bypass ==> BypassHolds(settings, req)) ==>
                r == Go(s) && rows == old(rows)
      ensures !dbFails.0 && !dbFails.1 ==> (r, rows) == HooksGive(old(rows), req, s, draws)
      ensures !Authenticated(s) && !BypassHolds(settings, req) && AccessLogsIn(req) && !dbFails.1 ==>
                && r == Go(Session(req.claim.account, draws.1, false))
                && rows == old(rows)[draws.1 := Row(req.claim.account.value, false)]
    {
      hide Sound, StillOwned, Owned, BypassHolds, CameThroughCloudflare, AccessStops;
      r := LocalBypass(req, s, draws.0, dbFails.0);
      if r.Halt? { return; }
      r := CloudflareAccess(req, r.session, draws.1, dbFails.1);
      if r.Halt? { return; }
      var now := EnforceSession(r.session);
      return Go(now);
    }

    /** The answer to a request up to the view and the rows after it, when the database works. */
    ghost function RequestGives(was: Rows, req: Request, cookie: Session, draws: (string, string, string)): (Step, Rows)
      reads this`accounts, this`settings, this`admin
    {
      if Exempt(req) then (Go(cookie), was)
      else
        var first := RestoreGives(was, req, cookie, draws.0, false);
        if first.0.Halt? then first else HooksGive(first.1, req, first.0.session, (draws.1, draws.2))
    }

    /** One request up to the view that answers it, with whatever cookie the client sends. */
    method Handle(req: Request, cookie: Session, draws: (string, string, string), dbFails: (bool, bool, bool)) returns (r: Step)
      requires Valid() && draws.0 != draws.1 && draws.0 != draws.2 && draws.1 != draws.2
      requires forall d | d in {draws.0, draws.1, draws.2} :: d !in trace.used && d != ""
      requires req.remember.Restores? && !req.remember.refused ==> ActiveUser(Some(req.remember.user))
      modifies this`rows, this`trace
      ensures Valid() && Grown(old(trace), trace)
      ensures r.Go? && Authenticated(r.session) && !Exempt(req) ==>
                && LiveIn(rows, r.session.id) && r.session.id !in trace.dead
                && (r.session.bypass ==> BypassHolds(settings, req))
                && (cookie == EMPTY || cookie in old(trace).issued ==> r.session.user == Some(rows[r.session.id].user))
      ensures Authenticated(cookie) && old(LiveIn(rows, cookie.id)) && (cookie.bypass ==> BypassHolds(settings, req)) && !req.mustChange ==>
                r == Go(cookie) && rows == old(rows)
      ensures !dbFails.0 && !dbFails.1 && !dbFails.2 ==> (r, rows) == RequestGives(old(rows), req, cookie, draws)
      ensures !dbFails.2 && !Exempt(req) && !Authenticated(cookie) && req.remember.NoCookie? && !BypassHolds(settings, req)
              && settings.cfEnabled && settings.cfConfigured && req.claim.Identity? && req.claim.named && ActiveUser(req.claim.account) ==>
                && r == Go(Session(req.claim.account, draws.2, false))
                && rows == old(rows)[draws.2 := Row(req.claim.account.value, false)]
    {
      hide Sound, Owned, BypassHolds, LiveIn, Exempt, ActiveUser;
      SoundFacts(rows, accounts.Keys, trace);
      ghost var genuine := cookie == EMPTY || cookie in trace.issued;
      if Exempt(req) { return Go(cookie); }
      r := Restore(req, cookie, draws.0, dbFails.0);
      if r.Go? {
        r := ThreeHooks(req, r.session, (draws.1, draws.2), (dbFails.1, dbFails.2));
      }
      SoundFacts(rows, accounts.Keys, trace);
      if genuine {
        OwnedMeans(r.session, rows, trace.used);
        Issue(r.session);
      }
    }

    ghost method Issue(s: Session)
      requires Valid() && Mine(s)
      modifies this`trace
      ensures Valid() && trace == old(trace).(issued := old(trace).issued + {s})
    {
      hide Sound, Owned;
      SoundIssue(rows, accounts.Keys, trace, s);
      trace := trace.(issued := trace.issued + {s});
    }

    /** The login form, once the password is right. */
    method Login(user: int, raw: string, dbFails: bool) returns (s: Session)
      requires Valid() && ActiveUser(Some(user)) && raw !in trace.used && raw != ""
      modifies this`rows, this`trace
      ensures Valid() && Grown(old(trace), trace) && s == Session(Some(user), raw, false) && s in trace.issued
      ensures rows == if dbFails then old(rows) else old(rows)[raw := Row(user, false)]
    {
      s := StartSession(EMPTY.(user := Some(user)), raw, dbFails);
      Issue(s);
    }

    /** The logout view: the session's row is revoked before the user goes. */
    method Logout(s: Session) returns (r: Session)
      requires Valid() && s in trace.issued
      modifies this`rows, this`trace
      ensures Valid() && Grown(old(trace), trace) && r == s.(user := None) && r in trace.issued && !LiveIn(rows, s.id)
      ensures s.id != "" ==> s.id in trace.dead
    {
      hide Sound;
      SoundFacts(rows, accounts.Keys, trace);
      RevokeSession(s);
      r := s.(user := None);
      DeadMeans(rows, accounts.Keys, trace, s.id);
      Issue(r);
    }

    /** A row is revoked from the sessions page, or with a password change. */
    method Revoke(id: string)
      requires Valid() && id in rows
      modifies this`rows, this`trace
      ensures Valid() && Grown(old(trace), trace) && rows == old(rows)[id := Row(old(rows)[id].user, true)] && id in trace.dead
    {
      hide Sound;
      SoundRevoke(rows, accounts.Keys, trace, id);
      rows, trace := rows[id := Row(rows[id].user, true)], trace.(dead := trace.dead + {id});
    }

    /** An account is deleted, and its rows with it. */
    method RemoveAccount(user: int)
      requires Valid()
      modifies this`rows, this`accounts, this`admin, this`trace
      ensures Valid() && Grown(old(trace), trace) && accounts == old(accounts) - {user}
      ensures admin == if old(admin) == Some(user) then None else old(admin)
      ensures forall id | id in old(rows) && old(rows)[id].user == user :: id !in rows && id in trace.dead
      ensures forall id | id in old(rows) && old(rows)[id].user != user :: id in rows && rows[id] == old(rows)[id]
    {
      hide Sound;
      var gone := set id | id in rows && rows[id].user == user;
      SoundRemove(rows, accounts.Keys, trace, user, gone);
      rows, accounts, trace := rows - gone, accounts - {user}, trace.(dead := trace.dead + gone);
      if admin == Some(user) { admin := None; }
      assert accounts.Keys == old(accounts).Keys - {user};
    }

    /** An account is created, or activated or deactivated. */
    method PutAccount(user: int, account: Account)
      requires Valid()
      modifies this`accounts
      ensures Valid() && accounts == old(accounts)[user := account]
    {
      hide Sound;
      SoundMore(rows, accounts.Keys, trace, user);
      accounts := accounts[user := account];
      assert accounts.Keys == old(accounts).Keys + {user};
    }

    /** The settings change, or who the bypass logs in as. */
    method Configure(settings: Settings, admin: Option<int>)
      requires Valid() && (admin.Some? ==> admin.value in accounts)
      modifies this`settings, this`admin
      ensures Valid() && this.settings == settings && this.admin == admin
    {
      this.settings, this.admin := settings, admin;
    }
  }

  lemma DeadMeans(rows: Rows, users: set<int>, t: Trace, id: string)
    requires Sound(rows, users, t)
    ensures id in t.used && !LiveIn(rows, id) ==> id in t.dead
  {}

  lemma SoundMore(rows: Rows, users: set<int>, t: Trace, user: int)
    requires Sound(rows, users, t)
    ensures Sound(rows, users + {user}, t)
  {}

  lemma OwnedMeans(s: Session, rows: Rows, used: set<string>)
    requires Owned(s, rows, used)
    ensures LiveIn(rows, s.id) ==> s.user == Some(rows[s.id].user)
  {}

  /** Nothing is forgotten: ids drawn stay drawn, dead ones stay dead, cookies sent out stay out. */
  ghost predicate Grown(was: Trace, now: Trace) {
    was.used <= now.used && was.dead <= now.dead && was.issued <= now.issued
  }
}
