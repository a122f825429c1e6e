/** The per-application upgrade locks, as a protocol between any number of threads. */
module UpgradeLock {
  import opened Text

  type App = string
  type Client = nat

  /** A `threading.Lock` object, by its identity. It has no owner. */
  type Lock = nat

  datatype Purpose = Acquire | Release

  /** Where a client is: outside; before, inside and at the end of the guarded lookup; past it, with the
      lock object in hand; or in the body of `with upgrade_lock(app) as acquired`. */
  datatype Pc =
    | Outside
    | Waits(app: App, why: Purpose)
    | InGuard(app: App, why: Purpose)
    | Found(app: App, why: Purpose, lock: Lock)
    | Holds(app: App, why: Purpose, lock: Lock)
    | Body(app: App, acquired: bool)

  /** `_UPGRADE_LOCKS`, the lock objects made so far, those that are locked, who is inside the guard,
      and where everybody is. */
  datatype State = State(locks: map<App, Lock>, made: nat, locked: set<Lock>, guard: Option<Client>, pcs: map<Client, Pc>) {
    function Pc(c: Client): Pc { if c in pcs then pcs[c] else Outside }
    function Move(c: Client, pc: Pc): State { this.(pcs := pcs[c := pc]) }
  }

  const START := State(map[], 0, {}, None, map[])

  /** One atomic step of client `c`. With `strays`, a client may call `release_upgrade_lock` for an
      application whose lock it does not hold. */
  ghost predicate Step(s: State, t: State, c: Client, strays: bool) {
    match s.Pc(c)
    case Outside =>
      exists app :: t == s.Move(c, Waits(app, Acquire)) || (strays && t == s.Move(c, Waits(app, Release)))
    case Waits(app, why) =>
      s.guard.None? && t == s.(guard := Some(c)).Move(c, InGuard(app, why))
    case InGuard(app, why) =>
      if app in s.locks then t == s.Move(c, Found(app, why, s.locks[app]))
      else t == s.(locks := s.locks[app := s.made], made := s.made + 1).Move(c, Found(app, why, s.made))
    case Found(app, why, lock) =>
      t == s.(guard := None).Move(c, Holds(app, why, lock))
    case Holds(app, why, lock) =>
      if why.Release? then t == s.(locked := s.locked - {lock}).Move(c, Outside)
      else if lock in s.locked then t == s.Move(c, Body(app, false))
      else t == s.(locked := s.locked + {lock}).Move(c, Body(app, true))
    case Body(app, acquired) =>
      t == s.Move(c, if acquired then Waits(app, Release) else Outside)
  }

  /** A run, and who took each step. */
  ghost predicate Run(states: seq<State>, who: seq<Client>, strays: bool) {
    && |states| == |who| + 1 && states[0] == START
    && forall i | 0 <= i < |who| :: Step(states[i], states[i + 1], who[i], strays)
  }

  // ---- The invariant ---------------------------------------------------------------------------

  /** The client has acquired the lock of the application and not yet released it. */
  predicate Owns(s: State, c: Client, app: App) {
    match s.Pc(c)
    case Outside => false
    case Body(a, acquired) => a == app && acquired
    case Waits(a, why) => a == app && why.Release?
    case InGuard(a, why) => a == app && why.Release?
    case Found(a, why, _) => a == app && why.Release?
    case Holds(a, why, _) => a == app && why.Release?
  }

  predicate Guarding(s: State, c: Client) { s.Pc(c).InGuard? || s.Pc(c).Found? }

  /** The lock a client has in hand is the one of its application. */
  predicate RightLock(s: State, c: Client) {
    s.Pc(c).Found? || s.Pc(c).Holds? ==> s.Pc(c).app in s.locks && s.locks[s.Pc(c).app] == s.Pc(c).lock
  }

  /** Every application has a lock of its own. */
  predicate OwnLocks(s: State) {
    && (forall a | a in s.locks :: s.locks[a] < s.made)
    && (forall a, b | a in s.locks && b in s.locks && a != b :: s.locks[a] != s.locks[b])
    && forall l | l in s.locked :: l < s.made
  }

  predicate IsLocked(s: State, app: App) { app in s.locks && s.locks[app] in s.locked }

  /** Clients inside the guard are the one it was given to, and have the right locks in hand. */
  ghost predicate Guarded(s: State) {
    forall c: Client :: RightLock(s, c) && (s.guard == Some(c) <==> Guarding(s, c))
  }

  /** A lock is locked exactly while a client owns it, and only one does. */
  ghost predicate OneOwner(s: State) {
    && (forall c: Client, app | Owns(s, c, app) :: IsLocked(s, app))
    && (forall c: Client, d: Client, app | Owns(s, c, app) && Owns(s, d, app) :: c == d)
    && forall app | IsLocked(s, app) :: exists c: Client :: Owns(s, c, app)
  }

  ghost predicate Invariant(s: State) { OwnLocks(s) && Guarded(s) && OneOwner(s) }

  /** Only `c` has moved. */
  ghost predicate Moved(s: State, t: State, c: Client) { forall d: Client | d != c :: t.Pc(d) == s.Pc(d) }

  predicate LocksStay(s: State, t: State) { forall a | a in s.locks :: a in t.locks && t.locks[a] == s.locks[a] }

  lemma AtStart()
    ensures Invariant(START)
  {}

  lemma GuardedMore(s: State, t: State, c: Client)
    requires Guarded(s) && Moved(s, t, c) && LocksStay(s, t) && RightLock(t, c)
    requires t.guard == Some(c) <==> Guarding(t, c)
    requires t.guard == s.guard || s.guard == Some(c) || (s.guard.None? && t.guard == Some(c))
    requires s.guard == Some(c) ==> t.guard == Some(c) || t.guard == None
    ensures Guarded(t)
  {
    forall d: Client | d != c ensures RightLock(t, d) && (t.guard == Some(d) <==> Guarding(t, d)) {
      assert RightLock(s, d) && (s.guard == Some(d) <==> Guarding(s, d));
    }
  }

  /** A step in which nobody comes to own a lock, or ceases to. */
  lemma OwnersSame(s: State, t: State, c: Client)
    requires OneOwner(s) && Moved(s, t, c)
    requires forall app :: Owns(t, c, app) == Owns(s, c, app)
    requires forall app :: IsLocked(t, app) == IsLocked(s, app)
    ensures OneOwner(t)
  {
    hide IsLocked;
    forall d: Client, app ensures Owns(t, d, app) == Owns(s, d, app) {}
    forall app | IsLocked(t, app) ensures exists d: Client :: Owns(t, d, app) {
      var d: Client :| Owns(s, d, app);
      assert Owns(t, d, app);
    }
  }

  /** A step in which `c` locks the free lock of `app`. */
  lemma OwnerComes(s: State, t: State, c: Client, app: App)
    requires OneOwner(s) && Moved(s, t, c) && !IsLocked(s, app)
    requires forall a :: Owns(t, c, a) <==> a == app
    requires forall a :: !Owns(s, c, a)
    requires forall a :: IsLocked(t, a) <==> IsLocked(s, a) || a == app
    ensures OneOwner(t)
  {
    hide IsLocked;
    forall d: Client, a ensures Owns(t, d, a) <==> Owns(s, d, a) || (d == c && a == app) {}
    forall a | IsLocked(t, a) ensures exists d: Client :: Owns(t, d, a) {
      if a == app {
        assert Owns(t, c, a);
      } else {
        var d: Client :| Owns(s, d, a);
        assert Owns(t, d, a);
      }
    }
  }

  /** A step in which `c` unlocks the lock of `app`, which it owns. */
  lemma OwnerGoes(s: State, t: State, c: Client, app: App)
    requires OneOwner(s) && Moved(s, t, c)
    requires forall a :: Owns(s, c, a) <==> a == app
    requires forall a :: !Owns(t, c, a)
    requires forall a :: IsLocked(t, a) <==> IsLocked(s, a) && a != app
    ensures OneOwner(t)
  {
    hide IsLocked;
    assert Owns(s, c, app);
    forall d: Client, a ensures Owns(t, d, a) <==> Owns(s, d, a) && a != app { if d != c && a == app && Owns(s, d, a) {} }
    forall a | IsLocked(t, a) ensures exists d: Client :: Owns(t, d, a) {
      var d: Client :| Owns(s, d, a);
      assert Owns(t, d, a);
    }
  }

  lemma Keeps(s: State, t: State, c: Client)
    requires Invariant(s) && Step(s, t, c, false)
    ensures Invariant(t) && LocksStay(s, t)
  {
    hide OneOwner;
    assert RightLock(s, c) && (s.guard == Some(c) <==> Guarding(s, c));
    assert Moved(s, t, c);
    GuardedMore(s, t, c);
    if s.Pc(c).Holds? && s.Pc(c).why.Release? {
      OwnerGoes(s, t, c, s.Pc(c).app);
    } else if s.Pc(c).Holds? && s.Pc(c).lock !in s.locked {
      OwnerComes(s, t, c, s.Pc(c).app);
    } else {
      OwnersSame(s, t, c);
    }
  }

  // ---- Every interleaving ----------------------------------------------------------------------

  lemma {:induction false} Reachable(states: seq<State>, who: seq<Client>, i: nat)
    requires Run(states, who, false) && i < |states|
    ensures Invariant(states[i])
  {
    hide Invariant, Step;
    if i == 0 {
      AtStart();
    } else {
      Reachable(states, who, i - 1);
      assert Step(states[i - 1], states[i - 1 + 1], who[i - 1], false);
      Keeps(states[i - 1], states[i], who[i - 1]);
    }
  }

  /** At most one client is in the body with the lock of an application. */
  lemma MutualExclusion(states: seq<State>, who: seq<Client>, i: nat, c: Client, d: Client, app: App)
    requires Run(states, who, false) && i < |states|
    requires states[i].Pc(c) == Body(app, true) && states[i].Pc(d) == Body(app, true)
    ensures c == d
  {
    hide Run;
    Reachable(states, who, i);
    assert Owns(states[i], c, app) && Owns(states[i], d, app);
  }

  /** One application always maps to the same lock, and no other one does. */
  lemma {:induction false} SameLock(states: seq<State>, who: seq<Client>, i: nat, j: nat, app: App)
    requires Run(states, who, false) && i <= j < |states| && app in states[i].locks
    ensures app in states[j].locks && states[j].locks[app] == states[i].locks[app]
    ensures forall b | b in states[j].locks && b != app :: states[j].locks[b] != states[i].locks[app]
  {
    hide Step, Invariant;
    Reachable(states, who, j);
    OwnLocksOf(states[j]);
    if i < j {
      SameLock(states, who, i, j - 1, app);
      Reachable(states, who, j - 1);
      assert Step(states[j - 1], states[j - 1 + 1], who[j - 1], false);
      Keeps(states[j - 1], states[j], who[j - 1]);
    }
  }

  lemma OwnLocksOf(s: State)
    requires Invariant(s)
    ensures forall a, b | a in s.locks && b in s.locks && a != b :: s.locks[a] != s.locks[b]
  {}

  /** The non-blocking acquire fails exactly when another client owns the lock of the same application;
      what clients of other applications do is of no account. */
  lemma RefusedExactly(s: State, t: State, c: Client)
    requires Invariant(s) && Step(s, t, c, false) && s.Pc(c).Holds? && s.Pc(c).why.Acquire?
    ensures t.Pc(c).Body? && t.Pc(c).app == s.Pc(c).app
    ensures !t.Pc(c).acquired <==> exists d: Client :: d != c && Owns(s, d, s.Pc(c).app)
  {
    var app := s.Pc(c).app;
    assert RightLock(s, c);
    assert !Owns(s, c, app);
    assert t.Pc(c) == Body(app, !IsLocked(s, app));
    if d: Client :| Owns(s, d, app) { assert IsLocked(s, app); }
    if IsLocked(s, app) { var d: Client :| Owns(s, d, app); }
  }

  /** Only inside the guard's short queue can a client be made to wait: everyone else can always go on. */
  lemma NobodyBlocks(s: State, c: Client)
    requires !(s.Pc(c).Waits? && s.guard.Some?)
    ensures exists t :: Step(s, t, c, false)
  {
    match s.Pc(c)
    case Outside => assert Step(s, s.Move(c, Waits("", Acquire)), c, false);
    case Waits(app, why) => assert Step(s, s.(guard := Some(c)).Move(c, InGuard(app, why)), c, false);
    case InGuard(app, why) =>
      var t := if app in s.locks then s.Move(c, Found(app, why, s.locks[app]))
               else s.(locks := s.locks[app := s.made], made := s.made + 1).Move(c, Found(app, why, s.made));
      assert Step(s, t, c, false);
    case Found(app, why, lock) => assert Step(s, s.(guard := None).Move(c, Holds(app, why, lock)), c, false);
    case Holds(app, why, lock) =>
      var t := if why.Release? then s.(locked := s.locked - {lock}).Move(c, Outside)
               else if lock in s.locked then s.Move(c, Body(app, false))
               else s.(locked := s.locked + {lock}).Move(c, Body(app, true));
      assert Step(s, t, c, false);
    case Body(app, acquired) => assert Step(s, s.Move(c, if acquired then Waits(app, Release) else Outside), c, false);
  }

  /** And whoever is inside the guard leaves it with its next one or two steps. */
  lemma GuardFrees(s: State, t: State, u: State, d: Client)
    requires Invariant(s) && s.guard == Some(d) && Step(s, t, d, false)
    ensures t.guard.None? || (t.guard == Some(d) && (Step(t, u, d, false) ==> u.guard.None?))
  {
    assert Guarding(s, d);
  }

  // ---- Why the release must be the owner's -----------------------------------------------------

  /** A release changes nothing exactly when nobody has locked the lock of the application: for a second
      release that is so only as long as no other client has got in. */
  lemma ReleaseIsNoOp(s: State, t: State, c: Client)
    requires Guarded(s) && Step(s, t, c, true) && s.Pc(c).Holds? && s.Pc(c).why.Release?
    ensures t.locked == s.locked <==> !IsLocked(s, s.Pc(c).app)
  {
    assert RightLock(s, c);
  }

  predicate Inside(s: State, c: Client, app: App) { s.Pc(c) == Body(app, true) }

  /** `c` is about to release the lock of an application while another client is in the body with it. */
  ghost predicate ReleasesUnder(s: State, c: Client, app: App) {
    && s.Pc(c).Holds? && s.Pc(c).why.Release? && s.Pc(c).app == app
    && exists d: Client :: Inside(s, d, app)
  }

  /** What holds, even with stray releases, until a lock is released under a client. */
  ghost predicate BodySafe(s: State) {
    && OwnLocks(s) && Guarded(s)
    && (forall c: Client, app | Inside(s, c, app) :: IsLocked(s, app))
    && forall c: Client, d: Client, app | Inside(s, c, app) && Inside(s, d, app) :: c == d
  }

  lemma BodyKeeps(s: State, t: State, c: Client)
    requires BodySafe(s) && Step(s, t, c, true) && forall app :: !ReleasesUnder(s, c, app)
    ensures BodySafe(t)
  {
    assert RightLock(s, c) && (s.guard == Some(c) <==> Guarding(s, c));
    assert Moved(s, t, c);
    GuardedMore(s, t, c);
    forall d: Client, app | d != c ensures Inside(t, d, app) <==> Inside(s, d, app) {}
    forall d: Client, app | d != c && Inside(t, d, app) ensures IsLocked(s, app) { assert Inside(s, d, app); }
    if s.Pc(c).Holds? && s.Pc(c).why.Release? {
      var freed := s.Pc(c).app;
      assert !ReleasesUnder(s, c, freed);
      forall d: Client, app | Inside(t, d, app) ensures IsLocked(t, app) {
        assert d != c && Inside(s, d, app) && app != freed;
      }
    } else {
      forall d: Client, app | Inside(t, d, app) ensures IsLocked(t, app) {
        if d != c { assert Inside(s, d, app); }
      }
    }
    forall d: Client, e: Client, app | Inside(t, d, app) && Inside(t, e, app) ensures d == e {
      if d != c && e != c { assert Inside(s, d, app) && Inside(s, e, app); }
    }
  }

  lemma {:induction false} BodySafeUntil(states: seq<State>, who: seq<Client>, i: nat)
    requires Run(states, who, true) && i < |states|
    requires forall j, app | 0 <= j < i :: !ReleasesUnder(states[j], who[j], app)
    ensures BodySafe(states[i])
  {
    hide Step, ReleasesUnder;
    if i == 0 {
      AtStart();
      assert forall c: Client, app :: !Inside(START, c, app);
    } else {
      BodySafeUntil(states, who, i - 1);
      assert Step(states[i - 1], states[i - 1 + 1], who[i - 1], true);
      BodyKeeps(states[i - 1], states[i], who[i - 1]);
    }
  }

  /** With stray releases, two clients get into one body only after a release of the lock under a client
      that was in it. */
  lemma OnlyByStrayRelease(states: seq<State>, who: seq<Client>, i: nat, c: Client, d: Client, app: App)
    requires Run(states, who, true) && i < |states| && c != d
    requires states[i].Pc(c) == Body(app, true) && states[i].Pc(d) == Body(app, true)
    ensures exists j, a | 0 <= j < i :: ReleasesUnder(states[j], who[j], a)
  {
    hide Step, ReleasesUnder;
    assert Inside(states[i], c, app) && Inside(states[i], d, app);
    if forall j, a | 0 <= j < i :: !ReleasesUnder(states[j], who[j], a) { BodySafeUntil(states, who, i); }
  }

  ghost predicate Path(states: seq<State>, who: seq<Client>) {
    && |states| == |who| + 1
    && forall i | 0 <= i < |who| :: Step(states[i], states[i + 1], who[i], true)
  }

  lemma Joined(a: seq<State>, x: seq<Client>, b: seq<State>, y: seq<Client>)
    requires Path(a, x) && Path(b, y) && a[|a| - 1] == b[0]
    ensures Path(a + b[1..], x + y)
  {
    hide Step;
    var states, who := a + b[1..], x + y;
    forall i | 0 <= i < |who| ensures Step(states[i], states[i + 1], who[i], true) {
      if i < |x| {
        assert Step(a[i], a[i + 1], x[i], true);
      } else {
        assert Step(b[i - |x|], b[i - |x| + 1], y[i - |x|], true);
      }
    }
  }

  /** A client outside gets hold of the lock object, to acquire or to release it. */
  lemma LookedUp(s: State, c: Client, app: App, why: Purpose) returns (path: seq<State>)
    requires s.guard.None? && s.Pc(c) == Outside && app in s.locks
    ensures |path| == 5 && path[0] == s && Path(path, [c, c, c, c]) && path[4] == s.Move(c, Holds(app, why, s.locks[app]))
  {
    var s1 := s.Move(c, Waits(app, why));
    var s2 := s1.(guard := Some(c)).Move(c, InGuard(app, why));
    var s3 := s2.Move(c, Found(app, why, s.locks[app]));
    var s4 := s3.(guard := None).Move(c, Holds(app, why, s.locks[app]));
    path := [s, s1, s2, s3, s4];
    assert Step(s, s1, c, true) && Step(s1, s2, c, true) && Step(s2, s3, c, true) && Step(s3, s4, c, true);
    assert s4.pcs == s.pcs[c := Holds(app, why, s.locks[app])];
  }

  /** A release by a client that does not own the lock, such as a second one after the first let another
      client in, is no no-op: it frees the lock under its owner, and the next client gets in as well. */
  lemma StrayRelease(s: State, c: Client, d: Client, e: Client, app: App) returns (path: seq<State>, who: seq<Client>)
    requires s.guard.None? && IsLocked(s, app) && s.Pc(c) == Body(app, true)
    requires s.Pc(d) == Outside && s.Pc(e) == Outside && d != e
    ensures Path(path, who) && path[0] == s
    ensures path[|path| - 1].Pc(c) == Body(app, true) && path[|path| - 1].Pc(e) == Body(app, true) && c != e
  {
    hide Step;
    var lock := s.locks[app];
    var a := LookedUp(s, d, app, Release);
    var s5 := a[4].(locked := s.locked - {lock}).Move(d, Outside);
    assert Step(a[4], s5, d, true) by { OneStep(a[4], s5, d); }
    var b := LookedUp(s5, e, app, Acquire);
    var s10 := b[4].(locked := s5.locked + {lock}).Move(e, Body(app, true));
    assert Step(b[4], s10, e, true) by { OneStep(b[4], s10, e); }
    Joined(a, [d, d, d, d], [a[4], s5], [d]);
    var p := a + [a[4], s5][1..];
    Joined(p, [d, d, d, d] + [d], b, [e, e, e, e]);
    var q := p + b[1..];
    Joined(q, [d, d, d, d] + [d] + [e, e, e, e], [b[4], s10], [e]);
    path, who := q + [b[4], s10][1..], [d, d, d, d] + [d] + [e, e, e, e] + [e];
  }

  lemma OneStep(s: State, t: State, c: Client)
    requires s.Pc(c).Holds?
    requires if s.Pc(c).why.Release? then t == s.(locked := s.locked - {s.Pc(c).lock}).Move(c, Outside)
             else s.Pc(c).lock !in s.locked && t == s.(locked := s.locked + {s.Pc(c).lock}).Move(c, Body(s.Pc(c).app, true))
    ensures Step(s, t, c, true)
  {}

  /** The first client takes the lock of an application. */
  lemma FirstIn(app: App) returns (path: seq<State>)
    ensures |path| == 6 && path[0] == START && Path(path, [0, 0, 0, 0, 0])
    ensures var s := path[5]; s.guard.None? && IsLocked(s, app) && s.pcs == map[0 := Body(app, true)]
  {
    var s1 := START.Move(0, Waits(app, Acquire));
    var s2 := s1.(guard := Some(0)).Move(0, InGuard(app, Acquire));
    var s3 := s2.(locks := s2.locks[app := 0], made := 1).Move(0, Found(app, Acquire, 0));
    var s4 := s3.(guard := None).Move(0, Holds(app, Acquire, 0));
    var s5 := s4.(locked := s4.locked + {0}).Move(0, Body(app, true));
    assert Step(START, s1, 0, true) && Step(s1, s2, 0, true);
    assert Step(s2, s3, 0, true) && Step(s3, s4, 0, true) && Step(s4, s5, 0, true);
    path := [START, s1, s2, s3, s4, s5];
  }

  /** So a whole run with one stray release ends with two clients in the body. */
  lemma StrayRun(app: App) returns (states: seq<State>, who: seq<Client>)
    ensures Run(states, who, true)
    ensures var last := states[|states| - 1]; last.Pc(0) == Body(app, true) && last.Pc(2) == Body(app, true)
  {
    hide Step, IsLocked;
    var a := FirstIn(app);
    var b, w := StrayRelease(a[5], 0, 1, 2, app);
    Joined(a, [0, 0, 0, 0, 0], b, w);
    states, who := a + b[1..], [0, 0, 0, 0, 0] + w;
    assert states[|states| - 1] == b[|b| - 1];
    PathIsRun(states, who);
  }

  lemma PathIsRun(states: seq<State>, who: seq<Client>)
    requires Path(states, who) && states[0] == START
    ensures Run(states, who, true)
  {
    hide Step;
  }
}
