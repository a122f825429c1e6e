/** The rate limiter of API logins: per client address, the times of recent failures. */
module RateLimiter {
  import opened Text

  const WINDOW := 300.0
  const LIMIT := 5
  const MAX_KEYS := 4096

  /** One failed login, as the caller reported it. */
  datatype Failure = Failure(ip: string, at: real)

  function Last(s: seq<real>): real
    requires s != []
  {
    s[|s| - 1]
  }

  /** The times of the failures of `ip` from position `from` of the log on. */
  function Times(log: seq<Failure>, from: nat, ip: string): (r: seq<real>)
    decreases |log|
  {
    if |log| <= from then []
    else
      var n := |log| - 1;
      Times(log[..n], from, ip) + if log[n].ip == ip then [log[n].at] else []
  }

  /** How many of the times are newer than `cutoff`. */
  function Newer(s: seq<real>, cutoff: real): nat { |Filtered(s, cutoff)| }

  /** `[t for t in s if t > cutoff]`. */
  function Filtered(s: seq<real>, cutoff: real): (r: seq<real>)
    ensures forall t | t in r :: t > cutoff && t in s
  {
    if s == [] then [] else (if s[0] > cutoff then [s[0]] else []) + Filtered(s[1..], cutoff)
  }

  predicate Sorted(s: seq<real>) { forall i, j | 0 <= i < j < |s| :: s[i] <= s[j] }

  /** `b` is what is left of `s` after dropping times not newer than `horizon` at the front. */
  predicate Keeps(b: seq<real>, s: seq<real>, horizon: real) {
    && |b| <= |s| && s[|s| - |b|..] == b
    && forall i | 0 <= i < |s| - |b| :: s[i] <= horizon
  }

  lemma {:induction false} FilteredConcat(a: seq<real>, b: seq<real>, cutoff: real)
    ensures Filtered(a + b, cutoff) == Filtered(a, cutoff) + Filtered(b, cutoff)
  {
    if a == [] {
      assert a + b == b;
    } else {
      assert (a + b)[1..] == a[1..] + b;
      FilteredConcat(a[1..], b, cutoff);
    }
  }

  lemma {:induction false} FilteredNone(a: seq<real>, cutoff: real)
    requires forall i | 0 <= i < |a| :: a[i] <= cutoff
    ensures Filtered(a, cutoff) == []
  {
    if a != [] { FilteredNone(a[1..], cutoff); }
  }

  lemma {:induction false} FilteredAll(a: seq<real>, cutoff: real)
    requires forall i | 0 <= i < |a| :: a[i] > cutoff
    ensures Filtered(a, cutoff) == a
  {
    if a != [] { FilteredAll(a[1..], cutoff); }
  }

  /** What was dropped from a bucket never counts again. */
  lemma SameCount(b: seq<real>, s: seq<real>, horizon: real, cutoff: real)
    requires Keeps(b, s, horizon) && horizon <= cutoff
    ensures Filtered(s, cutoff) == Filtered(b, cutoff)
  {
    var a := s[..|s| - |b|];
    assert s == a + b;
    FilteredConcat(a, b, cutoff);
    FilteredNone(a, cutoff);
  }

  /** In order of time, the filter keeps the tail. */
  lemma {:induction false} FilterIsTail(b: seq<real>, cutoff: real)
    requires Sorted(b)
    ensures Keeps(Filtered(b, cutoff), b, cutoff)
  {
    if b != [] {
      if b[0] > cutoff {
        FilteredAll(b, cutoff);
        assert b[0..] == b;
      } else {
        FilterIsTail(b[1..], cutoff);
        var f := Filtered(b, cutoff);
        assert f == Filtered(b[1..], cutoff);
        assert b[|b| - |f|..] == b[1..][|b| - 1 - |f|..];
        assert forall i | 0 < i < |b| - |f| :: b[i] == b[1..][i - 1];
      }
    }
  }

  lemma KeepsTrans(c: seq<real>, b: seq<real>, s: seq<real>, horizon: real, cutoff: real)
    requires Keeps(c, b, cutoff) && Keeps(b, s, horizon) && horizon <= cutoff
    ensures Keeps(c, s, cutoff)
  {
    assert s[|s| - |c|..] == b[|b| - |c|..];
    assert forall i | |s| - |b| <= i < |s| - |c| :: s[i] == b[i - (|s| - |b|)];
  }

  lemma KeepsMore(b: seq<real>, s: seq<real>, horizon: real, t: real)
    requires Keeps(b, s, horizon)
    ensures Keeps(b + [t], s + [t], horizon)
  {
    assert (s + [t])[|s| - |b|..] == s[|s| - |b|..] + [t];
  }

  lemma KeepsNothing(s: seq<real>, horizon: real)
    requires Sorted(s) && (s != [] ==> Last(s) <= horizon)
    ensures Keeps([], s, horizon)
  {}

  lemma SortedTail(b: seq<real>, s: seq<real>, horizon: real)
    requires Keeps(b, s, horizon) && Sorted(s)
    ensures Sorted(b)
  {
    assert forall i | 0 <= i < |b| :: b[i] == s[|s| - |b| + i];
  }

  lemma SortedMore(s: seq<real>, t: real)
    requires Sorted(s) && forall i | 0 <= i < |s| :: s[i] <= t
    ensures Sorted(s + [t]) && forall i | 0 <= i < |s + [t]| :: (s + [t])[i] <= t
  {}

  lemma TimesMore(log: seq<Failure>, from: nat, ip: string, f: Failure)
    requires from <= |log|
    ensures Times(log + [f], from, ip) == Times(log, from, ip) + if f.ip == ip then [f.at] else []
  {
    assert (log + [f])[..|log|] == log;
  }

  predicate NoneEmpty(m: map<string, seq<real>>) { forall k | k in m :: m[k] != [] }

  /** No key has a last failure before that of `k`. */
  predicate Oldest(m: map<string, seq<real>>, keys: set<string>, k: string)
    requires keys <= m.Keys && NoneEmpty(m)
  {
    k in keys && forall j | j in keys :: Last(m[k]) <= Last(m[j])
  }

  lemma {:induction false} SomeOldest(m: map<string, seq<real>>, keys: set<string>) returns (o: string)
    requires keys <= m.Keys && keys != {} && NoneEmpty(m)
    ensures Oldest(m, keys, o)
    decreases keys
  {
    hide Last;
    o :| o in keys;
    var rest := keys - {o};
    if rest != {} {
      var p := SomeOldest(m, rest);
      assert forall j | j in keys :: j == o || j in rest;
      if Last(m[p]) <= Last(m[o]) { o := p; }
    } else {
      assert forall j | j in keys :: j == o by { forall j | j in keys ensures j == o { assert j !in rest; } }
    }
  }

  lemma OldestIn(m: map<string, seq<real>>, k: string)
    requires NoneEmpty(m) && Oldest(m, m.Keys, k)
    ensures k in m
  {}

  // ---- The dictionary against the history ------------------------------------------------------

  type Buckets = map<string, seq<real>>

  /** What happened so far: every failure recorded; for each address that the cap evicted, from which
      of them on its failures count again; the last clock reading; whether the clock never went back. */
  datatype History = History(log: seq<Failure>, start: map<string, nat>, now: real, steady: bool) {
    ghost function Start(ip: string): nat { if ip in start then start[ip] else 0 }

    /** The failures of an address since the cap last evicted it: all of them if it never did. */
    ghost function Since(ip: string): seq<real> { Times(log, Start(ip), ip) }

    predicate Sound() { forall k | k in start :: start[k] <= |log| }

    function Tick(t: real): History { this.(now := t, steady := steady && now <= t) }

    function Forget(ip: string): History { this.(start := start[ip := |log|]) }
  }

  function Bucket(m: Buckets, ip: string): seq<real> { if ip in m then m[ip] else [] }

  /** The bucket of an address stands for its failures. */
  ghost predicate Tracks(m: Buckets, h: History, ip: string) {
    var s := h.Since(ip);
    Keeps(Bucket(m, ip), s, h.now - WINDOW) && Sorted(s) && forall i | 0 <= i < |s| :: s[i] <= h.now
  }

  ghost predicate AllTrack(m: Buckets, h: History) { forall ip :: Tracks(m, h, ip) }

  ghost predicate Invariant(m: Buckets, h: History) {
    NoneEmpty(m) && h.Sound() && (h.steady ==> AllTrack(m, h))
  }

  function Live(m: Buckets, cutoff: real): Buckets {
    map k | k in m && !(m[k] == [] || Last(m[k]) <= cutoff) :: m[k]
  }

  lemma AtStart(t: real)
    ensures Invariant(map[], History([], map[], t, true))
  {}

  lemma AfterTick(m: Buckets, h: History, t: real)
    requires Invariant(m, h)
    ensures Invariant(m, h.Tick(t))
  {
    hide Times, Sorted;
    if h.steady && h.now <= t {
      forall ip ensures Tracks(m, h.Tick(t), ip) {
        assert Tracks(m, h, ip);
        assert h.Tick(t).Since(ip) == h.Since(ip);
      }
    }
  }

  lemma AfterStale(m: Buckets, h: History, cutoff: real)
    requires Invariant(m, h) && (h.steady ==> cutoff == h.now - WINDOW)
    ensures Invariant(Live(m, cutoff), h)
  {
    hide Times, Sorted, Keeps;
    if h.steady {
      forall ip ensures Tracks(Live(m, cutoff), h, ip) {
        assert Tracks(m, h, ip);
        if ip in m && ip !in Live(m, cutoff) { DropBucket(m[ip], h.Since(ip), cutoff); }
      }
    }
  }

  lemma DropBucket(b: seq<real>, s: seq<real>, cutoff: real)
    requires Keeps(b, s, cutoff) && Sorted(s) && b != [] && Last(b) <= cutoff
    ensures Keeps([], s, cutoff)
  {
    assert Last(b) == Last(s);
    KeepsNothing(s, cutoff);
  }

  lemma NoTimes(log: seq<Failure>, ip: string)
    ensures Times(log, |log|, ip) == []
  {}

  lemma AfterEviction(m: Buckets, h: History, key: string)
    requires Invariant(m, h)
    ensures Invariant(m - {key}, h.Forget(key))
  {
    hide AllTrack, Tracks;
    assert NoneEmpty(m - {key}) && h.Forget(key).Sound();
    if h.steady { EvictionTracks(m, h, key); }
  }

  lemma EvictionTracks(m: Buckets, h: History, key: string)
    requires AllTrack(m, h)
    ensures AllTrack(m - {key}, h.Forget(key))
  {
    hide Tracks;
    forall ip ensures Tracks(m - {key}, h.Forget(key), ip) {
      if ip == key { EvictedTracks(m, h, key); } else { KeptTracks(m, h, key, ip); }
    }
  }

  lemma EvictedTracks(m: Buckets, h: History, key: string)
    ensures Tracks(m - {key}, h.Forget(key), key)
  {
    hide Sorted, Keeps, Times;
    NoTimes(h.log, key);
    NothingSorted();
    KeepsNothing([], h.now - WINDOW);
  }

  lemma KeptTracks(m: Buckets, h: History, key: string, ip: string)
    requires Tracks(m, h, ip) && ip != key
    ensures Tracks(m - {key}, h.Forget(key), ip)
  {
    hide Sorted, Keeps, Times;
    assert h.Forget(key).Since(ip) == h.Since(ip);
  }

  lemma AfterRecord(m: Buckets, h: History, ip: string)
    requires Invariant(m, h)
    ensures Invariant(m[ip := Bucket(m, ip) + [h.now]], h.(log := h.log + [Failure(ip, h.now)]))
  {
    hide Sorted, Keeps, Times;
    var n, g := m[ip := Bucket(m, ip) + [h.now]], h.(log := h.log + [Failure(ip, h.now)]);
    if h.steady {
      forall j ensures Tracks(n, g, j) {
        assert Tracks(m, h, j);
        TimesMore(h.log, h.Start(j), j, Failure(ip, h.now));
        if j == ip {
          KeepsMore(Bucket(m, j), h.Since(j), h.now - WINDOW, h.now);
          SortedMore(h.Since(j), h.now);
        } else {
          assert g.Since(j) == h.Since(j) + [] == h.Since(j);
        }
      }
    }
  }

  function Checked(m: Buckets, ip: string, cutoff: real): Buckets {
    var recent := Filtered(Bucket(m, ip), cutoff);
    if recent != [] then m[ip := recent] else m - {ip}
  }

  lemma AfterCheck(m: Buckets, h: History, ip: string, cutoff: real)
    requires Invariant(m, h) && (h.steady ==> cutoff == h.now - WINDOW)
    ensures Invariant(Checked(m, ip, cutoff), h) && |Checked(m, ip, cutoff)| <= |m|
  {
    hide Sorted, Keeps, Times, Filtered;
    var n := Checked(m, ip, cutoff);
    SizeAfter(m, ip, cutoff);
    if h.steady {
      forall j ensures Tracks(n, h, j) {
        assert Tracks(m, h, j);
        if j == ip {
          SortedTail(Bucket(m, j), h.Since(j), h.now - WINDOW);
          FilterIsTail(Bucket(m, j), cutoff);
          KeepsTrans(Filtered(Bucket(m, j), cutoff), Bucket(m, j), h.Since(j), h.now - WINDOW, cutoff);
        }
      }
    }
  }

  lemma SizeAfter(m: Buckets, ip: string, cutoff: real)
    ensures |Checked(m, ip, cutoff)| <= |m|
  {
    var n := Checked(m, ip, cutoff);
    assert n.Keys <= m.Keys;
    Smaller(n.Keys, m.Keys);
    assert |n| == |n.Keys| && |m| == |m.Keys|;
  }

  lemma NothingSorted()
    ensures Sorted([])
  {}

  lemma BucketsSorted(m: Buckets, h: History)
    requires Invariant(m, h) && h.steady
    ensures forall k | k in m :: Sorted(m[k])
  {
    hide Times, Sorted, Keeps;
    forall k | k in m ensures Sorted(m[k]) {
      assert Tracks(m, h, k);
      SortedTail(m[k], h.Since(k), h.now - WINDOW);
    }
  }

  /** The count over the bucket is the count over the history. */
  lemma CountIsRight(m: Buckets, h: History, ip: string)
    requires Invariant(m, h) && h.steady
    ensures Newer(Bucket(m, ip), h.now - WINDOW) == Newer(h.Since(ip), h.now - WINDOW)
  {
    hide Times, Sorted, Keeps, Filtered;
    assert Tracks(m, h, ip);
    SameCount(Bucket(m, ip), h.Since(ip), h.now - WINDOW, h.now - WINDOW);
  }

  /** What pruning did: `evicted` are the buckets that the cap took. */
  ghost predicate Pruned(was: Buckets, now: Buckets, cutoff: real, evicted: set<string>)
    requires NoneEmpty(was)
  {
    && (forall k | k in now :: k in was && now[k] == was[k])
    && evicted <= was.Keys && evicted !! now.Keys
    && (forall k | k in was :: k in now || k in evicted <==> Last(was[k]) > cutoff)
    && (forall e, k | e in evicted && k in now :: Last(was[e]) <= Last(was[k]))
    && (evicted != {} ==> |now| >= 4096)
  }

  /** What a check leaves: the live buckets, and of the one checked only what is newer than the cutoff, if
      anything is. */
  ghost predicate LeftBy(was: Buckets, now: Buckets, ip: string, cutoff: real)
    requires NoneEmpty(was)
  {
    && (forall k | k != ip :: k in now <==> k in was && Last(was[k]) > cutoff)
    && (forall k | k in now && k != ip :: k in was && now[k] == was[k])
    && var recent := if ip in was && Last(was[ip]) > cutoff then Filtered(was[ip], cutoff) else [];
       if recent == [] then ip !in now else ip in now && now[ip] == recent
  }

  lemma PrunedLive(m: Buckets, cutoff: real)
    requires NoneEmpty(m)
    ensures Pruned(m, Live(m, cutoff), cutoff, {})
  {}

  lemma PrunedOne(was: Buckets, now: Buckets, cutoff: real, evicted: set<string>, key: string)
    requires NoneEmpty(was) && NoneEmpty(now) && Pruned(was, now, cutoff, evicted)
    requires |now| > MAX_KEYS && Oldest(now, now.Keys, key)
    ensures Pruned(was, now - {key}, cutoff, evicted + {key})
  {
    hide Last;
    var n := now - {key};
    assert now.Keys == n.Keys + {key};
    assert |n| >= MAX_KEYS;
  }

  lemma OneFewer(m: Buckets, key: string)
    requires key in m
    ensures |m - {key}| == |m| - 1
  {
    var n := m - {key};
    assert m.Keys == n.Keys + {key};
  }

  /** The cap takes only what is over it. */
  lemma FewEvicted(was: Buckets, now: Buckets, cutoff: real, evicted: set<string>)
    requires NoneEmpty(was) && Pruned(was, now, cutoff, evicted)
    ensures evicted != {} ==> |now| + |evicted| <= |was| && |now| >= MAX_KEYS
  {
    Smaller(now.Keys + evicted, was.Keys);
    assert |now.Keys + evicted| == |now.Keys| + |evicted|;
  }

  /** The failures of the evicted addresses, and of no others, count from the present on. */
  ghost predicate Forgot(was: History, now: History, evicted: set<string>) {
    forall k :: now.Start(k) == if k in evicted then |now.log| else was.Start(k)
  }

  lemma ForgotMore(was: History, now: History, evicted: set<string>, key: string)
    requires Forgot(was, now, evicted)
    ensures Forgot(was, now.Forget(key), evicted + {key})
  {}

  lemma ForgotNone(h: History)
    ensures Forgot(h, h, {})
  {}

  class Limiter {
    var buckets: Buckets
    ghost var h: History

    ghost predicate Valid()
      reads this
    {
      Invariant(buckets, h) && |buckets| <= 4096
    }

    constructor (t: real)
      ensures Valid() && buckets == map[] && h == History([], map[], t, true)
    {
      hide Invariant;
      buckets, h := map[], History([], map[], t, true);
      AtStart(t);
    }

    /** `_prune_api_failed_attempts`: the buckets without a recent failure go; then, while there are
        too many, the least recently active one. */
    method Prune(cutoff: real) returns (ghost evicted: set<string>)
      requires Invariant(buckets, h) && (h.steady ==> cutoff == h.now - WINDOW)
      modifies this
      ensures Valid() && NoneEmpty(old(buckets)) && Pruned(old(buckets), buckets, cutoff, evicted)
      ensures h == old(h).(start := h.start) && (evicted == {} ==> h == old(h)) && Forgot(old(h), h, evicted)
    {
      hide AllTrack, Last, Live, Pruned, Oldest, History.Sound, NoneEmpty, Forgot;
      evicted := {};
      ForgotNone(h);
      PrunedLive(buckets, cutoff);
      AfterStale(buckets, h, cutoff);
      buckets := Live(buckets, cutoff);
      while |buckets| > MAX_KEYS
        invariant Invariant(buckets, h)
        invariant Pruned(old(buckets), buckets, cutoff, evicted)
        invariant h == old(h).(start := h.start) && (evicted == {} ==> h == old(h)) && Forgot(old(h), h, evicted)
      {
        ghost var o := SomeOldest(buckets, buckets.Keys);
        assert o in buckets by { OldestIn(buckets, o); }
        var key :| key in buckets && Oldest(buckets, buckets.Keys, key);
        ForgotMore(old(h), h, evicted, key);
        PrunedOne(old(buckets), buckets, cutoff, evicted, key);
        AfterEviction(buckets, h, key);
        OneFewer(buckets, key);
        buckets := buckets - {key};
        evicted, h := evicted + {key}, h.Forget(key);
      }
    }

    /** `check_api_rate_limit` at time `t`: locked out exactly when the limit is reached by the
        failures of the last five minutes, over the whole history. */
    method Check(ip: string, t: real) returns (locked: bool)
      requires Valid()
      modifies this
      ensures Valid() && h == old(h).Tick(t)
      ensures h.steady ==> (locked <==> Newer(h.Since(ip), t - 300.0) >= 5)
      ensures NoneEmpty(old(buckets)) && LeftBy(old(buckets), buckets, ip, t - 300.0)
    {
      hide AllTrack, Last, Pruned, Filtered, Times, LeftBy;
      h := h.Tick(t);
      AfterTick(buckets, old(h), t);
      var cutoff := t - WINDOW;
      ghost var was := buckets;
      ghost var evicted := Prune(cutoff);
      FewEvicted(was, buckets, cutoff, evicted);
      assert evicted == {};
      ghost var pruned := buckets;
      PrunedKeeps(was, buckets, cutoff, evicted);
      if h.steady { CountIsRight(buckets, h, ip); }
      AfterCheck(buckets, h, ip, cutoff);
      var recent := Filtered(Bucket(buckets, ip), cutoff);
      if recent != [] {
        buckets := buckets[ip := recent];
      } else {
        buckets := buckets - {ip};
      }
      LeftIs(was, pruned, ip, cutoff);
      return |recent| >= LIMIT;
    }

    /** `record_api_failed_login`, which reads the clock twice. */
    method Record(ip: string, t: real, later: real) returns (ghost evicted: set<string>)
      requires Valid()
      modifies this
      ensures Valid()
      ensures h.log == old(h).log + [Failure(ip, t)] && h.now == later
      ensures h.steady == (old(h).steady && old(h).now <= t <= later)
      ensures Forgot(old(h).(log := h.log), h, evicted) && |evicted| <= 1
      ensures NoneEmpty(old(buckets)[ip := Bucket(old(buckets), ip) + [t]])
      ensures Pruned(old(buckets)[ip := Bucket(old(buckets), ip) + [t]], buckets, later - 300.0, evicted)
    {
      hide AllTrack, Last, Pruned, Times;
      var m := buckets;
      h := h.Tick(t);
      AfterTick(m, old(h), t);
      AfterRecord(m, h, ip);
      buckets := m[ip := Bucket(m, ip) + [t]];
      h := h.(log := h.log + [Failure(ip, t)]);
      AfterTick(buckets, h, later);
      h := h.Tick(later);
      ghost var was := buckets;
      evicted := Prune(later - WINDOW);
      FewEvicted(was, buckets, later - WINDOW, evicted);
      OneMoreKey(m, ip, Bucket(m, ip) + [t]);
    }
  }

  lemma OneMoreKey(m: Buckets, ip: string, b: seq<real>)
    ensures |m[ip := b]| <= |m| + 1
  {
    var n := m[ip := b];
    assert n.Keys == m.Keys + {ip};
  }

  lemma LeftIs(was: Buckets, mid: Buckets, ip: string, cutoff: real)
    requires NoneEmpty(was) && Pruned(was, mid, cutoff, {})
    ensures LeftBy(was, Checked(mid, ip, cutoff), ip, cutoff)
  {
    hide Filtered, Last;
    NothingFiltered(cutoff);
  }

  lemma NothingFiltered(cutoff: real)
    ensures Filtered([], cutoff) == []
  {}

  lemma PrunedKeeps(was: Buckets, now: Buckets, cutoff: real, evicted: set<string>)
    requires NoneEmpty(was) && Pruned(was, now, cutoff, evicted)
    ensures forall k | k in now :: k in was && now[k] == was[k]
  {}
}
