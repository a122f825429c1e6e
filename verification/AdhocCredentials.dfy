/** The single-use store of ad-hoc terminal credentials. */
module AdhocCredentials {
  import opened Text

  const TTL := 300.0
  const MAX_ENTRIES := 256

  datatype Login = Login(username: string, password: string)

  datatype Entry = Entry(user: int, guest: int, login: Login, expiresAt: real)

  /** One item of the dictionary, which keeps its items in the order they were inserted. */
  datatype Item = Item(token: string, entry: Entry)

  type Entries = seq<Item>

  /** What happened so far: every entry ever stored, under its token; the tokens that were presented or
      discarded; those that the cap took; and the last reading of the monotonic clock. */
  datatype History = History(issued: map<string, Entry>, spent: set<string>, evicted: set<string>, now: real) {
    /** The token is still good for its entry. */
    ghost predicate Good(token: string) {
      token in issued && token !in spent && token !in evicted && issued[token].expiresAt > now
    }
  }

  predicate Distinct(s: Entries) { forall i, j | 0 <= i < j < |s| :: s[i].token != s[j].token }

  /** Insertion order is order of expiry. */
  predicate Ordered(s: Entries) { forall i, j | 0 <= i < j < |s| :: s[i].entry.expiresAt <= s[j].entry.expiresAt }

  predicate Within(s: Entries, limit: real) { forall i | 0 <= i < |s| :: s[i].entry.expiresAt <= limit }

  predicate Holds(s: Entries, token: string) { exists i | 0 <= i < |s| :: s[i].token == token }

  /** Every stored item is one that was issued, and is neither spent nor evicted. */
  ghost predicate Genuine(s: Entries, h: History) {
    forall i | 0 <= i < |s| ::
      && s[i].token in h.issued && h.issued[s[i].token] == s[i].entry
      && s[i].token !in h.spent && s[i].token !in h.evicted
  }

  /** Every token that is still good is stored. */
  ghost predicate CompleteFor(s: Entries, h: History) { forall token | h.Good(token) :: Holds(s, token) }

  ghost predicate Invariant(s: Entries, h: History) {
    && Distinct(s) && Ordered(s) && Within(s, h.now + TTL) && Genuine(s, h) && CompleteFor(s, h)
    && h.evicted <= h.issued.Keys
  }

  function Index(s: Entries, token: string): (r: Option<nat>)
    ensures r.None? <==> !Holds(s, token)
    ensures r.Some? ==> r.value < |s| && s[r.value].token == token
  {
    if s == [] then None
    else if s[0].token == token then Some(0)
    else
      var r := Index(s[1..], token);
      assert forall i | 0 < i < |s| :: s[i] == s[1..][i - 1];
      if r.None? then None else Some(r.value + 1)
  }

  function Without(s: Entries, i: nat): Entries
    requires i < |s|
  {
    s[..i] + s[i + 1..]
  }

  /** How many of the items have expired: they are the first ones. */
  function Expired(s: Entries, now: real): (n: nat)
    ensures n <= |s| && (forall i | 0 <= i < n :: s[i].entry.expiresAt <= now)
    ensures n < |s| ==> s[n].entry.expiresAt > now
  {
    if s == [] || s[0].entry.expiresAt > now then 0 else
      var n := 1 + Expired(s[1..], now);
      assert forall i | 0 < i < n :: s[i] == s[1..][i - 1];
      n
  }

  /** What pruning leaves of the live items: the last ones. */
  function Kept(s: Entries): Entries { if |s| > MAX_ENTRIES then s[|s| - MAX_ENTRIES..] else s }

  ghost function Tokens(s: Entries): set<string> { set i | 0 <= i < |s| :: s[i].token }

  /** `[tok for tok, e in entries if e["expires_at"] > now]`. */
  function LiveItems(s: Entries, now: real): Entries {
    if s == [] then [] else (if s[0].entry.expiresAt > now then [s[0]] else []) + LiveItems(s[1..], now)
  }

  lemma {:induction false} LiveIsTail(s: Entries, now: real)
    requires Ordered(s)
    ensures LiveItems(s, now) == s[Expired(s, now)..]
  {
    if s != [] {
      assert Ordered(s[1..]);
      LiveIsTail(s[1..], now);
      if s[0].entry.expiresAt > now {
        AllLive(s, now);
      } else {
        assert s[Expired(s, now)..] == s[1..][Expired(s, now) - 1..];
      }
    }
  }

  lemma {:induction false} AllLive(s: Entries, now: real)
    requires forall i | 0 <= i < |s| :: s[i].entry.expiresAt > now
    ensures LiveItems(s, now) == s
  {
    if s != [] { AllLive(s[1..], now); }
  }

  // ---- Steps -----------------------------------------------------------------------------------

  lemma AtStart(t: real)
    ensures Invariant([], History(map[], {}, {}, t))
  {}

  lemma AfterTick(s: Entries, h: History, t: real)
    requires Invariant(s, h) && h.now <= t
    ensures Invariant(s, h.(now := t))
  {
    hide Distinct, Ordered, Holds;
    var g := h.(now := t);
    forall token | g.Good(token) ensures Holds(s, token) { assert h.Good(token); }
  }

  lemma AfterExpiry(s: Entries, h: History)
    requires Invariant(s, h)
    ensures Invariant(s[Expired(s, h.now)..], h)
  {
    var n := Expired(s, h.now);
    var r := s[n..];
    forall token | h.Good(token) ensures Holds(r, token) {
      var i :| 0 <= i < |s| && s[i].token == token;
      assert i >= n;
      assert r[i - n].token == token;
    }
  }

  lemma AfterEviction(s: Entries, h: History)
    requires Invariant(s, h) && s != []
    ensures Invariant(s[1..], h.(evicted := h.evicted + {s[0].token}))
  {
    var g, r := h.(evicted := h.evicted + {s[0].token}), s[1..];
    forall token | g.Good(token) ensures Holds(r, token) {
      assert h.Good(token);
      var i :| 0 <= i < |s| && s[i].token == token;
      assert r[i - 1].token == token;
    }
  }

  lemma AfterInsert(s: Entries, h: History, token: string, e: Entry)
    requires Invariant(s, h) && token !in h.issued && e.expiresAt == h.now + TTL
    ensures Invariant(s + [Item(token, e)], h.(issued := h.issued[token := e], spent := h.spent - {token}))
  {
    hide Ordered, Distinct;
    var g, r := h.(issued := h.issued[token := e], spent := h.spent - {token}), s + [Item(token, e)];
    assert Ordered(r) by { InsertOrdered(s, Item(token, e), h.now + TTL); }
    assert Distinct(r) by { InsertDistinct(s, Item(token, e)); }
    forall t | g.Good(t) ensures Holds(r, t) {
      if t == token {
        assert r[|s|].token == t;
      } else {
        assert h.Good(t);
        var i :| 0 <= i < |s| && s[i].token == t;
        assert r[i].token == t;
      }
    }
  }

  lemma InsertOrdered(s: Entries, x: Item, limit: real)
    requires Ordered(s) && Within(s, limit) && x.entry.expiresAt >= limit
    ensures Ordered(s + [x])
  {}

  lemma InsertDistinct(s: Entries, x: Item)
    requires Distinct(s) && forall i | 0 <= i < |s| :: s[i].token != x.token
    ensures Distinct(s + [x])
  {}

  lemma AfterRemoval(s: Entries, h: History, i: nat)
    requires Invariant(s, h) && i < |s|
    ensures Invariant(Without(s, i), h.(spent := h.spent + {s[i].token}))
  {
    hide Holds, History.Good;
    var g, r := h.(spent := h.spent + {s[i].token}), Without(s, i);
    forall j | 0 <= j < |r| ensures r[j] == s[if j < i then j else j + 1] {}
    assert CompleteFor(r, g) by { RemovalComplete(s, h, i); }
  }

  lemma RemovalComplete(s: Entries, h: History, i: nat)
    requires i < |s| && CompleteFor(s, h)
    ensures CompleteFor(Without(s, i), h.(spent := h.spent + {s[i].token}))
  {
    var g, r := h.(spent := h.spent + {s[i].token}), Without(s, i);
    forall token | g.Good(token) ensures Holds(r, token) {
      assert h.Good(token);
      var j :| 0 <= j < |s| && s[j].token == token;
      assert r[if j < i then j else j - 1].token == token;
    }
  }

  /** Presenting a token that is not stored changes nothing in the store. */
  lemma AfterMiss(s: Entries, h: History, token: string)
    requires Invariant(s, h) && !Holds(s, token)
    ensures Invariant(s, h.(spent := h.spent + {token}))
  {
    hide Distinct, Ordered;
    var g := h.(spent := h.spent + {token});
    forall t | g.Good(t) ensures Holds(s, t) { assert h.Good(t); }
  }

  /** A stored item that has not expired stands for a good token, and the other way round. */
  lemma StoredIsGood(s: Entries, h: History, token: string)
    requires Invariant(s, h)
    ensures h.Good(token) ==> Index(s, token).Some?
    ensures Index(s, token).Some? ==>
              var e := s[Index(s, token).value].entry;
              token in h.issued && h.issued[token] == e && (e.expiresAt > h.now ==> h.Good(token))
  {}

  class Store {
    var entries: Entries
    ghost var h: History

    ghost predicate Valid()
      reads this
    {
      Invariant(entries, h) && |entries| <= 257
    }

    constructor (now: real)
      ensures Valid() && entries == [] && h == History(map[], {}, {}, now)
    {
      entries, h := [], History(map[], {}, {}, now);
      AtStart(now);
    }

    /** `min(_entries, key=..)`: the first item with the least expiry. */
    method Oldest() returns (oldest: nat)
      requires entries != []
      ensures oldest < |entries|
      ensures forall j | 0 <= j < |entries| :: entries[oldest].entry.expiresAt <= entries[j].entry.expiresAt
      ensures forall j | 0 <= j < oldest :: entries[oldest].entry.expiresAt < entries[j].entry.expiresAt
    {
      oldest := 0;
      for i := 1 to |entries|
        invariant oldest < i
        invariant forall j | 0 <= j < i :: entries[oldest].entry.expiresAt <= entries[j].entry.expiresAt
        invariant forall j | 0 <= j < oldest :: entries[oldest].entry.expiresAt < entries[j].entry.expiresAt
      {
        if entries[i].entry.expiresAt < entries[oldest].entry.expiresAt { oldest := i; }
      }
    }

    /** `_prune_locked`: expired items go, and then the oldest ones above the cap. */
    method Prune(now: real)
      requires Invariant(entries, h) && h.now <= now
      modifies this
      ensures Valid() && |entries| <= 256
      ensures var live := old(entries)[Expired(old(entries), now)..];
              && entries == Kept(live)
              && h == old(h).(now := now, evicted := old(h).evicted + Tokens(live[..|live| - |Kept(live)|]))
    {
      hide Invariant, Kept, Tokens, Expired, LiveItems, Without, Ordered;
      AfterTick(entries, h, now);
      h := h.(now := now);
      LiveIsTail(entries, now) by { InOrder(entries, h); }
      AfterExpiry(entries, h);
      entries := LiveItems(entries, now);
      ghost var live, n: nat := entries, 0;
      NothingCut(live);
      while |entries| > MAX_ENTRIES
        invariant Invariant(entries, h)
        invariant n <= |live| && entries == live[n..]
        invariant n > 0 ==> |entries| >= MAX_ENTRIES
        invariant h == old(h).(now := now, evicted := old(h).evicted + Tokens(live[..n]))
      {
        var oldest := Oldest();
        FirstIsOldest(entries, oldest) by { InOrder(entries, h); }
        AfterEviction(entries, h);
        CutOne(live, n);
        h := h.(evicted := h.evicted + {entries[oldest].token});
        entries := Without(entries, oldest);
        n := n + 1;
      }
      KeptIs(live, n);
    }

    /** `store_credentials`, with the random token it drew. Pruning comes before the insertion. */
    method Put(token: string, user: int, guest: int, login: Login, now: real)
      requires Valid() && h.now <= now && token != "" && token !in h.issued
      modifies this
      ensures Valid()
      ensures var live := old(entries)[Expired(old(entries), now)..];
              && entries == Kept(live) + [Item(token, Entry(user, guest, login, now + 300.0))]
              && h.evicted == old(h).evicted + Tokens(live[..|live| - |Kept(live)|])
              && |entries| == (if |live| > 256 then 256 else |live|) + 1
      ensures h.issued == old(h).issued[token := Entry(user, guest, login, now + 300.0)]
      ensures h.spent == old(h).spent - {token} && h.now == now && h.Good(token)
    {
      hide Invariant, Kept, Tokens, Expired;
      KeptSize(entries[Expired(entries, now)..]);
      Prune(now);
      var entry := Entry(user, guest, login, now + TTL);
      AfterInsert(entries, h, token, entry);
      EvictedIssued(entries, h);
      entries := entries + [Item(token, entry)];
      h := h.(issued := h.issued[token := entry], spent := h.spent - {token});
    }

    /** `take_credentials`: the login of a token that is still good, presented by its user for its
        guest, and nothing otherwise. Either way the token is spent. */
    method Take(token: string, user: int, guest: int, now: real) returns (login: Option<Login>)
      requires Valid() && h.now <= now
      modifies this
      ensures Valid()
      ensures token == "" ==> login.None? && entries == old(entries) && h == old(h)
      ensures token != "" ==>
                var live := old(entries)[Expired(old(entries), now)..];
                && h == old(h).(now := now, spent := old(h).spent + {token},
                                evicted := old(h).evicted + Tokens(live[..|live| - |Kept(live)|]))
                && login == if h.(spent := old(h).spent).Good(token) && h.issued[token].user == user
                               && h.issued[token].guest == guest
                            then Some(h.issued[token].login) else None
    {
      hide Invariant, Kept, Tokens, Expired, Without, Holds;
      if token == "" { return None; }
      Prune(now);
      ghost var g := h;
      StoredIsGood(entries, h, token);
      var at := Index(entries, token);
      h := h.(spent := h.spent + {token});
      match at
      case None =>
        AfterMiss(entries, g, token);
        return None;
      case Some(i) =>
        var entry := entries[i].entry;
        AfterRemoval(entries, g, i);
        Fewer(entries, i);
        entries := Without(entries, i);
        if entry.expiresAt <= now { return None; }
        if entry.user != user || entry.guest != guest { return None; }
        return Some(entry.login);
    }

    /** `discard`. */
    method Discard(token: string)
      requires Valid()
      modifies this
      ensures Valid() && h == if token == "" then old(h) else old(h).(spent := old(h).spent + {token})
    {
      hide Invariant, Without, Holds;
      if token == "" { return; }
      ghost var g := h;
      h := h.(spent := h.spent + {token});
      match Index(entries, token)
      case None => AfterMiss(entries, g, token);
      case Some(i) =>
        AfterRemoval(entries, g, i);
        Fewer(entries, i);
        entries := Without(entries, i);
    }
  }

  lemma Fewer(s: Entries, i: nat)
    requires i < |s|
    ensures |Without(s, i)| == |s| - 1
  {}

  lemma EvictedIssued(s: Entries, h: History)
    requires Invariant(s, h)
    ensures h.evicted <= h.issued.Keys
  {}

  lemma InOrder(s: Entries, h: History)
    requires Invariant(s, h)
    ensures Ordered(s)
  {}

  lemma FirstIsOldest(s: Entries, oldest: nat)
    requires Ordered(s) && oldest < |s|
    requires forall j | 0 <= j < oldest :: s[oldest].entry.expiresAt < s[j].entry.expiresAt
    ensures oldest == 0
  {
    assert s[0].entry.expiresAt <= s[oldest].entry.expiresAt;
  }

  lemma NothingCut(s: Entries)
    ensures s[0..] == s && s[..0] == [] && Tokens([]) == {}
  {}

  lemma CutOne(live: Entries, n: nat)
    requires n < |live|
    ensures Without(live[n..], 0) == live[n..][1..] == live[n + 1..]
    ensures Tokens(live[..n + 1]) == Tokens(live[..n]) + {live[n..][0].token}
  {
    assert live[..n + 1] == live[..n] + [live[n]];
    TokensMore(live[..n], live[n]);
  }

  lemma KeptIs(live: Entries, n: nat)
    requires n <= |live| && |live| - n <= MAX_ENTRIES && (n > 0 ==> |live| - n >= MAX_ENTRIES)
    ensures Kept(live) == live[n..] && |live| - |Kept(live)| == n
  {
    assert live[0..] == live;
  }

  lemma TokensMore(s: Entries, x: Item)
    ensures Tokens(s + [x]) == Tokens(s) + {x.token}
  {
    var t := s + [x];
    assert forall i | 0 <= i < |s| :: t[i] == s[i];
    assert t[|s|] == x;
    forall y | y in Tokens(s) ensures y in Tokens(t) { var i :| 0 <= i < |s| && s[i].token == y; assert t[i].token == y; }
    assert t[|s|].token in Tokens(t);
  }

  lemma KeptSize(live: Entries)
    ensures |Kept(live)| == if |live| > MAX_ENTRIES then MAX_ENTRIES else |live|
  {}

  lemma NoneExpired(s: Entries, now: real)
    requires forall i | 0 <= i < |s| :: s[i].entry.expiresAt > now
    ensures s[Expired(s, now)..] == s
  {}

  lemma NothingLost(s: Entries, more: Entries, x: Item, now: real)
    requires more == Kept(s) + [x] && |s| <= MAX_ENTRIES && x.entry.expiresAt > now
    requires forall i | 0 <= i < |s| :: s[i].entry.expiresAt > now
    ensures |more| == |s| + 1 && forall i | 0 <= i < |more| :: more[i].entry.expiresAt > now
  {}

  /** One entry more than the cap can be stored: 257 calls with different tokens, one after the other. */
  method OverTheCap(tokens: seq<string>, login: Login, now: real) returns (store: Store)
    requires |tokens| == 257 && "" !in tokens
    requires forall i, j | 0 <= i < j < |tokens| :: tokens[i] != tokens[j]
    ensures store.Valid() && |store.entries| == 257
  {
    hide Invariant, Kept, Expired, Tokens;
    store := new Store(now);
    for k := 0 to |tokens|
      invariant fresh(store) && store.Valid() && store.h.now == now && |store.entries| == k
      invariant forall i | 0 <= i < k :: store.entries[i].entry.expiresAt > now
      invariant forall t | t in store.h.issued :: t in tokens[..k]
    {
      assert tokens[k] !in tokens[..k] && tokens[k] in tokens;
      assert tokens[..k + 1] == tokens[..k] + [tokens[k]];
      NoneExpired(store.entries, now);
      ghost var was := store.entries;
      store.Put(tokens[k], 0, 0, login, now);
      NothingLost(was, store.entries, Item(tokens[k], Entry(0, 0, login, now + TTL)), now);
    }
  }
}
