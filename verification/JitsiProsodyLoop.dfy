/** Which lines the loop that removes the guest host keeps, without its flag and its pending comment. */
module JitsiProsodyLoop {
  import opened Text
  import opened JitsiProsody

  /** A line that begins the guest host's block. */
  predicate Heads(l: string, marker: string) { !IsGuestComment(l) && Contains(l, marker) }

  /** A line that is neither a guest comment nor such a head. */
  predicate Plain(l: string, marker: string) { !IsGuestComment(l) && !Contains(l, marker) }

  predicate Ends(l: string, marker: string) { Plain(l, marker) && EndsBlock(l) }

  /** Line `i` comes after the head of a block that no line before it has ended. */
  predicate Skipping(ls: seq<string>, marker: string, i: nat)
    requires i <= |ls|
  {
    exists j | 0 <= j < i :: Heads(ls[j], marker) && forall t | j < t < i :: !Ends(ls[t], marker)
  }

  /** All lines between `i` and `t` are inside a block, or end one. */
  predicate OnlySkipped(ls: seq<string>, marker: string, i: nat, t: nat)
    requires t <= |ls|
  {
    forall u | i < u < t :: Plain(ls[u], marker) && Skipping(ls, marker, u)
  }

  predicate Recalls(ls: seq<string>, marker: string, i: nat, t: nat)
    requires t < |ls|
  {
    i < t && Plain(ls[t], marker) && !Skipping(ls, marker, t) && OnlySkipped(ls, marker, i, t)
  }

  /** Line `i` is in the file after the removal. A plain line is if it is outside every block, or ends
      one. A guest comment is if a plain line outside every block follows it, with nothing in between
      but lines inside a block or at its end. */
  predicate Stays(ls: seq<string>, marker: string, i: nat)
    requires i < |ls|
  {
    if IsGuestComment(ls[i]) then exists t | i < t < |ls| :: Recalls(ls, marker, i, t)
    else !Contains(ls[i], marker) && (!Skipping(ls, marker, i) || EndsBlock(ls[i]))
  }

  // ---- The loop keeps exactly these lines ------------------------------------------------------

  lemma SkippingStep(ls: seq<string>, marker: string, i: nat)
    requires i < |ls|
    ensures Skipping(ls, marker, i + 1) <==> Heads(ls[i], marker) || (Skipping(ls, marker, i) && !Ends(ls[i], marker))
  {
    hide Heads, Ends;
    if Heads(ls[i], marker) {
      assert Heads(ls[i], marker);
    } else if Skipping(ls, marker, i) && !Ends(ls[i], marker) {
      var j :| 0 <= j < i && Heads(ls[j], marker) && forall t | j < t < i :: !Ends(ls[t], marker);
      assert forall t | j < t < i + 1 :: !Ends(ls[t], marker);
    }
    if Skipping(ls, marker, i + 1) && !Heads(ls[i], marker) {
      var j :| 0 <= j < i + 1 && Heads(ls[j], marker) && forall t | j < t < i + 1 :: !Ends(ls[t], marker);
      assert j < i && !Ends(ls[i], marker);
    }
  }

  /** `i` is the position of the pending comment when the loop comes to line `n`. */
  predicate Waits(ls: seq<string>, marker: string, i: nat, n: nat)
    requires n <= |ls|
  {
    i < n && IsGuestComment(ls[i]) && OnlySkipped(ls, marker, i, n)
  }

  predicate WaitsFor(ls: seq<string>, marker: string, p: Option<nat>, n: nat)
    requires n <= |ls|
  {
    p.Some? ==> Waits(ls, marker, p.value, n)
  }

  function LineAt(ls: seq<string>, p: Option<nat>): Option<string>
    requires p.Some? ==> p.value < |ls|
  {
    if p.None? then None else Some(ls[p.value])
  }

  /** `l` is line `n` or a later one, or the pending comment, and stays. */
  predicate Left(ls: seq<string>, marker: string, p: Option<nat>, n: nat, l: string) {
    exists j | 0 <= j < |ls| :: (n <= j || p == Some(j)) && Stays(ls, marker, j) && ls[j] == l
  }

  lemma NotRecalled(ls: seq<string>, marker: string, i: nat, n: nat)
    requires n <= |ls| && Waits(ls, marker, i, n)
    requires n < |ls| ==> !Plain(ls[n], marker)
    ensures !Stays(ls, marker, i)
  {
    hide IsGuestComment, Plain, Skipping;
    forall t | i < t < |ls| ensures !Recalls(ls, marker, i, t) {}
  }

  lemma LeftStep(ls: seq<string>, marker: string, p: Option<nat>, q: Option<nat>, n: nat, l: string)
    requires n < |ls| && (p.Some? ==> p.value < n) && (q == p || q == None || q == Some(n))
    ensures Left(ls, marker, p, n, l) <==>
              || (q != Some(n) && Stays(ls, marker, n) && ls[n] == l)
              || (p.Some? && q != p && Stays(ls, marker, p.value) && ls[p.value] == l)
              || Left(ls, marker, q, n + 1, l)
  {
    hide Stays;
    if Left(ls, marker, p, n, l) {
      var j :| 0 <= j < |ls| && (n <= j || p == Some(j)) && Stays(ls, marker, j) && ls[j] == l;
      if j != n && p != Some(j) { assert n + 1 <= j; }
    }
    if Left(ls, marker, q, n + 1, l) {
      var j :| 0 <= j < |ls| && (n + 1 <= j || q == Some(j)) && Stays(ls, marker, j) && ls[j] == l;
      assert n <= j || p == Some(j);
    }
  }

  /** The lines that the loop still puts out, from line `n` on, are those that stay. */
  lemma {:induction false} LoopKeeps(ls: seq<string>, marker: string, p: Option<nat>, n: nat, l: string)
    requires n <= |ls| && WaitsFor(ls, marker, p, n)
    ensures l in DropGuest(ls[n..], marker, Skipping(ls, marker, n), LineAt(ls, p)) <==> Left(ls, marker, p, n, l)
    decreases |ls| - n
  {
    hide IsGuestComment, Contains, EndsBlock, Skipping, OnlySkipped, Left, Stays, DropGuest;
    if n == |ls| {
      AtTheEnd(ls, marker, p, l);
    } else {
      var q := Next(ls, marker, p, n);
      NextWaits(ls, marker, p, n);
      LoopKeeps(ls, marker, q, n + 1, l);
      LeftStep(ls, marker, p, q, n, l);
      SkippingStep(ls, marker, n);
      DropStep(ls, marker, p, n);
      StaysStep(ls, marker, p, n);
    }
  }

  lemma AtTheEnd(ls: seq<string>, marker: string, p: Option<nat>, l: string)
    requires WaitsFor(ls, marker, p, |ls|)
    ensures DropGuest(ls[|ls|..], marker, Skipping(ls, marker, |ls|), LineAt(ls, p)) == [] && !Left(ls, marker, p, |ls|, l)
  {
    hide IsGuestComment, Contains, EndsBlock, Skipping, OnlySkipped, Stays;
    if p.Some? { NotRecalled(ls, marker, p.value, |ls|); }
  }

  /** The pending comment after line `n`. */
  function Next(ls: seq<string>, marker: string, p: Option<nat>, n: nat): Option<nat>
    requires n < |ls|
  {
    if IsGuestComment(ls[n]) then Some(n)
    else if Contains(ls[n], marker) then None
    else if Skipping(ls, marker, n) then p else None
  }

  lemma NextWaits(ls: seq<string>, marker: string, p: Option<nat>, n: nat)
    requires n < |ls| && WaitsFor(ls, marker, p, n)
    ensures WaitsFor(ls, marker, Next(ls, marker, p, n), n + 1)
  {
    hide IsGuestComment, Contains, EndsBlock, Skipping;
  }

  /** What one turn of the loop puts out. */
  function Emits(ls: seq<string>, marker: string, p: Option<nat>, n: nat): seq<string>
    requires n < |ls| && (p.Some? ==> p.value < |ls|)
  {
    if !Plain(ls[n], marker) then []
    else if Skipping(ls, marker, n) then (if EndsBlock(ls[n]) then [ls[n]] else [])
    else (if p.Some? then [ls[p.value]] else []) + [ls[n]]
  }

  lemma DropStep(ls: seq<string>, marker: string, p: Option<nat>, n: nat)
    requires n < |ls| && (p.Some? ==> p.value < n)
    ensures var q := Next(ls, marker, p, n);
            DropGuest(ls[n..], marker, Skipping(ls, marker, n), LineAt(ls, p)) ==
            Emits(ls, marker, p, n) + DropGuest(ls[n + 1..], marker, Skipping(ls, marker, n + 1), LineAt(ls, q))
  {
    hide IsGuestComment, Contains, EndsBlock, Skipping;
    assert ls[n..][0] == ls[n] && ls[n..][1..] == ls[n + 1..];
    SkippingStep(ls, marker, n);
  }

  lemma StaysStep(ls: seq<string>, marker: string, p: Option<nat>, n: nat)
    requires n < |ls| && WaitsFor(ls, marker, p, n)
    ensures !IsGuestComment(ls[n]) ==>
              (Stays(ls, marker, n) <==> Plain(ls[n], marker) && (!Skipping(ls, marker, n) || EndsBlock(ls[n])))
    ensures p.Some? && Next(ls, marker, p, n) != p ==>
              (Stays(ls, marker, p.value) <==> Plain(ls[n], marker) && !Skipping(ls, marker, n))
  {
    hide IsGuestComment, Contains, EndsBlock, Skipping, OnlySkipped;
    if p.Some? && Next(ls, marker, p, n) != p {
      if Plain(ls[n], marker) {
        assert Recalls(ls, marker, p.value, n);
      } else {
        NotRecalled(ls, marker, p.value, n);
      }
    }
  }

  /** A line is in the file after the removal exactly if it is one of those that stay. */
  lemma KeptExactly(ls: seq<string>, marker: string, l: string)
    ensures l in DropGuest(ls, marker, false, None) <==> exists j | 0 <= j < |ls| :: Stays(ls, marker, j) && ls[j] == l
  {
    hide Stays, DropGuest;
    LoopKeeps(ls, marker, None, 0, l);
    assert ls[0..] == ls;
  }

  // ---- When the loop changes nothing -----------------------------------------------------------

  /** Line `k` is a guest comment with a plain line after it, or does not name the guest host. */
  predicate StaysAt(ls: seq<string>, marker: string, k: nat)
    requires k < |ls|
  {
    if IsGuestComment(ls[k]) then k + 1 < |ls| && Plain(ls[k + 1], marker) else !Contains(ls[k], marker)
  }

  predicate AllStay(ls: seq<string>, marker: string) {
    ls == [] || (StaysAt(ls, marker, 0) && AllStay(ls[1..], marker))
  }

  lemma {:induction false} AllStayMeans(ls: seq<string>, marker: string)
    ensures AllStay(ls, marker) <==> forall k | 0 <= k < |ls| :: StaysAt(ls, marker, k)
  {
    hide StaysAt;
    if ls != [] {
      AllStayMeans(ls[1..], marker);
      forall k | 0 <= k < |ls| - 1 ensures StaysAt(ls[1..], marker, k) <==> StaysAt(ls, marker, k + 1) { StaysLater(ls, marker, k); }
      if AllStay(ls, marker) {
        forall k | 0 <= k < |ls| ensures StaysAt(ls, marker, k) { if k > 0 { assert StaysAt(ls[1..], marker, k - 1); } }
      }
    }
  }

  lemma StaysLater(ls: seq<string>, marker: string, k: nat)
    requires k < |ls| - 1
    ensures StaysAt(ls[1..], marker, k) <==> StaysAt(ls, marker, k + 1)
  {}

  /** The characters of a list of lines, with a line break for each. */
  function Weight(ls: seq<string>): nat { if ls == [] then 0 else |ls[0]| + 1 + Weight(ls[1..]) }

  lemma {:induction false} JoinWeight(ls: seq<string>)
    requires ls != []
    ensures |Join(ls)| + 1 == Weight(ls)
  {
    if |ls| > 1 { JoinWeight(ls[1..]); }
  }

  lemma {:induction false} WeightConcat(a: seq<string>, b: seq<string>)
    ensures Weight(a + b) == Weight(a) + Weight(b)
  {
    if a == [] {
      assert a + b == b;
    } else {
      assert (a + b)[1..] == a[1..] + b;
      WeightConcat(a[1..], b);
    }
  }

  function Put(pending: Option<string>): seq<string> { if pending.Some? then [pending.value] else [] }

  lemma {:induction false} DropWeight(ls: seq<string>, marker: string, skip: bool, pending: Option<string>)
    ensures Weight(DropGuest(ls, marker, skip, pending)) <= Weight(ls) + Weight(Put(pending))
  {
    hide IsGuestComment, Contains, EndsBlock;
    if ls != [] {
      var l, rest := ls[0], ls[1..];
      if IsGuestComment(l) {
        DropWeight(rest, marker, skip, Some(l));
      } else if Contains(l, marker) {
        DropWeight(rest, marker, true, None);
      } else if skip {
        DropWeight(rest, marker, !EndsBlock(l), pending);
      } else {
        DropWeight(rest, marker, false, None);
        WeightConcat(Put(pending) + [l], DropGuest(rest, marker, false, None));
        WeightConcat(Put(pending), [l]);
      }
    }
  }

  lemma SettleBoth(pending: Option<string>, l: string, more: seq<string>, marker: string)
    requires Plain(l, marker) && (pending.Some? ==> IsGuestComment(pending.value))
    ensures AllStay(Put(pending) + [l] + more, marker) <==> AllStay(more, marker)
  {
    hide IsGuestComment, Contains;
    assert ([l] + more)[1..] == more;
    var all := Put(pending) + [l] + more;
    if pending.Some? { assert all[1..] == [l] + more; } else { assert all == [l] + more; }
  }

  /** Outside a block the loop either changes nothing or makes the text shorter. */
  lemma {:induction false} DropLess(ls: seq<string>, marker: string, pending: Option<string>)
    requires pending.Some? ==> IsGuestComment(pending.value)
    ensures if AllStay(Put(pending) + ls, marker) then DropGuest(ls, marker, false, pending) == Put(pending) + ls
            else Weight(DropGuest(ls, marker, false, pending)) < Weight(Put(pending) + ls)
  {
    hide IsGuestComment, Contains, EndsBlock;
    var all := Put(pending) + ls;
    WeightConcat(Put(pending), ls);
    assert pending.Some? ==> all[1..] == ls;
    assert pending.None? ==> all == ls;
    if ls != [] {
      var l, rest := ls[0], ls[1..];
      if IsGuestComment(l) {
        DropLess(rest, marker, Some(l));
        assert Put(Some(l)) + rest == ls;
      } else if Contains(l, marker) {
        DropWeight(rest, marker, true, None);
      } else {
        DropLess(rest, marker, None);
        assert Put(None) + rest == rest;
        assert all == Put(pending) + [l] + rest;
        SettleBoth(pending, l, rest, marker);
        WeightConcat(Put(pending) + [l], rest);
        WeightConcat(Put(pending) + [l], DropGuest(rest, marker, false, None));
      }
    }
  }

  /** What the loop puts out it would not change again. */
  lemma {:induction false} DropSettles(ls: seq<string>, marker: string, skip: bool, pending: Option<string>)
    requires pending.Some? ==> IsGuestComment(pending.value)
    ensures AllStay(DropGuest(ls, marker, skip, pending), marker)
  {
    hide IsGuestComment, Contains, EndsBlock;
    if ls != [] {
      var l, rest := ls[0], ls[1..];
      if IsGuestComment(l) {
        DropSettles(rest, marker, skip, Some(l));
      } else if Contains(l, marker) {
        DropSettles(rest, marker, true, None);
      } else if skip {
        DropSettles(rest, marker, !EndsBlock(l), pending);
        SettleBoth(None, l, DropGuest(rest, marker, false, pending), marker);
        assert Put(None) + [l] == [l];
      } else {
        DropSettles(rest, marker, false, None);
        SettleBoth(pending, l, DropGuest(rest, marker, false, None), marker);
      }
    }
  }

  // ---- A block between two lists of lines ------------------------------------------------------

  lemma {:induction false} DropBefore(a: seq<string>, b: seq<string>, marker: string, pending: Option<string>)
    requires forall k | 0 <= k < |a| :: !Contains(a[k], marker)
    requires b != [] && IsGuestComment(b[0])
    ensures DropGuest(a + b, marker, false, pending) == DropGuest(a, marker, false, pending) + DropGuest(b, marker, false, None)
  {
    hide IsGuestComment, Contains, EndsBlock;
    if a == [] {
      assert a + b == b;
    } else {
      assert (a + b)[1..] == a[1..] + b;
      DropBefore(a[1..], b, marker, if IsGuestComment(a[0]) then Some(a[0]) else None);
    }
  }

  /** The loop removes a block that a guest comment precedes, and works on what is around it apart. */
  lemma {:induction false} DropAround(pre: seq<string>, comment: string, vhost: string, body: seq<string>, post: seq<string>, marker: string)
    requires forall k | 0 <= k < |pre| :: !Contains(pre[k], marker)
    requires IsGuestComment(comment) && Heads(vhost, marker)
    requires forall k | 0 <= k < |body| :: Inside(body[k])
    requires post != [] ==> Ends(post[0], marker)
    ensures DropGuest(pre + ([comment, vhost] + body + post), marker, false, None)
         == DropGuest(pre, marker, false, None) + DropGuest(post, marker, false, None)
  {
    hide IsGuestComment, Contains, EndsBlock;
    var rest := [comment, vhost] + body + post;
    DropBefore(pre, rest, marker, None);
    assert rest[1..] == [vhost] + body + post && rest[1..][1..] == body + post;
    DropInside(body, post, marker);
  }
}
