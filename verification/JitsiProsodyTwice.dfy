/** Disabling the secure domain on any Prosody config, once and twice. */
module JitsiProsodyTwice {
  import opened Text
  import opened JitsiPatch
  import opened JitsiProsody
  import opened JitsiProsodyLoop
  import opened JitsiProsodySwitch
  import opened JitsiProsodyRounds

  // ---- Which lines disabling leaves ------------------------------------------------------------

  lemma KindSame(x: seq<string>, y: seq<string>, h: string, i: nat)
    requires AllSameKind(x, y, h) && i < |x|
    ensures IsGuestComment(x[i]) <==> IsGuestComment(y[i])
    ensures Heads(x[i], Marker(h)) <==> Heads(y[i], Marker(h))
    ensures Plain(x[i], Marker(h)) <==> Plain(y[i], Marker(h))
    ensures Ends(x[i], Marker(h)) <==> Ends(y[i], Marker(h))
  {
    hide IsGuestComment, Contains, Marker, EndsBlock, Component;
    assert SameKind(x[i], y[i], h);
  }

  lemma SkippingSame(x: seq<string>, y: seq<string>, h: string, i: nat)
    requires AllSameKind(x, y, h) && i <= |x| && Skipping(x, Marker(h), i)
    ensures Skipping(y, Marker(h), i)
  {
    hide Heads, Ends, Plain, SameKind, IsGuestComment, Marker;
    var j :| 0 <= j < i && Heads(x[j], Marker(h)) && forall t | j < t < i :: !Ends(x[t], Marker(h));
    KindSame(x, y, h, j);
    forall t | j < t < i ensures !Ends(y[t], Marker(h)) { KindSame(x, y, h, t); }
  }

  lemma SameBack(x: seq<string>, y: seq<string>, h: string)
    requires AllSameKind(x, y, h)
    ensures AllSameKind(y, x, h)
  {}

  lemma SkippingBoth(x: seq<string>, y: seq<string>, h: string, i: nat)
    requires AllSameKind(x, y, h) && i <= |x|
    ensures Skipping(x, Marker(h), i) <==> Skipping(y, Marker(h), i)
  {
    hide AllSameKind, Skipping;
    SameBack(x, y, h);
    if Skipping(x, Marker(h), i) { SkippingSame(x, y, h, i); }
    if Skipping(y, Marker(h), i) {
      SameLength(x, y, h);
      SkippingSame(y, x, h, i);
    }
  }

  lemma SameLength(x: seq<string>, y: seq<string>, h: string)
    requires AllSameKind(x, y, h)
    ensures |x| == |y|
  {}

  lemma RecallsSame(x: seq<string>, y: seq<string>, h: string, i: nat, t: nat)
    requires AllSameKind(x, y, h) && t < |x| && Recalls(x, Marker(h), i, t)
    ensures t < |y| && Recalls(y, Marker(h), i, t)
  {
    hide Plain, Heads, Ends, Skipping, SameKind, IsGuestComment, Marker;
    KindSame(x, y, h, t);
    SkippingBoth(x, y, h, t);
    forall u | i < u < t ensures Plain(y[u], Marker(h)) && Skipping(y, Marker(h), u) {
      assert Plain(x[u], Marker(h));
      KindSame(x, y, h, u);
      SkippingBoth(x, y, h, u);
    }
  }

  lemma StaysSame(x: seq<string>, y: seq<string>, h: string, i: nat)
    requires AllSameKind(x, y, h) && i < |x| && Stays(x, Marker(h), i)
    ensures i < |y| && Stays(y, Marker(h), i)
  {
    hide Recalls, Skipping, IsGuestComment, Contains, Marker, EndsBlock, Component;
    assert SameKind(x[i], y[i], h);
    SkippingBoth(x, y, h, i);
    if IsGuestComment(x[i]) {
      var t :| i < t < |x| && Recalls(x, Marker(h), i, t);
      RecallsSame(x, y, h, i, t);
    }
  }

  /** A line with `p` is still there after the removal. */
  predicate KeepsOne(ls: seq<string>, marker: string, p: string) {
    exists i | 0 <= i < |ls| :: Stays(ls, marker, i) && Contains(ls[i], p)
  }

  lemma RemovalContains(x: seq<string>, marker: string, p: string)
    requires p != "" && '\n' !in p
    ensures Contains(Join(DropGuest(x, marker, false, None)), p) <==> KeepsOne(x, marker, p)
  {
    hide Contains, Stays, DropGuest;
    var d := DropGuest(x, marker, false, None);
    if d == [] { NothingJoined(p); } else { ContainsByLine(d, p); }
    if AnyContains(d, p) {
      var l :| l in d && Contains(l, p);
      KeptExactly(x, marker, l);
    }
    if KeepsOne(x, marker, p) {
      var i :| 0 <= i < |x| && Stays(x, marker, i) && Contains(x[i], p);
      KeptExactly(x, marker, x[i]);
    }
  }

  /** The lines that stay are the same before and after the setting is turned back. */
  lemma KeepsMarked(c: string, h: string)
    requires HostName(h)
    ensures KeepsOne(Lines(Reverted(c)), Marker(h), Marker(h)) <==> KeepsOne(Lines(c), Marker(h), Marker(h))
    ensures forall i | 0 <= i < |Lines(c)| :: Stays(Lines(c), Marker(h), i) <==> i < |Lines(Reverted(c))| && Stays(Lines(Reverted(c)), Marker(h), i)
  {
    hide Contains, Marker, Stays, SameKind, Lines, Reverted, Hashed, Anon, ReplaceLine;
    var x, y := Lines(c), Lines(Reverted(c));
    RevertedFacts(c, h);
    SameBack(x, y, h);
    forall i | 0 <= i < |x|
      ensures Stays(x, Marker(h), i) <==> Stays(y, Marker(h), i)
      ensures Contains(x[i], Marker(h)) <==> Contains(y[i], Marker(h))
    {
      SameMarks(x[i], y[i], h);
      if Stays(x, Marker(h), i) { StaysSame(x, y, h, i); }
      if Stays(y, Marker(h), i) { StaysSame(y, x, h, i); }
    }
  }

  /** A guest comment that itself names the guest host, and that the loop puts back. */
  predicate CommentPutBack(ls: seq<string>, marker: string) {
    exists i | 0 <= i < |ls| :: Stays(ls, marker, i) && IsGuestComment(ls[i]) && Contains(ls[i], marker)
  }

  lemma PutBack(ls: seq<string>, marker: string)
    ensures KeepsOne(ls, marker, marker) <==> CommentPutBack(ls, marker)
  {
    hide Contains, IsGuestComment, Skipping, Recalls;
  }

  /** After disabling, the guest host is gone, unless the loop put back a guest comment that names it. */
  lemma DisableRemovesGuest(c: string, h: string)
    requires HostName(h)
    ensures Contains(Disable(c, h).After(c), Marker(h)) <==> CommentPutBack(Lines(c), Marker(h))
  {
    hide IsGuestComment, Contains, Marker, Hashed, Anon, Reverted, Lines, KeepsOne, CommentPutBack;
    PutBack(Lines(c), Marker(h));
    MarkerSolid(h);
    RevertedFacts(c, h);
    if Contains(c, Marker(h)) {
      KeepsMarked(c, h);
      DisabledMarked(c, h);
      RemovalContains(Lines(Reverted(c)), Marker(h), Marker(h));
    } else {
      NoneMarked(c, h);
    }
  }

  lemma NoneMarked(c: string, h: string)
    requires HostName(h) && !Contains(c, Marker(h))
    ensures !KeepsOne(Lines(c), Marker(h), Marker(h)) && !Contains(Disable(c, h).After(c), Marker(h))
  {
    hide IsGuestComment, Contains, Marker, Hashed, Anon, Reverted, Lines, Stays, AllSameKind, ReplaceLine, Disable;
    LinesUnmarked(c, h);
    RevertedFacts(c, h);
    DisabledUnmarked(c, h);
  }

  lemma DisabledUnmarked(c: string, h: string)
    requires !Contains(c, Marker(h)) && !Contains(Reverted(c), Marker(h))
    ensures Disable(c, h).After(c) == if Contains(c, Anon()) then c else Reverted(c)
  {
    hide Contains, Marker, Anon, Hashed, ReplaceFirst;
  }

  // ---- Disabling twice -------------------------------------------------------------------------

  /** Disabling a file without the guest host changes nothing exactly when it already has a
      `jitsi-anonymous` setting, or no `internal_hashed` one. */
  lemma DisableAgain(d: string, h: string)
    requires HostName(h) && !Contains(d, Marker(h))
    ensures Disable(d, h).After(d) == d <==> Contains(d, Anon()) || !Contains(d, Hashed())
  {
    hide Contains, Marker, Anon, Hashed, Disable, Reverted, AllSameKind, ReplaceLine;
    RevertedFacts(d, h);
    DisabledUnmarked(d, h);
  }

  /** The first line with `p` is still there after the removal. */
  predicate KeepsFirst(ls: seq<string>, marker: string, p: string) {
    exists i | 0 <= i < |ls| :: Stays(ls, marker, i) && Contains(ls[i], p) && forall j | 0 <= j < i :: !Contains(ls[j], p)
  }

  /** The files on which a second run finds nothing to do: those that do not name the guest host; when a
      guest comment that names it is put back, those where no line that stays has a hashed setting once
      the first one is turned back; otherwise those where a line that stays has the anonymous setting, or
      the first hashed one is in such a line, or no such line has a hashed one. */
  predicate Settled(c: string, h: string) {
    var ls, marker := Lines(c), Marker(h);
    || !Contains(c, marker)
    || (if CommentPutBack(ls, marker) then !KeepsOne(Lines(Reverted(c)), marker, Hashed())
        else KeepsOne(ls, marker, Anon()) || KeepsFirst(ls, marker, Hashed()) || !KeepsOne(ls, marker, Hashed()))
  }

  lemma {:induction false} FirstLine(ls: seq<string>, p: string, q: string) returns (f: nat)
    requires AnyContains(ls, p)
    ensures f < |ls| && Contains(ls[f], p) && forall j | 0 <= j < f :: !Contains(ls[j], p)
    ensures ReplaceLine(ls, p, q) == ls[f := ReplaceFirst(ls[f], p, q)]
  {
    hide Contains, ReplaceFirst;
    if Contains(ls[0], p) {
      f := 0;
      assert ls == [ls[0]] + ls[1..];
    } else {
      assert AnyContains(ls[1..], p) by { assert ls == [ls[0]] + ls[1..]; }
      f := FirstLine(ls[1..], p, q);
      f := f + 1;
      assert ls == [ls[0]] + ls[1..];
    }
  }

  lemma {:induction false} NoLine(ls: seq<string>, p: string, q: string)
    requires !AnyContains(ls, p)
    ensures ReplaceLine(ls, p, q) == ls
  {
    hide Contains, ReplaceFirst;
    if ls != [] {
      assert ls == [ls[0]] + ls[1..];
      NoLine(ls[1..], p, q);
    }
  }

  /** The condition on the result of the first run, on its input. */
  lemma LeftToTurn(c: string, h: string)
    requires HostName(h)
    ensures var ls, x, marker := Lines(c), Lines(Reverted(c)), Marker(h);
            KeepsOne(x, marker, Anon()) || !KeepsOne(x, marker, Hashed()) <==>
            KeepsOne(ls, marker, Anon()) || KeepsFirst(ls, marker, Hashed()) || !KeepsOne(ls, marker, Hashed())
  {
    hide Contains, Marker, Stays, SameKind, AllSameKind, Lines, Reverted, Hashed, Anon, ReplaceFirst, ReplaceLine;
    var ls, x := Lines(c), Lines(Reverted(c));
    RevertedFacts(c, h);
    SameLength(ls, x, h);
    KeepsMarked(c, h);
    if AnyContains(ls, Hashed()) {
      var f := FirstLine(ls, Hashed(), Anon());
      ReplacedContains(ls[f], Hashed(), Anon());
      if Stays(ls, Marker(h), f) {
        assert KeepsFirst(ls, Marker(h), Hashed());
        assert KeepsOne(x, Marker(h), Anon());
      } else {
        NotKept(ls, x, Marker(h), f, Anon());
        NotKept(ls, x, Marker(h), f, Hashed());
      }
    } else {
      NoLine(ls, Hashed(), Anon());
    }
  }

  lemma NotKept(ls: seq<string>, x: seq<string>, marker: string, f: nat, p: string)
    requires |ls| == |x| && f < |ls| && x == ls[f := x[f]] && !Stays(ls, marker, f)
    requires forall i | 0 <= i < |ls| :: Stays(ls, marker, i) <==> Stays(x, marker, i)
    ensures KeepsOne(ls, marker, p) <==> KeepsOne(x, marker, p)
  {
    hide Stays, Contains;
  }

  /** A second run on a file that still names the guest host. */
  lemma TwiceMarked(c: string, h: string)
    requires HostName(h) && Contains(c, Marker(h))
    ensures var d := Disable(c, h).After(c);
            Contains(d, Marker(h)) ==> (Disable(d, h).After(d) == d <==> !Contains(d, Hashed()))
  {
    hide Contains, Marker, Anon, Hashed, SameKind, AllSameKind, Lines, Disable, Reverted, DropGuest, AllStay, ReplaceLine;
    DisabledMarked(c, h);
    var d := Disable(c, h).After(c);
    if Contains(d, Marker(h)) {
      DropSettles(Lines(Reverted(c)), Marker(h), false, None);
      LinesLeft(c, h);
      DisabledMarked(d, h);
      RevertedFacts(d, h);
      var x := Lines(Reverted(d));
      AllStaySame(Lines(d), x, h);
      JoinLines(Reverted(d));
      MarkedSome(d, h);
      RemovalWhole(x, h);
    }
  }

  lemma LinesLeft(c: string, h: string)
    requires HostName(h)
    ensures var k := DropGuest(Lines(Reverted(c)), Marker(h), false, None);
            Contains(Join(k), Marker(h)) ==> Lines(Join(k)) == k
  {
    hide Contains, Marker, DropGuest, Lines, Stays, Reverted;
    var x := Lines(Reverted(c));
    var k := DropGuest(x, Marker(h), false, None);
    if Contains(Join(k), Marker(h)) {
      MarkedSome(Join(k), h);
      forall l | l in k ensures '\n' !in l {
        KeptExactly(x, Marker(h), l);
        var j :| 0 <= j < |x| && Stays(x, Marker(h), j) && x[j] == l;
        LinesArePieces(Reverted(c), j);
      }
      LinesJoin(k);
    }
  }

  /** Disabling twice is disabling once in exactly these files: each run turns back a single setting. */
  lemma DisableTwice(c: string, h: string)
    requires HostName(h)
    ensures var d := Disable(c, h).After(c); Disable(d, h).After(d) == d <==> Settled(c, h)
  {
    hide Contains, Marker, Anon, Hashed, Lines, Disable, Reverted, DropGuest, CommentPutBack, KeepsOne, KeepsFirst;
    var d := Disable(c, h).After(c);
    DisableRemovesGuest(c, h);
    if Contains(c, Marker(h)) {
      DisabledMarked(c, h);
      HashedText();
      RemovalContains(Lines(Reverted(c)), Marker(h), Hashed());
      RemovalContains(Lines(Reverted(c)), Marker(h), Anon());
      TwiceMarked(c, h);
      if !Contains(d, Marker(h)) { DisableAgain(d, h); }
      LeftToTurn(c, h);
    } else {
      TwiceUnmarked(c, h);
    }
  }

  lemma TwiceUnmarked(c: string, h: string)
    requires HostName(h) && !Contains(c, Marker(h))
    ensures var d := Disable(c, h).After(c); Disable(d, h).After(d) == d
  {
    hide Contains, Marker, Anon, Hashed, ReplaceFirst, Disable, AllSameKind, Lines;
    RevertedFacts(c, h);
    DisabledUnmarked(c, h);
    var d := Disable(c, h).After(c);
    DisableAgain(d, h);
    if Contains(c, Hashed()) { ReplacedContains(c, Hashed(), Anon()); }
  }

  function HashedLine(): string { "    " + Hashed() }
  function OtherHost(): string { "VirtualHost \"other\"" }

  /** The guest host's block has the first hashed setting, and a later host another one. */
  function TwoHashed(h: string): seq<string> { [Marker(h), HashedLine(), OtherHost(), HashedLine()] }

  lemma HashedLineKind(h: string)
    ensures Plain(HashedLine(), Marker(h)) && !EndsBlock(HashedLine()) && '\n' !in HashedLine()
    ensures Contains(HashedLine(), Hashed()) && !Contains(HashedLine(), Anon())
  {
    hide IsGuestComment, Contains, EndsBlock, Anon, Marker;
    MarkerLetters(h);
    AnonChars();
    NotGuestComment("    ", Hashed());
    ContainsChar(HashedLine(), Marker(h), 'V');
    ContainsChar(HashedLine(), Anon(), '-');
    assert "    " + Hashed() + "" == HashedLine();
    ContainsMiddle("    ", Hashed(), "");
  }

  lemma OtherHostKind(h: string)
    ensures Ends(OtherHost(), Marker(h)) && '\n' !in OtherHost()
    ensures !Contains(OtherHost(), Anon()) && !Contains(OtherHost(), Hashed())
  {
    hide IsGuestComment, Contains, EndsBlock, Anon, Marker, Hashed;
    MarkerLetters(h);
    assert "" + OtherHost() == OtherHost();
    NotGuestComment("", OtherHost());
    ContainsChar(OtherHost(), Marker(h), 'g');
    OtherHostSettings();
  }

  lemma OtherHostSettings()
    ensures !Contains(OtherHost(), Anon()) && !Contains(OtherHost(), Hashed())
  {
    hide Contains, Anon, Hashed;
    HashedChars();
    AnonChars();
    ContainsChar(OtherHost(), Anon(), '-');
    ContainsChar(OtherHost(), Hashed(), '_');
  }

  lemma TwoHashedLines(h: string)
    requires HostName(h)
    ensures Heads(Marker(h), Marker(h)) && '\n' !in Marker(h)
    ensures Plain(HashedLine(), Marker(h)) && !EndsBlock(HashedLine()) && '\n' !in HashedLine()
    ensures Contains(HashedLine(), Hashed()) && !Contains(HashedLine(), Anon())
    ensures Ends(OtherHost(), Marker(h)) && '\n' !in OtherHost()
    ensures !Contains(OtherHost(), Anon()) && !Contains(OtherHost(), Hashed())
  {
    hide IsGuestComment, Contains, EndsBlock, Anon, Marker, Hashed, HashedLine, OtherHost;
    MarkerFacts(h);
    HashedLineKind(h);
    OtherHostKind(h);
  }

  lemma AnonChars()
    ensures '-' in Anon()
  {
    assert Anon()[23] == '-';
  }

  lemma MarkerLetters(h: string)
    ensures 'V' in Marker(h) && 'g' in Marker(h)
  {
    assert Marker(h)[0] == 'V' && Marker(h)[13] == 'g';
  }

  lemma TwoHashedLeft(h: string)
    requires HostName(h)
    ensures var ls, marker := TwoHashed(h), Marker(h);
            !Stays(ls, marker, 0) && !Stays(ls, marker, 1) && Stays(ls, marker, 3)
  {
    hide IsGuestComment, Contains, EndsBlock, Marker, HashedLine, OtherHost, Skipping;
    TwoHashedLines(h);
    var ls, marker := TwoHashed(h), Marker(h);
    SkippingStep(ls, marker, 0);
    SkippingStep(ls, marker, 1);
    SkippingStep(ls, marker, 2);
  }

  /** Disabling twice is not disabling once: the first run turns back the setting in the guest host's
      block and removes it with the block, and the second one turns back that of the other host. */
  lemma TwiceDiffers(h: string)
    requires HostName(h)
    ensures var c := Join(TwoHashed(h));
            var d := Disable(c, h).After(c);
            Disable(d, h).After(d) != d
  {
    hide IsGuestComment, Contains, EndsBlock, Marker, HashedLine, OtherHost, Disable, Stays, Anon, Hashed;
    var ls, marker, c := TwoHashed(h), Marker(h), Join(TwoHashed(h));
    TwoHashedLines(h);
    TwoHashedLeft(h);
    forall l | l in ls ensures '\n' !in l {}
    LinesJoin(ls);
    MarkerSolid(h);
    assert ls[0] in ls;
    ContainsByLine(ls, marker);
    NoGuestComments(h);
    assert !KeepsOne(ls, marker, Anon());
    assert !KeepsFirst(ls, marker, Hashed());
    assert Stays(ls, marker, 3) && Contains(ls[3], Hashed());
    DisableTwice(c, h);
  }

  lemma NoGuestComments(h: string)
    requires HostName(h)
    ensures !CommentPutBack(TwoHashed(h), Marker(h))
  {
    hide IsGuestComment, Contains, EndsBlock, Marker, HashedLine, OtherHost, Stays;
    TwoHashedLines(h);
  }
}
