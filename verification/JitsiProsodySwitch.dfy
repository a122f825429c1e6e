/** What switching an `authentication` setting of a Prosody config changes, and what it does not. */
module JitsiProsodySwitch {
  import opened Text
  import opened JitsiPatch
  import opened JitsiProsody

  // ---- What switching a setting leaves alone ---------------------------------------------------

  /** The two values of the setting. */
  predicate Value(m: string) { m == "jitsi-anonymous" || m == "internal_hashed" }

  /** The loop and the insertion tell neither line from the other. */
  predicate SameKind(x: string, y: string, h: string) {
    && (IsGuestComment(x) <==> IsGuestComment(y))
    && (Contains(x, Marker(h)) <==> Contains(y, Marker(h)))
    && (EndsBlock(x) <==> EndsBlock(y))
    && (Component() <= x <==> Component() <= y)
    && ('\n' in x <==> '\n' in y)
  }

  lemma {:induction false} RStripPrefix(s: string, w: string)
    requires w != "" && !IsSpace(w[|w| - 1])
    ensures w <= RStrip(s) <==> w <= s
  {
    if s != "" && IsSpace(s[|s| - 1]) {
      RStripPrefix(s[..|s| - 1], w);
    }
  }

  lemma LStripStep(c: char, s: string)
    ensures LStrip([c] + s) == if IsSpace(c) then LStrip(s) else [c] + s
  {
    hide IsSpace;
    assert ([c] + s)[1..] == s;
  }

  /** The text before a quoted value decides how the stripped line begins. */
  lemma {:induction false} LStripHead(x: string, a: string, t: string)
    requires a != "" && !IsSpace(a[0])
    ensures |LStrip(x + a)| >= |a| && LStrip(x + a + t) == LStrip(x + a) + t
    ensures !IsSpace(LStrip(x + a)[0])
  {
    hide IsSpace, LStrip;
    if x == "" {
      assert x + a == a == [a[0]] + a[1..] && a + t == [a[0]] + (a[1..] + t);
      LStripStep(a[0], a[1..]);
      LStripStep(a[0], a[1..] + t);
    } else {
      var y := x[1..] + a;
      assert x + a == [x[0]] + y && x + a + t == [x[0]] + (y + t);
      LStripStep(x[0], y);
      LStripStep(x[0], y + t);
      LStripHead(x[1..], a, t);
    }
  }

  lemma StripHead(x: string, a: string, t: string, w: string)
    requires a != "" && !IsSpace(a[0]) && w != "" && |w| <= |a| && !IsSpace(w[|w| - 1])
    ensures w <= Strip(x + a + t) <==> w <= LStrip(x + a)
    ensures Strip(x + a + t) != ""
  {
    LStripHead(x, a, t);
    RStripPrefix(LStrip(x + a + t), w);
    RStripFirst(LStrip(x + a + t));
  }

  lemma CharInside(s: string, i: nat, p: string, q: nat)
    requires At(s, i, p) && i <= q < i + |p|
    ensures s[q] in p
  {
    assert s[q] == s[i..i + |p|][q - i];
  }

  lemma WhollyInside(l: string, m: string, r: string, i: nat, p: string)
    requires At(l + m + r, i, p) && |l| <= i && i + |p| <= |l| + |m| <= |l| + |p|
    ensures p == m
  {
    assert (l + m + r)[i..i + |p|] == m;
  }

  /** A pattern without a quote cannot reach over the quotes around `m`. */
  lemma BetweenQuotes(l: string, m: string, m1: string, r: string, p: string)
    requires l != "" && l[|l| - 1] == '"' && r != "" && r[0] == '"' && '"' !in p
    requires |m| == |m1| <= |p| && m != p && Contains(l + m + r, p)
    ensures Contains(l + m1 + r, p)
  {
    var s, n := l + m + r, l + m1 + r;
    var i :| 0 <= i <= |s| && At(s, i, p);
    if i + |p| <= |l| || |l| + |m| <= i {
      assert n[i..i + |p|] == s[i..i + |p|];
      assert At(n, i, p);
    } else if i < |l| {
      CharInside(s, i, p, |l| - 1);
    } else if |l| + |m| < i + |p| {
      CharInside(s, i, p, |l| + |m|);
    } else {
      WhollyInside(l, m, r, i, p);
    }
  }

  lemma ValueFacts(m: string, h: string)
    requires Value(m) && HostName(h)
    ensures |m| == 15 && '\n' !in m && '"' !in m && m != "auto-configured" && |"auto-configured"| == 15
    ensures Foreign(Marker(h), m)
  {
    MarkerForeign(h);
    MarkerForeignAnon(h);
  }

  lemma MarkerBothWays(l: string, m: string, m1: string, r: string, p: string)
    requires l != "" && l[|l| - 1] == '"' && |m| == |m1| && Foreign(p, m1) && Contains(l + m1 + r, p)
    ensures Contains(l + m + r, p)
  {
    var n := l + m1 + r;
    var i :| 0 <= i <= |n| && At(n, i, p);
    ForeignStays(l, m, m1, r, i, p);
  }

  lemma QuoteFacts()
    ensures var a := "authentication = \""; a != "" && !IsSpace(a[0]) && a[|a| - 1] == '"' && |a| == 18
    ensures |GuestDomain()| <= 18 && GuestDomain() != "" && !IsSpace(GuestDomain()[|GuestDomain()| - 1])
    ensures |"--"| <= 18 && !IsSpace("--"[1]) && |Component()| <= 18
    ensures '"' !in "auto-configured"
  {}

  /** `l` and `r` are what is around the value of a setting. */
  predicate Around(l: string, r: string) {
    |l| >= 18 && l[|l| - 18..] == "authentication = \"" && l[|l| - 1] == '"' && r != "" && r[0] == '"'
  }

  lemma QuotedStart(l: string, m: string, m1: string, r: string, w: string)
    requires Around(l, r) && 0 < |w| <= 18 && !IsSpace(w[|w| - 1])
    ensures w <= Strip(l + m + r) <==> w <= Strip(l + m1 + r)
    ensures Strip(l + m + r) != "" && Strip(l + m1 + r) != ""
  {
    hide Strip, LStrip, RStrip, IsSpace;
    var a, x := "authentication = \"", l[..|l| - 18];
    QuoteFacts();
    assert l == x + a;
    assert l + m + r == x + a + (m + r) && l + m1 + r == x + a + (m1 + r);
    StripHead(x, a, m + r, w);
    StripHead(x, a, m1 + r, w);
  }

  lemma QuotedMarks(l: string, m: string, m1: string, r: string, h: string)
    requires HostName(h) && Value(m) && Value(m1) && Around(l, r)
    ensures Contains(l + m + r, Marker(h)) ==> Contains(l + m1 + r, Marker(h))
    ensures Contains(l + m + r, "auto-configured") ==> Contains(l + m1 + r, "auto-configured")
  {
    hide Contains, Marker, Foreign, Value;
    QuoteFacts();
    ValueFacts(m, h);
    ValueFacts(m1, h);
    if Contains(l + m + r, "auto-configured") { BetweenQuotes(l, m, m1, r, "auto-configured"); }
    if Contains(l + m + r, Marker(h)) { MarkerBothWays(l, m1, m, r, Marker(h)); }
  }

  lemma Quoted(l: string, m: string, m1: string, r: string, h: string)
    requires HostName(h) && Value(m) && Value(m1) && Around(l, r)
    ensures SameKind(l + m + r, l + m1 + r, h)
  {
    hide Strip, Contains, Marker, Component, GuestDomain, IsSpace, Around;
    QuoteFacts();
    QuotedStart(l, m, m1, r, GuestDomain());
    QuotedStart(l, m, m1, r, "--");
    QuotedMarks(l, m, m1, r, h);
    QuotedMarks(l, m1, m, r, h);
    QuotedBreaks(l, m, m1, r, h);
    Heading(l, m, m1, r, Component());
    Heading(l, m, m1, r, " ");
    Heading(l, m, m1, r, "\t");
  }

  lemma QuotedBreaks(l: string, m: string, m1: string, r: string, h: string)
    requires HostName(h) && Value(m) && Value(m1)
    ensures '\n' in l + m + r <==> '\n' in l + m1 + r
  {
    ValueFacts(m, h);
    ValueFacts(m1, h);
  }

  lemma Heading(l: string, m: string, m1: string, r: string, w: string)
    requires Around(l, r) && |w| <= 18
    ensures w <= l + m + r <==> w <= l + m1 + r
  {
    assert (l + m + r)[..|w|] == l[..|w|] == (l + m1 + r)[..|w|];
  }

  /** Switching a setting changes neither the kind nor the length of a line. */
  lemma SwitchKeeps(s: string, m: string, m1: string, h: string)
    requires HostName(h) && Value(m) && Value(m1)
    ensures var n := ReplaceFirst(s, Setting(m), Setting(m1)); SameKind(s, n, h) && |n| == |s|
  {
    hide Contains, ReplaceFirst, SameKind, Find;
    QuoteFacts();
    ValueFacts(m, h);
    ValueFacts(m1, h);
    if Contains(s, Setting(m)) {
      var l, r := AtQuoted(s, "authentication = \"", m, m1);
      Quoted(l, m, m1, r, h);
    } else {
      ReplaceNothing(s, Setting(m), Setting(m1));
      SameKindAsItself(s, h);
    }
  }

  lemma SameKindAsItself(s: string, h: string)
    ensures SameKind(s, s, h)
  {}

  predicate AllSameKind(x: seq<string>, y: seq<string>, h: string) {
    |x| == |y| && forall k | 0 <= k < |x| :: SameKind(x[k], y[k], h)
  }

  lemma SwitchLineKeeps(ls: seq<string>, m: string, m1: string, h: string)
    requires HostName(h) && Value(m) && Value(m1)
    ensures AllSameKind(ls, ReplaceLine(ls, Setting(m), Setting(m1)), h)
  {
    hide Contains, ReplaceFirst, SameKind, Setting;
    var n := ReplaceLine(ls, Setting(m), Setting(m1));
    forall k | 0 <= k < |ls| ensures SameKind(ls[k], n[k], h) {
      ReplacedLine(ls, Setting(m), Setting(m1), k);
      SwitchKeeps(ls[k], m, m1, h);
      SameKindAsItself(ls[k], h);
    }
  }

  lemma LinesSwitch(c: string, m: string, m1: string, h: string)
    requires HostName(h) && Value(m) && Value(m1)
    ensures Lines(ReplaceFirst(c, Setting(m), Setting(m1))) == ReplaceLine(Lines(c), Setting(m), Setting(m1))
  {
    hide Contains, ReplaceFirst, SameKind, Value;
    var p, q := Setting(m), Setting(m1);
    SettingText(m, h);
    SwitchLineKeeps(Lines(c), m, m1, h);
    JoinLines(c);
    ReplaceByLine(Lines(c), p, q);
    var n := ReplaceLine(Lines(c), p, q);
    forall l | l in n ensures '\n' !in l {
      var k :| 0 <= k < |n| && n[k] == l;
      LinesArePieces(c, k);
      SameBreaks(Lines(c)[k], n[k], h);
    }
    LinesJoin(n);
  }

  lemma SameBreaks(x: string, y: string, h: string)
    requires SameKind(x, y, h)
    ensures '\n' in x <==> '\n' in y
  {}

  lemma SettingText(m: string, h: string)
    requires HostName(h) && Value(m)
    ensures Setting(m) != "" && '\n' !in Setting(m) && !IsSpace(Setting(m)[|Setting(m)| - 1])
  {
    ValueFacts(m, h);
  }

  // ---- The second replacement undoes the first -------------------------------------------------

  lemma FindExtreme(s: string, p: string, j: nat)
    requires At(s, j, p)
    ensures Contains(s, p) && Find(s, p).Some? && Find(s, p).value <= j && At(s, Find(s, p).value, p)
  {
    assert j <= |s|;
  }

  lemma NotBothAt(s: string, i: nat)
    ensures !(At(s, i, Anon()) && At(s, i, Hashed()))
  {
    assert Anon()[18] == 'j' && Hashed()[18] == 'i';
  }

  /** Switching the first anonymous setting and then the first hashed one gives back the text exactly if
      the anonymous one came first. */
  lemma BackExactly(c: string)
    requires Contains(c, Anon()) || Contains(c, Hashed())
    ensures ReplaceFirst(ReplaceFirst(c, Anon(), Hashed()), Hashed(), Anon()) == c <==> AnonymousFirst(c)
  {
    hide Contains, ReplaceFirst, At, Find, Anon, Hashed;
    var a, m, m1 := "authentication = \"", "jitsi-anonymous", "internal_hashed";
    SettingShape();
    var c1 := ReplaceFirst(c, Anon(), Hashed());
    if !Contains(c, Anon()) {
      ReplaceNothing(c, Anon(), Hashed());
      ReplacedContains(c, Hashed(), Anon());
      NoneFirst(c);
    } else if AnonymousFirst(c) {
      BackInLine(c, a, m, m1);
    } else {
      var j := HashedBefore(c);
      var l, r := AtQuoted(c, a, m, m1);
      assert At(c1, j, Hashed()) by {
        if !At(l + m1 + r, j, Hashed()) { NotBefore(l, a, m1, m, m1, r, j); }
      }
      FindExtreme(c1, Hashed(), j);
      ReplaceIs(c1, Hashed(), Anon());
      ReplacedAt(c1, Hashed(), Anon());
    }
  }

  lemma NoneFirst(c: string)
    requires !Contains(c, Anon())
    ensures !AnonymousFirst(c)
  {}

  lemma HashedBefore(c: string) returns (j: nat)
    requires Contains(c, Anon()) && !AnonymousFirst(c)
    ensures At(c, j, Hashed()) && Find(c, Anon()).Some? && j < Find(c, Anon()).value
    ensures forall i | 0 <= i < Find(c, Anon()).value :: !At(c, i, Anon())
  {
    hide Anon, Hashed, At, Contains;
    j := Find(c, Hashed()).value;
    NotBothAt(c, j);
  }

  lemma ReplacedAt(s: string, p: string, q: string)
    requires Find(s, p).Some?
    ensures At(ReplaceFirst(s, p, q), Find(s, p).value, q)
  {}
}
