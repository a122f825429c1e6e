/** Enabling the secure domain and then disabling it, on any Prosody config. */
module JitsiProsodyRounds {
  import opened Text
  import opened JitsiPatch
  import opened JitsiProsody
  import opened JitsiProsodyLoop
  import opened JitsiProsodySwitch

  // ---- The file that enabling writes -----------------------------------------------------------

  /** The file with its first anonymous setting switched. */
  function Secured(c: string): string { ReplaceFirst(c, Anon(), Hashed()) }

  /** That file with its first hashed setting turned back. */
  function Undone(c: string): string { ReplaceFirst(Secured(c), Hashed(), Anon()) }

  predicate HasSetting(c: string) { Contains(c, Anon()) || Contains(c, Hashed()) }

  lemma SecuredFacts(c: string, h: string)
    requires HostName(h) && !Contains(c, Marker(h))
    ensures !Contains(Secured(c), Marker(h)) && !Contains(Undone(c), Marker(h))
    ensures |Secured(c)| == |c| == |Undone(c)|
    ensures HasSetting(c) ==> Contains(Secured(c), Hashed()) && Enable(c, h) == Written(InsertGuest(Secured(c), h))
    ensures Lines(Secured(c)) == ReplaceLine(Lines(c), Anon(), Hashed())
    ensures Lines(Undone(c)) == ReplaceLine(Lines(Secured(c)), Hashed(), Anon())
    ensures AllSameKind(Lines(c), Lines(Secured(c)), h) && AllSameKind(Lines(c), Lines(Undone(c)), h)
  {
    hide Contains, ReplaceFirst, SameKind, InsertGuest;
    SwitchKeeps(c, "jitsi-anonymous", "internal_hashed", h);
    SwitchKeeps(Secured(c), "internal_hashed", "jitsi-anonymous", h);
    SameMarks(c, Secured(c), h);
    SameMarks(Secured(c), Undone(c), h);
    LinesSwitch(c, "jitsi-anonymous", "internal_hashed", h);
    LinesSwitch(Secured(c), "internal_hashed", "jitsi-anonymous", h);
    SwitchLineKeeps(Lines(c), "jitsi-anonymous", "internal_hashed", h);
    SwitchLineKeeps(Lines(Secured(c)), "internal_hashed", "jitsi-anonymous", h);
    SameKindChain(Lines(c), Lines(Secured(c)), Lines(Undone(c)), h);
    if Contains(c, Anon()) { ReplacedContains(c, Anon(), Hashed()); } else { ReplaceNothing(c, Anon(), Hashed()); }
  }

  lemma SameMarks(x: string, y: string, h: string)
    requires SameKind(x, y, h)
    ensures Contains(x, Marker(h)) <==> Contains(y, Marker(h))
  {}

  lemma SameKindChain(x: seq<string>, y: seq<string>, z: seq<string>, h: string)
    requires AllSameKind(x, y, h) && AllSameKind(y, z, h)
    ensures AllSameKind(x, z, h)
  {}

  lemma LinesUnmarked(c: string, h: string)
    requires !Contains(c, Marker(h))
    ensures forall k | 0 <= k < |Lines(c)| :: !Contains(Lines(c)[k], Marker(h)) && '\n' !in Lines(c)[k]
  {
    hide Contains, Marker;
    forall k | 0 <= k < |Lines(c)| ensures !Contains(Lines(c)[k], Marker(h)) && '\n' !in Lines(c)[k] { LinesArePieces(c, k); }
  }

  /** Line `k` begins with `Component`, and no line but line 0 does before it. */
  predicate Insertion(ls: seq<string>, k: nat) {
    1 <= k < |ls| && Component() <= ls[k] && forall i | 1 <= i < k :: !(Component() <= ls[i])
  }

  /** Enabling a file with a `Component` line puts the block before it. */
  lemma EnableByLine(c: string, h: string) returns (k: nat)
    requires HostName(h) && HasSetting(c) && !Contains(c, Marker(h)) && Contains(c, "\n" + Component())
    ensures Insertion(Lines(c), k) && |Lines(Secured(c))| == |Lines(c)|
    ensures Enable(c, h) == Written(Join(WithBlock(Lines(Secured(c)), k, h)))
  {
    hide Contains, ReplaceFirst, Marker, Component, Anon, Hashed, GuestBlock, Inserted, SameKind, Secured, Undone, HasSetting, LineStart;
    SettingShape();
    SecuredFacts(c, h);
    LinesUnmarked(c, h);
    LinesUnmarked(Secured(c), h);
    var c1, ls, y := Secured(c), Lines(c), Lines(Secured(c));
    JoinLines(c);
    JoinLines(c1);
    FindLineStart(ls, Component());
    FindLineStart(y, Component());
    SameStarts(ls, y, h);
    k := StartFound(ls, y);
    InsertByLine(y[..k], h, y[k..]);
  }

  lemma SameStarts(x: seq<string>, y: seq<string>, h: string)
    requires AllSameKind(x, y, h)
    ensures forall k | 0 <= k < |x| :: Component() <= x[k] <==> Component() <= y[k]
  {}

  lemma StartFound(x: seq<string>, y: seq<string>) returns (k: nat)
    requires |x| == |y| && LineStart(x, Component()) && LineStart(y, Component())
    requires forall j | 0 <= j < |x| :: Component() <= x[j] <==> Component() <= y[j]
    requires Contains(Join(x), "\n" + Component())
    ensures Insertion(x, k)
    ensures Find(Join(y), "\n" + Component()).Some?
    ensures var p := Find(Join(y), "\n" + Component()).value;
            p <= |Join(y)| && Join(y)[..p] == Join(y[..k]) && Join(y)[p..] == "\n" + Join(y[k..])
  {
    hide Component, Contains, At, Join;
    var i :| 1 <= i < |x| && Component() <= x[i];
    assert Component() <= y[i];
    var p := Find(Join(y), "\n" + Component()).value;
    k :| 1 <= k < |y| && Component() <= y[k] && (forall j | 1 <= j < k :: !(Component() <= y[j]))
      && Join(y)[..p] == Join(y[..k]) && Join(y)[p..] == "\n" + Join(y[k..]);
  }

  lemma {:induction false} RStripRest(s: string)
    ensures forall k | |RStrip(s)| <= k < |s| :: IsSpace(s[k])
    ensures RStrip(s) == "" || !IsSpace(RStrip(s)[|RStrip(s)| - 1])
  {
    if s != "" && IsSpace(s[|s| - 1]) { RStripRest(s[..|s| - 1]); }
  }

  lemma {:induction false} RStripOff(t: string, w: string)
    requires (t == "" || !IsSpace(t[|t| - 1])) && forall k | 0 <= k < |w| :: IsSpace(w[k])
    ensures RStrip(t + w) == t
  {
    if w == "" {
      assert t + w == t;
      RStripSolid(t);
    } else {
      assert (t + w)[..|t + w| - 1] == t + w[..|w| - 1];
      RStripOff(t, w[..|w| - 1]);
    }
  }

  lemma RStripAt(s: string, p: string, i: nat)
    requires p != "" && !IsSpace(p[|p| - 1])
    ensures At(s, i, p) <==> At(RStrip(s), i, p)
  {
    RStripRest(s);
    var t := RStrip(s);
    if At(s, i, p) {
      assert s[i..i + |p|][|p| - 1] == s[i + |p| - 1];
      assert t[i..i + |p|] == p;
    }
    if At(t, i, p) { assert s[i..i + |p|] == t[i..i + |p|]; }
  }

  /** White space at the end of the file does not matter to the settings. */
  lemma RStripFind(s: string, p: string)
    requires p != "" && !IsSpace(p[|p| - 1])
    ensures Find(RStrip(s), p) == Find(s, p)
  {
    hide At;
    forall i: nat ensures At(s, i, p) <==> At(RStrip(s), i, p) { RStripAt(s, p, i); }
    if Find(s, p).Some? {
      FindIs(RStrip(s), p, Find(s, p).value);
    }
  }

  lemma RStripSecured(c: string)
    ensures RStrip(Secured(c)) == Secured(RStrip(c)) && (AnonymousFirst(c) <==> AnonymousFirst(RStrip(c)))
    ensures Contains(RStrip(c), Anon()) <==> Contains(c, Anon())
    ensures Contains(RStrip(c), Hashed()) <==> Contains(c, Hashed())
  {
    hide Contains, Anon, Hashed, ReplaceFirst, At;
    var s := RStrip(c);
    var w := c[|s|..];
    SettingEnds();
    RStripFind(c, Anon());
    RStripFind(c, Hashed());
    RStripRest(c);
    ReplaceIs(c, Anon(), Hashed());
    ReplaceIs(s, Anon(), Hashed());
    var t := Secured(s);
    assert Secured(c) == t + w;
    RStripOff(t, w);
  }

  lemma SettingEnds()
    ensures Anon() != "" && !IsSpace(Anon()[|Anon()| - 1]) && Hashed() != "" && !IsSpace(Hashed()[|Hashed()| - 1])
  {}

  lemma NoComponent(c: string, h: string)
    requires HostName(h) && !Contains(c, Marker(h)) && !Contains(c, "\n" + Component())
    ensures Find(Secured(c), "\n" + Component()).None?
    ensures forall k :: !Insertion(Lines(c), k)
  {
    hide Contains, Marker, Component, Anon, Hashed, SameKind, Secured, Undone, HasSetting, LineStart;
    SettingShape();
    SecuredFacts(c, h);
    LinesUnmarked(c, h);
    LinesUnmarked(Secured(c), h);
    var ls, y := Lines(c), Lines(Secured(c));
    JoinLines(c);
    JoinLines(Secured(c));
    FindLineStart(ls, Component());
    FindLineStart(y, Component());
    SameStarts(ls, y, h);
    NoStart(ls, y);
  }

  lemma BlockAtEnd(s: string, h: string)
    ensures var z := Lines(s);
            s + "\n" + GuestBlock(h) + "\n" == Join(WithBlock(z + ["", ""], |z| + 1, h))
  {
    hide GuestBlock, Inserted, Lines;
    var z := Lines(s);
    var v, b := z + ["", ""], GuestBlock(h);
    JoinLines(s);
    JoinConcat(z, [""]);
    InsertByLine(z + [""], h, [""]);
    assert v[..|z| + 1] == z + [""] && v[|z| + 1..] == [""];
    assert (s + "\n" + "") + b + ("\n" + "") == s + "\n" + b + "\n";
  }

  lemma InsertsAtEnd(c: string, h: string)
    requires Find(c, "\n" + Component()).None?
    ensures InsertGuest(c, h) == RStrip(c) + "\n" + GuestBlock(h) + "\n"
  {}

  /** Without a `Component` line, enabling puts the block at the end of the stripped file. */
  lemma EnabledAtEnd(c: string, h: string)
    requires HostName(h) && HasSetting(c) && !Contains(c, Marker(h)) && !Contains(c, "\n" + Component())
    ensures var z := Lines(Secured(RStrip(c)));
            Enable(c, h) == Written(Join(WithBlock(z + ["", ""], |z| + 1, h)))
  {
    hide Contains, Marker, Component, GuestBlock, Secured, Undone, HasSetting, WithBlock, Enable, Find, InsertGuest, AllSameKind, Lines, RStrip, Insertion;
    SecuredFacts(c, h);
    RStripSecured(c);
    NoComponent(c, h);
    InsertsAtEnd(Secured(c), h);
    BlockAtEnd(Secured(RStrip(c)), h);
  }

  lemma NoStart(x: seq<string>, y: seq<string>)
    requires |x| == |y| && LineStart(x, Component()) && LineStart(y, Component())
    requires forall j | 0 <= j < |x| :: Component() <= x[j] <==> Component() <= y[j]
    requires !Contains(Join(x), "\n" + Component())
    ensures Find(Join(y), "\n" + Component()).None?
    ensures forall j | 1 <= j < |x| :: !(Component() <= x[j])
  {
    hide Component, Contains, At, Join;
  }

  // ---- Disabling it again ----------------------------------------------------------------------

  /** What the removal leaves of the lines around a block at `k`. */
  function AroundBlock(x: seq<string>, k: nat, h: string): seq<string>
    requires k < |x|
  {
    DropGuest(x[..k], Marker(h), false, None) + (if x[k] == "" then [] else DropGuest(x[k..], Marker(h), false, None))
  }

  lemma ComponentEnds(l: string)
    requires Component() <= l
    ensures !IsGuestComment(l) && EndsBlock(l) && l != ""
  {
    assert "" + l == l;
    NotGuestComment("", l);
  }

  lemma BlockRemoved(x: seq<string>, k: nat, h: string)
    requires HostName(h) && 1 <= k < |x|
    requires Component() <= x[k] || (k == |x| - 1 && x[k] == "")
    requires forall j | 0 <= j < |x| :: !Contains(x[j], Marker(h))
    ensures DropGuest(WithBlock(x, k, h), Marker(h), false, None) == AroundBlock(x, k, h)
  {
    hide IsGuestComment, Contains, EndsBlock, CommentLine, Marker, AuthLine, ModulesLine, TurnLine, CloseLine, EncryptLine, Hashed, Component, DropGuest;
    CommentFacts();
    MarkerFacts(h);
    BodyLines();
    var atEnd := x[k] == "";
    if Component() <= x[k] { ComponentEnds(x[k]); }
    var body := GuestBody() + [""] + (if atEnd then [""] else []);
    var post := if atEnd then [] else x[k..];
    assert WithBlock(x, k, h) == x[..k] + ([CommentLine(), Marker(h)] + body + post);
    DropAround(x[..k], CommentLine(), Marker(h), body, post, Marker(h));
    DropNone(h);
  }

  lemma DropNone(h: string)
    ensures DropGuest([], Marker(h), false, None) == []
  {}

  lemma DisabledBlock(x: seq<string>, y: seq<string>, k: nat, h: string)
    requires HostName(h) && 1 <= k < |x| == |y|
    requires Component() <= x[k] || (k == |x| - 1 && x[k] == "")
    requires forall j | 0 <= j < |x| :: '\n' !in x[j] && !Contains(x[j], Marker(h))
    requires x == ReplaceLine(y, Hashed(), Anon())
    ensures Disable(Join(WithBlock(y, k, h)), h) == Written(Join(AroundBlock(x, k, h)))
  {
    hide Contains, ReplaceFirst, Marker, Component, Anon, Hashed, IsGuestComment, EndsBlock, Inserted, AroundBlock;
    var w, v := WithBlock(y, k, h), WithBlock(x, k, h);
    SettingShape();
    ReplaceAroundBlock(y, k, h);
    ReplaceByLine(w, Hashed(), Anon());
    ReplaceNothing(Join(w), Hashed(), Anon());
    BlockHasMarker(y, k, h);
    BlockHasMarker(x, k, h);
    BlockNoBreak(x, k, h);
    BlockRemoved(x, k, h);
  }

  // ---- Disabling undoes enabling ---------------------------------------------------------------

  /** The line after a guest comment is another kind of line, and not where the block is inserted. */
  predicate CommentStays(ls: seq<string>, j: nat)
    requires j < |ls|
  {
    IsGuestComment(ls[j]) ==> j + 1 < |ls| && !IsGuestComment(ls[j + 1]) && !Insertion(ls, j + 1)
  }

  predicate CommentsStay(ls: seq<string>) { forall j | 0 <= j < |ls| :: CommentStays(ls, j) }

  predicate UnmarkedBack(c: string) {
    AnonymousFirst(c) && CommentsStay(Lines(c)) && (Contains(c, "\n" + Component()) || c == RStrip(c) + "\n")
  }

  lemma StaysThere(ls: seq<string>, x: seq<string>, k: nat, j: nat, h: string)
    requires AllSameKind(ls, x, h) && k <= |x| && j < |x|
    requires Insertion(ls, k) || (k == |x| && forall i :: !Insertion(ls, i))
    requires forall i | 0 <= i < |x| :: !Contains(x[i], Marker(h))
    ensures j < k ==> (CommentStays(ls, j) <==> StaysAt(x[..k], Marker(h), j))
    ensures k <= j ==> (CommentStays(ls, j) <==> StaysAt(x[k..], Marker(h), j - k))
  {
    hide IsGuestComment, Contains, Marker, EndsBlock, Component;
    assert SameKind(ls[j], x[j], h);
    if j + 1 < |x| { assert SameKind(ls[j + 1], x[j + 1], h); }
  }

  lemma CommentsAround(ls: seq<string>, x: seq<string>, k: nat, h: string)
    requires AllSameKind(ls, x, h) && k <= |x|
    requires Insertion(ls, k) || (k == |x| && forall i :: !Insertion(ls, i))
    requires forall i | 0 <= i < |x| :: !Contains(x[i], Marker(h))
    ensures CommentsStay(ls) <==> AllStay(x[..k], Marker(h)) && AllStay(x[k..], Marker(h))
  {
    hide Contains, Marker, SameKind, CommentStays, StaysAt, AllStay, Insertion;
    AllStayMeans(x[..k], Marker(h));
    AllStayMeans(x[k..], Marker(h));
    forall j | 0 <= j < |x|
      ensures j < k ==> (CommentStays(ls, j) <==> StaysAt(x[..k], Marker(h), j))
      ensures k <= j ==> (CommentStays(ls, j) <==> StaysAt(x[k..], Marker(h), j - k))
    {
      StaysThere(ls, x, k, j, h);
    }
    if CommentsStay(ls) {
      forall i | 0 <= i < |x[k..]| ensures StaysAt(x[k..], Marker(h), i) { assert CommentStays(ls, k + i); }
    }
  }

  lemma ShorterText(w: seq<string>, x: seq<string>)
    requires x != [] && Join(x) != "" && Weight(w) < Weight(x)
    ensures |Join(w)| < |Join(x)|
  {
    JoinWeight(x);
    if w != [] { JoinWeight(w); }
  }

  lemma BothWhole(p: seq<string>, q: seq<string>, marker: string)
    requires p + q != [] && Join(p + q) != ""
    ensures var d := DropGuest(p, marker, false, None) + DropGuest(q, marker, false, None);
            if AllStay(p, marker) && AllStay(q, marker) then d == p + q else |Join(d)| < |Join(p + q)|
  {
    hide AllStay, DropGuest, Join;
    var dp, dq := DropGuest(p, marker, false, None), DropGuest(q, marker, false, None);
    DropLess(p, marker, None);
    DropLess(q, marker, None);
    assert Put(None) + p == p && Put(None) + q == q;
    WeightConcat(p, q);
    WeightConcat(dp, dq);
    if !(AllStay(p, marker) && AllStay(q, marker)) { ShorterText(dp + dq, p + q); }
  }

  /** Around a block before a `Component` line, the loop leaves everything or makes the text shorter. */
  lemma AroundWhole(x: seq<string>, k: nat, h: string)
    requires k < |x| && x[k] != "" && Join(x) != ""
    ensures if AllStay(x[..k], Marker(h)) && AllStay(x[k..], Marker(h)) then AroundBlock(x, k, h) == x
            else |Join(AroundBlock(x, k, h))| < |Join(x)|
  {
    hide Marker, AllStay, DropGuest, Join;
    assert x[..k] + x[k..] == x;
    BothWhole(x[..k], x[k..], Marker(h));
  }

  lemma BackBefore(c: string, h: string)
    requires HostName(h) && HasSetting(c) && !Contains(c, Marker(h)) && Contains(c, "\n" + Component())
    ensures Enable(c, h).Written? && (Disable(Enable(c, h).text, h) == Written(c) <==> UnmarkedBack(c))
    ensures Disable(Enable(c, h).text, h).Written?
  {
    hide Contains, Marker, Component, Anon, Hashed, SameKind, Secured, Enable, Disable, HasSetting, AnonymousFirst, WithBlock, AroundBlock, CommentsStay, AllStay;
    var k := EnableByLine(c, h);
    SecuredFacts(c, h);
    var ls, y, x := Lines(c), Lines(Secured(c)), Lines(Undone(c));
    LinesUnmarked(Undone(c), h);
    SameStarts(ls, x, h);
    ComponentEnds(x[k]);
    DisabledBlock(x, y, k, h);
    JoinLines(Undone(c));
    NotEmpty(c);
    AroundWhole(x, k, h);
    CommentsAround(ls, x, k, h);
    UndoneBack(c);
  }

  lemma NotEmpty(c: string)
    requires HasSetting(c)
    ensures c != ""
  {}

  lemma UndoneBack(c: string)
    requires HasSetting(c)
    ensures Undone(c) == c <==> AnonymousFirst(c)
  {
    BackExactly(c);
  }

  lemma {:induction false} BlankStays(a: seq<string>, h: string, pending: Option<string>)
    requires forall k | 0 <= k < |a| :: !Contains(a[k], Marker(h))
    ensures var d := DropGuest(a + [""], Marker(h), false, pending); d != [] && d[|d| - 1] == ""
  {
    hide IsGuestComment, Contains, EndsBlock, Marker;
    BlankIsPlain(h);
    if a == [] {
      assert a + [""] == [""];
    } else {
      assert (a + [""])[1..] == a[1..] + [""];
      BlankStays(a[1..], h, if IsGuestComment(a[0]) then Some(a[0]) else None);
    }
  }

  lemma BlankIsPlain(h: string)
    ensures Plain("", Marker(h))
  {
    ContainsChar("", Marker(h), Marker(h)[0]);
    BlankIsBody();
  }

  lemma {:induction false} BlankLast(w: seq<string>)
    requires w != [] && w[|w| - 1] == ""
    ensures Join(w) == "" || Join(w)[|Join(w)| - 1] == '\n'
  {
    if |w| > 1 { BlankLast(w[1..]); }
  }

  /** The lines before the block at the end of the file, once the setting is turned back. */
  function Ahead(c: string): seq<string> { Lines(Undone(RStrip(c))) + [""] }

  lemma UndoneAhead(s: string, h: string)
    requires HostName(h) && HasSetting(s) && !Contains(s, Marker(h))
    ensures ReplaceLine(Lines(Secured(s)) + ["", ""], Hashed(), Anon()) == Lines(Undone(s)) + ["", ""]
  {
    hide Contains, Marker, Anon, Hashed, Secured, Undone, AllSameKind, Lines, HasSetting;
    var z := Lines(Secured(s));
    SecuredFacts(s, h);
    JoinLines(Secured(s));
    HashedText();
    ContainsByLine(z, Hashed());
    ReplaceLineConcat(z, ["", ""], Hashed(), Anon());
  }

  lemma AheadUnmarked(s: string, h: string)
    requires HostName(h) && !Contains(s, Marker(h))
    ensures var x := Lines(Undone(s)) + ["", ""]; forall k | 0 <= k < |x| :: '\n' !in x[k] && !Contains(x[k], Marker(h))
  {
    hide Contains, Marker, Anon, Hashed, Secured, Undone, AllSameKind, Lines;
    SecuredFacts(s, h);
    LinesUnmarked(Undone(s), h);
    BlankIsPlain(h);
  }

  lemma DisabledAtEnd(c: string, h: string)
    requires HostName(h) && HasSetting(c) && !Contains(c, Marker(h)) && !Contains(c, "\n" + Component())
    ensures Enable(c, h).Written?
    ensures Disable(Enable(c, h).text, h) == Written(Join(DropGuest(Ahead(c), Marker(h), false, None)))
    ensures forall k | 0 <= k < |Ahead(c)| :: !Contains(Ahead(c)[k], Marker(h))
  {
    hide Contains, Marker, Component, Anon, Hashed, Secured, Undone, HasSetting, Enable, Disable, WithBlock, DropGuest, RStrip, Lines, ReplaceLine;
    var s := RStrip(c);
    EnabledAtEnd(c, h);
    StrippedSame(c, h);
    UndoneAhead(s, h);
    AheadUnmarked(s, h);
    var z := Lines(Secured(s));
    var y, k := z + ["", ""], |z| + 1;
    var x := Lines(Undone(s)) + ["", ""];
    assert |x| == |y|;
    DisabledBlock(x, y, k, h);
    assert x[..k] == Ahead(c);
    assert AroundBlock(x, k, h) == DropGuest(Ahead(c), Marker(h), false, None);
    forall j | 0 <= j < |Ahead(c)| ensures !Contains(Ahead(c)[j], Marker(h)) { assert Ahead(c)[j] == x[j]; }
  }

  lemma HashedText()
    ensures Hashed() != "" && '\n' !in Hashed() && Anon() != "" && '\n' !in Anon()
  {}

  lemma StrippedSame(c: string, h: string)
    ensures !Contains(c, Marker(h)) ==> !Contains(RStrip(c), Marker(h))
    ensures HasSetting(RStrip(c)) <==> HasSetting(c)
    ensures RStrip(c) <= c
  {
    hide Contains, Marker, Anon, Hashed;
    RStripSecured(c);
    if Contains(RStrip(c), Marker(h)) {
      assert c[0..|RStrip(c)|] == RStrip(c);
      ContainsPart(c, 0, |RStrip(c)|, Marker(h));
    }
  }

  lemma AheadText(c: string, h: string)
    requires HostName(h) && HasSetting(c) && !Contains(c, Marker(h))
    ensures Join(Ahead(c)) == Undone(RStrip(c)) + "\n" && |Undone(RStrip(c))| == |RStrip(c)|
    ensures Undone(RStrip(c)) == RStrip(c) <==> AnonymousFirst(c)
    ensures AllSameKind(Lines(RStrip(c)) + [""], Ahead(c), h)
  {
    hide Contains, Marker, Anon, Hashed, SameKind, Secured, Undone, RStrip, Lines, AnonymousFirst;
    var s := RStrip(c);
    StrippedSame(c, h);
    RStripSecured(c);
    SecuredFacts(s, h);
    JoinLines(Undone(s));
    JoinConcat(Lines(Undone(s)), [""]);
    UndoneBack(s);
    SameKindAsItself("", h);
  }

  lemma EndsSolid(c: string)
    requires HasSetting(c)
    ensures RStrip(c) != "" && RStrip(c)[|RStrip(c)| - 1] != '\n'
  {
    hide RStrip, Anon, Hashed, Contains;
    RStripRest(c);
    RStripSecured(c);
    if RStrip(c) == "" { NotEmpty(RStrip(c)); }
  }

  lemma OneBreak(c: string)
    requires c == RStrip(c) + "\n"
    ensures Lines(c) == Lines(RStrip(c)) + [""]
  {
    LinesConcat(RStrip(c), "");
    assert c == RStrip(c) + "\n" + "";
  }

  /** The comments stay in a file that ends in one line break exactly if they stay ahead of the block. */
  lemma CommentsAhead(c: string, h: string)
    requires HostName(h) && HasSetting(c) && !Contains(c, Marker(h)) && !Contains(c, "\n" + Component())
    requires c == RStrip(c) + "\n"
    ensures CommentsStay(Lines(c)) <==> AllStay(Ahead(c), Marker(h))
  {
    hide Contains, Marker, Component, Anon, Hashed, SameKind, Secured, Undone, RStrip, Lines, AllStay, CommentsStay, HasSetting, Insertion, Ahead;
    OneBreak(c);
    AheadText(c, h);
    NoComponent(c, h);
    DisabledAtEnd(c, h);
    var x := Ahead(c);
    CommentsAround(Lines(c), x, |x|, h);
    assert x[..|x|] == x && x[|x|..] == [];
    NothingStays(h);
  }

  lemma NothingStays(h: string)
    ensures AllStay([], Marker(h))
  {}

  lemma BackAtEnd(c: string, h: string)
    requires HostName(h) && HasSetting(c) && !Contains(c, Marker(h)) && !Contains(c, "\n" + Component())
    ensures Enable(c, h).Written? && (Disable(Enable(c, h).text, h) == Written(c) <==> UnmarkedBack(c))
    ensures Disable(Enable(c, h).text, h).Written?
  {
    hide Contains, Marker, Component, Anon, Hashed, SameKind, Secured, Undone, RStrip, Lines, AllStay, CommentsStay, HasSetting, Insertion, Enable, Disable, DropGuest, AnonymousFirst;
    var s, x := RStrip(c), Ahead(c);
    DisabledAtEnd(c, h);
    AheadText(c, h);
    EndsSolid(c);
    var d := DropGuest(x, Marker(h), false, None);
    DropLess(x, Marker(h), None);
    assert Put(None) + x == x;
    BlankStays(x[..|x| - 1], h, None);
    assert x[..|x| - 1] + [""] == x;
    BlankLast(d);
    if c == s + "\n" { CommentsAhead(c, h); }
    if !AllStay(x, Marker(h)) {
      ShorterText(d, x);
      StrippedSame(c, h);
    }
  }

  lemma NoSetting(c: string, h: string)
    requires !HasSetting(c) && !Contains(c, Marker(h))
    ensures Enable(c, h) == Warned && Disable(c, h).After(c) == c
  {}

  // ---- Disabling any file ----------------------------------------------------------------------

  /** The file with the first setting turned back, before the guest host is removed. */
  function Reverted(c: string): string { if Contains(c, Hashed()) then ReplaceFirst(c, Hashed(), Anon()) else c }

  lemma RevertedFacts(c: string, h: string)
    requires HostName(h)
    ensures |Reverted(c)| == |c| && (Contains(Reverted(c), Marker(h)) <==> Contains(c, Marker(h)))
    ensures Lines(Reverted(c)) == ReplaceLine(Lines(c), Hashed(), Anon()) && AllSameKind(Lines(c), Lines(Reverted(c)), h)
    ensures Reverted(c) == c <==> !Contains(c, Hashed())
  {
    hide Contains, ReplaceFirst, SameKind, At, Find, Marker;
    SwitchKeeps(c, "internal_hashed", "jitsi-anonymous", h);
    LinesSwitch(c, "internal_hashed", "jitsi-anonymous", h);
    SwitchLineKeeps(Lines(c), "internal_hashed", "jitsi-anonymous", h);
    ReplaceNothing(c, Hashed(), Anon());
    SameMarks(c, ReplaceFirst(c, Hashed(), Anon()), h);
    if Contains(c, Hashed()) {
      ReplaceIs(c, Hashed(), Anon());
      var i := Find(c, Hashed()).value;
      ReplacedAt(c, Hashed(), Anon());
      NotBothAt(c, i);
    }
  }

  /** What disabling writes for a file that names the guest host. */
  lemma DisabledMarked(c: string, h: string)
    requires HostName(h) && Contains(c, Marker(h))
    ensures Disable(c, h) == Written(Join(DropGuest(Lines(Reverted(c)), Marker(h), false, None)))
  {
    hide Contains, Marker, Anon, Hashed, SameKind, AllSameKind, ReplaceFirst, Lines, DropGuest;
    RevertedFacts(c, h);
  }

  lemma AllStaySame(x: seq<string>, y: seq<string>, h: string)
    requires AllSameKind(x, y, h)
    ensures AllStay(x, Marker(h)) <==> AllStay(y, Marker(h))
  {
    hide SameKind, IsGuestComment, Contains, Marker, StaysAt;
    AllStayMeans(x, Marker(h));
    AllStayMeans(y, Marker(h));
    forall k | 0 <= k < |x| ensures StaysAt(x, Marker(h), k) <==> StaysAt(y, Marker(h), k) { StaysAtSame(x, y, h, k); }
  }

  lemma StaysAtSame(x: seq<string>, y: seq<string>, h: string, k: nat)
    requires AllSameKind(x, y, h) && k < |x|
    ensures StaysAt(x, Marker(h), k) <==> StaysAt(y, Marker(h), k)
  {
    hide IsGuestComment, Contains, Marker, EndsBlock, Component;
    assert SameKind(x[k], y[k], h);
    if k + 1 < |x| { assert SameKind(x[k + 1], y[k + 1], h); }
  }

  /** The removal gives back the text exactly if all its lines stay. */
  lemma RemovalWhole(x: seq<string>, h: string)
    requires x != [] && Join(x) != ""
    ensures AllStay(x, Marker(h)) ==> DropGuest(x, Marker(h), false, None) == x
    ensures !AllStay(x, Marker(h)) ==> |Join(DropGuest(x, Marker(h), false, None))| < |Join(x)|
  {
    hide AllStay, Marker, DropGuest;
    DropLess(x, Marker(h), None);
    assert Put(None) + x == x;
    if !AllStay(x, Marker(h)) { ShorterText(DropGuest(x, Marker(h), false, None), x); }
  }

  lemma MarkedSome(c: string, h: string)
    requires Contains(c, Marker(h))
    ensures c != ""
  {}

  /** Enabling and disabling a file that already names the guest host. */
  lemma BackMarked(c: string, h: string)
    requires HostName(h) && Contains(c, Marker(h))
    ensures var e := Enable(c, h).After(c);
            Disable(e, h).After(e) == c <==> !Contains(c, Hashed()) && AllStay(Lines(c), Marker(h))
  {
    hide Contains, Marker, Anon, Hashed, SameKind, AllSameKind, Lines, Disable, Reverted, ReplaceFirst, DropGuest, AllStay, AnonymousFirst;
    var e := Enable(c, h).After(c);
    EnabledMarked(c, h);
    DisabledMarked(e, h);
    RevertedFacts(e, h);
    var x := Lines(Reverted(e));
    SameKindChain(Lines(c), Lines(e), x, h);
    AllStaySame(Lines(c), x, h);
    JoinLines(Reverted(e));
    MarkedSome(c, h);
    RemovalWhole(x, h);
  }

  lemma EnabledMarked(c: string, h: string)
    requires HostName(h) && Contains(c, Marker(h))
    ensures var e := Enable(c, h).After(c);
            |e| == |c| && Contains(e, Marker(h)) && AllSameKind(Lines(c), Lines(e), h) && (Reverted(e) == c <==> !Contains(c, Hashed()))
  {
    hide Contains, Marker, Setting, SameKind, Lines, ReplaceFirst;
    RevertedFacts(c, h);
    if !Contains(c, Hashed()) && Contains(c, Anon()) {
      SwitchKeeps(c, "jitsi-anonymous", "internal_hashed", h);
      LinesSwitch(c, "jitsi-anonymous", "internal_hashed", h);
      SwitchLineKeeps(Lines(c), "jitsi-anonymous", "internal_hashed", h);
      SameMarks(c, Secured(c), h);
      ReplacedContains(c, Anon(), Hashed());
      OnlyAnonymous(c);
      UndoneBack(c);
    } else {
      forall k | 0 <= k < |Lines(c)| ensures SameKind(Lines(c)[k], Lines(c)[k], h) { SameKindAsItself(Lines(c)[k], h); }
    }
  }

  lemma OnlyAnonymous(c: string)
    requires Contains(c, Anon()) && !Contains(c, Hashed())
    ensures AnonymousFirst(c)
  {}

  /** The files that enabling and disabling give back: those that already name the guest host, if no setting
      is hashed and every line stays; of the others, those without a setting, and those with the anonymous
      setting first, no guest comment that the loop drops, and a `Component` line or one line break at the end. */
  predicate ComesBack(c: string, h: string) {
    if Contains(c, Marker(h)) then !Contains(c, Hashed()) && AllStay(Lines(c), Marker(h))
    else !HasSetting(c) || UnmarkedBack(c)
  }

  /** Disabling the secure domain undoes enabling it, to the character, in exactly these files. */
  lemma DisableUndoesEnable(c: string, h: string)
    requires HostName(h)
    ensures var e := Enable(c, h).After(c); Disable(e, h).After(e) == c <==> ComesBack(c, h)
  {
    hide Contains, Marker, Component, Anon, Hashed, Disable, UnmarkedBack, RStrip, Enable, AllStay;
    if Contains(c, Marker(h)) {
      BackMarked(c, h);
    } else if !HasSetting(c) {
      NoSetting(c, h);
    } else if Contains(c, "\n" + Component()) {
      BackBefore(c, h);
    } else {
      BackAtEnd(c, h);
    }
  }

  /** A hashed setting before the only anonymous one: enabling switches the second line and disabling turns
      back the first. */
  lemma HashedBeforeAnonymous(h: string)
    requires HostName(h)
    ensures var c := Hashed() + "\n" + Anon() + "\n";
            var e := Enable(c, h).After(c);
            Disable(e, h).After(e) != c
  {
    hide Marker, Enable, Disable, Contains, Anon, Hashed, At, Foreign, CommentsStay, AllStay;
    var c := Hashed() + "\n" + Anon() + "\n";
    ContainsMiddle("", Hashed(), "\n" + Anon() + "\n");
    assert "" + Hashed() + ("\n" + Anon() + "\n") == c;
    assert At(c, 0, Hashed()) by { assert c[0..|Hashed()|] == Hashed(); AtStart(c, Hashed()); }
    FindIs(c, Hashed(), 0);
    NotBothAt(c, 0);
    DisableUndoesEnable(c, h);
  }

  lemma AtStart(c: string, p: string)
    requires |p| <= |c| && c[0..|p|] == p
    ensures At(c, 0, p)
  {}
}
