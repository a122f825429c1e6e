/** What the config patchers have in common. */
module JitsiPatch {
  import opened Text

  /** What the patch does to the file: nothing, nothing and a warning, or a new content. */
  datatype Patch = Skipped | Warned | Written(text: string) {
    /** The file afterwards, if the write succeeds. */
    function After(c: string): string { if Written? then text else c }
  }

  /** The characters of a name that passes `_validate_hostname`. */
  predicate HostName(h: string) {
    forall c | c in h :: 'a' <= c <= 'z' || 'A' <= c <= 'Z' || '0' <= c <= '9' || c == '.' || c == '-'
  }
}

/** `_sd_patch_prosody`: the secure-domain switch in the Prosody config of a Jitsi host. */
module JitsiProsody {
  import opened Text
  import opened JitsiPatch

  function Setting(value: string): string { "authentication = \"" + value + "\"" }
  function Anon(): string { Setting("jitsi-anonymous") }
  function Hashed(): string { Setting("internal_hashed") }
  function Component(): string { "Component \"" }

  function Marker(h: string): string { "VirtualHost \"guest." + h + "\"" }

  function GuestDomain(): string { "-- Guest domain" }
  function ForWhom(): string { " for unauthenticated participants (" }
  function CommentStart(): string { GuestDomain() + ForWhom() }
  function CommentLine(): string { CommentStart() + "auto-configured" + ")" }
  function AuthLine(): string { "    " + Anon() }
  function ModulesLine(): string { "    " + "modules_enabled = {" }
  function TurnLine(): string { "        " + "\"turncredentials\";" }
  function CloseLine(): string { "    " + "}" }
  function EncryptLine(): string { "    " + "c2s_require_encryption = false" }

  function GuestBody(): seq<string> { [AuthLine(), ModulesLine(), TurnLine(), CloseLine(), EncryptLine()] }

  function GuestLines(h: string): seq<string> { [CommentLine(), Marker(h)] + GuestBody() }

  function GuestBlock(h: string): string { "\n" + Join(GuestLines(h)) + "\n" }

  function InsertGuest(c: string, h: string): string {
    match Find(c, "\n" + Component())
    case Some(i) => c[..i] + GuestBlock(h) + c[i..]
    case None => RStrip(c) + "\n" + GuestBlock(h) + "\n"
  }

  function Enable(c: string, h: string): Patch {
    if Contains(c, Hashed()) && Contains(c, Marker(h)) then Skipped
    else if !Contains(c, Anon()) && !Contains(c, Hashed()) then Warned
    else
      var c1 := if Contains(c, Anon()) then ReplaceFirst(c, Anon(), Hashed()) else c;
      Written(if Contains(c1, Marker(h)) then c1 else InsertGuest(c1, h))
  }

  predicate IsGuestComment(line: string) {
    GuestDomain() <= Strip(line) && Contains(line, "auto-configured")
  }

  /** A line that ends the guest block: not blank, not a comment, not indented. */
  predicate EndsBlock(line: string) {
    Strip(line) != "" && !("--" <= Strip(line)) && !(" " <= line) && !("\t" <= line)
  }

  /** What the removal loop does with the lines from here on. */
  function DropGuest(ls: seq<string>, marker: string, skip: bool, pending: Option<string>): seq<string> {
    if ls == [] then []
    else if IsGuestComment(ls[0]) then DropGuest(ls[1..], marker, skip, Some(ls[0]))
    else if Contains(ls[0], marker) then DropGuest(ls[1..], marker, true, None)
    else if skip then
      if EndsBlock(ls[0]) then [ls[0]] + DropGuest(ls[1..], marker, false, pending)
      else DropGuest(ls[1..], marker, true, pending)
    else (if pending.Some? then [pending.value] else []) + [ls[0]] + DropGuest(ls[1..], marker, false, None)
  }

  function Disable(c: string, h: string): Patch {
    if Contains(c, Anon()) && !Contains(c, Marker(h)) then Skipped
    else
      var c1 := if Contains(c, Hashed()) then ReplaceFirst(c, Hashed(), Anon()) else c;
      Written(if Contains(c1, Marker(h)) then Join(DropGuest(Lines(c1), Marker(h), false, None)) else c1)
  }

  method RemoveGuestHost(content: string, marker: string) returns (text: string)
    ensures text == Join(DropGuest(Lines(content), marker, false, None))
  {
    hide IsGuestComment, EndsBlock, Contains, Join, Lines;
    var lines := Lines(content);
    var newLines: seq<string> := [];
    var skip := false;
    var pendingComment: Option<string> := None;
    for i := 0 to |lines|
      invariant newLines + DropGuest(lines[i..], marker, skip, pendingComment) == DropGuest(lines, marker, false, None)
    {
      var line := lines[i];
      assert lines[i..][1..] == lines[i + 1..];
      if IsGuestComment(line) {
        pendingComment := Some(line);
        continue;
      }
      if Contains(line, marker) {
        skip := true;
        pendingComment := None;
        continue;
      }
      if skip {
        if EndsBlock(line) {
          skip := false;
          newLines := newLines + [line];
        }
        continue;
      }
      if pendingComment.Some? {
        newLines := newLines + [pendingComment.value];
        pendingComment := None;
      }
      newLines := newLines + [line];
    }
    assert lines[|lines|..] == [] && newLines + [] == newLines;
    text := Join(newLines);
  }

  /** `_sd_patch_prosody` on a readable file; an unreadable or empty one only draws a warning. */
  method PatchProsody(content: string, h: string, enable: bool) returns (p: Patch)
    ensures p == if enable then Enable(content, h) else Disable(content, h)
  {
    var text := content;
    if enable {
      if Contains(text, Hashed()) && Contains(text, Marker(h)) { return Skipped; }
      if Contains(text, Anon()) {
        text := ReplaceFirst(text, Anon(), Hashed());
      } else if !Contains(text, Hashed()) {
        return Warned;
      }
      if !Contains(text, Marker(h)) { text := InsertGuest(text, h); }
    } else {
      if Contains(text, Anon()) && !Contains(text, Marker(h)) { return Skipped; }
      if Contains(text, Hashed()) { text := ReplaceFirst(text, Hashed(), Anon()); }
      if Contains(text, Marker(h)) { text := RemoveGuestHost(text, Marker(h)); }
    }
    return Written(text);
  }

  // ---- Switching a setting back and forth -------------------------------------------------------

  /** `p` occurs, and `q` does not occur before it. */
  predicate SettingFirst(c: string, p: string, q: string) {
    match (Find(c, p), Find(c, q))
    case (Some(i), Some(j)) => i < j
    case (Some(_), None) => true
    case (None, _) => false
  }

  /** There is a `jitsi-anonymous` setting, and no `internal_hashed` setting before the first one. */
  predicate AnonymousFirst(c: string) { SettingFirst(c, Anon(), Hashed()) }

  /** A pattern that cannot overlap a quoted `m`: it neither starts inside nor runs into it. */
  predicate Foreign(p: string, m: string) {
    && p != "" && m != "" && p[0] !in m
    && forall q | 0 <= q < |p| - 1 && p[q] == '"' :: p[q + 1] != m[0]
  }

  lemma NoOverlap(l: string, m: string, r: string, i: nat, p: string)
    requires l != "" && l[|l| - 1] == '"' && Foreign(p, m)
    requires |l| - |p| < i < |l| + |m|
    ensures !At(l + m + r, i, p)
  {
    var s := l + m + r;
    if i + |p| <= |s| {
      var t := s[i..i + |p|];
      if i >= |l| {
        assert t[0] == m[i - |l|];
      } else {
        var q := |l| - 1 - i;
        assert t[q] == '"' && t[q + 1] == m[0];
      }
    }
  }

  lemma ForeignStays(l: string, m: string, m1: string, r: string, i: nat, p: string)
    requires l != "" && l[|l| - 1] == '"' && |m| == |m1| && Foreign(p, m1)
    requires At(l + m1 + r, i, p)
    ensures At(l + m + r, i, p)
  {
    var s, s1 := l + m + r, l + m1 + r;
    if |l| - |p| < i < |l| + |m| {
      NoOverlap(l, m1, r, i, p);
    } else {
      assert s[i..i + |p|] == s1[i..i + |p|];
    }
  }

  lemma MarkerForeign(h: string)
    requires HostName(h)
    ensures Foreign(Marker(h), "internal_hashed") && '\n' !in Marker(h) && Marker(h) != ""
  {
    var p, head := Marker(h), "VirtualHost \"guest.";
    assert p == head + h + "\"";
    forall q | 0 <= q < |p| - 1 ensures p[q] == '"' ==> p[q + 1] != 'i' {
      if q >= |head| { assert p[q] == h[q - |head|] && h[q - |head|] in h; }
    }
    forall c | c in p ensures c != '\n' { if c in h {} }
  }

  /** The text around the first `a + m + "\""`, and the replacement of `m` by `m1` there. */
  lemma AtQuoted(c: string, a: string, m: string, m1: string) returns (l: string, r: string)
    requires a != "" && a[|a| - 1] == '"' && Contains(c, a + m + "\"")
    ensures c == l + m + r && ReplaceFirst(c, a + m + "\"", a + m1 + "\"") == l + m1 + r
    ensures |a| <= |l| && l[|l| - |a|..] == a && l[|l| - 1] == '"' && r != "" && r[0] == '"'
    ensures Find(c, a + m + "\"") == Some(|l| - |a|)
  {
    hide Find, At, Contains, ReplaceFirst;
    var p := a + m + "\"";
    FoundAt(c, p, a + m1 + "\"");
    var i := Find(c, p).value;
    var x, y := c[..i], c[i + |p|..];
    l, r := x + a, "\"" + y;
    Regroup(x, a, m, y);
    Regroup(x, a, m1, y);
  }

  lemma FoundAt(c: string, p: string, q: string)
    requires Contains(c, p)
    ensures Find(c, p).Some?
    ensures var i := Find(c, p).value;
            i + |p| <= |c| && c == c[..i] + p + c[i + |p|..] && ReplaceFirst(c, p, q) == c[..i] + q + c[i + |p|..]
  {}

  lemma Regroup(x: string, a: string, m: string, y: string)
    ensures x + (a + m + "\"") + y == (x + a) + m + ("\"" + y)
  {}

  /** Inside one line the second replacement undoes the first, if the first setting is the one
      that was replaced. */
  lemma BackInLine(c: string, a: string, m: string, m1: string)
    requires a != "" && a[|a| - 1] == '"' && |m| == |m1| && '"' !in m1
    requires SettingFirst(c, a + m + "\"", a + m1 + "\"")
    ensures var d := ReplaceFirst(c, a + m + "\"", a + m1 + "\"");
            Contains(d, a + m1 + "\"") && ReplaceFirst(d, a + m1 + "\"", a + m + "\"") == c
  {
    hide Find, Contains, ReplaceFirst, At;
    var p, p1 := a + m + "\"", a + m1 + "\"";
    FirstIsFound(c, p, p1);
    var l, r := AtQuoted(c, a, m, m1);
    var i := |l| - |a|;
    var x, y := l[..i], r[1..];
    var d := l + m1 + r;
    assert l == x + a && r == "\"" + y;
    Regroup(x, a, m, y);
    Regroup(x, a, m1, y);
    AtAfter(x, p1, y);
    forall j | 0 <= j < i ensures !At(d, j, p1) { NotBefore(l, a, m, m1, m1, r, j); }
    FindIs(d, p1, i);
    ReplaceIs(d, p1, p);
    assert d[..i] == x && d[i + |p1|..] == y;
  }

  lemma FirstIsFound(c: string, p: string, q: string)
    requires SettingFirst(c, p, q)
    ensures Contains(c, p) && forall j | 0 <= j <= Find(c, p).value :: !At(c, j, q)
  {}

  lemma AtAfter(x: string, p: string, y: string)
    ensures At(x + p + y, |x|, p) && Contains(x + p + y, p)
  {
    assert At(x + p + y, |x|, p);
  }

  /** What stands between the quotes does not matter to an occurrence of `a + m1 + "\""` before it. */
  lemma NotBefore(l: string, a: string, t: string, u: string, m1: string, r: string, j: nat)
    requires a != "" && |a| <= |l| && l[|l| - 1] == '"' && |t| == |u| == |m1| && '"' !in m1
    requires j < |l| - |a| && !At(l + t + r, j, a + m1 + "\"")
    ensures !At(l + u + r, j, a + m1 + "\"")
  {
    var p1, c, d := a + m1 + "\"", l + t + r, l + u + r;
    if j + |p1| <= |l| {
      assert d[j..j + |p1|] == c[j..j + |p1|];
    } else if j + |p1| <= |d| {
      var q := |l| - 1 - j;
      assert d[j..j + |p1|][q] == '"' && p1[q] == m1[q - |a|] && m1[q - |a|] in m1;
    }
  }

  /** What a line is after the first replacement. */
  lemma {:induction false} ReplacedLine(ls: seq<string>, p: string, q: string, k: nat)
    requires k < |ls|
    ensures var n := ReplaceLine(ls, p, q)[k];
            n == ls[k] || (Contains(ls[k], p) && n == ReplaceFirst(ls[k], p, q))
  {
    if k > 0 && !Contains(ls[0], p) { ReplacedLine(ls[1..], p, q, k - 1); }
  }

  // ---- The removal loop ------------------------------------------------------------------------

  /** Lines inside a block: indented or blank. */
  predicate Inside(l: string) { !IsGuestComment(l) && !EndsBlock(l) }

  lemma {:induction false} DropInside(a: seq<string>, b: seq<string>, marker: string)
    requires forall k | 0 <= k < |a| :: Inside(a[k])
    ensures DropGuest(a + b, marker, true, None) == DropGuest(b, marker, true, None)
  {
    hide IsGuestComment, Contains, EndsBlock;
    if a == [] {
      assert a + b == b;
    } else {
      assert (a + b)[1..] == a[1..] + b;
      DropInside(a[1..], b, marker);
    }
  }

  lemma NotGuestComment(blank: string, l: string)
    requires (forall c | c in blank :: IsSpace(c)) && l != "" && !IsSpace(l[0]) && l[0] != '-'
    ensures !IsGuestComment(blank + l)
    ensures " " <= blank ==> Inside(blank + l)
    ensures blank == "" && l[0] != '\t' ==> EndsBlock(l)
  {
    hide Contains, Strip, GuestDomain;
    StripFirst(blank, l);
    GuestDomainChars();
    if blank == "" { assert blank + l == l; }
  }

  lemma StripFirst(blank: string, l: string)
    requires (forall c | c in blank :: IsSpace(c)) && l != "" && !IsSpace(l[0])
    ensures Strip(blank + l) != "" && Strip(blank + l)[0] == l[0]
  {
    LStripBlank(blank, l);
    RStripFirst(l);
  }

  lemma CommentIsGuest(a: string, b: string)
    requires GuestDomain() <= a && b != "" && !IsSpace(b[|b| - 1])
    ensures IsGuestComment(a + "auto-configured" + b)
  {
    var l := a + "auto-configured" + b;
    StripSolid(l);
    ContainsMiddle(a, "auto-configured", b);
  }

  predicate BodyLine(l: string) { Inside(l) && '\n' !in l && !Contains(l, Hashed()) }

  lemma BodyLines()
    ensures BodyLine(AuthLine()) && BodyLine(ModulesLine()) && BodyLine(TurnLine())
    ensures BodyLine(CloseLine()) && BodyLine(EncryptLine()) && BodyLine("")
  {
    hide BodyLine, AuthLine, ModulesLine, TurnLine, CloseLine, EncryptLine;
    AuthIsBody();
    ModulesIsBody();
    TurnIsBody();
    CloseIsBody();
    EncryptIsBody();
    BlankIsBody();
  }

  lemma HashedChars()
    ensures '"' in Hashed() && '_' in Hashed()
  {
    assert Hashed()[17] == '"' && Hashed()[26] == '_';
  }

  lemma AuthIsBody()
    ensures BodyLine(AuthLine())
  {
    hide Hashed, IsGuestComment, EndsBlock, Contains;
    NotGuestComment("    ", Anon());
    HashedChars();
    ContainsChar(AuthLine(), Hashed(), '_');
  }

  lemma ModulesIsBody()
    ensures BodyLine(ModulesLine())
  {
    hide Hashed, IsGuestComment, EndsBlock, Contains;
    NotGuestComment("    ", "modules_enabled = {");
    HashedChars();
    ContainsChar(ModulesLine(), Hashed(), '"');
  }

  lemma TurnIsBody()
    ensures BodyLine(TurnLine())
  {
    hide Hashed, IsGuestComment, EndsBlock, Contains;
    assert " " <= "        ";
    NotGuestComment("        ", "\"turncredentials\";");
    HashedChars();
    ContainsChar(TurnLine(), Hashed(), '_');
  }

  lemma CloseIsBody()
    ensures BodyLine(CloseLine())
  {
    hide Hashed, IsGuestComment, EndsBlock, Contains;
    NotGuestComment("    ", "}");
    HashedChars();
    ContainsChar(CloseLine(), Hashed(), '_');
  }

  lemma EncryptIsBody()
    ensures BodyLine(EncryptLine())
  {
    hide Hashed, IsGuestComment, EndsBlock, Contains;
    NotGuestComment("    ", "c2s_require_encryption = false");
    HashedChars();
    ContainsChar(EncryptLine(), Hashed(), '"');
  }

  lemma BlankIsBody()
    ensures BodyLine("")
  {
    HashedChars();
    ContainsChar("", Hashed(), '_');
  }

  lemma CommentStarts()
    ensures GuestDomain() <= CommentStart() && '\n' !in CommentStart() && '_' !in CommentStart()
  {
    hide GuestDomain, ForWhom;
    GuestDomainChars();
    ForWhomChars();
  }

  lemma GuestDomainChars()
    ensures '\n' !in GuestDomain() && '_' !in GuestDomain() && GuestDomain() != "" && GuestDomain()[0] == '-'
  {}

  lemma ForWhomChars()
    ensures '\n' !in ForWhom() && '_' !in ForWhom()
  {}

  lemma CommentFacts()
    ensures IsGuestComment(CommentLine()) && '\n' !in CommentLine() && !Contains(CommentLine(), Hashed())
  {
    hide IsGuestComment, Contains, EndsBlock, Hashed, CommentStart;
    HashedChars();
    CommentStarts();
    CommentIsGuest(CommentStart(), ")");
    ContainsChar(CommentLine(), Hashed(), '_');
  }

  lemma MarkerFacts(h: string)
    requires HostName(h)
    ensures !IsGuestComment(Marker(h)) && Contains(Marker(h), Marker(h)) && '\n' !in Marker(h)
    ensures !Contains(Marker(h), Hashed())
  {
    hide IsGuestComment, Contains, EndsBlock, Hashed, Marker;
    HashedChars();
    MarkerIsNoComment(h);
    MarkerForeign(h);
    MarkerHasNo(h);
    ContainsChar(Marker(h), Hashed(), '_');
    assert "" + Marker(h) + "" == Marker(h);
    ContainsMiddle("", Marker(h), "");
  }

  lemma MarkerIsNoComment(h: string)
    ensures !IsGuestComment(Marker(h))
  {
    assert "" + Marker(h) == Marker(h);
    NotGuestComment("", Marker(h));
  }

  lemma MarkerHasNo(h: string)
    requires HostName(h)
    ensures '_' !in Marker(h)
  {
    forall c | c in Marker(h) ensures c != '_' { if c in h {} }
  }

  /** The lines between the inserted block and the text that follows it. */
  function Inserted(h: string): seq<string> { GuestLines(h) + [""] }

  lemma GuestLinesSome(h: string)
    ensures GuestLines(h) != []
  {}

  /** Insertion, line by line. */
  lemma InsertByLine(pre: seq<string>, h: string, post: seq<string>)
    requires pre != [] && post != []
    ensures Join(pre) + GuestBlock(h) + ("\n" + Join(post)) == Join(pre + (Inserted(h) + post))
  {
    hide CommentLine, Marker, GuestLines;
    GuestLinesSome(h);
    var g, t := GuestLines(h), [""] + post;
    assert t[1..] == post;
    assert Inserted(h) + post == g + t;
    JoinConcat(g, t);
    JoinConcat(pre, g + t);
  }

  /** The second replacement passes over the inserted lines. */
  lemma {:induction false} ReplaceAroundBlock(y: seq<string>, k: nat, h: string)
    requires HostName(h) && k <= |y|
    ensures ReplaceLine(y[..k] + (Inserted(h) + y[k..]), Hashed(), Anon())
         == ReplaceLine(y, Hashed(), Anon())[..k] + (Inserted(h) + ReplaceLine(y, Hashed(), Anon())[k..])
  {
    hide IsGuestComment, Contains, EndsBlock, CommentLine, Marker, AuthLine, ModulesLine, TurnLine, CloseLine, EncryptLine, Hashed, Anon;
    CommentFacts();
    MarkerFacts(h);
    BodyLines();
    var mid := Inserted(h);
    assert !AnyContains(mid, Hashed());
    ReplaceLineConcat(y[..k], mid + y[k..], Hashed(), Anon());
    ReplaceLineConcat(mid, y[k..], Hashed(), Anon());
    ReplaceLineConcat(y[..k], y[k..], Hashed(), Anon());
    assert y == y[..k] + y[k..];
  }

  lemma SettingShape()
    ensures var a := "authentication = \"";
            && a[|a| - 1] == '"' && |Component()| <= |a| && '\n' !in a
            && Anon() == a + "jitsi-anonymous" + "\"" && Hashed() == a + "internal_hashed" + "\""
            && |"jitsi-anonymous"| == |"internal_hashed"| && '"' !in "internal_hashed"
            && '\n' !in "jitsi-anonymous" && '\n' !in "internal_hashed"
            && '\n' !in Anon() && '\n' !in Hashed() && Anon() != "" && Hashed() != "" && '\n' !in Component()
  {}

  function WithBlock(x: seq<string>, k: nat, h: string): seq<string>
    requires k <= |x|
  {
    x[..k] + (Inserted(h) + x[k..])
  }

  lemma BlockHasMarker(x: seq<string>, k: nat, h: string)
    requires HostName(h) && k <= |x|
    ensures Contains(Join(WithBlock(x, k, h)), Marker(h))
  {
    hide Contains, Marker, IsGuestComment, EndsBlock, CommentLine, GuestBody, Foreign;
    MarkerFacts(h);
    MarkerForeign(h);
    assert WithBlock(x, k, h)[k + 1] == Marker(h);
    ContainsByLine(WithBlock(x, k, h), Marker(h));
  }

  lemma BlockNoBreak(x: seq<string>, k: nat, h: string)
    requires HostName(h) && k <= |x| && forall j | 0 <= j < |x| :: '\n' !in x[j]
    ensures Lines(Join(WithBlock(x, k, h))) == WithBlock(x, k, h)
  {
    hide Contains, Marker, IsGuestComment, EndsBlock, CommentLine, AuthLine, ModulesLine, TurnLine, CloseLine, EncryptLine, Hashed, Inside;
    CommentFacts();
    MarkerFacts(h);
    BodyLines();
    var v := WithBlock(x, k, h);
    forall l | l in v ensures '\n' !in l {}
    LinesJoin(v);
  }

  lemma ContainsWider(x: string, s: string, y: string, p: string)
    requires Contains(s, p)
    ensures Contains(x + s + y, p)
  {
    assert (x + s + y)[|x|..|x| + |s|] == s;
    ContainsPart(x + s + y, |x|, |x| + |s|, p);
  }

  lemma {:induction false} RStripContains(s: string, p: string)
    requires Contains(s, p) && p != "" && !IsSpace(p[|p| - 1])
    ensures Contains(RStrip(s), p)
  {
    if s != "" && IsSpace(s[|s| - 1]) {
      var n := |s| - 1;
      var j :| 0 <= j <= |s| && At(s, j, p);
      assert s[j..j + |p|][|p| - 1] == s[j + |p| - 1];
      assert s[..n][j..j + |p|] == p;
      assert At(s[..n], j, p);
      RStripContains(s[..n], p);
    }
  }

  lemma BlockContainsMarker(h: string)
    ensures Contains(GuestBlock(h), Marker(h))
  {
    hide Marker, CommentLine, AuthLine, ModulesLine, TurnLine, CloseLine, EncryptLine, Contains;
    var g, rest := GuestLines(h), Join(GuestBody());
    JoinConcat([CommentLine(), Marker(h)], GuestBody());
    JoinConcat([CommentLine()], [Marker(h)]);
    assert [CommentLine()] + [Marker(h)] == [CommentLine(), Marker(h)];
    assert GuestBlock(h) == ("\n" + CommentLine() + "\n") + Marker(h) + ("\n" + rest + "\n");
    ContainsMiddle("\n" + CommentLine() + "\n", Marker(h), "\n" + rest + "\n");
  }

  lemma NotAcross(c: string, i: nat, j: nat, p: string)
    requires j <= i < j + |p| <= |c| && c[i] == '\n' && '\n' !in p
    ensures !At(c, j, p)
  {
    assert c[j..j + |p|][i - j] == '\n' && p[i - j] in p;
  }

  /** A piece without a line break survives a cut in front of a line break. */
  lemma CutKeeps(c: string, i: nat, p: string)
    requires Contains(c, p) && i < |c| && c[i] == '\n' && '\n' !in p && p != ""
    ensures Contains(c[..i], p) || Contains(c[i..], p)
  {
    var j :| 0 <= j <= |c| && At(c, j, p);
    if j <= i < j + |p| {
      NotAcross(c, i, j, p);
    } else if j + |p| <= i {
      assert c[..i][j..j + |p|] == p && At(c[..i], j, p);
    } else {
      assert c[i..][j - i..j - i + |p|] == p && At(c[i..], j - i, p);
    }
  }

  lemma InsertKeeps(c: string, h: string)
    requires Contains(c, Hashed())
    ensures Contains(InsertGuest(c, h), Marker(h)) && Contains(InsertGuest(c, h), Hashed())
  {
    hide Marker, Contains, GuestBlock, Hashed, At;
    SettingShape();
    BlockContainsMarker(h);
    var g := GuestBlock(h);
    match Find(c, "\n" + Component())
    case Some(i) =>
      BreakAt(c, i);
      CutKeeps(c, i, Hashed());
      ContainsWider(c[..i], g, c[i..], Marker(h));
      if Contains(c[..i], Hashed()) { ContainsWider("", c[..i], g + c[i..], Hashed()); }
      if Contains(c[i..], Hashed()) { ContainsWider(c[..i] + g, c[i..], "", Hashed()); }
      assert InsertGuest(c, h) == "" + c[..i] + (g + c[i..]) == (c[..i] + g) + c[i..] + "";
    case None =>
      HashedEnds();
      RStripContains(c, Hashed());
      var r := RStrip(c);
      ContainsWider(r + "\n", g, "\n", Marker(h));
      ContainsWider("", r, "\n" + g + "\n", Hashed());
      assert InsertGuest(c, h) == "" + r + ("\n" + g + "\n");
  }

  lemma HashedEnds()
    ensures Hashed() != "" && !IsSpace(Hashed()[|Hashed()| - 1])
  {}

  lemma BreakAt(c: string, i: nat)
    requires At(c, i, "\n" + Component())
    ensures i < |c| && c[i] == '\n'
  {
    assert c[i..i + |"\n" + Component()|][0] == c[i];
  }

  /** A file written by enabling has the `internal_hashed` setting and the guest host, so a second run
      skips it; and a file that enabling leaves alone it leaves alone again. For every file. */
  lemma EnableTwice(c: string, h: string)
    ensures Enable(c, h).Written? ==>
              var d := Enable(c, h).text; Contains(d, Hashed()) && Contains(d, Marker(h)) && Enable(d, h) == Skipped
    ensures !Enable(Enable(c, h).After(c), h).Written?
  {
    hide Marker, Contains, ReplaceFirst, Anon, Hashed, InsertGuest;
    if Enable(c, h).Written? {
      var c1 := if Contains(c, Anon()) then ReplaceFirst(c, Anon(), Hashed()) else c;
      if Contains(c, Anon()) { ReplacedContains(c, Anon(), Hashed()); }
      if !Contains(c1, Marker(h)) {
        InsertKeeps(c1, h);
      }
    }
  }

  lemma ReplacedContains(c: string, p: string, q: string)
    requires Contains(c, p)
    ensures Contains(ReplaceFirst(c, p, q), q)
  {
    var i := Find(c, p).value;
    assert At(ReplaceFirst(c, p, q), i, q);
  }

  lemma MarkerForeignAnon(h: string)
    requires HostName(h)
    ensures Foreign(Marker(h), "jitsi-anonymous")
  {
    var p, head := Marker(h), "VirtualHost \"guest.";
    assert p == head + h + "\"";
    forall q | 0 <= q < |p| - 1 ensures p[q] == '"' ==> p[q + 1] != 'j' {
      if q >= |head| { assert p[q] == h[q - |head|] && h[q - |head|] in h; }
    }
  }

  lemma NothingJoined(p: string)
    requires p != ""
    ensures !Contains(Join([]), p)
  {
    ContainsChar("", p, p[0]);
  }

  lemma MarkerSolid(h: string)
    requires HostName(h)
    ensures Marker(h) != "" && '\n' !in Marker(h)
  {
    hide IsGuestComment, Contains, Marker, Hashed;
    MarkerFacts(h);
    MarkerStart(h);
  }

  lemma MarkerStart(h: string)
    ensures Marker(h) != ""
  {}
}
