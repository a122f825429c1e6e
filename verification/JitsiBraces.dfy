/** The patchers of brace-structured files: `_sd_patch_jicofo_conf` and `_cf_patch_jvb_conf_tcp`. */
module JitsiBraces {
  import opened Text
  import opened JitsiPatch

  /** `line.count("{") - line.count("}")`. */
  function Delta(l: string): int { Count(l, '{') - Count(l, '}') }

  /** `line.strip().startswith(head)`. */
  predicate Starts(l: string, head: string) { head <= Strip(l) }

  /** What the removal loop keeps of the lines from here on, `depth` levels inside a block. */
  function Excise(ls: seq<string>, head: string, depth: nat): seq<string> {
    if ls == [] then []
    else if depth == 0 then
      if Starts(ls[0], head) then Excise(ls[1..], head, 1) else [ls[0]] + Excise(ls[1..], head, 0)
    else
      var d := depth + Delta(ls[0]);
      Excise(ls[1..], head, if d <= 0 then 0 else d)
  }

  predicate Seen(ls: seq<string>, head: string) { exists l | l in ls :: Starts(l, head) }

  lemma SeenStep(ls: seq<string>, i: nat, head: string)
    requires i < |ls|
    ensures Seen(ls[..i + 1], head) <==> Seen(ls[..i], head) || Starts(ls[i], head)
  {
    hide Starts;
    assert ls[..i + 1] == ls[..i] + [ls[i]];
  }

  lemma ExciseStep(ls: seq<string>, i: nat, head: string, depth: nat)
    requires i < |ls|
    ensures Excise(ls[i..], head, depth) ==
            if depth == 0 then
              if Starts(ls[i], head) then Excise(ls[i + 1..], head, 1) else [ls[i]] + Excise(ls[i + 1..], head, 0)
            else Excise(ls[i + 1..], head, if depth + Delta(ls[i]) <= 0 then 0 else depth + Delta(ls[i]))
  {
    hide Starts, Delta;
    assert ls[i..][1..] == ls[i + 1..];
  }

  /** The loop of both patchers. */
  method RemoveBlocks(lines: seq<string>, head: string) returns (newLines: seq<string>, replaced: bool)
    ensures newLines == Excise(lines, head, 0)
    ensures replaced <==> Seen(lines, head)
  {
    hide Starts, Delta, Excise, Seen;
    newLines, replaced := [], false;
    var skip, depth: int := false, 0;
    NothingSeen(lines, head);
    for i := 0 to |lines|
      invariant skip ==> depth > 0 && replaced
      invariant newLines + Excise(lines[i..], head, if skip then depth else 0) == Excise(lines, head, 0)
      invariant replaced <==> Seen(lines[..i], head)
    {
      var line := lines[i];
      ExciseStep(lines, i, head, if skip then depth else 0);
      SeenStep(lines, i, head);
      if !skip && Starts(line, head) {
        skip, depth, replaced := true, 1, true;
        continue;
      }
      if skip {
        depth := depth + Delta(line);
        if depth <= 0 { skip := false; }
        continue;
      }
      newLines := newLines + [line];
    }
    NothingLeft(lines, head);
    assert lines[..|lines|] == lines && newLines + [] == newLines;
  }

  lemma NothingSeen(ls: seq<string>, head: string)
    ensures !Seen(ls[..0], head) && ls[0..] == ls
  {}

  lemma NothingLeft(ls: seq<string>, head: string)
    ensures forall d: nat :: Excise(ls[|ls|..], head, d) == []
  {}

  // ---- What the loop removes -------------------------------------------------------------------

  function Level(ls: seq<string>): int { if ls == [] then 0 else Delta(ls[0]) + Level(ls[1..]) }

  predicate OneBrace(l: string) { Count(l, '{') + Count(l, '}') <= 1 }

  /** The number of lines up to the brace that closes those opened before: the first place where
      `d` plus the level so far comes down to 0, or the end of the file. */
  function BlockLength(ls: seq<string>, d: int): (n: nat)
    ensures n <= |ls|
    ensures forall k | 0 <= k < n :: d + Level(ls[..k]) > 0
    ensures n < |ls| ==> d + Level(ls[..n]) <= 0
  {
    if d <= 0 then 0
    else if ls == [] then 0
    else
      var n := 1 + BlockLength(ls[1..], d + Delta(ls[0]));
      assert forall k | 0 < k <= |ls| :: ls[..k][1..] == ls[1..][..k - 1];
      n
  }

  /** Reference meaning: a line that begins with `head` takes with it everything up to its matching
      brace; every other line stays. */
  function Outside(ls: seq<string>, head: string): seq<string>
    decreases |ls|
  {
    if ls == [] then []
    else if Starts(ls[0], head) then Outside(ls[1 + BlockLength(ls[1..], Delta(ls[0]))..], head)
    else [ls[0]] + Outside(ls[1..], head)
  }

  lemma {:induction false} ExciseSkips(ls: seq<string>, head: string, d: nat)
    requires d > 0
    ensures Excise(ls, head, d) == Excise(ls[BlockLength(ls, d)..], head, 0)
  {
    hide Starts, Delta;
    if ls != [] {
      var e := d + Delta(ls[0]);
      if e > 0 { ExciseSkips(ls[1..], head, e); }
      assert ls[BlockLength(ls, d)..] == ls[1..][BlockLength(ls, d) - 1..];
    }
  }

  /** Each `head` line that the loop meets outside a block opens exactly one level. */
  predicate HeadsOpen(ls: seq<string>, head: string, depth: nat) {
    if ls == [] then true
    else if depth == 0 then
      if Starts(ls[0], head) then Delta(ls[0]) == 1 && HeadsOpen(ls[1..], head, 1) else HeadsOpen(ls[1..], head, 0)
    else
      var d := depth + Delta(ls[0]);
      HeadsOpen(ls[1..], head, if d <= 0 then 0 else d)
  }

  /** No line of a block closes more levels than the block has open. */
  predicate BlocksClose(ls: seq<string>, head: string, depth: nat) {
    if ls == [] then true
    else if depth == 0 then BlocksClose(ls[1..], head, if Starts(ls[0], head) then 1 else 0)
    else depth + Delta(ls[0]) >= 0 && BlocksClose(ls[1..], head, depth + Delta(ls[0]))
  }

  lemma {:induction false} HeadsOpenSkips(ls: seq<string>, head: string, d: nat)
    requires d > 0
    ensures HeadsOpen(ls, head, d) == HeadsOpen(ls[BlockLength(ls, d)..], head, 0)
  {
    hide Starts, Delta;
    if ls != [] {
      var e := d + Delta(ls[0]);
      if e > 0 { HeadsOpenSkips(ls[1..], head, e); }
      assert ls[BlockLength(ls, d)..] == ls[1..][BlockLength(ls, d) - 1..];
    }
  }

  /** The loop does what `Outside` says on every file whose `head` lines open exactly one level. */
  lemma {:induction false} ExciseIsOutside(ls: seq<string>, head: string)
    requires HeadsOpen(ls, head, 0)
    ensures Excise(ls, head, 0) == Outside(ls, head)
    decreases |ls|
  {
    hide Starts, Delta;
    if ls != [] {
      var rest := ls[1..];
      if Starts(ls[0], head) {
        var n := BlockLength(rest, 1);
        ExciseSkips(rest, head, 1);
        HeadsOpenSkips(rest, head, 1);
        assert ls[1 + n..] == rest[n..];
        ExciseIsOutside(rest[n..], head);
      } else {
        ExciseIsOutside(rest, head);
      }
    }
  }

  lemma StartsContains(l: string, head: string)
    requires Starts(l, head)
    ensures Contains(l, head)
  {
    var a := LStrip(l);
    assert a[..|head|] == head;
    assert l[|l| - |a|..|l| - |a| + |head|] == head;
    assert At(l, |l| - |a|, head);
  }

  /** With at most one brace on a line, a `head` line opens exactly one level. */
  lemma HeadOpens(l: string, head: string)
    requires Starts(l, head) && '{' in head && OneBrace(l)
    ensures Delta(l) == 1
  {
    StartsContains(l, head);
    if '{' !in l { ContainsChar(l, head, '{'); }
    CountIn(l, '{');
  }

  predicate OneBraceEach(ls: seq<string>) { forall k | 0 <= k < |ls| :: OneBrace(ls[k]) }

  /** Never below level 0 when started at `d`, and back to 0 at the end. */
  predicate BalancedFrom(ls: seq<string>, d: int) {
    d >= 0 && if ls == [] then d == 0 else BalancedFrom(ls[1..], d + Delta(ls[0]))
  }

  predicate Balanced(ls: seq<string>) { BalancedFrom(ls, 0) }

  lemma DeltaSmall(l: string)
    requires OneBrace(l)
    ensures -1 <= Delta(l) <= 1
  {}

  /** The file is at level `t`, what is kept of it at level `outer`, which is `outer + depth - t` too
      high: that is made worse by a line that closes more than its block, and never better. */
  lemma {:induction false} KeptLevel(ls: seq<string>, head: string, outer: nat, depth: nat, t: int)
    requires HeadsOpen(ls, head, depth) && BalancedFrom(ls, t) && depth <= t <= outer + depth
    ensures BalancedFrom(Excise(ls, head, depth), outer) <==> outer + depth == t && BlocksClose(ls, head, depth)
  {
    hide Starts, Delta;
    if ls != [] {
      var d := depth + Delta(ls[0]);
      var t' := t + Delta(ls[0]);
      if depth == 0 && Starts(ls[0], head) {
        KeptLevel(ls[1..], head, outer, 1, t');
      } else if depth == 0 {
        KeptLevel(ls[1..], head, outer + Delta(ls[0]), 0, t');
        assert ([ls[0]] + Excise(ls[1..], head, 0))[1..] == Excise(ls[1..], head, 0);
      } else {
        KeptLevel(ls[1..], head, outer, if d <= 0 then 0 else d, t');
      }
    }
  }

  /** On a balanced file whose `head` lines open one level, the loop removes exactly the blocks from each
      `head` line to its matching brace; the rest is balanced exactly if no line of a block closes more
      than the block has open. What is on the other lines does not matter. */
  lemma RemovalKeepsBalance(ls: seq<string>, head: string)
    requires Balanced(ls) && HeadsOpen(ls, head, 0)
    ensures Excise(ls, head, 0) == Outside(ls, head)
    ensures Balanced(Outside(ls, head)) <==> BlocksClose(ls, head, 0)
  {
    hide HeadsOpen, BlocksClose, Excise, Outside;
    ExciseIsOutside(ls, head);
    KeptLevel(ls, head, 0, 0, 0);
  }

  lemma {:induction false} OneBraceBlocks(ls: seq<string>, head: string, depth: nat)
    requires OneBraceEach(ls) && '{' in head
    ensures HeadsOpen(ls, head, depth) && BlocksClose(ls, head, depth)
  {
    hide Starts, Delta, OneBrace;
    if ls != [] {
      DeltaSmall(ls[0]);
      if depth == 0 && Starts(ls[0], head) {
        HeadOpens(ls[0], head);
        OneBraceBlocks(ls[1..], head, 1);
      } else if depth == 0 {
        OneBraceBlocks(ls[1..], head, 0);
      } else {
        OneBraceBlocks(ls[1..], head, depth + Delta(ls[0]));
      }
    }
  }

  /** So it is balanced when no line has more than one brace. */
  lemma OneBraceRemoval(ls: seq<string>, head: string)
    requires Balanced(ls) && OneBraceEach(ls) && '{' in head
    ensures Excise(ls, head, 0) == Outside(ls, head) && Balanced(Outside(ls, head))
  {
    OneBraceBlocks(ls, head, 0);
    RemovalKeepsBalance(ls, head);
  }

  /** The level of a line without braces, before `b`. */
  lemma DeltaTail(a: string, b: string)
    requires '{' !in a && '}' !in a
    ensures Delta(a + b) == Delta(b)
  {
    CountConcat(a, b, '{');
    CountConcat(a, b, '}');
    CountIn(a, '{');
    CountIn(a, '}');
  }

  lemma DeltaBraces()
    ensures Delta("{") == 1 && Delta("}") == -1 && Delta("") == 0
  {
    assert "{"[1..] == "" && "}"[1..] == "";
  }

  /** With its block on one line, a `head` line still counts as one level open: the loop takes the
      brace that closes the enclosing block. So the condition on the `head` lines is needed. */
  lemma OneLineBlockUnbalances(v: string, w: string, z: string, head: string)
    requires Delta(v) == 1 && Delta(w) == 0 && Delta(z) == -1
    requires Starts(w, head) && !Starts(v, head)
    ensures Balanced([v, w, z])
    ensures Excise([v, w, z], head, 0) == [v] && !Balanced([v])
  {
    hide Starts, Delta;
    var ls := [v, w, z];
    assert ls[1..] == [w, z];
    assert [w, z][1..] == [z];
    assert [z][1..] == [] && [v][1..] == [];
    assert BalancedFrom([], 0);
    assert BalancedFrom([z], 1);
    assert BalancedFrom([w, z], 1);
    assert Excise([z], head, 1) == [];
    assert Excise([w, z], head, 0) == [];
    assert BalancedFrom([v], 0) == BalancedFrom([v][1..], 1) && !BalancedFrom([], 1);
  }

  /** Such a file: `videobridge {`, `ice { }`, `}`. */
  lemma SuchAFile()
    ensures Delta("videobridge {") == 1 && Delta("ice { }") == 0 && Delta("}") == -1
    ensures Starts("ice { }", "ice {") && !Starts("videobridge {", "ice {")
  {
    hide Delta, Starts;
    DeltaBraces();
    DeltaTail("videobridge ", "{");
    assert "videobridge " + "{" == "videobridge {";
    OneLineDelta();
    OneLineStarts();
  }

  lemma DeltaConcat(a: string, b: string)
    ensures Delta(a + b) == Delta(a) + Delta(b)
  {
    CountConcat(a, b, '{');
    CountConcat(a, b, '}');
  }

  lemma OneLineDelta()
    ensures Delta("ice { }") == 0
  {
    hide Delta;
    DeltaBraces();
    DeltaTail("ice ", "{");
    DeltaTail(" ", "}");
    DeltaConcat("ice " + "{", " " + "}");
    assert ("ice " + "{") + (" " + "}") == "ice { }";
  }

  lemma StartsSolid(l: string, head: string)
    requires l != "" && !IsSpace(l[0]) && !IsSpace(l[|l| - 1])
    ensures Starts(l, head) <==> head <= l
  {
    StripSolid(l);
  }

  lemma OneLineStarts()
    ensures Starts("ice { }", "ice {") && !Starts("videobridge {", "ice {")
  {
    hide Starts;
    StartsSolid("ice { }", "ice {");
    StartsSolid("videobridge {", "ice {");
    assert "ice { }"[..5] == "ice {" && "videobridge {"[0] != "ice {"[0];
  }

  // ---- Jicofo ----------------------------------------------------------------------------------

  function AuthHead(): string { "authentication {" }
  function AuthOpen(): string { "  " + AuthHead() }
  function EnabledLine(): string { "    enabled = true" }
  function TypeLine(): string { "    type = \"XMPP\"" }
  function LoginUrl(): string { "login-url" }
  function LoginLine(h: string): string { "    " + LoginUrl() + " = \"" + h + "\"" }
  function AuthClose(): string { "  " + "}" }

  function AuthLines(h: string): seq<string> { [AuthOpen(), EnabledLine(), TypeLine(), LoginLine(h), AuthClose()] }

  /** The last line with a closing brace. */
  function LastBrace(ls: seq<string>): (r: Option<nat>)
    ensures match r
            case None => forall k | 0 <= k < |ls| :: '}' !in ls[k]
            case Some(i) => i < |ls| && '}' in ls[i] && forall k | i < k < |ls| :: '}' !in ls[k]
  {
    if ls == [] then None else if '}' in ls[|ls| - 1] then Some(|ls| - 1) else LastBrace(ls[..|ls| - 1])
  }

  /** `lines.insert(i, block)`. */
  function InsertAt(ls: seq<string>, i: nat, block: string): seq<string>
    requires i <= |ls|
  {
    ls[..i] + ([block] + ls[i..])
  }

  function EnableJicofo(c: string, h: string): Patch {
    if Contains(c, AuthHead()) && Contains(c, LoginUrl()) then Skipped
    else
      match LastBrace(Lines(c))
      case None => Warned
      case Some(i) => Written(Join(InsertAt(Lines(c), i, Join(AuthLines(h)))))
  }

  function DisableJicofo(c: string): Patch {
    if !Contains(c, AuthHead()) then Skipped else Written(Join(Excise(Lines(c), AuthHead(), 0)))
  }

  method FindLastBrace(lines: seq<string>) returns (r: Option<nat>)
    ensures r == LastBrace(lines)
  {
    var i := |lines|;
    assert lines[..i] == lines;
    while i > 0
      invariant 0 <= i <= |lines|
      invariant LastBrace(lines) == LastBrace(lines[..i])
    {
      i := i - 1;
      if '}' in lines[i] { return Some(i); }
      assert lines[..i + 1][..i] == lines[..i];
    }
    return None;
  }

  /** `_sd_patch_jicofo_conf` on a readable file. */
  method PatchJicofo(content: string, h: string, enable: bool) returns (p: Patch)
    ensures p == if enable then EnableJicofo(content, h) else DisableJicofo(content)
  {
    hide AuthHead, LoginUrl, AuthLines, Contains, Excise, Lines, LastBrace, Starts;
    if enable {
      if Contains(content, AuthHead()) && Contains(content, LoginUrl()) { return Skipped; }
      var lines := Lines(content);
      var at := FindLastBrace(lines);
      if at.None? { return Warned; }
      return Written(Join(InsertAt(lines, at.value, Join(AuthLines(h)))));
    } else {
      if !Contains(content, AuthHead()) { return Skipped; }
      var newLines, replaced := RemoveBlocks(Lines(content), AuthHead());
      return Written(Join(newLines));
    }
  }

  lemma JoinNested(a: seq<string>, m: seq<string>, b: seq<string>)
    requires m != [] && b != []
    ensures Join(a + ([Join(m)] + b)) == Join(a + (m + b))
  {
    JoinConcat(m, b);
    JoinConcat([Join(m)], b);
    if a == [] {
      assert a + ([Join(m)] + b) == [Join(m)] + b && a + (m + b) == m + b;
    } else {
      JoinConcat(a, m + b);
      JoinConcat(a, [Join(m)] + b);
    }
  }

  predicate NoHead(ls: seq<string>, head: string) { forall k | 0 <= k < |ls| :: !Starts(ls[k], head) }

  lemma {:induction false} ExciseNothing(ls: seq<string>, head: string)
    requires NoHead(ls, head)
    ensures Excise(ls, head, 0) == ls
  {
    hide Starts;
    if ls != [] { ExciseNothing(ls[1..], head); }
  }

  lemma {:induction false} ExciseConcat(a: seq<string>, b: seq<string>, head: string)
    requires NoHead(a, head)
    ensures Excise(a + b, head, 0) == a + Excise(b, head, 0)
  {
    hide Starts;
    if a == [] {
      assert a + b == b;
    } else {
      assert (a + b)[1..] == a[1..] + b;
      ExciseConcat(a[1..], b, head);
    }
  }

  /** No line that begins with `head` is left. */
  lemma {:induction false} ExciseLeavesNone(ls: seq<string>, head: string, depth: nat)
    ensures NoHead(Excise(ls, head, depth), head)
    ensures forall l | l in Excise(ls, head, depth) :: l in ls
  {
    hide Starts, Delta;
    if ls != [] {
      assert forall l | l in ls[1..] :: l in ls;
      ExciseLeavesNone(ls[1..], head, 0);
      ExciseLeavesNone(ls[1..], head, 1);
      if depth > 0 && depth + Delta(ls[0]) > 0 { ExciseLeavesNone(ls[1..], head, depth + Delta(ls[0])); }
    }
  }

  /** A block of five lines whose first opens and whose last closes it is removed whole. */
  lemma ExciseBlock(m: seq<string>, b: seq<string>, head: string)
    requires |m| == 5 && Starts(m[0], head)
    requires Delta(m[1]) == 0 && Delta(m[2]) == 0 && Delta(m[3]) == 0 && Delta(m[4]) == -1
    ensures Excise(m + b, head, 0) == Excise(b, head, 0)
  {
    hide Starts, Delta;
    var s := m + b;
    assert s[1..] == m[1..] + b;
    assert s[1..][1..] == m[2..] + b;
    assert (m[2..] + b)[1..] == m[3..] + b;
    assert (m[3..] + b)[1..] == m[4..] + b;
    assert (m[4..] + b)[1..] == b;
    assert Excise(m[4..] + b, head, 1) == Excise(b, head, 0);
    assert Excise(m[3..] + b, head, 1) == Excise(b, head, 0);
    assert Excise(m[2..] + b, head, 1) == Excise(b, head, 0);
  }

  lemma StartsIndented(blank: string, l: string, head: string)
    requires (forall c | c in blank :: IsSpace(c)) && l != "" && !IsSpace(l[0]) && !IsSpace(l[|l| - 1])
    ensures Starts(blank + l, head) <==> head <= l
  {
    LStripBlank(blank, l);
    RStripSolid(l);
  }

  lemma NoBraces(l: string)
    requires '{' !in l && '}' !in l
    ensures Delta(l) == 0
  {
    CountIn(l, '{');
    CountIn(l, '}');
  }

  lemma OpenFacts()
    ensures Starts(AuthOpen(), AuthHead()) && Contains(AuthOpen(), AuthHead()) && '\n' !in AuthOpen()
    ensures '{' in AuthHead() && '\n' !in AuthHead() && AuthHead() != ""
  {
    hide Starts, Contains;
    StartsIndented("  ", AuthHead(), AuthHead());
    StartsContains(AuthOpen(), AuthHead());
    assert AuthHead()[15] == '{';
  }

  lemma MiddleFacts()
    ensures Delta(EnabledLine()) == 0 && '\n' !in EnabledLine()
    ensures Delta(TypeLine()) == 0 && '\n' !in TypeLine()
  {
    hide Delta;
    NoBraces(EnabledLine());
    NoBraces(TypeLine());
  }

  lemma LoginFacts(h: string)
    requires HostName(h)
    ensures Delta(LoginLine(h)) == 0 && '\n' !in LoginLine(h) && Contains(LoginLine(h), LoginUrl())
  {
    hide Delta, Contains;
    var l := LoginLine(h);
    forall c | c in l ensures c != '{' && c != '}' && c != '\n' { if c in h {} }
    NoBraces(l);
    assert l == "    " + LoginUrl() + (" = \"" + h + "\"");
    ContainsMiddle("    ", LoginUrl(), " = \"" + h + "\"");
  }

  lemma CloseFacts()
    ensures Delta(AuthClose()) == -1 && '\n' !in AuthClose()
  {
    hide Delta;
    DeltaBraces();
    DeltaTail("  ", "}");
  }

  lemma AuthLineFacts(h: string)
    requires HostName(h)
    ensures var m := AuthLines(h);
            && Starts(m[0], AuthHead()) && Contains(m[0], AuthHead()) && Contains(m[3], LoginUrl())
            && Delta(m[1]) == 0 && Delta(m[2]) == 0 && Delta(m[3]) == 0 && Delta(m[4]) == -1
            && forall k | 0 <= k < 5 :: '\n' !in m[k]
  {
    hide Starts, Contains, Delta, AuthOpen, EnabledLine, TypeLine, LoginLine, AuthClose, AuthHead, LoginUrl;
    OpenFacts();
    MiddleFacts();
    LoginFacts(h);
    CloseFacts();
  }

  /** The enabled file, line by line: the block comes before the last line with a closing brace. */
  lemma EnabledLines(c: string, h: string) returns (i: nat)
    requires EnableJicofo(c, h).Written? && HostName(h)
    ensures i < |Lines(c)| && '}' in Lines(c)[i] && forall k | i < k < |Lines(c)| :: '}' !in Lines(c)[k]
    ensures var v := Lines(c)[..i] + (AuthLines(h) + Lines(c)[i..]);
            && EnableJicofo(c, h).text == Join(v) && Lines(Join(v)) == v
            && Contains(Join(v), AuthHead()) && Contains(Join(v), LoginUrl())
  {
    hide Starts, Contains, Delta, AuthOpen, EnabledLine, TypeLine, LoginLine, AuthClose, AuthHead, LoginUrl;
    var ls := Lines(c);
    i := LastBrace(ls).value;
    JoinNested(ls[..i], AuthLines(h), ls[i..]);
    AuthLineFacts(h);
    OpenFacts();
    LoginUrlFacts();
    var v := ls[..i] + (AuthLines(h) + ls[i..]);
    forall k | 0 <= k < |v| ensures '\n' !in v[k] {
      if k < i { LinesArePieces(c, k); } else if k >= i + 5 { LinesArePieces(c, k - 5); }
    }
    LinesJoin(v);
    assert v[i] == AuthOpen() && v[i + 3] == LoginLine(h);
    ContainsByLine(v, AuthHead());
    ContainsByLine(v, LoginUrl());
  }

  lemma LoginUrlFacts()
    ensures LoginUrl() != "" && '\n' !in LoginUrl()
  {}

  /** Disabling undoes enabling exactly when no line of the file began with `authentication {`. */
  lemma DisableUndoesEnable(c: string, h: string)
    requires HostName(h) && EnableJicofo(c, h).Written?
    ensures var p := DisableJicofo(EnableJicofo(c, h).text);
            p.Written? && (p.text == c <==> NoHead(Lines(c), AuthHead()))
  {
    hide Starts, Contains, Delta, AuthOpen, EnabledLine, TypeLine, LoginLine, AuthClose, AuthHead, LoginUrl, EnableJicofo, LastBrace;
    var ls, head := Lines(c), AuthHead();
    JoinLines(c);
    AuthLineFacts(h);
    var i := EnabledLines(c, h);
    var v := ls[..i] + (AuthLines(h) + ls[i..]);
    if NoHead(ls, head) {
      assert NoHead(ls[..i], head) && NoHead(ls[i..], head);
      ExciseConcat(ls[..i], AuthLines(h) + ls[i..], head);
      ExciseBlock(AuthLines(h), ls[i..], head);
      ExciseNothing(ls[i..], head);
      assert ls[..i] + ls[i..] == ls;
    } else {
      OpenFacts();
      forall k | 0 <= k < |ls| ensures '\n' !in ls[k] { LinesArePieces(c, k); }
      ExciseNotAll(v, ls, head);
    }
  }

  /** So it does on every file with a closing brace and without that text. */
  lemma RoundTrip(c: string, h: string)
    requires HostName(h) && '}' in c && !Contains(c, AuthHead())
    ensures EnableJicofo(c, h).Written? && DisableJicofo(EnableJicofo(c, h).text) == Written(c)
  {
    hide Starts, Contains, AuthHead, LoginUrl, AuthLines, LastBrace, DisableJicofo;
    var ls := Lines(c);
    BraceInSomeLine(c);
    forall k | 0 <= k < |ls| ensures !Starts(ls[k], AuthHead()) {
      if Starts(ls[k], AuthHead()) {
        StartsContains(ls[k], AuthHead());
        LinesArePieces(c, k);
      }
    }
    DisableUndoesEnable(c, h);
  }

  lemma BraceInSomeLine(c: string)
    ensures LastBrace(Lines(c)).Some? <==> '}' in c
  {
    hide LastBrace;
    JoinLines(c);
    CharInLines(Lines(c), '}');
  }

  lemma {:induction false} CharInLines(ls: seq<string>, ch: char)
    requires ch != '\n'
    ensures ch in Join(ls) <==> exists k | 0 <= k < |ls| :: ch in ls[k]
  {
    if |ls| > 1 {
      CharInLines(ls[1..], ch);
      if k :| 0 <= k < |ls[1..]| && ch in ls[1..][k] { assert ch in ls[k + 1]; }
      if k :| 0 <= k < |ls| && ch in ls[k] { if k > 0 { assert ch in ls[1..][k - 1]; } }
    }
  }

  /** What the removal leaves is not a text with a `head` line. */
  lemma ExciseNotAll(v: seq<string>, ls: seq<string>, head: string)
    requires !NoHead(ls, head) && ls != [] && head != ""
    requires (forall k | 0 <= k < |v| :: '\n' !in v[k]) && forall k | 0 <= k < |ls| :: '\n' !in ls[k]
    ensures Join(Excise(v, head, 0)) != Join(ls)
  {
    hide Starts, Excise;
    var x := Excise(v, head, 0);
    ExciseLeavesNone(v, head, 0);
    LinesJoin(ls);
    if x == [] {
      LinesOfLine("");
      BlankHead(head);
      assert ls == [""] ==> NoHead(ls, head);
    } else {
      LinesJoin(x);
    }
  }

  lemma BlankHead(head: string)
    requires head != ""
    ensures !Starts("", head)
  {}

  /** Enabling twice is enabling once, and so is disabling. */
  lemma JicofoTwice(c: string, h: string)
    requires HostName(h)
    ensures EnableJicofo(c, h).Written? ==> EnableJicofo(EnableJicofo(c, h).text, h) == Skipped
    ensures var once := DisableJicofo(c).After(c); DisableJicofo(once).After(once) == once
  {
    hide Starts, Contains, AuthHead, LoginUrl, AuthLines, LastBrace, Excise;
    if EnableJicofo(c, h).Written? {
      var i := EnabledLines(c, h);
    }
    if DisableJicofo(c).Written? {
      var x := Excise(Lines(c), AuthHead(), 0);
      ExciseLeavesNone(Lines(c), AuthHead(), 0);
      OpenFacts();
      ExciseAgain(c, x, AuthHead());
    }
  }

  lemma ExciseAgain(c: string, x: seq<string>, head: string)
    requires x == Excise(Lines(c), head, 0) && head != ""
    ensures Join(Excise(Lines(Join(x)), head, 0)) == Join(x)
  {
    hide Starts, Excise;
    ExciseLeavesNone(Lines(c), head, 0);
    if x == [] {
      BlankHead(head);
      ExciseNothing([""], head);
      LinesOfLine("");
    } else {
      forall k | 0 <= k < |x| ensures '\n' !in x[k] {
        assert x[k] in Lines(c);
        var j :| 0 <= j < |Lines(c)| && Lines(c)[j] == x[k];
        LinesArePieces(c, j);
      }
      LinesJoin(x);
      ExciseNothing(x, head);
    }
  }
}
