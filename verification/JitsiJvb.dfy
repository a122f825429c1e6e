/** `_cf_patch_jvb_conf_tcp`: turning on the TCP transport in `jvb.conf`. */
module JitsiJvb {
  import opened Text
  import opened JitsiPatch
  import opened JitsiBraces

  function IceHead(): string { "ice {" }
  function TcpHead(): string { "tcp {" }
  function Enabled(): string { "enabled = true" }
  function Indented(s: string): string { "    " + s }

  function UdpLines(): seq<string> { [Indented("udp {"), Indented(Indented("port = 10000")), Indented("}")] }
  function TcpLines(): seq<string> {
    [Indented(TcpHead()), Indented(Indented(Enabled())), Indented(Indented("port = 4443")), Indented("}")]
  }
  function IceLines(): seq<string> { [IceHead()] + UdpLines() + TcpLines() + ["}"] }

  predicate TcpEnabled(c: string) { Contains(c, TcpHead()) && Contains(c, Enabled()) }

  /** `s.rfind(c)`. */
  function LastChar(s: string, c: char): (r: Option<nat>)
    ensures match r
            case None => c !in s
            case Some(i) => i < |s| && s[i] == c && c !in s[i + 1..]
  {
    if s == "" then None else if s[|s| - 1] == c then Some(|s| - 1) else
      var r := LastChar(s[..|s| - 1], c);
      assert s == s[..|s| - 1] + [s[|s| - 1]];
      assert r.Some? ==> s[r.value + 1..] == s[..|s| - 1][r.value + 1..] + [s[|s| - 1]];
      r
  }

  /** The lines that take the place of a file with `ice {` blocks. */
  function Rewritten(ls: seq<string>): seq<string> {
    var x := Excise(ls, IceHead(), 0);
    match LastBrace(x)
    case None => x
    case Some(i) => InsertAt(x, i, Join(IceLines()))
  }

  function NewBlock(): string { "\n" + Join(IceLines()) + "\n" }

  /** The file without an `ice {` gets the block before its last brace, or at its end. */
  function Extended(c: string): string {
    match LastChar(c, '}')
    case None => c + NewBlock()
    case Some(k) => c[..k] + NewBlock() + c[k..]
  }

  function EnableTcp(c: string): Patch {
    if TcpEnabled(c) then Skipped
    else if Contains(c, IceHead()) then
      if NoHead(Lines(c), IceHead()) then Warned else Written(Join(Rewritten(Lines(c))))
    else Written(Extended(c))
  }

  method PatchJvb(content: string) returns (p: Patch)
    ensures p == EnableTcp(content)
  {
    hide Contains, Starts, IceLines, Lines, IceHead, LastBrace, LastChar, TcpEnabled, Excise;
    if TcpEnabled(content) { return Skipped; }
    if Contains(content, IceHead()) {
      var newLines, replaced := RemoveBlocks(Lines(content), IceHead());
      HeadsSeen(Lines(content), IceHead());
      if replaced {
        var at := FindLastBrace(newLines);
        if at.Some? { newLines := InsertAt(newLines, at.value, Join(IceLines())); }
        return Written(Join(newLines));
      } else {
        return Warned;
      }
    } else {
      var lastBrace := LastChar(content, '}');
      if lastBrace.Some? {
        return Written(content[..lastBrace.value] + NewBlock() + content[lastBrace.value..]);
      } else {
        return Written(content + NewBlock());
      }
    }
  }

  lemma HeadsSeen(ls: seq<string>, head: string)
    ensures NoHead(ls, head) <==> !Seen(ls, head)
  {
    hide Starts;
    if NoHead(ls, head) {
      forall l | l in ls ensures !Starts(l, head) {
        var k :| 0 <= k < |ls| && ls[k] == l;
      }
    } else {
      var k :| 0 <= k < |ls| && Starts(ls[k], head);
      assert ls[k] in ls;
    }
  }

  // ---- The inserted block ----------------------------------------------------------------------

  predicate Clean(l: string) { '\n' !in l && OneBrace(l) }

  lemma CleanFacts(l: string)
    requires '{' !in l && '}' !in l && '\n' !in l
    ensures Clean(l) && Delta(l) == 0 && Clean(l + "{") && Clean(l + "}") && Delta(l + "{") == 1 && Delta(l + "}") == -1
  {
    hide Delta;
    BraceCounts();
    NoBraces(l);
    CountIn(l, '{');
    CountIn(l, '}');
    CountConcat(l, "{", '{');
    CountConcat(l, "{", '}');
    CountConcat(l, "}", '{');
    CountConcat(l, "}", '}');
    DeltaConcat(l, "{");
    DeltaConcat(l, "}");
    DeltaBraces();
  }

  lemma BraceCounts()
    ensures Count("{", '{') == 1 && Count("{", '}') == 0 && Count("}", '}') == 1 && Count("}", '{') == 0
  {
    assert "{"[1..] == "" && "}"[1..] == "";
  }

  lemma IceHeads()
    ensures Clean(IceHead()) && Delta(IceHead()) == 1 && '{' in IceHead()
  {
    hide Clean, Delta;
    CleanFacts("ice ");
    assert "ice " + "{" == IceHead();
    assert IceHead()[4] == '{';
  }

  lemma UdpFacts()
    ensures var m := UdpLines();
            && Clean(m[0]) && Clean(m[1]) && Clean(m[2])
            && Delta(m[0]) == 1 && Delta(m[1]) == 0 && Delta(m[2]) == -1
  {
    hide Clean, Delta;
    CleanFacts("    udp ");
    assert "    udp " + "{" == Indented("udp {");
    CleanFacts(Indented(Indented("port = 10000")));
    CleanFacts("    ");
  }

  lemma TcpFacts()
    ensures var m := TcpLines();
            && Clean(m[0]) && Clean(m[1]) && Clean(m[2]) && Clean(m[3])
            && Delta(m[0]) == 1 && Delta(m[1]) == 0 && Delta(m[2]) == 0 && Delta(m[3]) == -1
  {
    hide Clean, Delta;
    CleanFacts("    tcp ");
    assert "    tcp " + "{" == Indented(TcpHead());
    CleanFacts(Indented(Indented(Enabled())));
    CleanFacts(Indented(Indented("port = 4443")));
    CleanFacts("    ");
  }

  lemma TcpContained()
    ensures Contains(TcpLines()[0], TcpHead()) && Contains(TcpLines()[1], Enabled())
    ensures TcpHead() != "" && Enabled() != "" && '\n' !in TcpHead() && '\n' !in Enabled()
  {
    hide Contains;
    ContainsMiddle("    ", TcpHead(), "");
    ContainsMiddle("        ", Enabled(), "");
    assert "    " + TcpHead() + "" == TcpLines()[0];
    assert "        " + Enabled() + "" == TcpLines()[1];
  }

  /** The block is balanced by itself. */
  lemma IceBlock()
    ensures |IceLines()| == 9 && Balanced(IceLines()) && forall k | 0 <= k < 9 :: Clean(IceLines()[k])
    ensures IceLines()[4] == TcpLines()[0] && IceLines()[5] == TcpLines()[1]
  {
    hide Clean, Delta, IceHead, TcpHead, Enabled, Indented;
    IceHeads();
    UdpFacts();
    TcpFacts();
    CleanFacts("");
    assert "" + "}" == "}";
    var m := IceLines();
    assert BalancedFrom(m[9..], 0);
    BalancedStep(m, 8, 1, 0);
    BalancedStep(m, 7, 2, 1);
    BalancedStep(m, 6, 2, 2);
    BalancedStep(m, 5, 2, 2);
    BalancedStep(m, 4, 1, 2);
    BalancedStep(m, 3, 2, 1);
    BalancedStep(m, 2, 2, 2);
    BalancedStep(m, 1, 1, 2);
    BalancedStep(m, 0, 0, 1);
    assert m[0..] == m;
  }

  lemma BalancedStep(m: seq<string>, k: nat, d: nat, e: int)
    requires k < |m| && BalancedFrom(m[k + 1..], e) && d + Delta(m[k]) == e
    ensures BalancedFrom(m[k..], d)
  {
    hide Delta;
    assert m[k..][1..] == m[k + 1..];
  }

  // ---- Balance ---------------------------------------------------------------------------------

  /** A balanced block between two lines makes no difference to the balance of a file. */
  lemma {:induction false} BalancedInsert(a: seq<string>, m: seq<string>, b: seq<string>, d: int)
    requires Balanced(m)
    ensures BalancedFrom(a + (m + b), d) <==> BalancedFrom(a + b, d)
  {
    hide Delta;
    if a == [] {
      assert a + b == b && a + (m + b) == m + b;
      BalancedBefore(m, b, 0, d);
    } else {
      assert (a + b)[1..] == a[1..] + b && (a + (m + b))[1..] == a[1..] + (m + b);
      BalancedInsert(a[1..], m, b, d + Delta(a[0]));
    }
  }

  lemma {:induction false} BalancedBefore(m: seq<string>, b: seq<string>, e: int, d: int)
    requires BalancedFrom(m, e)
    ensures BalancedFrom(b, d) <==> BalancedFrom(m + b, d + e) && d >= 0
  {
    hide Delta;
    if m == [] {
      assert m + b == b;
    } else {
      assert (m + b)[1..] == m[1..] + b;
      BalancedBefore(m[1..], b, e + Delta(m[0]), d);
    }
  }

  /** A line may be broken in two where the level has not fallen below 0. */
  lemma {:induction false} BalancedBreak(a: seq<string>, l: string, r: string, b: seq<string>, d: int)
    requires BalancedFrom(a + [l + r] + b, d)
    ensures BalancedFrom((a + [l]) + ([r] + b), d) <==> d + Level(a) + Delta(l) >= 0
  {
    hide Delta;
    var s, t := a + [l + r] + b, (a + [l]) + ([r] + b);
    if a == [] {
      DeltaConcat(l, r);
      assert s[1..] == b && t[1..] == [r] + b && ([r] + b)[1..] == b;
      assert BalancedFrom(b, d + Delta(l) + Delta(r));
    } else {
      assert s[1..] == a[1..] + [l + r] + b && t[1..] == (a[1..] + [l]) + ([r] + b);
      BalancedBreak(a[1..], l, r, b, d + Delta(a[0]));
      assert d >= 0;
    }
  }

  lemma {:induction false} EndsAtZero(ls: seq<string>, d: int)
    requires BalancedFrom(ls, d)
    ensures d + Level(ls) == 0
  {
    hide Delta;
    if ls != [] { EndsAtZero(ls[1..], d + Delta(ls[0])); }
  }

  lemma {:induction false} PrefixLevel(a: seq<string>, b: seq<string>, d: int)
    requires BalancedFrom(a + b, d)
    ensures d + Level(a) >= 0
  {
    hide Delta;
    if a != [] {
      assert (a + b)[1..] == a[1..] + b;
      PrefixLevel(a[1..], b, d + Delta(a[0]));
    }
  }

  lemma {:induction false} LevelConcat(a: seq<string>, b: seq<string>)
    ensures Level(a + b) == Level(a) + Level(b)
  {
    hide Delta;
    if a == [] {
      assert a + b == b;
    } else {
      assert (a + b)[1..] == a[1..] + b;
      LevelConcat(a[1..], b);
    }
  }

  /** The level of a text is that of its lines. */
  lemma {:induction false} LevelOfLines(s: string)
    ensures Level(Lines(s)) == Delta(s)
  {
    hide Delta;
    if s == "" {
      DeltaBraces();
      assert [""][1..] == [];
    } else {
      var c, t := s[0], s[1..];
      assert s == [c] + t;
      LevelOfLines(t);
      DeltaConcat([c], t);
      LinesStep(c, t);
      var rest := Lines(t);
      if c == '\n' {
        BreakHasNoBrace();
        DeltaBraces();
        assert ([""] + rest)[1..] == rest;
      } else {
        DeltaConcat([c], rest[0]);
        assert ([[c] + rest[0]] + rest[1..])[1..] == rest[1..];
      }
    }
  }

  lemma BreakHasNoBrace()
    ensures Delta("\n") == 0
  {
    NoBraces("\n");
  }

  /** The lines of a text with the block put at position `k`. */
  lemma BlockAtLines(c: string, k: nat)
    requires k <= |c|
    ensures Lines(c[..k] + NewBlock() + c[k..]) == Lines(c[..k]) + (IceLines() + Lines(c[k..]))
  {
    hide Clean, IceLines, Join, Lines, NewBlock;
    var m := Join(IceLines());
    BlockText(c, k);
    LinesConcat(m, c[k..]);
    LinesConcat(c[..k], m + "\n" + c[k..]);
    IceText();
  }

  lemma BlockText(c: string, k: nat)
    requires k <= |c|
    ensures c[..k] + NewBlock() + c[k..] == c[..k] + "\n" + (Join(IceLines()) + "\n" + c[k..])
  {
    hide Join, IceLines;
  }

  lemma IceText()
    ensures Lines(Join(IceLines())) == IceLines()
  {
    hide Clean, IceLines, Join, Lines;
    IceBlock();
    forall k | 0 <= k < 9 ensures '\n' !in IceLines()[k] { NoBreakInClean(IceLines()[k]); }
    LinesJoin(IceLines());
  }

  lemma NoBreakInClean(l: string)
    requires Clean(l)
    ensures '\n' !in l && OneBrace(l)
  {}

  // ---- What the patch does to a file -----------------------------------------------------------

  predicate Tidy(ls: seq<string>) { Balanced(ls) && OneBraceEach(ls) }

  predicate Unbroken(ls: seq<string>) { forall k | 0 <= k < |ls| :: '\n' !in ls[k] }

  lemma LinesUnbroken(c: string)
    ensures Unbroken(Lines(c))
  {
    forall k | 0 <= k < |Lines(c)| ensures '\n' !in Lines(c)[k] { LinesArePieces(c, k); }
  }

  lemma ExciseUnbroken(ls: seq<string>, head: string)
    requires Unbroken(ls)
    ensures Unbroken(Excise(ls, head, 0))
  {
    hide Excise;
    var x := Excise(ls, head, 0);
    ExciseLeavesNone(ls, head, 0);
    forall k | 0 <= k < |x| ensures '\n' !in x[k] { assert x[k] in ls; }
  }

  /** The lines of a file with `ice {` blocks afterwards: the kept lines, in their order, with the new
      block before the last one that has a closing brace. */
  lemma RewrittenLines(ls: seq<string>)
    requires Unbroken(ls)
    ensures var x := Excise(ls, IceHead(), 0);
            Lines(Join(Rewritten(ls))) ==
            match LastBrace(x)
            case None => if x == [] then [""] else x
            case Some(i) => x[..i] + (IceLines() + x[i..])
  {
    hide Excise, IceHead, IceLines, LastBrace, Lines, Join, Clean;
    var x := Excise(ls, IceHead(), 0);
    ExciseUnbroken(ls, IceHead());
    match LastBrace(x)
    case None =>
      if x == [] {
        JoinNothing();
        LinesOfLine("");
      } else {
        LinesJoin(x);
      }
    case Some(i) =>
      IceBlock();
      JoinNested(x[..i], IceLines(), x[i..]);
      var v := x[..i] + (IceLines() + x[i..]);
      forall k | 0 <= k < |v| ensures '\n' !in v[k] {
        if i <= k < i + 9 { NoBreakInClean(IceLines()[k - i]); }
      }
      LinesJoin(v);
  }

  lemma JoinNothing()
    ensures Join([]) == ""
  {}

  /** The block put between any two lines leaves a tidy file tidy. */
  lemma TidyInsert(a: seq<string>, b: seq<string>)
    requires Tidy(a + b)
    ensures Tidy(a + (IceLines() + b))
  {
    hide IceLines, OneBrace, Clean, Delta;
    IceBlock();
    BalancedInsert(a, IceLines(), b, 0);
    var v := a + (IceLines() + b);
    forall k | 0 <= k < |v| ensures OneBrace(v[k]) {
      if k < |a| {
        assert v[k] == (a + b)[k];
      } else if k < |a| + 9 {
        NoBreakInClean(IceLines()[k - |a|]);
      } else {
        assert v[k] == (a + b)[k - 9];
      }
    }
  }

  lemma TidyBlankLine(ls: seq<string>)
    requires Tidy(ls)
    ensures Tidy(ls + [""])
  {
    hide Delta;
    DeltaBraces();
    assert [""][1..] == [];
    assert BalancedFrom([""], 0);
    BalancedBefore(ls, [""], 0, 0);
    assert Count("", '{') == 0 && Count("", '}') == 0;
  }

  /** Breaking a line before its only brace leaves a tidy file tidy. */
  lemma TidyBreak(x: seq<string>, y: seq<string>)
    requires x != [] && y != [] && Tidy(Glue(x, y)) && '}' in y[0]
    ensures Tidy(x + y)
  {
    hide OneBrace, Delta;
    var a, l, r, b := x[..|x| - 1], x[|x| - 1], y[0], y[1..];
    assert Glue(x, y)[|x| - 1] == l + r;
    OneBraceParts(l, r);
    assert a + [l + r] + b == Glue(x, y) && (a + [l]) + ([r] + b) == x + y;
    assert a + [l + r] + b == a + ([l + r] + b);
    PrefixLevel(a, [l + r] + b, 0);
    BalancedBreak(a, l, r, b, 0);
    forall k | 0 <= k < |x + y| ensures OneBrace((x + y)[k]) {
      if k < |x| - 1 {
        assert (x + y)[k] == Glue(x, y)[k];
      } else if k > |x| {
        assert (x + y)[k] == Glue(x, y)[k - 1];
      }
    }
  }

  lemma OneBraceParts(l: string, r: string)
    requires OneBrace(l + r) && '}' in r
    ensures OneBrace(l) && OneBrace(r) && Delta(l) == 0
  {
    CountConcat(l, r, '{');
    CountConcat(l, r, '}');
    CountIn(r, '}');
  }

  /** The new block makes no difference to the balance of a file, wherever it comes. */
  lemma BlockBalance(a: seq<string>, b: seq<string>)
    ensures Balanced(a + (IceLines() + b)) <==> Balanced(a + b)
  {
    hide IceLines, Clean, Delta, BalancedFrom;
    IceBlock();
    BalancedInsert(a, IceLines(), b, 0);
  }

  lemma BlankLineBalance(ls: seq<string>)
    requires Balanced(ls)
    ensures Balanced(ls + [""])
  {
    hide Delta;
    DeltaBraces();
    assert [""][1..] == [];
    assert BalancedFrom([""], 0);
    BalancedBefore(ls, [""], 0, 0);
  }

  /** With `ice {` blocks whose first lines open one level, the file stays balanced exactly if no line of
      a block closes more than the block has open. */
  lemma RewrittenBalance(ls: seq<string>)
    requires Unbroken(ls) && Balanced(ls) && HeadsOpen(ls, IceHead(), 0)
    ensures Excise(ls, IceHead(), 0) == Outside(ls, IceHead())
    ensures Balanced(Lines(Join(Rewritten(ls)))) <==> BlocksClose(ls, IceHead(), 0)
  {
    hide Excise, Outside, IceHead, IceLines, LastBrace, Lines, Join, Rewritten, Balanced, HeadsOpen, BlocksClose;
    var x := Excise(ls, IceHead(), 0);
    RemovalKeepsBalance(ls, IceHead());
    RewrittenLines(ls);
    match LastBrace(x)
    case None =>
      if x == [] {
        NothingBalanced();
        BlankLineBalance([]);
        assert [] + [""] == [""];
      }
    case Some(i) =>
      assert x[..i] + x[i..] == x;
      BlockBalance(x[..i], x[i..]);
  }

  lemma NothingBalanced()
    ensures Balanced([])
  {}

  /** Without, it stays balanced exactly if at most one brace opens after the last that closes. */
  lemma ExtendedBalance(c: string)
    requires Balanced(Lines(c))
    ensures Balanced(Lines(Extended(c))) <==>
            match LastChar(c, '}')
            case None => true
            case Some(k) => Count(c[k..], '{') <= 1
  {
    hide IceLines, LastChar, Lines, NewBlock, Glue, Balanced, Count;
    match LastChar(c, '}')
    case None =>
      BlockAtLines(c, |c|);
      assert c[..|c|] == c && c[|c|..] == "" && c + NewBlock() + "" == c + NewBlock();
      LinesOfLine("");
      BlankLineBalance(Lines(c));
      BlockBalance(Lines(c), [""]);
    case Some(k) =>
      BlockAtLines(c, k);
      BlockBalance(Lines(c[..k]), Lines(c[k..]));
      SplitBalance(c, k);
  }

  /** A balanced text may be broken before its last closing brace exactly under that condition. */
  lemma {:induction false} SplitBalance(c: string, k: nat)
    requires Balanced(Lines(c)) && k < |c| && c[k] == '}' && '}' !in c[k + 1..]
    ensures Balanced(Lines(c[..k]) + Lines(c[k..])) <==> Count(c[k..], '{') <= 1
  {
    hide Delta, Lines, Count, BalancedFrom, Level;
    var x, y := Lines(c[..k]), Lines(c[k..]);
    LinesSplit(c[..k], c[k..]);
    assert c[..k] + c[k..] == c;
    var a, l, r, b := x[..|x| - 1], x[|x| - 1], y[0], y[1..];
    assert a + [l + r] + b == Glue(x, y) && (a + [l]) + ([r] + b) == x + y;
    BalancedBreak(a, l, r, b, 0);
    assert a + [l] == x;
    LevelConcat(a, [l]);
    LevelOne(l);
    LevelOfLines(c[..k]);
    LevelOfLines(c);
    EndsAtZero(Lines(c), 0);
    DeltaConcat(c[..k], c[k..]);
    LastClosing(c[k..]);
  }

  lemma LevelOne(l: string)
    ensures Level([l]) == Delta(l)
  {
    hide Delta;
    assert [l][1..] == [];
  }

  lemma LastClosing(s: string)
    requires s != "" && s[0] == '}' && '}' !in s[1..]
    ensures Delta(s) == Count(s, '{') - 1
  {
    CountIn(s[1..], '}');
  }

  /** A balanced file is balanced after the patch exactly under these conditions on its braces. */
  lemma KeepsBalance(c: string)
    requires EnableTcp(c).Written? && Balanced(Lines(c))
    requires Contains(c, IceHead()) ==> HeadsOpen(Lines(c), IceHead(), 0)
    ensures Balanced(Lines(EnableTcp(c).text)) <==>
            if Contains(c, IceHead()) then BlocksClose(Lines(c), IceHead(), 0)
            else LastChar(c, '}').None? || Count(c[LastChar(c, '}').value..], '{') <= 1
  {
    hide IceHead, LastChar, Lines, Join, Balanced, HeadsOpen, BlocksClose, Rewritten, Extended, Contains, Count, Excise, Outside;
    if Contains(c, IceHead()) {
      LinesUnbroken(c);
      RewrittenBalance(Lines(c));
    } else {
      ExtendedBalance(c);
    }
  }

  /** So a balanced file with at most one brace on a line is still one after the patch. */
  lemma KeepsTidy(c: string)
    requires EnableTcp(c).Written? && Tidy(Lines(c))
    ensures Tidy(Lines(EnableTcp(c).text))
  {
    hide Excise, IceHead, IceLines, LastBrace, LastChar, Lines, Join, Tidy, NewBlock, Glue, Contains;
    if Contains(c, IceHead()) {
      KeepsTidyOf(Lines(c)) by { LinesUnbroken(c); }
    } else {
      match LastChar(c, '}')
      case None =>
        BlockAtLines(c, |c|);
        assert c[..|c|] == c && c + NewBlock() + c[|c|..] == c + NewBlock();
        LinesOfLine("");
        TidyBlankLine(Lines(c));
        TidyInsert(Lines(c), [""]);
      case Some(k) =>
        BlockAtLines(c, k);
        LinesSplit(c[..k], c[k..]);
        assert c[..k] + c[k..] == c;
        FirstStays(c[k..]);
        TidyBreak(Lines(c[..k]), Lines(c[k..]));
        TidyInsert(Lines(c[..k]), Lines(c[k..]));
    }
  }

  lemma FirstStays(s: string)
    requires s != "" && s[0] != '\n'
    ensures s[0] in Lines(s)[0]
  {}

  lemma KeepsTidyOf(ls: seq<string>)
    requires Unbroken(ls) && Tidy(ls)
    ensures Excise(ls, IceHead(), 0) == Outside(ls, IceHead()) && Tidy(Lines(Join(Rewritten(ls))))
  {
    hide Excise, Outside, IceHead, IceLines, LastBrace, Lines, Join, Rewritten, Balanced, OneBraceEach;
    var x := Excise(ls, IceHead(), 0);
    IceHeads();
    OneBraceRemoval(ls, IceHead());
    RemovalKeepsOneBrace(ls);
    RewrittenLines(ls);
    match LastBrace(x)
    case None => if x == [] { TidyBlankLine([]) by { TidyNothing(); } assert [] + [""] == [""]; }
    case Some(i) =>
      assert x[..i] + x[i..] == x;
      TidyInsert(x[..i], x[i..]);
  }

  /** Every line outside the `ice {` blocks stays, in its order, and the new block comes before the
      last of them that has a closing brace. */
  lemma OtherLinesKept(c: string)
    requires EnableTcp(c).Written? && Contains(c, IceHead()) && HeadsOpen(Lines(c), IceHead(), 0)
    ensures var x := Outside(Lines(c), IceHead());
            Lines(EnableTcp(c).text) ==
            match LastBrace(x)
            case None => if x == [] then [""] else x
            case Some(i) => x[..i] + (IceLines() + x[i..])
  {
    hide Excise, Outside, IceHead, IceLines, LastBrace, Lines, Join, Rewritten, HeadsOpen, Contains;
    LinesUnbroken(c);
    ExciseIsOutside(Lines(c), IceHead());
    RewrittenLines(Lines(c));
  }

  lemma TidyNothing()
    ensures Tidy([])
  {}

  lemma RemovalKeepsOneBrace(ls: seq<string>)
    requires Tidy(ls)
    ensures OneBraceEach(Excise(ls, IceHead(), 0))
  {
    hide Excise, IceHead, OneBrace;
    var x := Excise(ls, IceHead(), 0);
    ExciseLeavesNone(ls, IceHead(), 0);
    forall k | 0 <= k < |x| ensures OneBrace(x[k]) { assert x[k] in ls; }
  }

  // ---- Whether TCP is on afterwards ------------------------------------------------------------

  /** The patch of a file with an `ice {` block turns TCP on exactly when a line with a closing brace
      stays; otherwise it writes the file without its block. */
  lemma TcpAfterwards(c: string)
    requires EnableTcp(c).Written?
    ensures TcpEnabled(EnableTcp(c).text) <==>
            (Contains(c, IceHead()) ==> LastBrace(Excise(Lines(c), IceHead(), 0)).Some?)
  {
    hide Excise, IceHead, IceLines, LastBrace, LastChar, Lines, Join, NewBlock, Contains, Rewritten, TcpEnabled;
    if Contains(c, IceHead()) {
      var x := Excise(Lines(c), IceHead(), 0);
      LinesUnbroken(c);
      RewrittenLines(Lines(c));
      JoinLines(Join(Rewritten(Lines(c))));
      match LastBrace(x)
      case Some(i) => BlockEnables(x[..i], x[i..]);
      case None =>
        if x == [] { NothingEnabled(); JoinNothing(); JoinBlank(); } else { StillDisabled(c, x); }
    } else {
      var k := match LastChar(c, '}') case None => |c| case Some(i) => i;
      BlockAtLines(c, k);
      assert c[|c|..] == "" && c[..|c|] == c && c + NewBlock() + "" == c + NewBlock();
      JoinLines(c[..k] + NewBlock() + c[k..]);
      BlockEnables(Lines(c[..k]), Lines(c[k..]));
    }
  }

  lemma JoinBlank()
    ensures Join([""]) == ""
  {}

  lemma NothingEnabled()
    ensures !TcpEnabled("")
  {
    assert 't' in TcpHead() by { assert TcpHead()[0] == 't'; }
    ContainsChar("", TcpHead(), 't');
  }

  lemma BlockEnables(a: seq<string>, b: seq<string>)
    ensures TcpEnabled(Join(a + (IceLines() + b)))
  {
    hide IceLines, Join, Contains, TcpHead, Enabled, Clean;
    var v := a + (IceLines() + b);
    IceBlock();
    TcpContained();
    assert v[|a| + 4] == TcpLines()[0] && v[|a| + 5] == TcpLines()[1];
    ContainsByLine(v, TcpHead());
    ContainsByLine(v, Enabled());
  }

  /** Removing lines turns nothing on. */
  lemma StillDisabled(c: string, x: seq<string>)
    requires !TcpEnabled(c) && x != [] && x == Excise(Lines(c), IceHead(), 0)
    ensures !TcpEnabled(Join(x))
  {
    hide Excise, IceHead, Lines, Join, Contains, TcpHead, Enabled;
    TcpContained();
    ExciseLeavesNone(Lines(c), IceHead(), 0);
    KeptFromFile(c, x, TcpHead());
    KeptFromFile(c, x, Enabled());
  }

  lemma KeptFromFile(c: string, x: seq<string>, p: string)
    requires x != [] && (forall l | l in x :: l in Lines(c)) && p != "" && '\n' !in p
    ensures Contains(Join(x), p) ==> Contains(c, p)
  {
    hide Lines, Join, Contains;
    ContainsByLine(x, p);
    if l :| l in x && Contains(l, p) {
      var k :| 0 <= k < |Lines(c)| && Lines(c)[k] == l;
      LinesArePieces(c, k);
    }
  }

  /** So the second run skips the file exactly in those cases. */
  lemma SecondRun(c: string)
    requires EnableTcp(c).Written?
    ensures EnableTcp(EnableTcp(c).text) == Skipped <==>
            (Contains(c, IceHead()) ==> LastBrace(Excise(Lines(c), IceHead(), 0)).Some?)
  {
    hide Excise, IceHead, LastBrace, Lines, Contains, Rewritten, TcpEnabled;
    TcpAfterwards(c);
  }

  /** Such a file: one that is all `ice` block. It is written empty. */
  lemma OnlyIce()
    ensures EnableTcp(IceHead() + "\n" + "}") == Written("")
  {
    hide IceHead, Contains, Lines, Starts, Delta, Enabled, TcpHead, LastBrace;
    var c := IceHead() + "\n" + "}";
    IceHeads();
    LinesOfLine(IceHead());
    LinesOfLine("}");
    LinesConcat(IceHead(), "}");
    var ls := Lines(c);
    assert ls == [IceHead(), "}"];
    assert ls[1..] == ["}"] && ["}"][1..] == [];
    DeltaBraces();
    IceStarts();
    assert Excise(ls[1..], IceHead(), 1) == Excise([], IceHead(), 0);
    assert Excise(ls, IceHead(), 0) == [];
    assert LastBrace([]).None?;
    ContainsMiddle("", IceHead(), "\n" + "}");
    assert "" + IceHead() + ("\n" + "}") == c;
    NoTcpHere();
  }

  lemma IceStarts()
    ensures Starts(IceHead(), IceHead())
  {
    StartsSolid(IceHead(), IceHead());
  }

  lemma NoTcpHere()
    ensures !Contains(IceHead() + "\n" + "}", TcpHead())
  {
    hide Contains;
    assert TcpHead()[0] == 't';
    ContainsChar(IceHead() + "\n" + "}", TcpHead(), 't');
  }
}
