/** The string operations of the source language that the modelled code uses:
    `strip`, substring tests, `find`, `replace(.., 1)`, `split("\n")` and `"\n".join`. */
module Text {

  datatype Option<+T> = None | Some(value: T)

  /** The characters `str.strip()` removes. */
  predicate IsSpace(c: char) {
    var n := c as int;
    || 0x09 <= n <= 0x0D || 0x1C <= n <= 0x20 || n == 0x85 || n == 0xA0 || n == 0x1680
    || 0x2000 <= n <= 0x200A || n == 0x2028 || n == 0x2029 || n == 0x202F || n == 0x205F || n == 0x3000
  }

  /** One by one: tab to CR, the four separators, the blank, and the blanks beyond ASCII. */
  lemma Blanks(c: char)
    ensures IsSpace(c) <==>
              c as int in {9, 10, 11, 12, 13, 28, 29, 30, 31, 32, 133, 160, 5760, 8192, 8193, 8194, 8195, 8196, 8197, 8198,
                           8199, 8200, 8201, 8202, 8232, 8233, 8239, 8287, 12288}
  {}

  function LStrip(s: string): (r: string)
    ensures |r| <= |s| && r == s[|s| - |r|..]
  {
    if s != "" && IsSpace(s[0]) then LStrip(s[1..]) else s
  }

  function RStrip(s: string): (r: string)
    ensures r <= s
  {
    if s != "" && IsSpace(s[|s| - 1]) then RStrip(s[..|s| - 1]) else s
  }

  function Strip(s: string): string { RStrip(LStrip(s)) }

  /** `p` occurs in `s` at position `i`. */
  predicate At(s: string, i: int, p: string) {
    0 <= i && i + |p| <= |s| && s[i..i + |p|] == p
  }

  /** `p in s`. */
  predicate Contains(s: string, p: string) {
    exists i | 0 <= i <= |s| :: At(s, i, p)
  }

  /** `s.find(p)`: the first position where `p` occurs. */
  function Find(s: string, p: string): (r: Option<nat>)
    ensures r.None? <==> !Contains(s, p)
    ensures r.Some? ==> At(s, r.value, p) && forall j | 0 <= j < r.value :: !At(s, j, p)
  {
    FindFrom(s, p, 0)
  }

  function FindFrom(s: string, p: string, i: nat): (r: Option<nat>)
    requires i <= |s|
    ensures r.None? <==> forall j | i <= j <= |s| :: !At(s, j, p)
    ensures r.Some? ==> i <= r.value && At(s, r.value, p) && forall j | i <= j < r.value :: !At(s, j, p)
    decreases |s| - i
  {
    if At(s, i, p) then Some(i) else if i == |s| then None else FindFrom(s, p, i + 1)
  }

  /** `s.replace(p, q, 1)`. */
  function ReplaceFirst(s: string, p: string, q: string): string {
    match Find(s, p)
    case None => s
    case Some(i) => s[..i] + q + s[i + |p|..]
  }

  /** `s.split("\n")`. */
  function Lines(s: string): (r: seq<string>)
    ensures |r| >= 1
  {
    if s == "" then [""]
    else
      var rest := Lines(s[1..]);
      if s[0] == '\n' then [""] + rest else [[s[0]] + rest[0]] + rest[1..]
  }

  /** `"\n".join(ls)`. */
  function Join(ls: seq<string>): string {
    if ls == [] then "" else if |ls| == 1 then ls[0] else ls[0] + "\n" + Join(ls[1..])
  }

  lemma ContainsMiddle(a: string, p: string, b: string)
    ensures Contains(a + p + b, p)
  {
    assert At(a + p + b, |a|, p);
  }

  lemma ContainsPart(s: string, lo: nat, hi: nat, p: string)
    requires lo <= hi <= |s| && Contains(s[lo..hi], p)
    ensures Contains(s, p)
  {
    var i :| 0 <= i <= hi - lo && At(s[lo..hi], i, p);
    var t := s[lo + i..lo + i + |p|];
    assert forall k | 0 <= k < |p| :: t[k] == s[lo..hi][i..i + |p|][k];
    assert At(s, lo + i, p);
  }

  lemma {:induction false} JoinLines(s: string)
    ensures Join(Lines(s)) == s
  {
    if s != "" {
      JoinLines(s[1..]);
      var rest := Lines(s[1..]);
      if s[0] != '\n' {
        assert Lines(s)[1..] == rest[1..];
        if |rest| > 1 {
          assert Join(Lines(s)) == [s[0]] + rest[0] + "\n" + Join(rest[1..]) == [s[0]] + Join(rest);
        }
      } else {
        assert Lines(s)[1..] == rest;
      }
    }
  }

  lemma {:induction false} LinesOfLine(s: string)
    requires '\n' !in s
    ensures Lines(s) == [s]
  {
    if s != "" {
      assert s[0] in s;
      LinesOfLine(s[1..]);
      assert [s[0]] + s[1..] == s;
    }
  }

  lemma LinesStep(c: char, s: string)
    ensures Lines([c] + s) == if c == '\n' then [""] + Lines(s) else [[c] + Lines(s)[0]] + Lines(s)[1..]
  {
    assert ([c] + s)[1..] == s;
  }

  lemma {:induction false} LinesConcat(a: string, b: string)
    ensures Lines(a + "\n" + b) == Lines(a) + Lines(b)
  {
    hide Lines;
    if a == "" {
      assert "" + "\n" + b == ['\n'] + b;
      LinesStep('\n', b);
      LinesOfLine("");
    } else {
      LinesConcat(a[1..], b);
      assert a == [a[0]] + a[1..] && a + "\n" + b == [a[0]] + (a[1..] + "\n" + b);
      LinesStep(a[0], a[1..]);
      LinesStep(a[0], a[1..] + "\n" + b);
    }
  }

  /** Every line is a piece of the text, and holds no line break. */
  lemma LinesArePieces(s: string, k: nat)
    requires k < |Lines(s)|
    ensures '\n' !in Lines(s)[k]
    ensures forall p :: Contains(Lines(s)[k], p) ==> Contains(s, p)
  {
    LinePiece(s, k);
    var lo, hi :| 0 <= lo <= hi <= |s| && s[lo..hi] == Lines(s)[k];
    forall p | Contains(Lines(s)[k], p) ensures Contains(s, p) { ContainsPart(s, lo, hi, p); }
  }

  lemma {:induction false} LinePiece(s: string, k: nat)
    requires k < |Lines(s)|
    ensures '\n' !in Lines(s)[k]
    ensures exists lo, hi :: 0 <= lo <= hi <= |s| && s[lo..hi] == Lines(s)[k] && (k == 0 ==> lo == 0)
  {
    if s == "" {
      assert s[0..0] == Lines(s)[k];
    } else if s[0] == '\n' {
      if k == 0 {
        assert s[0..0] == Lines(s)[0];
      } else {
        LinePiece(s[1..], k - 1);
        var lo, hi :| 0 <= lo <= hi <= |s[1..]| && s[1..][lo..hi] == Lines(s[1..])[k - 1];
        assert s[lo + 1..hi + 1] == Lines(s)[k];
      }
    } else {
      LinePiece(s[1..], k);
      var lo, hi :| 0 <= lo <= hi <= |s[1..]| && s[1..][lo..hi] == Lines(s[1..])[k] && (k == 0 ==> lo == 0);
      if k == 0 {
        assert s[0..hi + 1] == [s[0]] + s[1..][0..hi];
        assert s[0..hi + 1] == Lines(s)[0];
      } else {
        assert s[lo + 1..hi + 1] == Lines(s)[k];
      }
    }
  }

  lemma {:induction false} LinesJoin(ls: seq<string>)
    requires ls != [] && forall l | l in ls :: '\n' !in l
    ensures Lines(Join(ls)) == ls
  {
    LinesOfLine(ls[0]);
    if |ls| > 1 {
      LinesJoin(ls[1..]);
      LinesConcat(ls[0], Join(ls[1..]));
    }
  }

  lemma {:induction false} JoinConcat(a: seq<string>, b: seq<string>)
    requires a != [] && b != []
    ensures Join(a + b) == Join(a) + "\n" + Join(b)
  {
    if |a| == 1 {
      assert (a + b)[1..] == b;
    } else {
      JoinConcat(a[1..], b);
      assert (a + b)[1..] == a[1..] + b;
    }
  }

  lemma RStripSolid(s: string)
    requires s == "" || !IsSpace(s[|s| - 1])
    ensures RStrip(s) == s
  {}

  lemma StripSolid(s: string)
    requires s != "" && !IsSpace(s[0]) && !IsSpace(s[|s| - 1])
    ensures Strip(s) == s
  {}

  // ---- Substrings without a line break, line by line -----------------------------------------

  /** Where `p` first occurs in two pieces joined by a line break. */
  lemma FindAcross(a: string, b: string, p: string)
    requires p != "" && '\n' !in p
    ensures Find(a + "\n" + b, p) ==
            if Find(a, p).Some? then Find(a, p)
            else if Find(b, p).Some? then Some(|a| + 1 + Find(b, p).value) else None
  {
    hide At;
    var s := a + "\n" + b;
    forall i | 0 <= i <= |a| ensures At(s, i, p) <==> At(a, i, p) { AtLeft(a, b, i, p); }
    forall j | 0 <= j <= |b| ensures At(s, |a| + 1 + j, p) <==> At(b, j, p) { AtRight(a, b, j, p); }
    if Find(a, p).Some? {
      FindIs(s, p, Find(a, p).value);
    } else if Find(b, p).Some? {
      var k := Find(b, p).value;
      forall i | 0 <= i < |a| + 1 + k ensures !At(s, i, p) {
        if i > |a| { assert !At(b, i - |a| - 1, p); }
      }
      FindIs(s, p, |a| + 1 + k);
    } else {
      forall i | 0 <= i <= |s| ensures !At(s, i, p) {
        if i > |a| { assert !At(b, i - |a| - 1, p); }
      }
    }
  }

  lemma FindIs(s: string, p: string, i: nat)
    requires At(s, i, p) && forall j | 0 <= j < i :: !At(s, j, p)
    ensures Find(s, p) == Some(i)
  {
    assert i <= |s|;
  }

  lemma AtLeft(a: string, b: string, i: nat, p: string)
    requires p != "" && '\n' !in p && i <= |a|
    ensures At(a + "\n" + b, i, p) <==> At(a, i, p)
  {
    var s := a + "\n" + b;
    if i + |p| <= |a| {
      assert s[i..i + |p|] == a[i..i + |p|];
    } else if i + |p| <= |s| {
      assert s[i..i + |p|][|a| - i] == '\n' && p[|a| - i] in p;
    }
  }

  lemma AtRight(a: string, b: string, j: nat, p: string)
    requires j <= |b|
    ensures At(a + "\n" + b, |a| + 1 + j, p) <==> At(b, j, p)
  {
    var s := a + "\n" + b;
    if j + |p| <= |b| { assert s[|a| + 1 + j..|a| + 1 + j + |p|] == b[j..j + |p|]; }
  }

  predicate AnyContains(ls: seq<string>, p: string) { exists l | l in ls :: Contains(l, p) }

  /** `replace(.., 1)` in the first line that contains `p`. */
  function ReplaceLine(ls: seq<string>, p: string, q: string): (r: seq<string>)
    ensures |r| == |ls|
  {
    if ls == [] then []
    else if Contains(ls[0], p) then [ReplaceFirst(ls[0], p, q)] + ls[1..]
    else [ls[0]] + ReplaceLine(ls[1..], p, q)
  }

  lemma {:induction false} ContainsByLine(ls: seq<string>, p: string)
    requires ls != [] && p != "" && '\n' !in p
    ensures Contains(Join(ls), p) <==> AnyContains(ls, p)
  {
    if |ls| > 1 {
      ContainsByLine(ls[1..], p);
      FindAcross(ls[0], Join(ls[1..]), p);
      assert ls == [ls[0]] + ls[1..];
    }
  }

  lemma ReplaceAcross(a: string, b: string, p: string, q: string)
    requires p != "" && '\n' !in p
    ensures ReplaceFirst(a + "\n" + b, p, q) ==
            if Contains(a, p) then ReplaceFirst(a, p, q) + "\n" + b else a + "\n" + ReplaceFirst(b, p, q)
  {
    hide At, Contains, ReplaceFirst;
    FindAcross(a, b, p);
    var s := a + "\n" + b;
    ReplaceIs(s, p, q);
    ReplaceIs(a, p, q);
    ReplaceIs(b, p, q);
    if Find(a, p).Some? {
      CutLeft(a, b, Find(a, p).value, Find(a, p).value + |p|, q);
    } else if Find(b, p).Some? {
      CutRight(a, b, Find(b, p).value, Find(b, p).value + |p|, q);
    }
  }

  lemma ReplaceIs(s: string, p: string, q: string)
    ensures match Find(s, p)
            case None => ReplaceFirst(s, p, q) == s
            case Some(i) => i + |p| <= |s| && ReplaceFirst(s, p, q) == s[..i] + q + s[i + |p|..]
  {}

  lemma CutLeft(a: string, b: string, i: nat, j: nat, q: string)
    requires i <= j <= |a|
    ensures var s := a + "\n" + b; s[..i] + q + s[j..] == a[..i] + q + a[j..] + "\n" + b
  {}

  lemma CutRight(a: string, b: string, i: nat, j: nat, q: string)
    requires i <= j <= |b|
    ensures var s := a + "\n" + b;
            s[..|a| + 1 + i] + q + s[|a| + 1 + j..] == a + "\n" + (b[..i] + q + b[j..])
  {}

  lemma {:induction false} ReplaceByLine(ls: seq<string>, p: string, q: string)
    requires ls != [] && p != "" && '\n' !in p
    ensures ReplaceFirst(Join(ls), p, q) == Join(ReplaceLine(ls, p, q))
  {
    hide ReplaceFirst, Contains;
    if |ls| > 1 {
      ReplaceByLine(ls[1..], p, q);
      ReplaceAcross(ls[0], Join(ls[1..]), p, q);
      if !Contains(ls[0], p) {
        assert ReplaceLine(ls, p, q)[1..] == ReplaceLine(ls[1..], p, q);
      } else {
        assert ReplaceLine(ls, p, q)[1..] == ls[1..];
      }
    } else {
      ReplaceNothing(ls[0], p, q);
    }
  }

  lemma ReplaceNothing(s: string, p: string, q: string)
    ensures !Contains(s, p) ==> ReplaceFirst(s, p, q) == s
  {}

  /** Without `p` in `a`, the first replacement happens in `b`. */
  lemma {:induction false} ReplaceLineConcat(a: seq<string>, b: seq<string>, p: string, q: string)
    ensures ReplaceLine(a + b, p, q) ==
            if AnyContains(a, p) then ReplaceLine(a, p, q) + b else a + ReplaceLine(b, p, q)
  {
    hide Contains, ReplaceFirst;
    if a == [] {
      assert a + b == b;
    } else {
      assert (a + b)[1..] == a[1..] + b;
      if !Contains(a[0], p) {
        ReplaceLineConcat(a[1..], b, p, q);
        assert AnyContains(a, p) <==> AnyContains(a[1..], p) by { assert a == [a[0]] + a[1..]; }
      } else {
        assert a[0] in a;
      }
    }
  }

  /** `find("\n" + w)` finds the first line after line 0 that begins with `w`. */
  predicate LineStart(ls: seq<string>, w: string) {
    match Find(Join(ls), "\n" + w)
    case None => forall k | 1 <= k < |ls| :: !(w <= ls[k])
    case Some(p) => p <= |Join(ls)| && exists k | 1 <= k < |ls| ::
        && w <= ls[k] && (forall j | 1 <= j < k :: !(w <= ls[j]))
        && Join(ls)[..p] == Join(ls[..k]) && Join(ls)[p..] == "\n" + Join(ls[k..])
  }

  lemma {:induction false} FindLineStart(ls: seq<string>, w: string)
    requires ls != [] && '\n' !in w && forall k | 0 <= k < |ls| :: '\n' !in ls[k]
    ensures LineStart(ls, w)
  {
    hide At;
    var s, p := Join(ls), "\n" + w;
    if |ls| == 1 {
      forall i | 0 <= i <= |s| ensures !At(s, i, p) { NoBreakHere(s, i, w); }
    } else {
      var a, b := ls[0], Join(ls[1..]);
      FindLineStart(ls[1..], w);
      StartsAt(a, b, w, ls[1..]);
      forall i | 0 <= i < |a| ensures !At(s, i, p) { NoBreakHere(s, i, w); }
      if w <= ls[1] {
        FindIs(s, p, |a|);
        assert ls[..1] == [a] && s[..|a|] == Join(ls[..1]) && s[|a|..] == "\n" + Join(ls[1..]);
      } else {
        FindLaterLine(ls, w);
      }
    }
  }

  lemma NoBreakHere(s: string, i: nat, w: string)
    requires i <= |s| && (i < |s| ==> s[i] != '\n')
    ensures !At(s, i, "\n" + w)
  {
    if i + 1 + |w| <= |s| { assert s[i..i + 1 + |w|][0] == s[i] && ("\n" + w)[0] == '\n'; }
  }

  lemma FindInTail(a: string, b: string, p: string)
    requires forall i | 0 <= i <= |a| :: !At(a + "\n" + b, i, p)
    ensures Find(a + "\n" + b, p) == if Find(b, p).None? then None else Some(|a| + 1 + Find(b, p).value)
  {
    hide At;
    var s := a + "\n" + b;
    forall j | 0 <= j <= |b| ensures At(s, |a| + 1 + j, p) <==> At(b, j, p) { AtRight(a, b, j, p); }
    var limit := if Find(b, p).None? then |s| + 1 else |a| + 1 + Find(b, p).value;
    forall i | 0 <= i < limit ensures !At(s, i, p) {
      if i > |a| {
        var j := i - |a| - 1;
        assert At(s, |a| + 1 + j, p) <==> At(b, j, p);
      }
    }
    if Find(b, p).Some? { FindIs(s, p, |a| + 1 + Find(b, p).value); }
  }

  /** The step of `FindLineStart` when line 1 does not begin with `w`. */
  lemma {:induction false} FindLaterLine(ls: seq<string>, w: string)
    requires |ls| > 1 && !(w <= ls[1])
    requires forall i | 0 <= i <= |ls[0]| :: !At(Join(ls), i, "\n" + w)
    requires LineStart(ls[1..], w)
    ensures LineStart(ls, w)
  {
    hide At, Find;
    var p := "\n" + w;
    var a, b := ls[0], Join(ls[1..]);
    assert Join(ls) == a + "\n" + b;
    FindInTail(a, b, p);
    match Find(b, p)
    case None =>
      forall k | 1 <= k < |ls| ensures !(w <= ls[k]) { if k > 1 { assert ls[k] == ls[1..][k - 1]; } }
    case Some(q) =>
      var k :| 1 <= k < |ls[1..]| && w <= ls[1..][k] && (forall j | 1 <= j < k :: !(w <= ls[1..][j]))
        && b[..q] == Join(ls[1..][..k]) && b[q..] == "\n" + Join(ls[1..][k..]);
      LaterCut(ls, k, q);
      LaterFirst(ls, w, k);
  }

  lemma LaterFirst(ls: seq<string>, w: string, k: nat)
    requires 1 <= k < |ls| - 1 && !(w <= ls[1]) && w <= ls[1..][k] && forall j | 1 <= j < k :: !(w <= ls[1..][j])
    ensures w <= ls[k + 1] && forall j | 1 <= j < k + 1 :: !(w <= ls[j])
  {
    forall j | 1 <= j < k + 1 ensures !(w <= ls[j]) { if j > 1 { assert ls[j] == ls[1..][j - 1]; } }
  }

  lemma LaterCut(ls: seq<string>, k: nat, q: nat)
    requires 1 <= k < |ls| - 1 && q <= |Join(ls[1..])|
    requires Join(ls[1..])[..q] == Join(ls[1..][..k]) && Join(ls[1..])[q..] == "\n" + Join(ls[1..][k..])
    ensures var s, p := Join(ls), |ls[0]| + 1 + q;
            p <= |s| && s[..p] == Join(ls[..k + 1]) && s[p..] == "\n" + Join(ls[k + 1..])
  {
    var a, b, s := ls[0], Join(ls[1..]), Join(ls);
    assert ls[..k + 1] == [a] + ls[1..][..k] && ls[k + 1..] == ls[1..][k..];
    assert s[..|a| + 1 + q] == a + "\n" + b[..q] && s[|a| + 1 + q..] == b[q..];
    JoinConcat([a], ls[1..][..k]);
  }

  /** A line break at the end of `a` is followed by `w` exactly when the next line begins with `w`. */
  lemma StartsAt(a: string, b: string, w: string, rest: seq<string>)
    requires rest != [] && b == Join(rest) && '\n' !in w
    ensures At(a + "\n" + b, |a|, "\n" + w) <==> w <= rest[0]
  {
    var s := a + "\n" + b;
    if 1 + |w| <= |s| - |a| {
      assert s[|a|..|a| + 1 + |w|] == "\n" + b[..|w|];
      if |w| > |rest[0]| { assert b[..|w|][|rest[0]|] == '\n' && w[|rest[0]|] in w; }
      if w <= rest[0] { assert b[..|w|] == rest[0][..|w|]; }
      if b[..|w|] == w && |w| <= |rest[0]| { assert b[..|w|] == rest[0][..|w|]; }
      if At(s, |a|, "\n" + w) { assert ("\n" + w)[1..] == w && ("\n" + b[..|w|])[1..] == b[..|w|]; }
    } else {
      assert |b| >= |rest[0]|;
    }
  }

  lemma ContainsChar(s: string, p: string, c: char)
    requires c in p && c !in s
    ensures !Contains(s, p)
  {
    forall i | 0 <= i <= |s| ensures !At(s, i, p) {
      if i + |p| <= |s| {
        var t := s[i..i + |p|];
        assert forall k | 0 <= k < |t| :: t[k] in s;
      }
    }
  }

  lemma {:induction false} LStripBlank(blank: string, s: string)
    requires forall c | c in blank :: IsSpace(c)
    ensures LStrip(blank + s) == LStrip(s)
  {
    if blank == "" {
      assert blank + s == s;
    } else {
      assert blank[0] in blank && (blank + s)[1..] == blank[1..] + s;
      LStripBlank(blank[1..], s);
    }
  }

  lemma {:induction false} RStripFirst(s: string)
    requires s != "" && !IsSpace(s[0])
    ensures RStrip(s) != "" && RStrip(s)[0] == s[0]
  {
    if |s| > 1 && IsSpace(s[|s| - 1]) { RStripFirst(s[..|s| - 1]); }
  }

  // ---- Counting and splitting ------------------------------------------------------------------

  /** `s.count(c)`. */
  function Count(s: string, c: char): nat {
    if s == "" then 0 else (if s[0] == c then 1 else 0) + Count(s[1..], c)
  }

  lemma {:induction false} CountIn(s: string, c: char)
    ensures c in s <==> Count(s, c) > 0
  {
    if s != "" {
      CountIn(s[1..], c);
      assert s == [s[0]] + s[1..];
    }
  }

  lemma {:induction false} CountConcat(a: string, b: string, c: char)
    ensures Count(a + b, c) == Count(a, c) + Count(b, c)
  {
    if a == "" {
      assert a + b == b;
    } else {
      assert (a + b)[1..] == a[1..] + b;
      CountConcat(a[1..], b, c);
    }
  }

  /** The lines of two texts put together: the last line of one and the first of the other are one. */
  function Glue(x: seq<string>, y: seq<string>): seq<string>
    requires x != [] && y != []
  {
    x[..|x| - 1] + [x[|x| - 1] + y[0]] + y[1..]
  }

  lemma {:induction false} LinesSplit(a: string, b: string)
    ensures Lines(a + b) == Glue(Lines(a), Lines(b))
  {
    hide Glue;
    if a == "" {
      assert a + b == b;
      GlueBlank(Lines(b));
    } else {
      assert (a + b)[1..] == a[1..] + b;
      LinesSplit(a[1..], b);
      GlueBreak(Lines(a[1..]), Lines(b));
      GlueChar(a[0], Lines(a[1..]), Lines(b));
    }
  }

  lemma GlueBlank(y: seq<string>)
    requires y != []
    ensures Glue([""], y) == y
  {
    assert "" + y[0] == y[0] && [y[0]] + y[1..] == y;
  }

  lemma GlueBreak(x: seq<string>, y: seq<string>)
    requires x != [] && y != []
    ensures Glue([""] + x, y) == [""] + Glue(x, y)
  {
    assert ([""] + x)[..|x|] == [""] + x[..|x| - 1];
  }

  lemma GlueChar(c: char, x: seq<string>, y: seq<string>)
    requires x != [] && y != []
    ensures Glue([[c] + x[0]] + x[1..], y) == [[c] + Glue(x, y)[0]] + Glue(x, y)[1..]
  {
    var x' := [[c] + x[0]] + x[1..];
    if |x| == 1 {
      assert x'[0] + y[0] == [c] + (x[0] + y[0]);
    } else {
      assert x'[..|x| - 1] == [[c] + x[0]] + x[..|x| - 1][1..];
    }
  }

  // ---- Numbers ---------------------------------------------------------------------------------

  predicate IsDigit(c: char) { '0' <= c <= '9' }

  /** `int(s)` for a text of digits. */
  function Number(s: string): nat
    requires forall c | c in s :: IsDigit(c)
  {
    if s == "" then 0 else
      assert IsDigit(s[|s| - 1]) && forall c | c in s[..|s| - 1] :: c in s;
      10 * Number(s[..|s| - 1]) + (s[|s| - 1] as int - '0' as int)
  }

  /** `str(n)`. */
  function Decimal(n: nat): (r: string)
    ensures r != "" && forall c | c in r :: IsDigit(c)
  {
    if n < 10 then [('0' as int + n) as char] else Decimal(n / 10) + [('0' as int + n % 10) as char]
  }

  lemma {:induction false} NumberDecimal(n: nat)
    ensures Number(Decimal(n)) == n
  {
    if n >= 10 {
      NumberDecimal(n / 10);
      assert Decimal(n)[..|Decimal(n)| - 1] == Decimal(n / 10);
    } else {
      assert Decimal(n)[..0] == "";
    }
  }

  /** Order of texts, character by character. */
  predicate TextLess(a: string, b: string) {
    b != "" && (a == "" || a[0] < b[0] || (a[0] == b[0] && TextLess(a[1..], b[1..])))
  }

  lemma {:induction false} TextTrichotomy(a: string, b: string)
    ensures !TextLess(a, a)
    ensures TextLess(a, b) ==> a != b && !TextLess(b, a)
    ensures TextLess(a, b) || a == b || TextLess(b, a)
  {
    if a != "" {
      TextTrichotomy(a[1..], if b == "" then "" else b[1..]);
      if b != "" {
        assert a == [a[0]] + a[1..] && b == [b[0]] + b[1..];
      }
    }
  }

  lemma {:induction false} TextTransitive(a: string, b: string, c: string)
    requires TextLess(a, b) && TextLess(b, c)
    ensures TextLess(a, c)
  {
    if a != "" && a[0] == b[0] == c[0] { TextTransitive(a[1..], b[1..], c[1..]); }
  }

  lemma Smaller(a: set<string>, b: set<string>)
    requires a <= b
    ensures |a| <= |b|
  {
    assert b == a + (b - a);
  }
}
