/** `_LineLog`: whole log lines out of streamed chunks, with terminal escapes removed. */
module LineLog {
  import opened Text

  const ESC := '\U{1B}'

  predicate Parameter(c: char) { '0' <= c <= '9' || c == ';' }
  predicate Letter(c: char) { 'A' <= c <= 'Z' || 'a' <= c <= 'z' }

  function Parameters(s: string): (n: nat)
    ensures n <= |s| && (forall i | 0 <= i < n :: Parameter(s[i])) && (n < |s| ==> !Parameter(s[n]))
  {
    if s == "" || !Parameter(s[0]) then 0 else
      var n := 1 + Parameters(s[1..]);
      assert forall i | 0 < i < n :: s[i] == s[1..][i - 1];
      n
  }

  /** The length of the escape at the start of the text: ESC, `[`, parameters, a letter. 0 if there is none. */
  function EscapeLength(s: string): (n: nat)
    ensures n <= |s|
  {
    if |s| >= 2 && s[0] == ESC && s[1] == '[' then
      var n := 2 + Parameters(s[2..]);
      if n < |s| && Letter(s[n]) then n + 1 else 0
    else 0
  }

  /** `_strip_ansi`. */
  function StripAnsi(s: string): string
    decreases |s|
  {
    if s == "" then ""
    else if EscapeLength(s) > 0 then StripAnsi(s[EscapeLength(s)..])
    else [s[0]] + StripAnsi(s[1..])
  }

  /** `replace("\r\n", "\n")`. */
  function CrLf(s: string): string
    decreases |s|
  {
    if s == "" then ""
    else if |s| > 1 && s[0] == '\r' && s[1] == '\n' then "\n" + CrLf(s[2..])
    else [s[0]] + CrLf(s[1..])
  }

  /** `replace("\r", "\n")`. */
  function Cr(s: string): (r: string)
    ensures |r| == |s|
  {
    if s == "" then "" else [if s[0] == '\r' then '\n' else s[0]] + Cr(s[1..])
  }

  /** What a chunk adds to the buffer. */
  function Cleaned(chunk: string): string { Cr(CrLf(StripAnsi(chunk))) }

  function Last(ls: seq<string>): string
    requires ls != []
  {
    ls[|ls| - 1]
  }

  function Init(ls: seq<string>): seq<string>
    requires ls != []
  {
    ls[..|ls| - 1]
  }

  function Trimmed(ls: seq<string>): (r: seq<string>)
    ensures |r| == |ls| && forall k | 0 <= k < |ls| :: r[k] == RStrip(ls[k])
  {
    seq(|ls|, k requires 0 <= k < |ls| => RStrip(ls[k]))
  }

  /** The lines logged for a text, and what stays in the buffer. */
  function Logged(t: string): seq<string> { Trimmed(Init(Lines(t))) }
  function Rest(t: string): string { Last(Lines(t)) }

  /** The lines logged for a text by the time of the final flush. */
  function Flushed(t: string): seq<string> { Logged(t) + if Strip(Rest(t)) != "" then [RStrip(Rest(t))] else [] }

  /** The text that a sequence of chunks puts through the buffer. */
  function Fed(chunks: seq<string>): string {
    if chunks == [] then "" else Cleaned(chunks[0]) + Fed(chunks[1..])
  }

  function Concat(chunks: seq<string>): string {
    if chunks == [] then "" else chunks[0] + Concat(chunks[1..])
  }

  // ---- The logger ------------------------------------------------------------------------------

  lemma FeedOn(t: string, u: string)
    ensures Logged(t + u) == Logged(t) + Logged(Rest(t) + u) && Rest(t + u) == Rest(Rest(t) + u)
  {
    hide Lines;
    LinesSplit(t, u);
    LinesSplit(Rest(t), u);
    RestHasNoBreak(t);
    LinesOfLine(Rest(t));
    var x, y := Lines(t), Lines(u);
    assert Glue([Rest(t)], y) == [Rest(t) + y[0]] + y[1..];
    assert Glue(x, y) == Init(x) + Glue([Rest(t)], y);
  }

  lemma RestHasNoBreak(t: string)
    ensures '\n' !in Rest(t)
  {
    LinesArePieces(t, |Lines(t)| - 1);
  }

  /** Taking the first line off a text that has one. */
  lemma FirstLine(t: string, i: nat)
    requires i < |t| && t[i] == '\n' && '\n' !in t[..i]
    ensures Logged(t) == [RStrip(t[..i])] + Logged(t[i + 1..]) && Rest(t) == Rest(t[i + 1..])
  {
    hide Lines;
    assert t == t[..i] + "\n" + t[i + 1..];
    LinesConcat(t[..i], t[i + 1..]);
    LinesOfLine(t[..i]);
  }

  lemma NoLine(t: string)
    requires '\n' !in t
    ensures Logged(t) == [] && Rest(t) == t
  {
    LinesOfLine(t);
  }

  function BreakAt(t: string): (i: nat)
    ensures i <= |t| && '\n' !in t[..i] && (if i < |t| then t[i] == '\n' else '\n' !in t)
  {
    if t == "" || t[0] == '\n' then 0 else
      var i := 1 + BreakAt(t[1..]);
      assert t[..i] == [t[0]] + t[1..][..i - 1];
      i
  }

  lemma {:induction false} FedMore(chunks: seq<string>, chunk: string)
    ensures Fed(chunks + [chunk]) == Fed(chunks) + Cleaned(chunk)
  {
    hide Cleaned;
    if chunks == [] {
      assert [] + [chunk] == [chunk] && [chunk][1..] == [];
    } else {
      assert (chunks + [chunk])[1..] == chunks[1..] + [chunk];
      FedMore(chunks[1..], chunk);
    }
  }

  class Logger {
    var log: seq<string>
    var buf: string
    ghost var before: seq<string>
    ghost var chunks: seq<string>

    /** The log is what was there before, and the whole lines of the chunks so far. */
    ghost predicate Valid()
      reads this
    {
      log == before + Logged(Fed(chunks)) && buf == Rest(Fed(chunks)) && '\n' !in buf
    }

    constructor (log: seq<string>)
      ensures Valid() && this.log == log && before == log && chunks == []
    {
      this.log, buf := log, "";
      before, chunks := log, [];
      NoLine("");
    }

    method Feed(chunk: string)
      requires Valid()
      modifies this
      ensures Valid() && chunks == old(chunks) + [chunk] && before == old(before)
    {
      hide Logged, Rest, Cleaned;
      ghost var was := log;
      FedMore(chunks, chunk);
      FeedOn(Fed(chunks), Cleaned(chunk));
      buf := buf + Cleaned(chunk);
      ghost var whole := buf;
      while '\n' in buf
        invariant log + Logged(buf) == was + Logged(whole) && Rest(buf) == Rest(whole)
        invariant before == old(before) && chunks == old(chunks)
        decreases |buf|
      {
        var i := BreakAt(buf);
        FirstLine(buf, i);
        log, buf := log + [RStrip(buf[..i])], buf[i + 1..];
      }
      NoLine(buf);
      assert log + [] == log && was + Logged(whole) == before + (Logged(Fed(chunks)) + Logged(whole));
      chunks := chunks + [chunk];
    }

    method Flush()
      requires Valid()
      modifies this
      ensures log == before + Flushed(Fed(chunks)) && buf == "" && before == old(before) && chunks == old(chunks)
    {
      hide Logged, Rest, Fed, Strip, RStrip;
      if Strip(buf) != "" { log := log + [RStrip(buf)]; }
      buf := "";
    }
  }

  // ---- Cutting a stream into chunks ------------------------------------------------------------

  /** An escape begins at `i` of `a` and ends in `b`. */
  predicate StraddlesAt(a: string, b: string, i: nat) { i < |a| && EscapeLength((a + b)[i..]) > |a| - i }

  predicate Straddles(a: string, b: string) { exists i | 0 <= i < |a| :: StraddlesAt(a, b, i) }

  /** A cut between a carriage return and a line feed, with the escapes removed. */
  predicate PartsCrLf(x: string, y: string) { x != "" && x[|x| - 1] == '\r' && y != "" && y[0] == '\n' }

  /** The cut between `a` and `b` is neither inside an escape nor between CR and LF. */
  predicate GoodCut(a: string, b: string) { !Straddles(a, b) && !PartsCrLf(StripAnsi(a), StripAnsi(b)) }

  /** All cuts of the stream are good ones. */
  predicate GoodCuts(chunks: seq<string>) {
    |chunks| <= 1 || (GoodCut(chunks[0], Concat(chunks[1..])) && GoodCuts(chunks[1..]))
  }

  // Escapes.

  lemma {:induction false} ParametersConcat(a: string, b: string)
    ensures Parameters(a) < |a| ==> Parameters(a + b) == Parameters(a)
    ensures Parameters(a) == |a| ==> Parameters(a + b) == |a| + Parameters(b)
  {
    if a == "" {
      assert a + b == b;
    } else if Parameter(a[0]) {
      assert (a + b)[1..] == a[1..] + b;
      ParametersConcat(a[1..], b);
    }
  }

  /** An escape is found in the first piece, or reaches into the second, or is none. */
  lemma EscapeConcat(a: string, b: string)
    requires a != ""
    ensures EscapeLength(a + b) <= |a| ==> EscapeLength(a) == EscapeLength(a + b)
    ensures EscapeLength(a + b) > |a| ==> EscapeLength(a) == 0
  {
    if |a| >= 2 && a[0] == ESC && a[1] == '[' {
      assert (a + b)[2..] == a[2..] + b;
      ParametersConcat(a[2..], b);
    }
  }

  /** After its first character, an escape has no ESC in it. */
  lemma EscapeInside(s: string, k: nat)
    requires 0 < k < EscapeLength(s)
    ensures s[k] != ESC && s[0] == ESC
  {
    if 2 <= k < |s| - 1 && k < 2 + Parameters(s[2..]) { assert Parameter(s[2..][k - 2]); }
  }

  /** Text without ESC in front is kept. */
  lemma {:induction false} StripPlain(a: string, b: string)
    requires ESC !in a
    ensures StripAnsi(a + b) == a + StripAnsi(b)
  {
    if a == "" {
      assert a + b == b;
    } else {
      assert (a + b)[1..] == a[1..] + b && a[0] in a;
      StripPlain(a[1..], b);
    }
  }

  lemma NoStraddle(a: string, b: string, k: nat)
    requires !Straddles(a, b) && k <= |a|
    ensures !Straddles(a[k..], b)
  {
    hide EscapeLength;
    forall i | 0 <= i < |a[k..]| ensures !StraddlesAt(a[k..], b, i) {
      assert (a + b)[k + i..] == (a[k..] + b)[i..];
      assert !StraddlesAt(a, b, k + i);
    }
  }

  /** Removing escapes goes piece by piece when none straddles the cut. */
  lemma {:induction false} StripConcat(a: string, b: string)
    requires !Straddles(a, b)
    ensures StripAnsi(a + b) == StripAnsi(a) + StripAnsi(b)
    decreases |a|
  {
    hide EscapeLength, Straddles;
    if a == "" {
      assert a + b == b;
    } else {
      var n := EscapeLength(a + b);
      EscapeConcat(a, b);
      NotAtStart(a, b);
      assert (a + b)[1..] == a[1..] + b;
      if n > 0 {
        assert (a + b)[n..] == a[n..] + b;
        NoStraddle(a, b, n);
        StripConcat(a[n..], b);
      } else {
        NoStraddle(a, b, 1);
        StripConcat(a[1..], b);
      }
    }
  }

  lemma NotAtStart(a: string, b: string)
    requires a != "" && !Straddles(a, b)
    ensures EscapeLength(a + b) <= |a|
  {
    hide EscapeLength;
    assert !StraddlesAt(a, b, 0);
    assert (a + b)[0..] == a + b;
  }

  lemma StraddlesLater(a: string, b: string, k: nat)
    requires Straddles(a, b) && EscapeLength(a + b) <= |a|
    requires k == (if EscapeLength(a + b) > 0 then EscapeLength(a + b) else 1) && k <= |a|
    ensures Straddles(a[k..], b)
  {
    hide EscapeLength;
    var i :| 0 <= i < |a| && StraddlesAt(a, b, i);
    assert (a + b)[0..] == a + b;
    if 0 < i < k {
      EscapeInside(a + b, i);
      EscapeStarts((a + b)[i..]);
    }
    assert (a[k..] + b)[i - k..] == (a + b)[i..];
    assert StraddlesAt(a[k..], b, i - k);
  }

  lemma EscapeStarts(s: string)
    ensures EscapeLength(s) > 0 ==> s[0] == ESC
  {}

  /** Cutting an escape adds an ESC to what is left. */
  lemma {:induction false} StripCut(a: string, b: string)
    requires Straddles(a, b)
    ensures Count(StripAnsi(a), ESC) + Count(StripAnsi(b), ESC) > Count(StripAnsi(a + b), ESC)
    decreases |a|
  {
    hide EscapeLength, Straddles, Count;
    StraddlesSome(a, b);
    var n := EscapeLength(a + b);
    EscapeConcat(a, b);
    if n > |a| {
      CutEscape(a, b);
    } else {
      var k := if n > 0 then n else 1;
      StraddlesLater(a, b, k);
      assert (a + b)[k..] == a[k..] + b;
      StripCut(a[k..], b);
      if n == 0 {
        CountConcat([a[0]], StripAnsi(a[1..]), ESC);
        CountConcat([a[0]], StripAnsi((a + b)[1..]), ESC);
      }
    }
  }

  lemma StraddlesSome(a: string, b: string)
    requires Straddles(a, b)
    ensures a != ""
  {}

  lemma CutEscape(a: string, b: string)
    requires a != "" && EscapeLength(a + b) > |a|
    ensures Count(StripAnsi(a), ESC) + Count(StripAnsi(b), ESC) > Count(StripAnsi(a + b), ESC)
  {
    hide EscapeLength, Count;
    var s := a + b;
    var n := EscapeLength(s);
    EscapeConcat(a, b);
    EscapeStarts(s);
    var m := n - |a|;
    forall k | 0 <= k < m ensures b[k] != ESC { EscapeInside(s, |a| + k); }
    assert b == b[..m] + b[m..] && s[n..] == b[m..];
    StripPlain(b[..m], b[m..]);
    CountConcat(b[..m], StripAnsi(b[m..]), ESC);
    assert StripAnsi(a) == [ESC] + StripAnsi(a[1..]);
    CountConcat([ESC], StripAnsi(a[1..]), ESC);
    OneEsc();
  }

  lemma OneEsc()
    ensures Count([ESC], ESC) == 1
  {
    assert [ESC][1..] == "";
  }

  // Line ends.

  function Norm(s: string): string { Cr(CrLf(s)) }

  lemma {:induction false} CrConcat(a: string, b: string)
    ensures Cr(a + b) == Cr(a) + Cr(b)
  {
    if a == "" {
      assert a + b == b;
    } else {
      assert (a + b)[1..] == a[1..] + b;
      CrConcat(a[1..], b);
    }
  }

  lemma CrLfHead(c: char, t: string)
    requires !(c == '\r' && t != "" && t[0] == '\n')
    ensures CrLf([c] + t) == [c] + CrLf(t)
  {
    assert ([c] + t)[1..] == t;
  }

  lemma CrLfPair(t: string)
    ensures CrLf("\r\n" + t) == "\n" + CrLf(t)
  {
    assert ("\r\n" + t)[2..] == t;
  }

  lemma {:induction false} CrLfConcat(x: string, y: string)
    requires !PartsCrLf(x, y)
    ensures CrLf(x + y) == CrLf(x) + CrLf(y)
    decreases |x|
  {
    hide CrLf;
    if x == "" {
      assert x + y == y;
      CrLfNothing();
    } else if |x| > 1 && x[0] == '\r' && x[1] == '\n' {
      var t := x[2..];
      assert x == "\r\n" + t && x + y == "\r\n" + (t + y);
      CrLfPair(t);
      CrLfPair(t + y);
      CrLfConcat(t, y);
    } else {
      var t := x[1..];
      assert x == [x[0]] + t && x + y == [x[0]] + (t + y);
      CrLfHead(x[0], t);
      CrLfHead(x[0], t + y);
      CrLfConcat(t, y);
    }
  }

  lemma CrLfNothing()
    ensures CrLf("") == ""
  {}

  lemma {:induction false} CrLfCut(x: string, y: string)
    requires PartsCrLf(x, y)
    ensures CrLf(x) != "" && FinalChar(CrLf(x)) == '\r' && CrLf(y) != "" && CrLf(y)[0] == '\n'
    ensures CrLf(x + y) == CrLf(x)[..|CrLf(x)| - 1] + CrLf(y)
    decreases |x|
  {
    hide CrLf;
    var z := y[1..];
    assert y == "\n" + z;
    CrLfHead('\n', z);
    if |x| == 1 {
      assert x == ['\r'] + "" && x + y == "\r\n" + z;
      CrLfHead('\r', "");
      CrLfNothing();
      CrLfPair(z);
    } else if x[0] == '\r' && x[1] == '\n' {
      var t := x[2..];
      assert x == "\r\n" + t && x + y == "\r\n" + (t + y);
      CrLfPair(t);
      CrLfPair(t + y);
      CrLfCut(t, y);
    } else {
      var t := x[1..];
      assert x == [x[0]] + t && x + y == [x[0]] + (t + y);
      CrLfHead(x[0], t);
      CrLfHead(x[0], t + y);
      CrLfCut(t, y);
    }
  }

  function FinalChar(s: string): char
    requires s != ""
  {
    s[|s| - 1]
  }

  lemma NormConcat(x: string, y: string)
    requires !PartsCrLf(x, y)
    ensures Norm(x + y) == Norm(x) + Norm(y)
  {
    CrLfConcat(x, y);
    CrConcat(CrLf(x), CrLf(y));
  }

  /** Cutting a CR LF makes two line breaks of it. */
  lemma NormCut(x: string, y: string)
    requires PartsCrLf(x, y)
    ensures '\n' in Norm(y) && Count(Norm(x), '\n') + Count(Norm(y), '\n') == Count(Norm(x + y), '\n') + 1
    ensures exists a :: Norm(x + y) == a + Norm(y)
  {
    CrLfCut(x, y);
    var u, v := CrLf(x), CrLf(y);
    var a := u[..|u| - 1];
    assert u == a + "\r";
    CrConcat(a, "\r");
    CrConcat(a, v);
    assert Cr("\r") == "\n" by { assert "\r"[1..] == ""; }
    assert Cr(v)[0] == '\n';
    CountConcat(Cr(a), "\n", '\n');
    CountConcat(Cr(a), Cr(v), '\n');
    assert Count("\n", '\n') == 1 by { assert "\n"[1..] == ""; }
    assert Norm(x + y) == Cr(a) + Norm(y);
  }

  lemma NormEsc(s: string)
    ensures Count(Norm(s), ESC) == Count(s, ESC)
  {
    CrLfEsc(s);
    CrEsc(CrLf(s));
  }

  lemma {:induction false} CrLfEsc(s: string)
    ensures Count(CrLf(s), ESC) == Count(s, ESC)
    decreases |s|
  {
    if s != "" {
      if |s| > 1 && s[0] == '\r' && s[1] == '\n' {
        CrLfEsc(s[2..]);
        assert s[1..][1..] == s[2..];
      } else {
        CrLfEsc(s[1..]);
      }
    }
  }

  lemma {:induction false} CrEsc(s: string)
    ensures Count(Cr(s), ESC) == Count(s, ESC)
  {
    if s != "" { CrEsc(s[1..]); }
  }

  // What a log tells about the text.

  function Escapes(ls: seq<string>): nat { if ls == [] then 0 else Count(ls[0], ESC) + Escapes(ls[1..]) }

  lemma {:induction false} EscapesConcat(a: seq<string>, b: seq<string>)
    ensures Escapes(a + b) == Escapes(a) + Escapes(b)
  {
    if a == [] {
      assert a + b == b;
    } else {
      assert (a + b)[1..] == a[1..] + b;
      EscapesConcat(a[1..], b);
    }
  }

  lemma {:induction false} LinesEscapes(t: string)
    ensures Escapes(Lines(t)) == Count(t, ESC) && |Lines(t)| == Count(t, '\n') + 1
  {
    if t != "" {
      LinesEscapes(t[1..]);
      var ls, rest := Lines(t), Lines(t[1..]);
      if t[0] == '\n' {
        assert ls[1..] == rest;
      } else {
        assert ls[1..] == rest[1..] && ls[0][1..] == rest[0];
      }
    }
  }

  lemma {:induction false} RStripEscapes(s: string)
    ensures Count(RStrip(s), ESC) == Count(s, ESC)
  {
    hide Count;
    if s != "" && IsSpace(s[|s| - 1]) {
      var init, c := s[..|s| - 1], s[|s| - 1];
      RStripEscapes(init);
      assert s == init + [c];
      CountConcat(init, [c], ESC);
      NoEsc(c);
    }
  }

  lemma NoEsc(c: char)
    requires IsSpace(c)
    ensures Count([c], ESC) == 0
  {
    assert [c][1..] == "";
  }

  lemma {:induction false} LStripEscapes(s: string)
    ensures Count(LStrip(s), ESC) == Count(s, ESC)
  {
    if s != "" && IsSpace(s[0]) { LStripEscapes(s[1..]); }
  }

  lemma StripEscapes(s: string)
    ensures Count(RStrip(s), ESC) == Count(s, ESC) && Count(LStrip(s), ESC) == Count(s, ESC)
  {
    RStripEscapes(s);
    LStripEscapes(s);
  }

  lemma {:induction false} TrimmedEscapes(ls: seq<string>)
    ensures Escapes(Trimmed(ls)) == Escapes(ls)
  {
    if ls != [] {
      assert Trimmed(ls)[1..] == Trimmed(ls[1..]);
      TrimmedEscapes(ls[1..]);
      StripEscapes(ls[0]);
    }
  }

  /** The ESC characters of a text can be counted in its log; so can, up to its last line, its breaks. */
  lemma LogTells(t: string)
    ensures Escapes(Flushed(t)) == Count(t, ESC)
    ensures |Flushed(t)| == Count(t, '\n') + if Strip(Rest(t)) != "" then 1 else 0
  {
    hide Lines, Count, Strip, RStrip, Escapes, Trimmed;
    var ls := Lines(t);
    LinesEscapes(t);
    TrimmedEscapes(Init(ls));
    assert ls == Init(ls) + [Last(ls)];
    EscapesConcat(Init(ls), [Last(ls)]);
    RestEscapes(Rest(t));
    if Strip(Rest(t)) != "" {
      EscapesConcat(Logged(t), [RStrip(Rest(t))]);
    } else {
      assert Logged(t) + [] == Logged(t);
    }
  }

  lemma EscapesOne(s: string)
    ensures Escapes([s]) == Count(s, ESC)
  {
    hide Count;
    assert [s][1..] == [];
  }

  lemma RestEscapes(s: string)
    ensures Escapes([RStrip(s)]) == Escapes([s]) == Count(s, ESC) && (Strip(s) == "" ==> Count(s, ESC) == 0)
  {
    hide Count, RStrip, LStrip, Escapes;
    StripEscapes(s);
    StripEscapes(LStrip(s));
    EscapesOne(s);
    EscapesOne(RStrip(s));
    NoneInNothing();
  }

  lemma NoneInNothing()
    ensures Count("", ESC) == 0 && Cleaned("") == ""
  {}

  lemma RestAfter(a: string, b: string)
    requires '\n' in b
    ensures Rest(a + b) == Rest(b)
  {
    hide Lines;
    LinesSplit(a, b);
    LinesEscapes(b);
    CountIn(b, '\n');
  }

  // The theorem.

  predicate NoStraddles(chunks: seq<string>) {
    |chunks| <= 1 || (!Straddles(chunks[0], Concat(chunks[1..])) && NoStraddles(chunks[1..]))
  }

  lemma {:induction false} GoodMeansWhole(chunks: seq<string>)
    ensures GoodCuts(chunks) ==> NoStraddles(chunks)
  {
    hide Straddles, PartsCrLf;
    if |chunks| > 1 { GoodMeansWhole(chunks[1..]); }
  }

  lemma ConcatOne(chunks: seq<string>)
    requires |chunks| == 1
    ensures Concat(chunks) == chunks[0] && Fed(chunks) == Cleaned(chunks[0])
  {}

  /** Cutting never loses an ESC, and leaves one more for a cut escape. */
  lemma {:induction false} EscapesGrow(chunks: seq<string>)
    ensures Count(Fed(chunks), ESC) >= Count(Cleaned(Concat(chunks)), ESC)
    ensures Count(Fed(chunks), ESC) == Count(Cleaned(Concat(chunks)), ESC) ==> NoStraddles(chunks)
  {
    hide Straddles, Count, StripAnsi, CrLf, Cr;
    if |chunks| == 1 {
      ConcatOne(chunks);
    } else if |chunks| > 1 {
      var c, rest := chunks[0], Concat(chunks[1..]);
      EscapesGrow(chunks[1..]);
      CountConcat(Cleaned(c), Fed(chunks[1..]), ESC);
      NormEsc(StripAnsi(c));
      NormEsc(StripAnsi(rest));
      NormEsc(StripAnsi(c + rest));
      if Straddles(c, rest) {
        StripCut(c, rest);
      } else {
        StripConcat(c, rest);
        CountConcat(StripAnsi(c), StripAnsi(rest), ESC);
      }
    } else {
      NoneInNothing();
    }
  }

  /** With no escape cut, the text is the same, or has more line breaks before the same last line. */
  lemma {:induction false} BreaksGrow(chunks: seq<string>)
    requires NoStraddles(chunks)
    ensures var f, w := Fed(chunks), Cleaned(Concat(chunks));
            if GoodCuts(chunks) then f == w
            else '\n' in f && '\n' in w && Rest(f) == Rest(w) && Count(f, '\n') > Count(w, '\n')
  {
    hide Straddles, Count, StripAnsi, CrLf, Cr, PartsCrLf, Rest;
    if |chunks| == 1 {
      ConcatOne(chunks);
    } else if |chunks| > 1 {
      var c, rest := chunks[0], Concat(chunks[1..]);
      BreaksGrow(chunks[1..]);
      StripConcat(c, rest);
      var x, y, f := StripAnsi(c), StripAnsi(rest), Fed(chunks[1..]);
      CountConcat(Norm(x), f, '\n');
      CountConcat(Norm(x), Norm(y), '\n');
      if PartsCrLf(x, y) {
        NormCut(x, y);
        var a :| Norm(x + y) == a + Norm(y);
        RestAfter(Norm(x), f);
        RestAfter(a, Norm(y));
      } else {
        NormConcat(x, y);
        if !GoodCuts(chunks[1..]) {
          RestAfter(Norm(x), f);
          RestAfter(Norm(x), Norm(y));
        }
      }
    } else {
      NoneInNothing();
    }
  }

  /** However a stream is cut into chunks, the log is that of the whole text exactly when no cut is
      inside an escape or between CR and LF. */
  lemma ChunkingIndependence(chunks: seq<string>)
    ensures Flushed(Fed(chunks)) == Flushed(Fed([Concat(chunks)])) <==> GoodCuts(chunks)
  {
    hide Count, Cleaned, Flushed, Rest, Fed, Concat, GoodCuts;
    var f, w := Fed(chunks), Cleaned(Concat(chunks));
    ConcatOne([Concat(chunks)]);
    GoodMeansWhole(chunks);
    EscapesGrow(chunks);
    LogTells(f);
    LogTells(w);
    if NoStraddles(chunks) { BreaksGrow(chunks); }
  }

  // ---- What the log says -----------------------------------------------------------------------

  /** A piece of terminal output: text, or an escape sequence that sets a colour or moves the cursor. */
  datatype Piece = Plain(text: string) | Sequence(parameters: string, letter: char)

  predicate Proper(p: Piece) {
    match p
    case Plain(text) => '\U{1B}' !in text && '\r' !in text && '\n' !in text
    case Sequence(parameters, letter) =>
      && (forall c | c in parameters :: '0' <= c <= '9' || c == ';')
      && ('A' <= letter <= 'Z' || 'a' <= letter <= 'z')
  }

  function Shown(p: Piece): string {
    match p
    case Plain(text) => text
    case Sequence(parameters, letter) => "\U{1B}[" + parameters + [letter]
  }

  function Output(ps: seq<Piece>): string { if ps == [] then "" else Shown(ps[0]) + Output(ps[1..]) }

  /** The text pieces alone. */
  function Texts(ps: seq<Piece>): string {
    if ps == [] then "" else (if ps[0].Plain? then ps[0].text else "") + Texts(ps[1..])
  }

  lemma SequenceChars(parameters: string, letter: char)
    ensures Proper(Sequence(parameters, letter)) <==> (forall c | c in parameters :: Parameter(c)) && Letter(letter)
    ensures Letter(letter) ==> !Parameter(letter)
  {}

  lemma {:induction false} ParametersAll(p: string, b: string)
    requires (forall c | c in p :: Parameter(c)) && b != "" && !Parameter(b[0])
    ensures Parameters(p + b) == |p|
  {
    if p == "" {
      assert p + b == b;
    } else {
      assert (p + b)[1..] == p[1..] + b && p[0] in p;
      ParametersAll(p[1..], b);
    }
  }

  /** An escape sequence is removed, whatever follows it. */
  lemma SequenceGoes(parameters: string, letter: char, b: string)
    requires Proper(Sequence(parameters, letter))
    ensures StripAnsi(Shown(Sequence(parameters, letter)) + b) == StripAnsi(b)
  {
    hide StripAnsi, Letter, Parameter, Proper;
    var s := Shown(Sequence(parameters, letter)) + b;
    SequenceChars(parameters, letter);
    ParametersAll(parameters, [letter] + b);
    assert s[2..] == parameters + ([letter] + b);
    var n := 3 + |parameters|;
    assert s[n - 1] == letter && s[n..] == b;
    assert EscapeLength(s) == n;
    StripEscape(s);
  }

  lemma StripEscape(s: string)
    requires EscapeLength(s) > 0
    ensures StripAnsi(s) == StripAnsi(s[EscapeLength(s)..])
  {}

  /** The text begins with an escape sequence. */
  ghost predicate Begins(s: string) {
    exists ps, l, rest :: Proper(Sequence(ps, l)) && s == Shown(Sequence(ps, l)) + rest
  }

  lemma EscapeBegins(s: string)
    requires EscapeLength(s) > 0
    ensures Begins(s)
  {
    hide Proper, Parameter, Letter;
    var n := EscapeLength(s);
    var ps, l, rest := s[2..n - 1], s[n - 1], s[n..];
    forall c | c in ps ensures Parameter(c) {
      var i :| 0 <= i < |ps| && ps[i] == c;
      assert s[2..][i] == c;
    }
    SequenceChars(ps, l);
    assert "\U{1B}["[0] == s[0] && "\U{1B}["[1] == s[1];
    assert Shown(Sequence(ps, l)) == s[..n];
    assert s == s[..n] + rest;
    assert Proper(Sequence(ps, l)) && s == Shown(Sequence(ps, l)) + rest;
  }

  /** An ESC stays if no such sequence begins with it. */
  lemma EscapeStays(b: string)
    requires !Begins("\U{1B}" + b)
    ensures StripAnsi("\U{1B}" + b) == "\U{1B}" + StripAnsi(b)
  {
    hide Begins, EscapeLength;
    var s := "\U{1B}" + b;
    assert s[1..] == b;
    if EscapeLength(s) > 0 { EscapeBegins(s); }
  }

  lemma StripPiece(p: Piece, b: string)
    requires Proper(p)
    ensures StripAnsi(Shown(p) + b) == (if p.Plain? then p.text else "") + StripAnsi(b)
  {
    hide StripAnsi;
    match p
    case Plain(text) => StripPlain(text, b);
    case Sequence(parameters, letter) => SequenceGoes(parameters, letter, b);
  }

  lemma {:induction false} StripOutput(ps: seq<Piece>, b: string)
    requires forall k | 0 <= k < |ps| :: Proper(ps[k])
    ensures StripAnsi(Output(ps) + b) == Texts(ps) + StripAnsi(b)
  {
    hide StripAnsi, Proper, Shown;
    if ps == [] {
      assert Output(ps) + b == b;
    } else {
      var rest := Output(ps[1..]) + b;
      assert Output(ps) + b == Shown(ps[0]) + rest;
      StripOutput(ps[1..], b);
      StripPiece(ps[0], rest);
    }
  }

  /** A line of output and how it ends. */
  datatype OutLine = OutLine(pieces: seq<Piece>, end: string)

  predicate ProperLine(l: OutLine) {
    (forall k | 0 <= k < |l.pieces| :: Proper(l.pieces[k])) && (l.end == "\n" || l.end == "\r\n" || l.end == "\r")
  }

  /** No CR at the end of one line runs into a bare LF of the next. */
  predicate ProperLines(ls: seq<OutLine>) {
    && (forall k | 0 <= k < |ls| :: ProperLine(ls[k]))
    && forall k | 0 < k < |ls| && ls[k].end == "\n" && Texts(ls[k].pieces) == "" :: ls[k - 1].end != "\r"
  }

  function AllOutput(ls: seq<OutLine>): string {
    if ls == [] then "" else Output(ls[0].pieces) + ls[0].end + AllOutput(ls[1..])
  }

  function AllTexts(ls: seq<OutLine>): string {
    if ls == [] then "" else Texts(ls[0].pieces) + ls[0].end + AllTexts(ls[1..])
  }

  lemma {:induction false} TextsPlain(ps: seq<Piece>)
    requires forall k | 0 <= k < |ps| :: Proper(ps[k])
    ensures ESC !in Texts(ps) && '\r' !in Texts(ps) && '\n' !in Texts(ps)
  {
    if ps != [] {
      assert Proper(ps[0]);
      TextsPlain(ps[1..]);
    }
  }

  lemma {:induction false} StripAll(ls: seq<OutLine>)
    requires forall k | 0 <= k < |ls| :: ProperLine(ls[k])
    ensures StripAnsi(AllOutput(ls)) == AllTexts(ls)
  {
    hide StripAnsi, Proper;
    if ls == [] {
      StripNothing();
    } else {
      assert ProperLine(ls[0]);
      var rest := AllOutput(ls[1..]);
      StripAll(ls[1..]);
      StripOutput(ls[0].pieces, ls[0].end + rest);
      StripPlain(ls[0].end, rest);
      assert AllOutput(ls) == Output(ls[0].pieces) + (ls[0].end + rest);
    }
  }

  lemma StripNothing()
    ensures StripAnsi("") == "" && Norm("") == ""
  {}

  lemma {:induction false} NormPlain(t: string)
    requires '\r' !in t
    ensures Norm(t) == t
  {
    if t != "" {
      assert t[0] in t;
      NormPlain(t[1..]);
    }
  }

  lemma NormEnd(t: string, end: string)
    requires '\r' !in t && (end == "\n" || end == "\r\n" || end == "\r")
    ensures Norm(t + end) == t + "\n"
  {
    hide CrLf, Cr;
    NormPlain(t);
    NormConcat(t, end) by { assert t != "" ==> t[|t| - 1] in t; }
    NormEnds();
  }

  lemma NormEnds()
    ensures Norm("\n") == "\n" && Norm("\r\n") == "\n" && Norm("\r") == "\n"
  {
    CrLfPair("");
    assert "\r\n" + "" == "\r\n" && "\n"[1..] == "" && "\r"[1..] == "";
    assert Cr("\n") == "\n" && Cr("\r") == "\n";
    CrLfHead('\n', "");
    CrLfHead('\r', "");
    assert ['\n'] + "" == "\n" && ['\r'] + "" == "\r";
  }

  /** What the log has to be: the texts of the lines, without blanks at their ends. */
  function Report(ls: seq<OutLine>): (r: seq<string>)
    ensures |r| == |ls| && forall k | 0 <= k < |ls| :: r[k] == RStrip(Texts(ls[k].pieces))
  {
    seq(|ls|, k requires 0 <= k < |ls| => RStrip(Texts(ls[k].pieces)))
  }

  lemma {:induction false} NormAll(ls: seq<OutLine>)
    requires ProperLines(ls)
    ensures Logged(Norm(AllTexts(ls))) == Report(ls) && Rest(Norm(AllTexts(ls))) == ""
  {
    hide Norm, Logged, Rest, Proper, RStrip, Texts;
    if ls == [] {
      StripNothing();
      NoLine("");
    } else {
      var t, end, rest := Texts(ls[0].pieces), ls[0].end, AllTexts(ls[1..]);
      assert ProperLine(ls[0]);
      TextsPlain(ls[0].pieces);
      NoMerge(ls);
      NormConcat(t + end, rest);
      NormEnd(t, end);
      var n := Norm(rest);
      assert Norm(AllTexts(ls)) == t + "\n" + n;
      assert (t + "\n" + n)[..|t|] == t && (t + "\n" + n)[|t| + 1..] == n;
      FirstLine(t + "\n" + n, |t|);
      assert ProperLines(ls[1..]) by { ProperTail(ls); }
      NormAll(ls[1..]);
      assert Report(ls) == [RStrip(t)] + Report(ls[1..]);
    }
  }

  lemma ProperTail(ls: seq<OutLine>)
    requires ls != [] && ProperLines(ls)
    ensures ProperLines(ls[1..])
  {
    hide ProperLine, Texts;
    forall k | 0 < k < |ls[1..]| && ls[1..][k].end == "\n" && Texts(ls[1..][k].pieces) == "" ensures ls[1..][k - 1].end != "\r" {
      assert ls[k + 1] == ls[1..][k];
    }
  }

  lemma NoMerge(ls: seq<OutLine>)
    requires ls != [] && ProperLines(ls)
    ensures !PartsCrLf(Texts(ls[0].pieces) + ls[0].end, AllTexts(ls[1..]))
  {
    hide Texts, Proper;
    if |ls| > 1 {
      assert ProperLine(ls[1]);
      TextsPlain(ls[1].pieces);
      var t := Texts(ls[1].pieces);
      if t != "" { assert t[0] in t; }
    }
  }

  /** Whatever colours a tool prints, however it ends its lines, and wherever its output is cut, as long as
      that is not inside an escape or between CR and LF, the log has the text of each line. */
  lemma OutputLogged(ls: seq<OutLine>, chunks: seq<string>)
    requires ProperLines(ls) && Concat(chunks) == AllOutput(ls) && GoodCuts(chunks)
    ensures Flushed(Fed(chunks)) == Report(ls)
  {
    hide Norm, Logged, Rest, ProperLine, RStrip, StripAnsi, Strip, GoodCuts;
    ChunkingIndependence(chunks);
    StripAll(ls);
    NormAll(ls);
    ConcatOne([AllOutput(ls)]);
    CleanedIsNorm(AllOutput(ls));
    StripBlank();
  }

  lemma CleanedIsNorm(t: string)
    ensures Cleaned(t) == Norm(StripAnsi(t))
  {}

  lemma StripBlank()
    ensures Strip("") == ""
  {}
}
