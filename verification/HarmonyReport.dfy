/** What a doctor output says, as its tool writes it, and when `evaluate_doctor_output` calls it healthy. */
module HarmonyReport {
  import opened Text
  import opened HarmonyDoctor

  /** A line of the output: the title of a section, a finding, or anything else. `left` and `right` are the
      blanks around the word in brackets, `gap` those after it, `detail` what follows the name. */
  datatype Line =
    | Title(text: string)
    | Finding(left: string, word: string, right: string, gap: string, name: string, detail: string)
    | Other(text: string)

  predicate Blank(s: string) { forall c | c in s :: IsSpace(c) }

  predicate NoBlank(s: string) { s != "" && forall c | c in s :: !IsSpace(c) }

  /** Neither end of the text is blank. */
  predicate Solid(s: string) { s != "" && !IsSpace(s[0]) && !IsSpace(s[|s| - 1]) }

  predicate Proper(l: Line) {
    match l
    case Title(text) => Solid(text) && text[0] != '[' && !("Harmony doctor" <= text)
    case Finding(left, word, right, gap, name, detail) =>
      && Blank(left) && Blank(right) && Blank(gap) && gap != "" && NoBlank(name)
      && (word == "OK" || word == "WARN" || word == "FAIL")
      && (detail == "" || (IsSpace(detail[0]) && !IsSpace(detail[|detail| - 1])))
    case Other(text) => Blank(text) || " " <= text || "\t" <= text || "Harmony doctor" <= text
  }

  function Shown(l: Line): string {
    match l
    case Title(text) => text
    case Finding(left, word, right, gap, name, detail) => "[" + left + word + right + "]" + gap + name + detail
    case Other(text) => text
  }

  function Output(ls: seq<Line>): (r: seq<string>)
    ensures |r| == |ls| && forall i | 0 <= i < |ls| :: r[i] == Shown(ls[i])
  {
    seq(|ls|, i requires 0 <= i < |ls| => Shown(ls[i]))
  }

  /** The title above line `i`. */
  function Under(ls: seq<Line>, i: nat): string
    requires i <= |ls|
  {
    if i == 0 then "" else if ls[i - 1].Title? then ls[i - 1].text else Under(ls, i - 1)
  }

  predicate InBox(ls: seq<Line>, i: nat)
    requires i < |ls|
  {
    ls[i].Finding? && Under(ls, i) == "Containers"
  }

  predicate FailedLine(l: Line) { l.Finding? && l.word == "FAIL" }

  predicate Decisive(name: string) { name == "database" || name == "migrations" || name == "auth" || name == "livekit" }

  predicate Told(ls: seq<Line>, name: string) {
    exists i | 0 <= i < |ls| :: ls[i].Finding? && ls[i].name == name && !InBox(ls, i)
  }

  /** There is a finding on the containers and none of them failed, migrations and auth are reported, and
      none of the four decisive checks failed. */
  predicate AllWell(ls: seq<Line>) {
    && (exists i | 0 <= i < |ls| :: InBox(ls, i))
    && (forall i | 0 <= i < |ls| && FailedLine(ls[i]) :: !InBox(ls, i) && !Decisive(ls[i].name))
    && Told(ls, "migrations") && Told(ls, "auth")
  }

  // ---- Reading one line ------------------------------------------------------------------------

  lemma {:induction false} SkipBlanks(blank: string, s: string)
    requires Blank(blank) && s != "" && !IsSpace(s[0])
    ensures LStrip(blank + s) == s
  {
    LStripBlank(blank, s);
  }

  function LevelOf(word: string): Level { if word == "OK" then Good else if word == "WARN" then Warn else Fail }

  lemma ReadsLevel(word: string, rest: string)
    requires word == "OK" || word == "WARN" || word == "FAIL"
    ensures ReadLevel(word + rest) == Some((LevelOf(word), rest))
    ensures !IsSpace(word[0])
  {
    var s := word + rest;
    assert s[..|word|] == word && s[|word|..] == rest && s[0] == word[0];
    assert "OK"[0] == 'O' && "WARN"[0] == 'W' && "FAIL"[0] == 'F';
  }

  lemma ParseSteps(line: string, body: string, level: Level, tail: string, right: string, rest: string)
    requires line == "[" + body && ReadLevel(LStrip(body)) == Some((level, right))
    requires LStrip(right) == "]" + tail && tail != "" && IsSpace(tail[0]) && LStrip(tail) == rest
    ensures ParseLine(line) == Some((level, rest))
  {
    hide IsSpace, ReadLevel, LStrip;
    assert line[1..] == body;
    assert ("]" + tail)[1..] == tail;
  }

  /** A finding is read back: its level by its word, and its text after the blanks. */
  lemma FindingReads(l: Line)
    requires l.Finding? && Proper(l)
    ensures Check(Shown(l)) == Some((LevelOf(l.word), l.name + l.detail))
  {
    hide IsSpace, ReadLevel, LStrip, RStrip, ParseLine, Strip;
    var text := l.name + l.detail;
    var tail := l.gap + text;
    var right := l.right + ("]" + tail);
    var body := l.left + (l.word + right);
    var line := "[" + body;
    assert Shown(l) == line;
    TextSolid(l);
    ReadsLevel(l.word, right);
    SkipBlanks(l.left, l.word + right);
    BracketSolid();
    SkipBlanks(l.right, "]" + tail);
    assert tail[0] == l.gap[0] && l.gap[0] in l.gap;
    SkipBlanks(l.gap, text);
    ParseSteps(line, body, LevelOf(l.word), tail, right, text);
    assert line[|line| - 1] == text[|text| - 1];
    RStripSolid(line);
    StripSolid(line);
  }

  lemma BracketSolid()
    ensures !IsSpace('[') && !IsSpace(']')
  {}

  lemma TextSolid(l: Line)
    requires l.Finding? && Proper(l)
    ensures Solid(l.name + l.detail)
  {
    hide IsSpace;
    assert l.name[0] in l.name && l.name[|l.name| - 1] in l.name;
  }

  lemma {:induction false} WordEnds(name: string, detail: string)
    requires (forall c | c in name :: !IsSpace(c)) && (detail == "" || IsSpace(detail[0]))
    ensures UpToSpace(name + detail) == name
  {
    hide IsSpace;
    if name == "" {
      assert name + detail == detail;
    } else {
      assert (name + detail)[1..] == name[1..] + detail && name[0] in name;
      WordEnds(name[1..], detail);
    }
  }

  /** The check on a finding is its name. */
  lemma NameReads(l: Line)
    requires l.Finding? && Proper(l)
    ensures FirstWord(l.name + l.detail) == l.name
  {
    hide IsSpace;
    TextSolid(l);
    var text := l.name + l.detail;
    assert LStrip(text) == text;
    WordEnds(l.name, l.detail);
  }

  lemma TitleReads(l: Line)
    requires l.Title? && Proper(l)
    ensures Check(Shown(l)).None? && Heading(Shown(l)) && Strip(RStrip(Shown(l))) == l.text
  {
    hide IsSpace;
    RStripSolid(l.text);
    StripSolid(l.text);
    Indents();
  }

  lemma Indents()
    ensures IsSpace(' ') && IsSpace('\t')
  {}

  lemma {:induction false} BlankStrips(s: string)
    requires Blank(s)
    ensures RStrip(s) == "" && Strip(s) == ""
  {
    if s != "" {
      assert s[|s| - 1] in s;
      BlankStrips(s[..|s| - 1]);
      LStripBlank(s, "");
      assert s + "" == s;
    }
  }

  lemma {:induction false} RStripKeeps(s: string, w: string)
    requires w <= s && w != "" && !IsSpace(w[|w| - 1])
    ensures w <= RStrip(s)
  {
    hide IsSpace;
    if IsSpace(s[|s| - 1]) { RStripKeeps(s[..|s| - 1], w); }
  }

  lemma {:induction false} RStripStart(s: string, c: char)
    requires s != "" && s[0] == c && RStrip(s) != ""
    ensures RStrip(s)[0] == c
  {}

  lemma OtherReads(l: Line)
    requires l.Other? && Proper(l)
    ensures Check(Shown(l)).None? && !Heading(Shown(l))
  {
    hide IsSpace, Strip, RStrip;
    if Blank(l.text) {
      BlankStrips(l.text);
      BlankStrips("");
    } else if "Harmony doctor" <= l.text {
      Banner();
      RStripKeeps(l.text, "Harmony doctor");
    } else if RStrip(l.text) != "" {
      RStripStart(l.text, l.text[0]);
      var line := RStrip(l.text);
      assert line[..1] == l.text[..1];
    } else {
      BlankStrips("");
    }
  }

  lemma Banner()
    ensures "Harmony doctor" != "" && !IsSpace("Harmony doctor"[|"Harmony doctor"| - 1]) && "Harmony doctor"[0] == 'H'
  {}

  // ---- Reading the output ----------------------------------------------------------------------

  lemma {:induction false} SectionIs(ls: seq<Line>, i: nat)
    requires i <= |ls| && forall k | 0 <= k < |ls| :: Proper(ls[k])
    ensures Section(Output(ls), i) == Under(ls, i)
  {
    hide Proper, Check, Heading, Shown, Strip, RStrip, ParseLine;
    if i > 0 {
      SectionIs(ls, i - 1);
      var l := ls[i - 1];
      match l
      case Title(_) => TitleReads(l);
      case Finding(_, _, _, _, _, _) =>
        FindingReads(l);
        NextSection(Output(ls), i - 1);
      case Other(_) => OtherReads(l);
    }
  }

  lemma LineIs(ls: seq<Line>, i: nat, name: string)
    requires i < |ls| && forall k | 0 <= k < |ls| :: Proper(ls[k])
    ensures InContainers(Output(ls), i) <==> InBox(ls, i)
    ensures Reports(Output(ls), i, name) <==> ls[i].Finding? && ls[i].name == name && !InBox(ls, i)
    ensures Fails(Output(ls), i) <==> FailedLine(ls[i])
  {
    hide Proper, Check, Heading, Shown, FirstWord;
    SectionIs(ls, i);
    var l := ls[i];
    match l
    case Title(_) => TitleReads(l);
    case Finding(_, _, _, _, _, _) =>
      FindingReads(l);
      NameReads(l);
      WordsOnly(l);
    case Other(_) => OtherReads(l);
  }

  lemma WordsOnly(l: Line)
    requires l.Finding? && Proper(l)
    ensures LevelOf(l.word) == Fail <==> l.word == "FAIL"
  {}

  lemma ToldIs(ls: seq<Line>, name: string)
    requires forall k | 0 <= k < |ls| :: Proper(ls[k])
    ensures Reported(Output(ls), |ls|, name) <==> Told(ls, name)
    ensures ReportedFailed(Output(ls), |ls|, name) <==>
              exists i | 0 <= i < |ls| :: FailedLine(ls[i]) && ls[i].Finding? && ls[i].name == name && !InBox(ls, i)
  {
    hide Proper, Reports, Fails, InBox, FailedLine;
    forall i | 0 <= i < |ls|
      ensures Reports(Output(ls), i, name) <==> ls[i].Finding? && ls[i].name == name && !InBox(ls, i)
      ensures Fails(Output(ls), i) <==> FailedLine(ls[i])
    {
      LineIs(ls, i, name);
      OnlyFindings(ls[i]);
    }
    if ReportedFailed(Output(ls), |ls|, name) {
      var i :| 0 <= i < |ls| && Reports(Output(ls), i, name) && Fails(Output(ls), i);
      assert FailedLine(ls[i]) && ls[i].name == name && !InBox(ls, i);
    }
    if i :| 0 <= i < |ls| && FailedLine(ls[i]) && ls[i].Finding? && ls[i].name == name && !InBox(ls, i) {
      assert Reports(Output(ls), i, name) && Fails(Output(ls), i);
    }
  }

  lemma OnlyFindings(l: Line)
    ensures FailedLine(l) ==> l.Finding?
  {}

  lemma BoxIs(ls: seq<Line>)
    requires forall k | 0 <= k < |ls| :: Proper(ls[k])
    ensures ContainersPass(Output(ls)) <==>
              && (exists i | 0 <= i < |ls| :: InBox(ls, i))
              && forall i | 0 <= i < |ls| && FailedLine(ls[i]) :: !InBox(ls, i)
  {
    hide Proper, InContainers, Fails, InBox, FailedLine;
    forall i | 0 <= i < |ls|
      ensures InContainers(Output(ls), i) <==> InBox(ls, i)
      ensures Fails(Output(ls), i) <==> FailedLine(ls[i])
    {
      LineIs(ls, i, "");
    }
  }

  lemma FourGates(lines: seq<string>)
    ensures Healthy(lines) <==>
              && ContainersPass(lines)
              && !ReportedFailed(lines, |lines|, "database") && !ReportedFailed(lines, |lines|, "livekit")
              && Reported(lines, |lines|, "migrations") && !ReportedFailed(lines, |lines|, "migrations")
              && Reported(lines, |lines|, "auth") && !ReportedFailed(lines, |lines|, "auth")
  {
    hide ContainersPass, Reported, ReportedFailed;
    assert |Gated()| == 4;
    assert Passes(lines, Gated()[0]) && Passes(lines, Gated()[1]) && Passes(lines, Gated()[2]) && Passes(lines, Gated()[3]) <==>
           forall k | 0 <= k < |Gated()| :: Passes(lines, Gated()[k]);
  }

  /** The verdict on any output that the tool writes like this. */
  lemma OutputMeans(ls: seq<Line>)
    requires forall k | 0 <= k < |ls| :: Proper(ls[k])
    ensures Healthy(Output(ls)) <==> AllWell(ls)
  {
    hide Proper, ContainersPass, Reported, ReportedFailed, InBox, FailedLine, Healthy, Told;
    FourGates(Output(ls));
    BoxIs(ls);
    ToldIs(ls, "database");
    ToldIs(ls, "livekit");
    ToldIs(ls, "migrations");
    ToldIs(ls, "auth");
    forall i | 0 <= i < |ls| && FailedLine(ls[i]) ensures ls[i].Finding? { OnlyFindings(ls[i]); }
  }
}
