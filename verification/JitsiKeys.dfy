/** Key/value config files of a Jitsi host: `_configure_coturn_tls` and `_cf_patch_nat_harvester`. */
module JitsiKeys {
  import opened Text
  import opened JitsiPatch

  /** The position of the first `=`, or the length of the text. */
  function Cut(s: string): (i: nat)
    ensures i <= |s| && '=' !in s[..i] && (i < |s| ==> s[i] == '=')
  {
    if s == "" || s[0] == '=' then 0 else
      var i := 1 + Cut(s[1..]);
      assert s[..i] == [s[0]] + s[1..][..i - 1];
      i
  }

  /** The key a line is counted under: none for blank lines and comments. */
  function KeyOf(l: string): Option<string> {
    var s := Strip(l);
    if s == "" || s[0] == '#' then None else Some(Strip(s[..Cut(s)]))
  }

  /** `line.strip().startswith(key + "=")`. */
  predicate Sets(l: string, key: string) { key + "=" <= Strip(l) }

  /** `stripped.split("=", 1)[1].strip()`. */
  function ValueOf(l: string): string {
    var s := Strip(l);
    if Cut(s) < |s| then Strip(s[Cut(s) + 1..]) else ""
  }

  function Keys(ls: seq<string>): set<string> { set l | l in ls && KeyOf(l).Some? :: KeyOf(l).value }

  datatype Directive = Directive(key: string, value: Option<string>) {
    function Line(): string { if value.Some? then key + "=" + value.value else key }
    predicate Fine() { Simple(key) && (value.Some? ==> Solid(value.value) && '\n' !in value.value) }
  }

  predicate Solid(s: string) { s != "" && !IsSpace(s[0]) && !IsSpace(s[|s| - 1]) }

  /** A key that reads back as itself. */
  predicate Simple(key: string) { key != "" && key[0] != '#' && forall c | c in key :: c != '=' && !IsSpace(c) }

  /** The end of the text is a line break. */
  function Ended(t: string): string { if t != "" && t[|t| - 1] == '\n' then t else t + "\n" }

  // ---- Reading a line back ---------------------------------------------------------------------

  lemma {:induction false} CutAt(s: string, key: string)
    requires '=' !in key && key + "=" <= s
    ensures Cut(s) == |key| && s[..Cut(s)] == key && Cut(s) < |s|
  {
    assert s[..|key| + 1] == key + "=";
    if key == "" {
      assert s[0] == '=';
    } else {
      assert s[0] == key[0] && key[0] in key;
      assert s[1..][..|key|] == s[..|key| + 1][1..] == key[1..] + "=";
      CutAt(s[1..], key[1..]);
      assert s[..|key|] == key;
    }
  }

  /** A line that sets a key is counted under it. */
  lemma SetsKey(l: string, key: string)
    requires Simple(key) && Sets(l, key)
    ensures KeyOf(l) == Some(key)
  {
    var s := Strip(l);
    CutAt(s, key);
    assert s[0] == (key + "=")[0] == key[0];
    SimpleSolid(key);
    StripSolid(key);
  }

  lemma SimpleSolid(key: string)
    requires Simple(key)
    ensures Solid(key) && '\n' !in key && '=' !in key
  {
    assert key[0] in key && key[|key| - 1] in key;
    assert IsSpace('\n');
  }

  lemma LineReads(d: Directive)
    requires d.Fine()
    ensures Strip(d.Line()) == d.Line() && KeyOf(d.Line()) == Some(d.key) && '\n' !in d.Line()
    ensures d.value.Some? ==> Sets(d.Line(), d.key) && ValueOf(d.Line()) == d.value.value
  {
    SimpleSolid(d.key);
    var l := d.Line();
    assert l[0] == d.key[0];
    StripSolid(l);
    StripSolid(d.key);
    if d.value.Some? {
      var v := d.value.value;
      assert l == (d.key + "=") + v && l[..|d.key| + 1] == d.key + "=";
      CutAt(l, d.key);
      assert l[|d.key| + 1..] == v;
      StripSolid(v);
    } else {
      NoCut(l);
      assert l[..|l|] == l;
    }
  }

  lemma {:induction false} NoCut(s: string)
    requires '=' !in s
    ensures Cut(s) == |s|
  {
    if s != "" {
      assert s[0] in s;
      NoCut(s[1..]);
    }
  }

  /** The lines of what is written: those of the result, and a blank one where the last was not. */
  lemma EndedLines(ls: seq<string>)
    requires ls != [] && forall k | 0 <= k < |ls| :: '\n' !in ls[k]
    ensures Lines(Ended(Join(ls))) == (if ls[|ls| - 1] == "" && |ls| > 1 then ls else ls + [""])
  {
    hide Lines, Join;
    var t := Join(ls);
    LinesJoin(ls);
    JoinEnd(ls);
    if !(ls[|ls| - 1] == "" && |ls| > 1) {
      LinesConcat(t, "");
      LinesOfLine("");
      assert t + "\n" + "" == t + "\n";
    }
  }

  lemma {:induction false} JoinEnd(ls: seq<string>)
    requires ls != [] && forall k | 0 <= k < |ls| :: '\n' !in ls[k]
    ensures (Join(ls) != "" && Join(ls)[|Join(ls)| - 1] == '\n') <==> (ls[|ls| - 1] == "" && |ls| > 1)
  {
    if |ls| > 1 {
      JoinEnd(ls[1..]);
      if |ls| > 2 { assert Join(ls[1..]) != "" by { assert Join(ls[1..]) == ls[1] + "\n" + Join(ls[2..]) by { assert ls[1..][1..] == ls[2..]; } } }
    } else if ls[0] != "" {
      assert ls[0][|ls[0]| - 1] in ls[0];
    }
  }

  // ---- coturn ----------------------------------------------------------------------------------

  /** Only these keys are updated in place. */
  predicate Updated(key: string) { key == "cert" || key == "pkey" }

  /** The line sets the directive's key to another value. */
  predicate Stale(l: string, d: Directive) {
    Updated(d.key) && d.value.Some? && Sets(l, d.key) && ValueOf(l) != d.value.value
  }

  /** What becomes of a line when the directives are gone through in order. */
  function Fixed(l: string, req: seq<Directive>): string {
    if req == [] then l
    else
      var m := Fixed(l, req[..|req| - 1]);
      if Stale(m, req[|req| - 1]) then req[|req| - 1].Line() else m
  }

  function FixedAll(ls: seq<string>, req: seq<Directive>): (r: seq<string>)
    ensures |r| == |ls| && forall k | 0 <= k < |ls| :: r[k] == Fixed(ls[k], req)
  {
    seq(|ls|, k requires 0 <= k < |ls| => Fixed(ls[k], req))
  }

  function Missing(req: seq<Directive>, keys: set<string>): seq<string> {
    if req == [] then []
    else
      var d := req[|req| - 1];
      Missing(req[..|req| - 1], keys) + if d.key in keys then [] else [d.Line()]
  }

  /** Every line put right where it stands, and the missing directives after them. */
  function Configured(ls: seq<string>, req: seq<Directive>): seq<string> {
    FixedAll(ls, req) + Missing(req, Keys(ls))
  }

  predicate Directives(req: seq<Directive>) {
    && (forall i | 0 <= i < |req| :: req[i].Fine())
    && (forall i, j | 0 <= i < j < |req| :: req[i].key != req[j].key)
  }

  function Coturn(content: string, req: seq<Directive>): Patch {
    if content == "" then Warned
    else
      var ls := Lines(content);
      var r := Configured(ls, req);
      if r == ls then Skipped else Written(Ended(Join(r)))
  }

  /** A line is put right at most once: it then carries the value, and no other key. */
  lemma {:induction false} FixedOnce(l: string, req: seq<Directive>)
    requires Directives(req)
    ensures Fixed(l, req) == l || exists i | 0 <= i < |req| :: Stale(l, req[i]) && Fixed(l, req) == req[i].Line()
    ensures forall i | 0 <= i < |req| :: !Stale(Fixed(l, req), req[i])
    ensures (exists i | 0 <= i < |req| :: Stale(l, req[i])) ==> Fixed(l, req) != l
    ensures KeyOf(Fixed(l, req)) == KeyOf(l)
  {
    hide KeyOf, Sets, ValueOf, Updated, Simple, Solid;
    if req != [] {
      var n := |req| - 1;
      var init, d := req[..n], req[n];
      assert Directives(init);
      FixedOnce(l, init);
      var m := Fixed(l, init);
      assert forall i | 0 <= i < n :: init[i] == req[i];
      if m != l {
        var i :| 0 <= i < n && Stale(l, init[i]) && m == init[i].Line();
        StaleOther(m, init[i], d);
        assert Stale(l, req[i]) && Fixed(l, req) == m == req[i].Line();
      } else if Stale(m, d) {
        assert Fixed(l, req) == d.Line() && Stale(l, req[n]);
        StaleFixed(l, d);
        forall i | 0 <= i < n ensures !Stale(d.Line(), req[i]) { StaleOther(d.Line(), d, req[i]); }
      }
    }
  }

  /** The line of one directive is not stale for another. */
  lemma StaleOther(l: string, d: Directive, e: Directive)
    requires d.Fine() && e.Fine() && d.key != e.key && l == d.Line()
    ensures !Stale(l, e)
  {
    LineReads(d);
    if Sets(l, e.key) { SetsKey(l, e.key); }
  }

  lemma StaleFixed(l: string, d: Directive)
    requires d.Fine() && Stale(l, d)
    ensures !Stale(d.Line(), d) && d.Line() != l && KeyOf(d.Line()) == KeyOf(l)
  {
    hide Sets, ValueOf, KeyOf, Directive.Line, Simple, Solid, Updated, Strip, LStrip, RStrip, IsSpace, Cut;
    LineReads(d);
    SetsKey(l, d.key);
  }

  /** A directive whose key no line has is stale nowhere. */
  lemma MissingNotStale(ls: seq<string>, l: string, d: Directive)
    requires d.Fine() && l in ls
    ensures Stale(l, d) ==> d.key in Keys(ls)
  {
    if Sets(l, d.key) {
      SetsKey(l, d.key);
      assert KeyOf(l).value in Keys(ls);
    }
  }

  function InPlace(ls: seq<string>, d: Directive): (r: seq<string>)
    ensures |r| == |ls| && forall k | 0 <= k < |ls| :: r[k] == if Stale(ls[k], d) then d.Line() else ls[k]
  {
    seq(|ls|, k requires 0 <= k < |ls| => if Stale(ls[k], d) then d.Line() else ls[k])
  }

  /** The inner loop. */
  method UpdateLines(lines: seq<string>, d: Directive) returns (newLines: seq<string>, changed: bool)
    requires Updated(d.key) && d.value.Some?
    ensures newLines == InPlace(lines, d)
    ensures changed <==> exists k | 0 <= k < |lines| :: Stale(lines[k], d)
  {
    hide Sets, ValueOf, Directive.Line;
    newLines, changed := [], false;
    for i := 0 to |lines|
      invariant |newLines| == i
      invariant forall k | 0 <= k < i :: newLines[k] == if Stale(lines[k], d) then d.Line() else lines[k]
      invariant changed <==> exists k | 0 <= k < i :: Stale(lines[k], d)
    {
      var line := lines[i];
      if Sets(line, d.key) {
        var old_ := ValueOf(line);
        if old_ != d.value.value {
          newLines := newLines + [d.Line()];
          changed := true;
          assert Stale(lines[i], d);
        } else {
          newLines := newLines + [line];
        }
      } else {
        newLines := newLines + [line];
      }
    }
    assert newLines == InPlace(lines, d);
  }

  /** Whether a line is stale for a directive does not depend on those gone through before. */
  lemma StaleLater(l: string, req: seq<Directive>, d: Directive)
    requires Directives(req + [d])
    ensures Stale(Fixed(l, req), d) <==> Stale(l, d)
  {
    hide KeyOf, Sets, ValueOf, Updated, Simple, Solid, Directive.Line;
    var all := req + [d];
    assert d == all[|req|] && forall i | 0 <= i < |req| :: req[i] == all[i];
    assert Directives(req);
    FixedOnce(l, req);
    if Fixed(l, req) != l {
      var i :| 0 <= i < |req| && Stale(l, req[i]) && Fixed(l, req) == req[i].Line();
      StaleOther(Fixed(l, req), req[i], d);
      StaleOne(l, req[i], d);
    }
  }

  lemma StaleOne(l: string, d: Directive, e: Directive)
    requires d.Fine() && e.Fine() && d.key != e.key && Stale(l, d)
    ensures !Stale(l, e)
  {
    SetsKey(l, d.key);
    if Sets(l, e.key) { SetsKey(l, e.key); }
  }

  predicate AnyStale(ls: seq<string>, d: Directive) { exists k | 0 <= k < |ls| :: Stale(ls[k], d) }

  lemma FixedStep(ls: seq<string>, req: seq<Directive>, d: Directive)
    requires Directives(req + [d])
    ensures FixedAll(ls, req + [d]) == InPlace(FixedAll(ls, req), d)
    ensures AnyStale(FixedAll(ls, req), d) <==> AnyStale(ls, d)
    ensures !AnyStale(ls, d) ==> FixedAll(ls, req + [d]) == FixedAll(ls, req)
  {
    hide Stale, Directives;
    assert (req + [d])[..|req|] == req;
    forall k | 0 <= k < |ls| ensures Stale(Fixed(ls[k], req), d) <==> Stale(ls[k], d) { StaleLater(ls[k], req, d); }
  }

  lemma MissingStep(req: seq<Directive>, d: Directive, keys: set<string>)
    ensures Missing(req + [d], keys) == Missing(req, keys) + if d.key in keys then [] else [d.Line()]
  {
    assert (req + [d])[..|req|] == req;
  }

  /** Appended directives are stale for no other. */
  lemma {:induction false} AppendedNotStale(req: seq<Directive>, d: Directive, keys: set<string>)
    requires Directives(req + [d])
    ensures !AnyStale(Missing(req, keys), d)
  {
    hide Stale, Directive.Fine, Directive.Line;
    if req != [] {
      var n := |req| - 1;
      var all := req + [d];
      var init := req[..n] + [d];
      assert all[n] == req[n] && all[|req|] == d;
      assert forall i | 0 <= i < n :: init[i] == all[i];
      assert init[n] == d;
      assert Directives(init);
      AppendedNotStale(req[..n], d, keys);
      StaleOther(req[n].Line(), req[n], d);
    }
  }

  lemma InPlaceConcat(a: seq<string>, b: seq<string>, d: Directive)
    requires !AnyStale(b, d)
    ensures InPlace(a + b, d) == InPlace(a, d) + b
    ensures AnyStale(a + b, d) <==> AnyStale(a, d)
  {
    hide Stale, Directive.Line;
    forall k | 0 <= k < |a + b| ensures Stale((a + b)[k], d) <==> k < |a| && Stale(a[k], d) {
      if k >= |a| { assert (a + b)[k] == b[k - |a|]; }
    }
    if k :| 0 <= k < |a| && Stale(a[k], d) { assert Stale((a + b)[k], d); }
  }

  /** One round of the outer loop, on the file as the rounds before left it. */
  lemma Round(ls: seq<string>, req: seq<Directive>, d: Directive)
    requires Directives(req + [d])
    ensures var was, now := Configured(ls, req), Configured(ls, req + [d]);
            && (AnyStale(was, d) <==> AnyStale(ls, d))
            && (if d.key !in Keys(ls) then now == was + [d.Line()]
                else if Updated(d.key) && d.value.Some? then now == InPlace(was, d)
                else now == was)
  {
    hide Directive.Line, Keys, KeyOf, Sets, ValueOf;
    var keys := Keys(ls);
    FixedStep(ls, req, d);
    MissingStep(req, d, keys);
    AppendedNotStale(req, d, keys);
    InPlaceConcat(FixedAll(ls, req), Missing(req, keys), d);
    assert (req + [d])[|req|] == d && d.Fine();
    if d.key !in keys {
      forall k | 0 <= k < |ls| ensures !Stale(ls[k], d) { MissingNotStale(ls, ls[k], d); }
    } else if !(Updated(d.key) && d.value.Some?) {
      assert !AnyStale(ls, d);
    }
  }

  predicate Wrong(ls: seq<string>, req: seq<Directive>) {
    exists i | 0 <= i < |req| :: req[i].key !in Keys(ls) || AnyStale(ls, req[i])
  }

  /** The file needs a change exactly when a directive is missing or a line is stale. */
  lemma ChangeNeeded(ls: seq<string>, req: seq<Directive>)
    requires Directives(req)
    ensures Configured(ls, req) != ls <==> Wrong(ls, req)
  {
    hide Stale, Directives, Directive.Line, Keys, KeyOf;
    NothingMissing(req, Keys(ls));
    if Wrong(ls, req) {
      var i :| 0 <= i < |req| && (req[i].key !in Keys(ls) || AnyStale(ls, req[i]));
      if AnyStale(ls, req[i]) {
        var k :| 0 <= k < |ls| && Stale(ls[k], req[i]);
        FixedOnce(ls[k], req);
        assert Configured(ls, req)[k] != ls[k];
      }
    } else {
      forall k | 0 <= k < |ls| ensures Fixed(ls[k], req) == ls[k] {
        FixedOnce(ls[k], req);
        forall i | 0 <= i < |req| ensures !Stale(ls[k], req[i]) { assert !AnyStale(ls, req[i]); }
      }
      assert FixedAll(ls, req) == ls;
    }
  }

  lemma {:induction false} NothingMissing(req: seq<Directive>, keys: set<string>)
    ensures Missing(req, keys) == [] <==> forall i | 0 <= i < |req| :: req[i].key in keys
  {
    hide Directive.Line;
    if req != [] { NothingMissing(req[..|req| - 1], keys); }
  }

  lemma WrongStep(ls: seq<string>, req: seq<Directive>, d: Directive)
    ensures Wrong(ls, req + [d]) <==> Wrong(ls, req) || d.key !in Keys(ls) || AnyStale(ls, d)
  {
    hide AnyStale, Keys;
    var all := req + [d];
    assert all[|req|] == d && forall i | 0 <= i < |req| :: all[i] == req[i];
    if Wrong(ls, req) {
      var i :| 0 <= i < |req| && (req[i].key !in Keys(ls) || AnyStale(ls, req[i]));
      assert all[i].key !in Keys(ls) || AnyStale(ls, all[i]);
    }
  }

  lemma OthersNotStale(ls: seq<string>, d: Directive)
    requires !(Updated(d.key) && d.value.Some?)
    ensures !AnyStale(ls, d)
  {}

  /** The first loop. */
  method ReadKeys(lines: seq<string>) returns (existing: set<string>)
    ensures existing == Keys(lines)
  {
    existing := {};
    for i := 0 to |lines|
      invariant existing == Keys(lines[..i])
    {
      var stripped := Strip(lines[i]);
      KeysStep(lines, i);
      if stripped == "" || stripped[0] == '#' { continue; }
      existing := existing + {Strip(stripped[..Cut(stripped)])};
    }
    assert lines[..|lines|] == lines;
  }

  lemma KeysStep(ls: seq<string>, i: nat)
    requires i < |ls|
    ensures Keys(ls[..i + 1]) == Keys(ls[..i]) + if KeyOf(ls[i]).Some? then {KeyOf(ls[i]).value} else {}
  {
    hide KeyOf;
    assert ls[..i + 1] == ls[..i] + [ls[i]];
  }

  /** `_configure_coturn_tls` from reading the file to writing it. */
  method PatchCoturn(content: string, req: seq<Directive>) returns (p: Patch)
    requires Directives(req)
    ensures p == Coturn(content, req)
  {
    hide Directives, Stale, KeyOf, Keys, Configured, Directive.Line, AnyStale, InPlace, Wrong, Lines, Join;
    if content == "" { return Warned; }
    var lines, modified := Lines(content), false;
    ghost var was := lines;
    var existing := ReadKeys(lines);
    AtFirst(was);
    for i := 0 to |req|
      invariant lines == Configured(was, req[..i])
      invariant modified <==> Wrong(was, req[..i])
    {
      var d := req[i];
      assert req[..i + 1] == req[..i] + [d];
      SomeDirectives(req, i + 1);
      Round(was, req[..i], d);
      WrongStep(was, req[..i], d);
      if d.key !in existing {
        lines := lines + [d.Line()];
        modified := true;
      } else if Updated(d.key) && d.value.Some? {
        var newLines, changed := UpdateLines(lines, d);
        AnyStaleMeans(lines, d);
        lines := newLines;
        modified := modified || changed;
      } else {
        OthersNotStale(was, d);
      }
    }
    assert req[..|req|] == req;
    ChangeNeeded(was, req);
    return if modified then Written(Ended(Join(lines))) else Skipped;
  }

  lemma AnyStaleMeans(ls: seq<string>, d: Directive)
    ensures AnyStale(ls, d) <==> exists k | 0 <= k < |ls| :: Stale(ls[k], d)
  {}

  lemma AtFirst(ls: seq<string>)
    ensures forall req: seq<Directive> | req == [] :: Configured(ls, req) == ls && !Wrong(ls, req)
  {
    forall req: seq<Directive> | req == [] ensures Configured(ls, req) == ls {
      assert FixedAll(ls, req) == ls;
    }
  }

  lemma SomeDirectives(req: seq<Directive>, n: nat)
    requires Directives(req) && n <= |req|
    ensures Directives(req[..n])
  {
    hide Directive.Fine;
  }

  // ---- What the coturn patch promises ----------------------------------------------------------

  /** Every line stays where it is, and stays as it is unless it carried another value for an updated
      key: it then is that key's directive. What is added comes after all of them. */
  lemma LinesStay(ls: seq<string>, req: seq<Directive>, k: nat)
    requires Directives(req) && k < |ls|
    ensures var r := Configured(ls, req);
            && |r| >= |ls|
            && (r[k] == ls[k] || exists d | d in req :: Stale(ls[k], d) && r[k] == d.Line())
            && forall d | d in req && Updated(d.key) && d.value.Some? && Sets(r[k], d.key) :: ValueOf(r[k]) == d.value.value
  {
    hide Sets, ValueOf, Directive.Line, Updated;
    FixedOnce(ls[k], req);
    assert Configured(ls, req)[k] == Fixed(ls[k], req);
  }

  lemma {:induction false} AddedLines(req: seq<Directive>, keys: set<string>)
    ensures forall l | l in Missing(req, keys) :: exists d | d in req :: d.key !in keys && l == d.Line()
    ensures forall d | d in req && d.key !in keys :: d.Line() in Missing(req, keys)
  {
    hide Directive.Line;
    if req != [] {
      AddedLines(req[..|req| - 1], keys);
      assert req == req[..|req| - 1] + [req[|req| - 1]];
    }
  }

  /** The keys afterwards are those before and the required ones. */
  lemma Complete(ls: seq<string>, req: seq<Directive>)
    requires Directives(req)
    ensures Keys(Configured(ls, req)) == Keys(ls) + set d | d in req :: d.key
  {
    hide KeyOf, Directive.Line, Stale, FixedAll;
    var r := Configured(ls, req);
    var keys := Keys(ls);
    AddedLines(req, keys);
    forall k | 0 <= k < |r| ensures k < |ls| || r[k] in Missing(req, keys) {
      if k >= |ls| { assert r[k] == Missing(req, keys)[k - |ls|]; }
    }
    forall d | d in req ensures KeyOf(d.Line()) == Some(d.key) { LineReads(d); }
    forall k | 0 <= k < |ls| ensures r[k] == Fixed(ls[k], req) && KeyOf(r[k]) == KeyOf(ls[k]) { FixedOnce(ls[k], req); }
    forall key | key in keys ensures key in Keys(r) {
      var l :| l in ls && KeyOf(l).Some? && KeyOf(l).value == key;
      var k :| 0 <= k < |ls| && ls[k] == l;
      assert r[k] in r;
    }
    forall d | d in req ensures d.key in Keys(r) {
      if d.key !in keys { assert d.Line() in r; }
    }
    forall key | key in Keys(r) ensures key in keys || exists d | d in req :: d.key == key {
      var l :| l in r && KeyOf(l).Some? && KeyOf(l).value == key;
      if l in Missing(req, keys) {
        var d :| d in req && d.key !in keys && l == d.Line();
        assert d.key == key;
      } else {
        var k :| 0 <= k < |r| && r[k] == l;
        assert KeyOf(ls[k]).value in keys;
      }
    }
  }

  predicate Spaced(ls: seq<string>, key: string) {
    exists k | 0 <= k < |ls| :: KeyOf(ls[k]) == Some(key) && !Sets(ls[k], key)
  }

  /** Every line counted under an updated key carries its value afterwards, exactly when the file has
      no line for it with something between the key and the `=`: that line counts, but is not updated. */
  lemma ValueTakes(ls: seq<string>, req: seq<Directive>, d: Directive)
    requires Directives(req) && d in req && Updated(d.key) && d.value.Some?
    ensures var r := Configured(ls, req);
            (forall k | 0 <= k < |r| && KeyOf(r[k]) == Some(d.key) :: Sets(r[k], d.key) && ValueOf(r[k]) == d.value.value)
            <==> !Spaced(ls, d.key)
  {
    hide KeyOf, Sets, ValueOf, Directive.Line, Updated, Directives, Configured, Keys;
    var r := Configured(ls, req);
    if Spaced(ls, d.key) {
      var k :| 0 <= k < |ls| && KeyOf(ls[k]) == Some(d.key) && !Sets(ls[k], d.key);
      SpacedStays(ls, req, d, k);
    } else {
      forall k | 0 <= k < |r| && KeyOf(r[k]) == Some(d.key) ensures Sets(r[k], d.key) && ValueOf(r[k]) == d.value.value {
        ConfiguredSets(ls, req, d, k);
        ConfiguredIsRight(ls, req, k, d);
      }
    }
  }

  lemma SpacedStays(ls: seq<string>, req: seq<Directive>, d: Directive, k: nat)
    requires Directives(req) && d in req && k < |ls| && KeyOf(ls[k]) == Some(d.key) && !Sets(ls[k], d.key)
    ensures k < |Configured(ls, req)| && Configured(ls, req)[k] == ls[k]
  {
    hide KeyOf, Sets, ValueOf, Directive.Line, Updated, Keys;
    assert Configured(ls, req)[k] == Fixed(ls[k], req);
    FixedOnce(ls[k], req);
    if i :| 0 <= i < |req| && Stale(ls[k], req[i]) { SetsKey(ls[k], req[i].key); }
  }

  lemma ConfiguredSets(ls: seq<string>, req: seq<Directive>, d: Directive, k: nat)
    requires Directives(req) && d in req && d.value.Some? && k < |Configured(ls, req)|
    requires KeyOf(Configured(ls, req)[k]) == Some(d.key) && !Spaced(ls, d.key)
    ensures Sets(Configured(ls, req)[k], d.key)
  {
    hide KeyOf, Sets, ValueOf, Directive.Line, Updated, Keys, Stale;
    var r := Configured(ls, req);
    if k < |ls| {
      assert r[k] == Fixed(ls[k], req);
      FixedOnce(ls[k], req);
      if i :| 0 <= i < |req| && r[k] == req[i].Line() { LineOfKey(req, req[i], d); }
    } else {
      var l := Missing(req, Keys(ls))[k - |ls|];
      assert r[k] == l;
      AddedLines(req, Keys(ls));
      assert l in Missing(req, Keys(ls));
      var e :| e in req && e.key !in Keys(ls) && l == e.Line();
      LineOfKey(req, e, d);
    }
  }

  lemma LineOfKey(req: seq<Directive>, e: Directive, d: Directive)
    requires Directives(req) && d in req && e in req && KeyOf(e.Line()) == Some(d.key) && d.value.Some?
    ensures Sets(e.Line(), d.key)
  {
    hide KeyOf, Sets, ValueOf, Directive.Line;
    LineReads(e);
  }

  lemma LineNotStale(d: Directive, e: Directive, req: seq<Directive>)
    requires Directives(req) && d in req && e in req
    ensures !Stale(d.Line(), e)
  {
    hide KeyOf, Sets, ValueOf, Directive.Line, Strip, LStrip, RStrip, IsSpace, Cut, Simple, Solid;
    if d.key == e.key {
      LineReads(d);
    } else {
      StaleOther(d.Line(), d, e);
    }
  }

  lemma BlankNotStale(d: Directive)
    ensures !Stale("", d) && KeyOf("").None?
  {
    assert !Sets("", d.key);
  }

  lemma ConfiguredIsRight(ls: seq<string>, req: seq<Directive>, k: nat, d: Directive)
    requires Directives(req) && d in req && k < |Configured(ls, req)|
    ensures !Stale(Configured(ls, req)[k], d)
  {
    hide KeyOf, Keys, Sets, ValueOf, Directive.Line, Stale;
    var r := Configured(ls, req);
    if k < |ls| {
      FixedOnce(ls[k], req);
      assert r[k] == Fixed(ls[k], req);
    } else {
      var l := Missing(req, Keys(ls))[k - |ls|];
      assert r[k] == l;
      AddedLines(req, Keys(ls));
      assert l in Missing(req, Keys(ls));
      var e :| e in req && e.key !in Keys(ls) && l == e.Line();
      LineNotStale(e, d, req);
    }
  }

  lemma ConfiguredUnbroken(ls: seq<string>, req: seq<Directive>, k: nat)
    requires Directives(req) && (forall j | 0 <= j < |ls| :: '\n' !in ls[j]) && k < |Configured(ls, req)|
    ensures '\n' !in Configured(ls, req)[k]
  {
    hide KeyOf, Keys, Directive.Line, Stale;
    var r := Configured(ls, req);
    if k < |ls| {
      FixedOnce(ls[k], req);
      assert r[k] == Fixed(ls[k], req);
      if i :| 0 <= i < |req| && r[k] == req[i].Line() { LineReads(req[i]); }
    } else {
      var l := Missing(req, Keys(ls))[k - |ls|];
      assert r[k] == l;
      AddedLines(req, Keys(ls));
      assert l in Missing(req, Keys(ls));
      var e :| e in req && e.key !in Keys(ls) && l == e.Line();
      LineReads(e);
    }
  }

  /** A second run changes nothing. */
  lemma CoturnTwice(content: string, req: seq<Directive>)
    requires Directives(req) && Coturn(content, req).Written?
    ensures Coturn(Coturn(content, req).text, req) == Skipped
  {
    hide KeyOf, Keys, Directive.Line, Directives, Stale, Configured, Lines, Join, Wrong, AnyStale;
    var ls := Lines(content);
    var r := Configured(ls, req);
    forall j | 0 <= j < |ls| ensures '\n' !in ls[j] { LinesArePieces(content, j); }
    forall k | 0 <= k < |r| ensures '\n' !in r[k] { ConfiguredUnbroken(ls, req, k); }
    NotEmpty(ls, req);
    EndedLines(r);
    var now := Lines(Ended(Join(r)));
    NothingWrong(ls, req, now);
    ChangeNeeded(now, req);
  }

  lemma NotEmpty(ls: seq<string>, req: seq<Directive>)
    ensures |Configured(ls, req)| >= |ls|
  {}

  lemma NothingWrong(ls: seq<string>, req: seq<Directive>, now: seq<string>)
    requires Directives(req) && (now == Configured(ls, req) || now == Configured(ls, req) + [""])
    ensures !Wrong(now, req)
  {
    hide KeyOf, Keys, Directive.Line, Directives, Stale, Configured;
    var r := Configured(ls, req);
    Complete(ls, req);
    KeysMore(r, now);
    forall i | 0 <= i < |req| ensures req[i].key in Keys(now) && !AnyStale(now, req[i]) {
      assert req[i] in req;
      BlankNotStale(req[i]);
      forall k | 0 <= k < |now| ensures !Stale(now[k], req[i]) {
        if k < |r| { ConfiguredIsRight(ls, req, k, req[i]); }
      }
    }
  }

  lemma KeysMore(r: seq<string>, now: seq<string>)
    requires r <= now
    ensures Keys(r) <= Keys(now)
  {
    hide KeyOf;
    forall l | l in r ensures l in now { var k :| 0 <= k < |r| && r[k] == l; assert now[k] == l; }
  }

  function LivePath(): string { "/etc/letsencrypt/live/" }
  function MeetPath(): string { "/etc/jitsi/meet/" }

  /** The directives of the patch for a host, with or without a certificate of Let's Encrypt. */
  function CertPath(h: string, le: bool): string {
    if le then LivePath() + h + "/fullchain.pem" else MeetPath() + h + ".crt"
  }
  function KeyPath(h: string, le: bool): string {
    if le then LivePath() + h + "/privkey.pem" else MeetPath() + h + ".key"
  }
  function PortKey(): string { "tls-listening-port" }
  function MulticastKey(): string { "no-multicast-peers" }
  function CliKey(): string { "no-cli" }
  function LoopbackKey(): string { "no-loopback-peers" }

  function Required(h: string, le: bool): seq<Directive> {
    [Directive(PortKey(), Some("5349")), Directive("cert", Some(CertPath(h, le))),
     Directive("pkey", Some(KeyPath(h, le))), Directive(MulticastKey(), None), Directive(CliKey(), None),
     Directive(LoopbackKey(), None)]
  }

  lemma PathFine(a: string, h: string, b: string)
    requires HostName(h) && a != "" && b != "" && !IsSpace(a[0]) && !IsSpace(b[|b| - 1]) && '\n' !in a && '\n' !in b
    ensures Solid(a + h + b) && '\n' !in a + h + b
  {
    assert (a + h + b)[|a + h + b| - 1] == b[|b| - 1] && (a + h + b)[0] == a[0];
    forall c | c in a + h + b ensures c != '\n' { if c in h {} }
  }

  lemma LiveFine()
    ensures LivePath()[0] == '/' && '\n' !in LivePath() && LivePath() != ""
  {}

  lemma MeetFine()
    ensures MeetPath()[0] == '/' && '\n' !in MeetPath() && MeetPath() != ""
  {}

  lemma PathsFine(h: string, le: bool)
    requires HostName(h)
    ensures Solid(CertPath(h, le)) && '\n' !in CertPath(h, le)
    ensures Solid(KeyPath(h, le)) && '\n' !in KeyPath(h, le)
  {
    hide Solid, LivePath, MeetPath, HostName;
    LiveFine();
    MeetFine();
    var a := if le then LivePath() else MeetPath();
    PathFine(a, h, if le then "/fullchain.pem" else ".crt");
    PathFine(a, h, if le then "/privkey.pem" else ".key");
  }

  lemma PortFine()
    ensures Simple(PortKey()) && PortKey()[0] == 't' && |PortKey()| == 18
  {}

  lemma MulticastFine()
    ensures Simple(MulticastKey()) && MulticastKey()[0] == 'n' && |MulticastKey()| == 18
  {}

  lemma CliFine()
    ensures Simple(CliKey()) && |CliKey()| == 6
  {}

  lemma LoopbackFine()
    ensures Simple(LoopbackKey()) && |LoopbackKey()| == 17
  {}

  lemma ShortFine()
    ensures Simple("cert") && Simple("pkey") && "cert"[0] != "pkey"[0] && Solid("5349") && '\n' !in "5349"
  {}

  /** The required directives are ones the patch is right for. */
  lemma RequiredFine(h: string, le: bool)
    requires HostName(h)
    ensures Directives(Required(h, le))
  {
    hide Simple, Solid, CertPath, KeyPath, PortKey, MulticastKey, CliKey, LoopbackKey, HostName;
    PathsFine(h, le);
    PortFine();
    MulticastFine();
    CliFine();
    LoopbackFine();
    ShortFine();
    assert |"cert"| == 4 && |"pkey"| == 4;
  }
}
