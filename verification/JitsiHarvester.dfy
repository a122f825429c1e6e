/** `_cf_patch_nat_harvester`: the two addresses in `sip-communicator.properties`. */
module JitsiHarvester {
  import opened Text
  import opened JitsiKeys

  function Package(): string { "org.ice4j.ice.harvest." }
  function Harvester(): string { "NAT_HARVESTER_" }
  function Prefix(): string { Package() + Harvester() }
  function LocalKey(): string { Prefix() + "LOCAL_ADDRESS" }
  function PublicKey(): string { Prefix() + "PUBLIC_ADDRESS" }
  function Setting(key: string, value: string): string { key + "=" + value }

  predicate Ours(l: string) { Sets(l, LocalKey()) || Sets(l, PublicKey()) }

  /** What takes the place of a line. */
  function Placed(l: string, lan: string, wan: string): string {
    if Sets(l, LocalKey()) then Setting(LocalKey(), lan)
    else if Sets(l, PublicKey()) then Setting(PublicKey(), wan) else l
  }

  function PlacedAll(ls: seq<string>, lan: string, wan: string): (r: seq<string>)
    ensures |r| == |ls| && forall k | 0 <= k < |ls| :: r[k] == Placed(ls[k], lan, wan)
  {
    seq(|ls|, k requires 0 <= k < |ls| => Placed(ls[k], lan, wan))
  }

  predicate AnySets(ls: seq<string>, key: string) { exists k | 0 <= k < |ls| :: Sets(ls[k], key) }

  /** The lines written for a readable file. */
  function Harvested(ls: seq<string>, lan: string, wan: string): seq<string> {
    PlacedAll(ls, lan, wan)
    + (if AnySets(ls, LocalKey()) then [] else [Setting(LocalKey(), lan)])
    + (if AnySets(ls, PublicKey()) then [] else [Setting(PublicKey(), wan)])
  }

  /** The text written; `None` stands for a file that cannot be read. */
  function Patched(file: Option<string>, lan: string, wan: string): string {
    match file
    case None => Setting(LocalKey(), lan) + "\n" + (Setting(PublicKey(), wan) + "\n")
    case Some(c) => Ended(Join(Harvested(Lines(c), lan, wan)))
  }

  method PatchHarvester(file: Option<string>, lan: string, wan: string) returns (content: string)
    ensures content == Patched(file, lan, wan)
  {
    hide LocalKey, PublicKey, Setting, Sets, Lines, Join, Ended;
    if file.None? {
      return Setting(LocalKey(), lan) + "\n" + (Setting(PublicKey(), wan) + "\n");
    }
    var lines := Lines(file.value);
    var newLines: seq<string> := [];
    var localSet, publicSet := false, false;
    for i := 0 to |lines|
      invariant newLines == PlacedAll(lines[..i], lan, wan)
      invariant localSet <==> AnySets(lines[..i], LocalKey())
      invariant publicSet <==> AnySets(lines[..i], PublicKey())
    {
      var line := lines[i];
      OneMore(lines, i, LocalKey());
      OneMore(lines, i, PublicKey());
      KeysApart(line);
      if Sets(line, LocalKey()) {
        newLines, localSet := newLines + [Setting(LocalKey(), lan)], true;
      } else if Sets(line, PublicKey()) {
        newLines, publicSet := newLines + [Setting(PublicKey(), wan)], true;
      } else {
        newLines := newLines + [line];
      }
    }
    assert lines[..|lines|] == lines;
    if !localSet { newLines := newLines + [Setting(LocalKey(), lan)]; }
    if !publicSet { newLines := newLines + [Setting(PublicKey(), wan)]; }
    assert newLines == Harvested(lines, lan, wan);
    return Ended(Join(newLines));
  }

  lemma OneMore(ls: seq<string>, i: nat, key: string)
    requires i < |ls|
    ensures AnySets(ls[..i + 1], key) <==> AnySets(ls[..i], key) || Sets(ls[i], key)
  {
    hide Sets;
    assert ls[..i + 1][i] == ls[i] && forall k | 0 <= k < i :: ls[..i + 1][k] == ls[..i][k];
    if k :| 0 <= k < i && Sets(ls[..i][k], key) { assert Sets(ls[..i + 1][k], key); }
  }

  // ---- The two keys ----------------------------------------------------------------------------

  lemma PackageFine()
    ensures Package() != "" && Package()[0] == 'o' && forall c | c in Package() :: c != '=' && !IsSpace(c)
  {}

  lemma HarvesterFine()
    ensures forall c | c in Harvester() :: c != '=' && !IsSpace(c)
  {}

  lemma PrefixFine()
    ensures Prefix() != "" && Prefix()[0] == 'o' && forall c | c in Prefix() :: c != '=' && !IsSpace(c)
  {
    hide Package, Harvester, IsSpace;
    PackageFine();
    HarvesterFine();
  }

  lemma SuffixesFine()
    ensures forall c | c in "LOCAL_ADDRESS" :: c != '=' && !IsSpace(c)
    ensures forall c | c in "PUBLIC_ADDRESS" :: c != '=' && !IsSpace(c)
  {}

  lemma KeysFine()
    ensures Simple(LocalKey()) && Simple(PublicKey()) && LocalKey() != PublicKey()
  {
    hide Prefix, IsSpace;
    PrefixFine();
    SuffixesFine();
    assert |"LOCAL_ADDRESS"| == 13 && |"PUBLIC_ADDRESS"| == 14;
    assert |LocalKey()| != |PublicKey()|;
  }

  /** No line sets both keys. */
  lemma KeysApart(l: string)
    ensures !(Sets(l, LocalKey()) && Sets(l, PublicKey()))
  {
    hide LocalKey, PublicKey, Sets, KeyOf, Simple;
    KeysFine();
    if Sets(l, LocalKey()) { SetsKey(l, LocalKey()); }
    if Sets(l, PublicKey()) { SetsKey(l, PublicKey()); }
  }

  /** The line written for a key sets it. */
  lemma SettingSets(key: string, value: string)
    requires Simple(key)
    ensures Sets(Setting(key, value), key)
  {
    SimpleSolid(key);
    var l := Setting(key, value);
    assert l == (key + "=") + value && l[0] == key[0];
    assert LStrip(l) == l;
    RStripKeeps(key + "=", value);
  }

  lemma {:induction false} RStripKeeps(a: string, b: string)
    requires a != "" && !IsSpace(a[|a| - 1])
    ensures a <= RStrip(a + b)
  {
    if b != "" && IsSpace(b[|b| - 1]) {
      assert (a + b)[..|a + b| - 1] == a + b[..|b| - 1];
      RStripKeeps(a, b[..|b| - 1]);
    } else if b == "" {
      assert a + b == a;
    }
  }

  lemma OurSettings(lan: string, wan: string)
    ensures Sets(Setting(LocalKey(), lan), LocalKey()) && Sets(Setting(PublicKey(), wan), PublicKey())
    ensures !Sets(Setting(LocalKey(), lan), PublicKey()) && !Sets(Setting(PublicKey(), wan), LocalKey())
  {
    hide LocalKey, PublicKey, Sets, Setting, Simple;
    KeysFine();
    SettingSets(LocalKey(), lan);
    SettingSets(PublicKey(), wan);
    KeysApart(Setting(LocalKey(), lan));
    KeysApart(Setting(PublicKey(), wan));
  }

  // ---- What the patch promises -----------------------------------------------------------------

  /** Both keys are set, every line for one carries its address, and every other line is as it was:
      the lines that are not for a key are the same ones in the same places. */
  ghost predicate Right(r: seq<string>, lan: string, wan: string) {
    && AnySets(r, LocalKey()) && AnySets(r, PublicKey())
    && (forall k | 0 <= k < |r| && Sets(r[k], LocalKey()) :: r[k] == Setting(LocalKey(), lan))
    && (forall k | 0 <= k < |r| && Sets(r[k], PublicKey()) :: r[k] == Setting(PublicKey(), wan))
  }

  lemma Complete(ls: seq<string>, lan: string, wan: string)
    ensures var r := Harvested(ls, lan, wan);
            && Right(r, lan, wan) && |ls| <= |r|
            && (forall k | 0 <= k < |ls| :: if Ours(ls[k]) then Ours(r[k]) else r[k] == ls[k])
            && (forall k | |ls| <= k < |r| :: Ours(r[k]))
  {
    hide LocalKey, PublicKey, Sets, Setting;
    var r, p := Harvested(ls, lan, wan), PlacedAll(ls, lan, wan);
    OurSettings(lan, wan);
    forall k | 0 <= k < |ls| ensures r[k] == Placed(ls[k], lan, wan) { assert r[k] == p[k]; }
    forall k | |ls| <= k < |r| ensures r[k] == Setting(LocalKey(), lan) || r[k] == Setting(PublicKey(), wan) {}
    SetAfter(ls, lan, wan, LocalKey());
    SetAfter(ls, lan, wan, PublicKey());
  }

  lemma SetAfter(ls: seq<string>, lan: string, wan: string, key: string)
    requires key == LocalKey() || key == PublicKey()
    ensures AnySets(Harvested(ls, lan, wan), key)
  {
    hide LocalKey, PublicKey, Sets, Setting;
    var r := Harvested(ls, lan, wan);
    OurSettings(lan, wan);
    if AnySets(ls, key) {
      var k :| 0 <= k < |ls| && Sets(ls[k], key);
      KeysApart(ls[k]);
      assert r[k] == PlacedAll(ls, lan, wan)[k];
      assert Sets(r[k], key);
    } else if key == PublicKey() {
      assert Sets(r[|r| - 1], key);
    } else {
      assert r[|ls|] == Setting(LocalKey(), lan);
      assert Sets(r[|ls|], key);
    }
  }

  /** On lines that are right, the patch has nothing to do. */
  lemma RightStays(r: seq<string>, lan: string, wan: string)
    requires Right(r, lan, wan)
    ensures Harvested(r, lan, wan) == r
  {
    hide LocalKey, PublicKey, Sets, Setting;
    assert PlacedAll(r, lan, wan) == r;
  }

  lemma RightBlank(r: seq<string>, lan: string, wan: string)
    requires Right(r, lan, wan)
    ensures Right(r + [""], lan, wan)
  {
    hide LocalKey, PublicKey, Sets, Setting;
    var s := r + [""];
    BlankNotOurs();
    var i :| 0 <= i < |r| && Sets(r[i], LocalKey());
    var j :| 0 <= j < |r| && Sets(r[j], PublicKey());
    assert Sets(s[i], LocalKey()) && Sets(s[j], PublicKey());
  }

  lemma BlankNotOurs()
    ensures !Sets("", LocalKey()) && !Sets("", PublicKey())
  {
    hide LocalKey, PublicKey;
    assert |LocalKey() + "="| > 0 && |PublicKey() + "="| > 0;
  }

  lemma HarvestedUnbroken(ls: seq<string>, lan: string, wan: string, k: nat)
    requires '\n' !in lan && '\n' !in wan && (forall j | 0 <= j < |ls| :: '\n' !in ls[j]) && k < |Harvested(ls, lan, wan)|
    ensures '\n' !in Harvested(ls, lan, wan)[k]
  {
    hide LocalKey, PublicKey, Sets;
    KeysFine();
    SimpleSolid(LocalKey());
    SimpleSolid(PublicKey());
    var r := Harvested(ls, lan, wan);
    if k < |ls| { assert r[k] == Placed(ls[k], lan, wan); }
  }

  /** A second run writes the same text, whatever the file was. */
  lemma Twice(file: Option<string>, lan: string, wan: string)
    requires '\n' !in lan && '\n' !in wan
    ensures var once := Patched(file, lan, wan); Patched(Some(once), lan, wan) == once
  {
    hide LocalKey, PublicKey, Sets, Setting, Lines, Join, Ended, Harvested;
    match file
    case None =>
      FreshFile(lan, wan);
    case Some(c) =>
      var ls := Lines(c);
      forall j | 0 <= j < |ls| ensures '\n' !in ls[j] { LinesArePieces(c, j); }
      TwiceLines(ls, lan, wan);
  }

  lemma TwiceLines(ls: seq<string>, lan: string, wan: string)
    requires '\n' !in lan && '\n' !in wan && forall j | 0 <= j < |ls| :: '\n' !in ls[j]
    ensures var once := Ended(Join(Harvested(ls, lan, wan)));
            Right(Lines(once), lan, wan) && Ended(Join(Harvested(Lines(once), lan, wan))) == once
  {
    hide LocalKey, PublicKey, Sets, Setting, Lines, Join, Ended, Harvested;
    var r := Harvested(ls, lan, wan);
    Complete(ls, lan, wan);
    forall k | 0 <= k < |r| ensures '\n' !in r[k] { HarvestedUnbroken(ls, lan, wan, k); }
    var once := Ended(Join(r));
    EndedLines(r);
    RightBlank(r, lan, wan);
    RightStays(Lines(once), lan, wan);
    JoinLines(once);
    EndedTwice(Join(r));
  }

  lemma EndedTwice(t: string)
    ensures Ended(Ended(t)) == Ended(t)
  {}

  lemma FreshFile(lan: string, wan: string)
    requires '\n' !in lan && '\n' !in wan
    ensures Patched(None, lan, wan) == Ended(Join(Harvested([], lan, wan)))
    ensures Patched(Some(Patched(None, lan, wan)), lan, wan) == Patched(None, lan, wan)
  {
    hide LocalKey, PublicKey, Sets, Lines;
    var a, b := Setting(LocalKey(), lan), Setting(PublicKey(), wan);
    assert Harvested([], lan, wan) == [a, b];
    assert [a, b][1..] == [b];
    HarvestedUnbroken([], lan, wan, 1);
    assert b != "" && b[|b| - 1] in b;
    assert Ended(a + "\n" + b) == a + "\n" + (b + "\n");
    TwiceLines([], lan, wan);
  }
}
