/** `_version_gt`: which of two release names is the newer one. */
module VersionOrder {
  import opened Text

  datatype Version = Version(major: nat, minor: nat, patch: nat, pre: Option<string>)

  /** `v.lstrip("v")`. */
  function WithoutV(s: string): string { if s != "" && s[0] == 'v' then WithoutV(s[1..]) else s }

  /** `v.split("+")[0]`. */
  function BeforePlus(s: string): string {
    if s == "" || s[0] == '+' then "" else [s[0]] + BeforePlus(s[1..])
  }

  function Digits(s: string): (n: nat)
    ensures n <= |s| && (forall c | c in s[..n] :: IsDigit(c)) && (n < |s| ==> !IsDigit(s[n]))
  {
    if s == "" || !IsDigit(s[0]) then 0 else
      var n := 1 + Digits(s[1..]);
      assert s[..n] == [s[0]] + s[1..][..n - 1];
      n
  }

  /** `(\d+)`: a number, and what follows it. */
  function ReadNumber(s: string): Option<(nat, string)> {
    if Digits(s) == 0 then None else Some((Number(s[..Digits(s)]), s[Digits(s)..]))
  }

  function ReadDot(s: string): Option<string> { if s != "" && s[0] == '.' then Some(s[1..]) else None }

  /** The end of the text may be followed by one line break. */
  function Chopped(s: string): string { if s != "" && s[|s| - 1] == '\n' then s[..|s| - 1] else s }

  /** `(?:-(.+))?$`: the pre-release tag, if the text may end like this. */
  function ReadTag(s: string): Option<Option<string>> {
    var t := Chopped(s);
    if t == "" then Some(None)
    else if t[0] == '-' && |t| > 1 && '\n' !in t then Some(Some(t[1..]))
    else None
  }

  function Parse(v: string): Option<Version> {
    match ReadNumber(BeforePlus(WithoutV(v)))
    case None => None
    case Some(major) =>
      match ReadDot(major.1)
      case None => None
      case Some(afterMajor) =>
        match ReadNumber(afterMajor)
        case None => None
        case Some(minor) =>
          match ReadDot(minor.1)
          case None => None
          case Some(afterMinor) =>
            match ReadNumber(afterMinor)
            case None => None
            case Some(patch) =>
              match ReadTag(patch.1)
              case None => None
              case Some(tag) => Some(Version(major.0, minor.0, patch.0, tag))
  }

  /** `_version_gt`, branch by branch. */
  predicate Gt(candidate: string, current: string) {
    match (Parse(candidate), Parse(current))
    case (None, _) => false
    case (_, None) => false
    case (Some(a), Some(b)) =>
      if (a.major, a.minor, a.patch) != (b.major, b.minor, b.patch) then
        a.major > b.major || (a.major == b.major && (a.minor > b.minor || (a.minor == b.minor && a.patch > b.patch)))
      else if a.pre.None? && b.pre.None? then false
      else if a.pre.None? then true
      else if b.pre.None? then false
      else TextLess(b.pre.value, a.pre.value)
  }

  // ---- An order --------------------------------------------------------------------------------

  /** No release is newer than itself. */
  lemma Irreflexive(a: string)
    ensures !Gt(a, a)
  {
    hide Parse;
    if Parse(a).Some? && Parse(a).value.pre.Some? { TextTrichotomy(Parse(a).value.pre.value, ""); }
  }

  /** On all texts, whether they are versions or not. */
  lemma Transitive(a: string, b: string, c: string)
    requires Gt(a, b) && Gt(b, c)
    ensures Gt(a, c)
  {
    hide Parse, TextLess;
    var x, y, z := Parse(a).value.pre, Parse(b).value.pre, Parse(c).value.pre;
    if x.Some? && y.Some? && z.Some? && TextLess(y.value, x.value) && TextLess(z.value, y.value) {
      TextTransitive(z.value, y.value, x.value);
    }
  }

  /** Two versions are the same one, or exactly one is newer. */
  lemma Total(a: string, b: string)
    requires Parse(a).Some? && Parse(b).Some?
    ensures Gt(a, b) || Gt(b, a) || Parse(a) == Parse(b)
    ensures Gt(a, b) ==> !Gt(b, a) && Parse(a) != Parse(b)
  {
    hide Parse, TextLess;
    var x, y := Parse(a).value.pre, Parse(b).value.pre;
    if x.Some? && y.Some? { TextTrichotomy(x.value, y.value); }
  }

  /** A stable release is newer than all its pre-releases. */
  lemma StableIsNewer(a: string, b: string, tag: string)
    requires Parse(a).Some? && Parse(a).value.pre == None
    requires Parse(b) == Some(Parse(a).value.(pre := Some(tag)))
    ensures Gt(a, b) && !Gt(b, a)
  {
    hide Parse;
  }

  /** Build metadata is ignored. */
  lemma BuildIgnored(v: string, build: string)
    ensures Parse(v + "+" + build) == Parse(v)
  {
    hide ReadNumber, ReadDot, ReadTag;
    WithoutVPlus(v, build);
  }

  lemma {:induction false} WithoutVPlus(v: string, build: string)
    ensures BeforePlus(WithoutV(v + "+" + build)) == BeforePlus(WithoutV(v))
  {
    var s := v + "+" + build;
    if v != "" && v[0] == 'v' {
      assert s[1..] == v[1..] + "+" + build;
      WithoutVPlus(v[1..], build);
    } else {
      assert WithoutV(s) == s;
      BeforePlusMore(v, build);
    }
  }

  lemma {:induction false} BeforePlusMore(v: string, build: string)
    ensures BeforePlus(v + "+" + build) == BeforePlus(v)
  {
    if v != "" {
      assert (v + "+" + build)[1..] == v[1..] + "+" + build;
      BeforePlusMore(v[1..], build);
    }
  }

  // ---- Writing a version and reading it back ---------------------------------------------------

  function Written(v: Version): string {
    Decimal(v.major) + ("." + (Decimal(v.minor) + ("." + (Decimal(v.patch) + Tag(v)))))
  }

  function Tag(v: Version): string { if v.pre.None? then "" else "-" + v.pre.value }

  lemma {:induction false} DigitsMore(a: string, b: string)
    requires (forall c | c in a :: IsDigit(c)) && (b != "" ==> !IsDigit(b[0]))
    ensures Digits(a + b) == |a|
  {
    if a == "" {
      assert a + b == b;
    } else {
      assert (a + b)[1..] == a[1..] + b && a[0] in a;
      DigitsMore(a[1..], b);
    }
  }

  lemma ReadDecimal(n: nat, b: string)
    requires b != "" ==> !IsDigit(b[0])
    ensures ReadNumber(Decimal(n) + b) == Some((n, b))
  {
    DigitsMore(Decimal(n), b);
    NumberDecimal(n);
    assert (Decimal(n) + b)[..|Decimal(n)|] == Decimal(n) && (Decimal(n) + b)[|Decimal(n)|..] == b;
  }

  lemma {:induction false} NoPlus(s: string)
    requires '+' !in s
    ensures BeforePlus(s) == s
  {
    if s != "" {
      assert s[0] in s;
      NoPlus(s[1..]);
    }
  }

  /** Every version whose tag has no `+` and no line break is read back as it was written, with or
      without a leading `v`. */
  lemma RoundTrip(v: Version)
    requires v.pre.Some? ==> v.pre.value != "" && '+' !in v.pre.value && '\n' !in v.pre.value
    ensures Parse(Written(v)) == Some(v) && Parse("v" + Written(v)) == Some(v)
  {
    hide ReadNumber, Decimal;
    var tag := Tag(v);
    var a := Decimal(v.patch) + tag;
    var b := Decimal(v.minor) + ("." + a);
    var s := Decimal(v.major) + ("." + b);
    assert s == Written(v);
    ReadDecimal(v.patch, tag);
    ReadDecimal(v.minor, "." + a);
    ReadDecimal(v.major, "." + b);
    assert ("." + a)[1..] == a && ("." + b)[1..] == b;
    assert ReadTag(tag) == Some(v.pre) by { TagReads(v); }
    assert s[0] == Decimal(v.major)[0] && Decimal(v.major)[0] in Decimal(v.major);
    assert WithoutV(s) == s && WithoutV("v" + s) == s by { assert ("v" + s)[1..] == s; }
    forall c | c in s ensures c != '+' {}
    NoPlus(s);
  }

  lemma TagReads(v: Version)
    requires v.pre.Some? ==> v.pre.value != "" && '\n' !in v.pre.value
    ensures ReadTag(Tag(v)) == Some(v.pre)
  {
    if v.pre.Some? {
      var t := "-" + v.pre.value;
      assert t[|t| - 1] in v.pre.value && t[1..] == v.pre.value;
    }
  }

  // ---- Which one is newer ----------------------------------------------------------------------

  /** A tag that is read back as it was written. */
  predicate Writable(v: Version) {
    v.pre.Some? ==> v.pre.value != "" && '+' !in v.pre.value && '\n' !in v.pre.value
  }

  /** With a greater major number a release is newer, whatever follows it. */
  lemma MajorDecides(a: Version, b: Version)
    requires Writable(a) && Writable(b) && a.major > b.major
    ensures Gt(Written(a), Written(b)) && !Gt(Written(b), Written(a))
  {
    hide Parse, Written;
    RoundTrip(a);
    RoundTrip(b);
  }

  lemma MinorDecides(a: Version, b: Version)
    requires Writable(a) && Writable(b) && a.major == b.major && a.minor > b.minor
    ensures Gt(Written(a), Written(b)) && !Gt(Written(b), Written(a))
  {
    hide Parse, Written;
    RoundTrip(a);
    RoundTrip(b);
  }

  lemma PatchDecides(a: Version, b: Version)
    requires Writable(a) && Writable(b) && a.major == b.major && a.minor == b.minor && a.patch > b.patch
    ensures Gt(Written(a), Written(b)) && !Gt(Written(b), Written(a))
  {
    hide Parse, Written;
    RoundTrip(a);
    RoundTrip(b);
  }

  /** Of two pre-releases of one release, the one whose tag has the greater character where they first
      differ, or continues the other tag, is newer. */
  lemma TagDecides(v: Version, tag: string, c: char, x: string, other: string)
    requires other == tag || exists d, y :: other == tag + [d] + y && d < c
    requires Writable(v.(pre := Some(tag + [c] + x))) && Writable(v.(pre := Some(other)))
    ensures var a, b := v.(pre := Some(tag + [c] + x)), v.(pre := Some(other));
            Gt(Written(a), Written(b)) && !Gt(Written(b), Written(a))
  {
    hide Parse, Written, TextLess;
    var a, b := v.(pre := Some(tag + [c] + x)), v.(pre := Some(other));
    RoundTrip(a);
    RoundTrip(b);
    if other == tag {
      LessByEnd(tag, [c] + x);
      assert tag + ([c] + x) == tag + [c] + x;
    } else {
      var d, y :| other == tag + [d] + y && d < c;
      LessByChar(tag, d, y, c, x);
    }
    TextTrichotomy(b.pre.value, a.pre.value);
  }

  lemma {:induction false} LessByEnd(a: string, x: string)
    requires x != ""
    ensures TextLess(a, a + x)
  {
    if a != "" {
      assert (a + x)[1..] == a[1..] + x;
      LessByEnd(a[1..], x);
    }
  }

  lemma {:induction false} LessByChar(a: string, d: char, y: string, c: char, x: string)
    requires d < c
    ensures TextLess(a + [d] + y, a + [c] + x)
  {
    if a != "" {
      assert (a + [d] + y)[1..] == a[1..] + [d] + y && (a + [c] + x)[1..] == a[1..] + [c] + x;
      LessByChar(a[1..], d, y, c, x);
    }
  }

  // ---- Which texts are versions ----------------------------------------------------------------

  predicate AllDigits(s: string) { s != "" && forall c | c in s :: IsDigit(c) }

  /** What may come after the third number. */
  predicate TagShape(t: string, pre: Option<string>) {
    match pre
    case None => t == "" || t == "\n"
    case Some(tag) => tag != "" && '\n' !in tag && (t == "-" + tag || t == "-" + tag + "\n")
  }

  /** The text is three numbers with dots between them, and perhaps a tag. */
  predicate Shape(s: string, a: string, b: string, c: string, t: string, v: Version) {
    && AllDigits(a) && AllDigits(b) && AllDigits(c) && s == a + "." + b + "." + c + t
    && v.major == Number(a) && v.minor == Number(b) && v.patch == Number(c) && TagShape(t, v.pre)
  }

  lemma ReadDigits(a: string, b: string)
    requires AllDigits(a) && (b != "" ==> !IsDigit(b[0]))
    ensures ReadNumber(a + b) == Some((Number(a), b))
  {
    DigitsMore(a, b);
    assert (a + b)[..|a|] == a && (a + b)[|a|..] == b;
  }

  lemma ReadDigitsBack(s: string)
    requires ReadNumber(s).Some?
    ensures var a := s[..Digits(s)]; AllDigits(a) && s == a + ReadNumber(s).value.1 && ReadNumber(s).value.0 == Number(a)
  {}

  lemma ReadDotBack(s: string)
    requires ReadDot(s).Some?
    ensures s == "." + ReadDot(s).value
  {}

  lemma TagShapes(t: string, pre: Option<string>)
    ensures ReadTag(t) == Some(pre) <==> TagShape(t, pre)
  {
    var u := Chopped(t);
    if pre.Some? {
      var tag := pre.value;
      assert ("-" + tag)[1..] == tag && ("-" + tag + "\n")[..1 + |tag|] == "-" + tag;
      if TagShape(t, pre) && t == "-" + tag { assert t[|t| - 1] in tag; }
    }
    if u != t { assert t == u + "\n"; }
    if ReadTag(t).Some? && u != "" {
      assert u == "-" + u[1..];
      if t == u { assert t[|t| - 1] in u; }
    }
  }

  /** A text is read as a version exactly if, without the leading `v`s and the build metadata, it has this
      shape. */
  lemma ParseMeans(text: string, v: Version)
    ensures Parse(text) == Some(v) <==> exists a, b, c, t :: Shape(BeforePlus(WithoutV(text)), a, b, c, t, v)
  {
    hide ReadNumber, ReadDot, ReadTag, TagShape, AllDigits, Digits, Number;
    var s := BeforePlus(WithoutV(text));
    if Parse(text) == Some(v) { ParseGivesShape(text, v); }
    if a, b, c, t :| Shape(s, a, b, c, t, v) { ShapeGivesParse(text, v, a, b, c, t); }
  }

  lemma ParseGivesShape(text: string, v: Version)
    requires Parse(text) == Some(v)
    ensures exists a, b, c, t :: Shape(BeforePlus(WithoutV(text)), a, b, c, t, v)
  {
    hide ReadNumber, ReadDot, ReadTag, TagShape, AllDigits, Digits, Number;
    var s := BeforePlus(WithoutV(text));
    var major := ReadNumber(s).value.1;
    var u := ReadDot(major).value;
    var minor := ReadNumber(u).value.1;
    var w := ReadDot(minor).value;
    var patch := ReadNumber(w).value.1;
    ReadDigitsBack(s);
    ReadDotBack(major);
    ReadDigitsBack(u);
    ReadDotBack(minor);
    ReadDigitsBack(w);
    TagShapes(patch, v.pre);
    var a, b, c := s[..Digits(s)], u[..Digits(u)], w[..Digits(w)];
    assert s == a + "." + b + "." + c + patch;
    assert Shape(s, a, b, c, patch, v);
  }

  lemma ShapeGivesParse(text: string, v: Version, a: string, b: string, c: string, t: string)
    requires Shape(BeforePlus(WithoutV(text)), a, b, c, t, v)
    ensures Parse(text) == Some(v)
  {
    hide ReadNumber, ReadTag, AllDigits, Digits, Number, WithoutV, BeforePlus;
    var s := BeforePlus(WithoutV(text));
    var w := c + t;
    var u := b + ("." + w);
    assert s == a + ("." + u);
    ReadDigits(a, "." + u);
    ReadDigits(b, "." + w);
    ReadDigits(c, t) by { assert t != "" ==> !IsDigit(t[0]); }
    assert ("." + u)[1..] == u && ("." + w)[1..] == w;
    TagShapes(t, v.pre);
  }

  /** Any number of `v`s in front, and whatever follows a `+`, is left out of account. */
  lemma {:induction false} CoreOnly(vs: string, core: string, rest: string)
    requires (forall c | c in vs :: c == 'v') && '+' !in core && (core != "" ==> core[0] != 'v') && (rest != "" ==> rest[0] == '+')
    ensures BeforePlus(WithoutV(vs + core + rest)) == core
  {
    if vs == "" {
      assert vs + core + rest == core + rest;
      if rest == "" {
        assert core + rest == core;
        NoPlus(core);
      } else {
        assert core + rest == core + "+" + rest[1..];
        BeforePlusMore(core, rest[1..]);
        NoPlus(core);
      }
      assert WithoutV(core + rest) == core + rest;
    } else {
      assert vs[0] in vs && (vs + core + rest)[1..] == vs[1..] + core + rest;
      forall c | c in vs[1..] ensures c == 'v' { assert c in vs; }
      CoreOnly(vs[1..], core, rest);
    }
  }
}
