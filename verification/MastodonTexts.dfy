/** Which texts the checks of the Mastodon upgrade let through. */
module MastodonTexts {
  import opened Text
  import opened MastodonGuest
  import opened MastodonUpgrade

  /** The letters, the digits and six signs are accepted in a host name, and beyond ASCII whatever is not
      blank. */
  lemma HostCharacters(c: char)
    ensures SafeChar(c) <==>
              if c as int < 128 then
                || 65 <= c as int <= 90 || 97 <= c as int <= 122 || 48 <= c as int <= 57
                || c == '_' || c == '.' || c == '-' || c == '/' || c == ':' || c == '~'
              else !IsSpace(c)
  {
    assert "_.-/:~"[0] == '_' && "_.-/:~"[1] == '.' && "_.-/:~"[2] == '-' && "_.-/:~"[3] == '/';
    assert "_.-/:~"[4] == ':' && "_.-/:~"[5] == '~';
  }

  predicate Special(c: char) {
    || c == '|' || c == '&' || c == '\\' || c == '\'' || c == '"' || c == '$' || c == '`' || c == ';' || c == '<' || c == '>'
    || c == '(' || c == ')' || c == '*' || c == '?' || c == '[' || c == ']' || c == '#' || c == '!' || c == '{' || c == '}'
    || c == '\0' || IsSpace(c)
  }

  lemma PlainCharacter(c: char)
    requires SafeChar(c)
    ensures !Special(c)
  {
    HostCharacters(c);
  }

  /** So an accepted host has nothing in it that means something to the shell or to `sed`, and it may be put
      between the bars of the substitution. */
  lemma HostIsPlain(h: string)
    requires HostAccepted(h)
    ensures h != "" && forall c | c in h :: !Special(c)
  {
    hide SafeChar, Special;
    forall c | c in h ensures !Special(c) { PlainCharacter(c); }
  }

  lemma HostMeans(h: string)
    ensures HostAccepted(h) <==> h != "" && forall i | 0 <= i < |h| :: SafeChar(h[i])
  {
    hide SafeChar;
    if h != "" && forall i | 0 <= i < |h| :: SafeChar(h[i]) {
      forall c | c in h ensures SafeChar(c) { var i :| 0 <= i < |h| && h[i] == c; }
    }
  }

  /** A port is digits, and perhaps one line break. */
  lemma PortMeans(p: string)
    ensures PortAccepted(p) <==>
              exists d: string :: d != "" && (forall i | 0 <= i < |d| :: 48 <= d[i] as int <= 57) && (p == d || p == d + "\n")
  {
    if PortAccepted(p) {
      var d := if Digits(p) then p else p[..|p| - 1];
      assert p == d || p == d + "\n";
      forall i | 0 <= i < |d| ensures 48 <= d[i] as int <= 57 { assert d[i] in d; }
    }
    if d: string :| d != "" && (forall i | 0 <= i < |d| :: 48 <= d[i] as int <= 57) && (p == d || p == d + "\n") {
      assert Digits(d);
      if p != d { assert p[..|p| - 1] == d; }
    }
  }

  /** A name is visible if it has a character other than NUL, blank, tab, CR and LF. */
  lemma VisibleMeans(f: string)
    ensures Visible(f) <==> exists i | 0 <= i < |f| :: f[i] as int !in {0, 9, 10, 13, 32}
  {
    forall c: char ensures c in "\0 \t\r\n" <==> c as int in {0, 9, 10, 13, 32} { InBlanks(c); }
    if i :| 0 <= i < |f| && f[i] as int !in {0, 9, 10, 13, 32} { assert f[i] in f; }
  }

  lemma InBlanks(c: char)
    ensures c in "\0 \t\r\n" <==> c as int in {0, 9, 10, 13, 32}
  {
    var s := "\0 \t\r\n";
    assert s[0] == '\0' && s[1] == ' ' && s[2] == '\t' && s[3] == '\r' && s[4] == '\n';
    assert c == s[0] || c == s[1] || c == s[2] || c == s[3] || c == s[4] <==> c as int in {0, 9, 10, 13, 32};
  }

  predicate Breaks(s: string) { forall i | 0 <= i < |s| :: s[i] == '\r' || s[i] == '\n' }

  predicate NoBreakAtEnds(s: string) {
    s != "" ==> s[0] != '\r' && s[0] != '\n' && s[|s| - 1] != '\r' && s[|s| - 1] != '\n'
  }

  /** A listed name loses the line breaks at its ends and nothing else. */
  lemma {:induction false} NamesTrimmed(a: string, name: string, b: string)
    requires Breaks(a) && Breaks(b) && NoBreakAtEnds(name)
    ensures TrimBreaks(a + name + b) == name
    decreases |a| + |b|
  {
    var s := a + name + b;
    TwoBreaks();
    if a != "" {
      assert s[0] == a[0] && s[1..] == a[1..] + name + b;
      NamesTrimmed(a[1..], name, b);
    } else if b != "" {
      assert s[|s| - 1] == b[|b| - 1] && s[..|s| - 1] == a + name + b[..|b| - 1];
      if name == "" {
        assert s[1..] == a + name + b[1..];
        NamesTrimmed(a, name, b[1..]);
      } else {
        NamesTrimmed(a, name, b[..|b| - 1]);
      }
    } else {
      assert s == name;
    }
  }

  lemma TwoBreaks()
    ensures forall c: char :: c in "\r\n" <==> c == '\r' || c == '\n'
  {
    forall c: char ensures c in "\r\n" <==> c == '\r' || c == '\n' { assert "\r\n"[0] == '\r' && "\r\n"[1] == '\n'; }
  }

  /** What has to have happened before local changes may be lost: the stash entry was dropped, and either
      the checkout of a conflicted file failed or a listed name begins or ends with a line break. */
  lemma MishapMeans(t: seq<Event>)
    requires Mishap(t)
    ensures exists i | 0 <= i < |t| :: t[i].cmd == StashDrop && t[i].reply.Done? && t[i].reply.ok
    ensures exists i | 0 <= i < |t| ::
              || (t[i].cmd.CheckoutTheirs? && (t[i].reply.Raised? || !t[i].reply.ok))
              || (t[i].cmd == DiffUnmerged && t[i].reply.Done? && exists f | f in t[i].reply.out :: TrimBreaks(f) != f)
  {
    hide TrimBreaks;
    var d :| d in t && d.cmd.StashDrop? && Succeeded(d);
    var m :| m in t && MissesFile(m);
  }
}
