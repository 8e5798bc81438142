/**
 * `preprocess_comment`: the chain of `re.sub(pattern, '', comment)` passes
 * that removes links, tags and handles, the per-variant script filter, and
 * the final whitespace collapse.
 */
module Normalizer {
  import opened Options
  import opened Text

  // ---------------------------------------------------------------------
  // The three patterns removed with an empty replacement
  // ---------------------------------------------------------------------

  /** The patterns of the three removal passes, in the order they run. */
  datatype Pattern =
    | Link    // http[s]?://\S+|www\.\S+
    | Tag     // <.*?>
    | Handle  // @\w+

  /**
   * `http[s]?://\S+|www\.\S+` matches at the start of `s`: one of the three
   * prefixes followed by at least one non-whitespace character.
   */
  predicate LinkAt(s: string) {
    || (|s| > 7 && s[..7] == "http://" && !IsSpace(s[7]))
    || (|s| > 8 && s[..8] == "https://" && !IsSpace(s[8]))
    || (|s| > 4 && s[..4] == "www." && !IsSpace(s[4]))
  }

  /**
   * Where the lazy `.*?>` after a `<` stops: the first `>` of `t`, provided no
   * newline comes before it (`.` does not match a newline).
   */
  function TagClose(t: string): (r: Option<nat>)
    ensures r.Some? ==> r.value < |t| && t[r.value] == '>'
    ensures r.Some? ==> forall j :: 0 <= j < r.value ==> t[j] != '>' && t[j] != '\n'
    ensures r.None? ==> forall j :: 0 <= j < |t| && t[j] == '>' ==> '\n' in t[..j]
    decreases |t|
  {
    if t == [] then None
    else if t[0] == '>' then Some(0)
    else if t[0] == '\n' then None
    else
      TagCloseUnfold(t);
      match TagClose(t[1..])
      case None => None
      case Some(k) => Some(k + 1)
  }

  /** A `>` of `t` past its first character is a `>` of `t[1..]`. */
  lemma TagCloseUnfold(t: string)
    requires t != []
    ensures forall j :: 1 <= j < |t| ==> t[j] == t[1..][j - 1] && t[..j] == [t[0]] + t[1..][..j - 1]
  {
  }

  /** `<.*?>` matches at the start of `s`. */
  predicate TagAt(s: string) {
    s != [] && s[0] == '<' && TagClose(s[1..]).Some?
  }

  /** A character of `\w`, restricted to ASCII letters, digits and `_`. */
  predicate IsWordChar(c: char) {
    ('a' <= c <= 'z') || ('A' <= c <= 'Z') || ('0' <= c <= '9') || c == '_'
  }

  /** The length of the longest prefix of `s` made of word characters. */
  function WordRun(s: string): (n: nat)
    ensures n <= |s|
    ensures forall i :: 0 <= i < n ==> IsWordChar(s[i])
    ensures n == |s| || !IsWordChar(s[n])
    decreases |s|
  {
    if s != [] && IsWordChar(s[0]) then 1 + WordRun(s[1..]) else 0
  }

  /** `@\w+` matches at the start of `s`. */
  predicate HandleAt(s: string) {
    |s| >= 2 && s[0] == '@' && IsWordChar(s[1])
  }

  /** Pattern `p` matches at the start of `s`. */
  predicate MatchesAt(p: Pattern, s: string) {
    match p
    case Link => LinkAt(s)
    case Tag => TagAt(s)
    case Handle => HandleAt(s)
  }

  /**
   * The length of the match of `p` at the start of `s`, 0 when there is none.
   * A link runs to the next whitespace (`\S+` is greedy), a tag to its first
   * `>`, a handle over all following word characters.
   */
  function MatchLen(p: Pattern, s: string): (n: nat)
    ensures n <= |s|
    ensures n > 0 <==> MatchesAt(p, s)
    ensures p.Link? && n > 0 ==> (n == |s| || IsSpace(s[n])) && forall j :: 0 <= j < n ==> !IsSpace(s[j])
    ensures p.Tag? && n > 0 ==> n >= 2 && TagClose(s[1..]) == Some(n - 2)
    ensures p.Tag? && n > 0 ==> s[n - 1] == '>' && forall j :: 1 <= j < n - 1 ==> s[j] != '\n' && s[j] != '>'
    ensures p.Handle? && n > 0 ==> (n == |s| || !IsWordChar(s[n])) && forall j :: 1 <= j < n ==> IsWordChar(s[j])
  {
    if !MatchesAt(p, s) then 0
    else
      match p
      case Link => NonSpaceRun(s)
      case Tag =>
        var k := TagClose(s[1..]).value;
        assert forall j :: 1 <= j < k + 1 ==> s[j] == s[1..][j - 1];
        k + 2
      case Handle =>
        var m := WordRun(s[1..]);
        assert forall j :: 1 <= j < 1 + m ==> s[j] == s[1..][j - 1];
        1 + m
  }

  /**
   * `re.sub(p, '', s)`: scanning left to right, each match is removed and
   * scanning resumes after it; a character where nothing matches is kept.
   */
  function Sub(p: Pattern, s: string): (r: string)
    ensures |r| <= |s|
    decreases |s|
  {
    if s == [] then []
    else
      var n := MatchLen(p, s);
      if n > 0 then Sub(p, s[n..]) else [s[0]] + Sub(p, s[1..])
  }

  /** Where nothing matches, the first character is kept and scanning moves on by one. */
  lemma SubKeepHead(p: Pattern, s: string)
    requires s != [] && !MatchesAt(p, s)
    ensures Sub(p, s) == [s[0]] + Sub(p, s[1..])
  {
    assert MatchLen(p, s) == 0;
  }

  /** Where a match starts, it is dropped and scanning resumes after it. */
  lemma SubDropMatch(p: Pattern, s: string)
    requires MatchesAt(p, s)
    ensures Sub(p, s) == Sub(p, s[MatchLen(p, s)..])
  {
  }

  /** A lone character where nothing matches passes unchanged. */
  lemma SubSingle(p: Pattern, c: char)
    requires !MatchesAt(p, [c])
    ensures Sub(p, [c]) == [c]
  {
    SubKeepHead(p, [c]);
    assert [c][1..] == [];
  }

  /** No match of `p` starts anywhere in `s`. */
  predicate Clean(p: Pattern, s: string) {
    forall i :: 0 <= i <= |s| ==> !MatchesAt(p, s[i..])
  }

  /** Removing matches from text that has none changes nothing. */
  lemma {:induction false} SubIdentity(p: Pattern, s: string)
    requires Clean(p, s)
    ensures Sub(p, s) == s
    decreases |s|
  {
    if s != [] {
      assert s[0..] == s;
      forall i | 0 <= i <= |s[1..]| ensures !MatchesAt(p, s[1..][i..]) {
        assert s[1..][i..] == s[i + 1..];
      }
      SubIdentity(p, s[1..]);
    }
  }

  /** A clean tail stays clean behind a head where nothing matches. */
  lemma CleanCons(p: Pattern, c: char, r: string)
    requires Clean(p, r) && !MatchesAt(p, [c] + r)
    ensures Clean(p, [c] + r)
  {
    var x := [c] + r;
    forall i | 1 <= i <= |x| ensures !MatchesAt(p, x[i..]) {
      assert x[i..] == r[i - 1..];
    }
    assert x[0..] == x;
  }

  /** No pattern matches at whitespace, so a leading whitespace character is kept. */
  lemma SpaceKept(p: Pattern, u: string)
    requires u != [] && IsSpace(u[0])
    ensures Sub(p, u) == [u[0]] + Sub(p, u[1..])
  {
    assert !MatchesAt(p, u);
  }

  // ---------------------------------------------------------------------
  // The link pass leaves no link behind
  // ---------------------------------------------------------------------

  /** A link is already a link within its leading non-whitespace run. */
  lemma LinkInRun(x: string)
    requires LinkAt(x)
    ensures LinkAt(x[..NonSpaceRun(x)])
  {
    var n := NonSpaceRun(x);
    var y := x[..n];
    if |x| > 7 && x[..7] == "http://" && !IsSpace(x[7]) {
      assert forall i :: 0 <= i < 7 ==> x[i] == "http://"[i];
      assert n > 7;
      assert y[..7] == x[..7] && y[7] == x[7];
    } else if |x| > 8 && x[..8] == "https://" && !IsSpace(x[8]) {
      assert forall i :: 0 <= i < 8 ==> x[i] == "https://"[i];
      assert n > 8;
      assert y[..8] == x[..8] && y[8] == x[8];
    } else {
      assert forall i :: 0 <= i < 4 ==> x[i] == "www."[i];
      assert n > 4;
      assert y[..4] == x[..4] && y[4] == x[4];
    }
  }

  /** A link at the start of a prefix is a link of the whole string. */
  lemma LinkExtends(x: string, y: string)
    requires LinkAt(x) && |x| <= |y| && y[..|x|] == x
    ensures LinkAt(y)
  {
    assert forall i :: 0 <= i < |x| ==> y[i] == x[i];
    if |x| > 7 && x[..7] == "http://" && !IsSpace(x[7]) {
      assert y[..7] == x[..7];
    } else if |x| > 8 && x[..8] == "https://" && !IsSpace(x[8]) {
      assert y[..8] == x[..8];
    } else {
      assert y[..4] == x[..4];
    }
  }

  /**
   * The leading non-whitespace run of the link pass's output is copied from
   * its input: after a removed link comes whitespace or the end.
   */
  lemma {:induction false} LinkPassRun(t: string)
    ensures var r := Sub(Link, t); var m := NonSpaceRun(r);
      m <= |t| && r[..m] == t[..m]
    decreases |t|
  {
    if t != [] {
      if MatchesAt(Link, t) {
        LinkPassAfterMatch(t);
      } else {
        SubKeepHead(Link, t);
        LinkPassRun(t[1..]);
        RunCopiedCons(t[0], Sub(Link, t[1..]), t[1..]);
        assert [t[0]] + t[1..] == t;
      }
    }
  }

  /** A leading run copied from `u` stays copied behind the same first character. */
  lemma RunCopiedCons(c: char, r: string, u: string)
    requires NonSpaceRun(r) <= |u| && r[..NonSpaceRun(r)] == u[..NonSpaceRun(r)]
    ensures var m := NonSpaceRun([c] + r);
      m <= 1 + |u| && ([c] + r)[..m] == ([c] + u)[..m]
  {
    if !IsSpace(c) {
      RunAfterHead(c, r);
      ConsPrefix(c, r, u, NonSpaceRun(r));
    }
  }

  /** Right after a removed link the output starts with whitespace or ends. */
  lemma LinkPassAfterMatch(t: string)
    requires MatchesAt(Link, t)
    ensures NonSpaceRun(Sub(Link, t)) == 0
  {
    var n := MatchLen(Link, t);
    SubDropMatch(Link, t);
    if n < |t| {
      SpaceKept(Link, t[n..]);
    }
  }

  /** A link at the head of the link pass's output was a link of its input already. */
  lemma LinkPassHeadFrom(s: string)
    requires s != [] && LinkAt([s[0]] + Sub(Link, s[1..]))
    ensures LinkAt(s)
  {
    var r' := Sub(Link, s[1..]);
    var x := [s[0]] + r';
    LinkInRun(x);
    LinkPassRun(s[1..]);
    RunCopiedCons(s[0], r', s[1..]);
    assert [s[0]] + s[1..] == s;
    LinkExtends(x[..NonSpaceRun(x)], s);
  }

  /** A non-whitespace character in front extends the leading run by one. */
  lemma RunAfterHead(c: char, r: string)
    requires !IsSpace(c)
    ensures NonSpaceRun([c] + r) == 1 + NonSpaceRun(r)
  {
    assert ([c] + r)[1..] == r;
  }

  /** Equal prefixes stay equal behind the same first character. */
  lemma ConsPrefix(c: char, a: string, b: string, m: nat)
    requires m <= |a| && m <= |b| && a[..m] == b[..m]
    ensures ([c] + a)[..1 + m] == ([c] + b)[..1 + m]
  {
    assert ([c] + a)[..1 + m] == [c] + a[..m];
    assert ([c] + b)[..1 + m] == [c] + b[..m];
  }

  /** A character the link pass keeps does not start a link in its output. */
  lemma LinkPassHead(s: string)
    requires s != [] && !LinkAt(s)
    ensures !LinkAt([s[0]] + Sub(Link, s[1..]))
  {
    if LinkAt([s[0]] + Sub(Link, s[1..])) {
      LinkPassHeadFrom(s);
    }
  }

  /** After the link pass no link is left: no `http://`, `https://` or `www.` is directly followed by a non-whitespace character. */
  lemma {:induction false} LinkPassClean(s: string)
    ensures Clean(Link, Sub(Link, s))
    decreases |s|
  {
    if s != [] {
      if MatchLen(Link, s) > 0 {
        LinkPassClean(s[MatchLen(Link, s)..]);
      } else {
        LinkPassClean(s[1..]);
        LinkPassHead(s);
        CleanCons(Link, s[0], Sub(Link, s[1..]));
      }
    }
  }

  // ---------------------------------------------------------------------
  // The tag pass leaves no tag behind
  // ---------------------------------------------------------------------

  /** Text in which no `>` comes before a newline keeps that shape through the tag pass. */
  lemma {:induction false} TagPassUnclosed(t: string)
    requires TagClose(t).None?
    ensures TagClose(Sub(Tag, t)).None?
    decreases |t|
  {
    if t != [] {
      assert !TagAt(t);
      var r := Sub(Tag, t);
      assert r == [t[0]] + Sub(Tag, t[1..]);
      assert r[1..] == Sub(Tag, t[1..]);
      if t[0] != '\n' {
        TagPassUnclosed(t[1..]);
      }
    }
  }

  /** A character the tag pass keeps does not start a tag in its output. */
  lemma TagPassHead(s: string)
    requires s != [] && !TagAt(s)
    ensures !TagAt([s[0]] + Sub(Tag, s[1..]))
  {
    var x := [s[0]] + Sub(Tag, s[1..]);
    assert x[1..] == Sub(Tag, s[1..]);
    if s[0] == '<' {
      TagPassUnclosed(s[1..]);
    }
  }

  /** After the tag pass no `<.*?>` is left. */
  lemma {:induction false} TagPassClean(s: string)
    ensures Clean(Tag, Sub(Tag, s))
    decreases |s|
  {
    if s != [] {
      if MatchLen(Tag, s) > 0 {
        TagPassClean(s[MatchLen(Tag, s)..]);
      } else {
        TagPassClean(s[1..]);
        TagPassHead(s);
        CleanCons(Tag, s[0], Sub(Tag, s[1..]));
      }
    }
  }

  // ---------------------------------------------------------------------
  // The handle pass leaves no handle behind
  // ---------------------------------------------------------------------

  /** Text that does not start with a word character keeps that shape through the handle pass. */
  lemma {:induction false} HandlePassStart(t: string)
    requires t == [] || !IsWordChar(t[0])
    ensures var r := Sub(Handle, t); r == [] || !IsWordChar(r[0])
    decreases |t|
  {
    if t != [] {
      var n := MatchLen(Handle, t);
      if n > 0 {
        HandlePassStart(t[n..]);
      }
    }
  }

  /** A character the handle pass keeps does not start a handle in its output. */
  lemma HandlePassHead(s: string)
    requires s != [] && !HandleAt(s)
    ensures !HandleAt([s[0]] + Sub(Handle, s[1..]))
  {
    var x := [s[0]] + Sub(Handle, s[1..]);
    assert x[1..] == Sub(Handle, s[1..]);
    if s[0] == '@' {
      HandlePassStart(s[1..]);
    }
  }

  /** After the handle pass no `@` is directly followed by a word character. */
  lemma {:induction false} HandlePassClean(s: string)
    ensures Clean(Handle, Sub(Handle, s))
    decreases |s|
  {
    if s != [] {
      if MatchLen(Handle, s) > 0 {
        HandlePassClean(s[MatchLen(Handle, s)..]);
      } else {
        HandlePassClean(s[1..]);
        HandlePassHead(s);
        CleanCons(Handle, s[0], Sub(Handle, s[1..]));
      }
    }
  }

  /** Every pass leaves no match of its own pattern. */
  lemma SubClean(p: Pattern, s: string)
    ensures Clean(p, Sub(p, s))
  {
    match p
    case Link => LinkPassClean(s);
    case Tag => TagPassClean(s);
    case Handle => HandlePassClean(s);
  }

  /** Running a pass twice is running it once. */
  lemma SubIdempotent(p: Pattern, s: string)
    ensures Sub(p, Sub(p, s)) == Sub(p, s)
  {
    SubClean(p, s);
    SubIdentity(p, Sub(p, s));
  }

  /** A later pass can put a link back together: removing a tag joins `www` and `.x`. */
  lemma LinkReassembled()
    ensures Sub(Link, "www<b>.x") == "www<b>.x"
    ensures Sub(Tag, "www<b>.x") == "www.x" && LinkAt("www.x")
  {
    ExampleLinkPassKeeps();
    ExampleTagRemoved();
    ExampleIsLink();
  }

  /** The link pass leaves `www<b>.x` as it is. */
  lemma ExampleLinkPassKeeps()
    ensures Sub(Link, "www<b>.x") == "www<b>.x"
  {
    ExampleHasNoLink();
    SubIdentity(Link, "www<b>.x");
  }

  /** `www.x` is a link. */
  lemma ExampleIsLink()
    ensures LinkAt("www.x")
  {
    assert "www.x"[..4] == "www.";
  }

  /** No link starts anywhere in `www<b>.x`. */
  lemma ExampleHasNoLink()
    ensures Clean(Link, "www<b>.x")
  {
    var s := "www<b>.x";
    forall i | 0 <= i <= |s| ensures !MatchesAt(Link, s[i..]) {
      if LinkAt(s[i..]) {
        LinkShape(s[i..]);
      }
    }
  }

  /** A link starts with `h` or with `www.`. */
  lemma LinkShape(x: string)
    requires LinkAt(x)
    ensures |x| > 4 && (x[0] == 'h' || (x[0] == 'w' && x[3] == '.'))
  {
    if |x| > 7 && x[..7] == "http://" {
      assert x[0] == x[..7][0];
    } else if |x| > 8 && x[..8] == "https://" {
      assert x[0] == x[..8][0];
    } else {
      assert x[0] == x[..4][0] && x[3] == x[..4][3];
    }
  }

  /** The tag pass turns `www<b>.x` into `www.x`. */
  lemma ExampleTagRemoved()
    ensures Sub(Tag, "www<b>.x") == "www.x"
  {
    SubSingle(Tag, 'x');
    assert ".x"[1..] == "x";
    SubKeepHead(Tag, ".x");
    assert TagClose("b>.x") == Some(1);
    assert "<b>.x"[1..] == "b>.x";
    assert MatchLen(Tag, "<b>.x") == 3;
    SubDropMatch(Tag, "<b>.x");
    assert "<b>.x"[3..] == ".x";
    assert "w<b>.x"[1..] == "<b>.x";
    SubKeepHead(Tag, "w<b>.x");
    assert "ww<b>.x"[1..] == "w<b>.x";
    SubKeepHead(Tag, "ww<b>.x");
    assert "www<b>.x"[1..] == "ww<b>.x";
    SubKeepHead(Tag, "www<b>.x");
  }

  // ---------------------------------------------------------------------
  // The script filter
  // ---------------------------------------------------------------------

  /** Which characters survive the `[^...]+` removal of each variant. */
  datatype ScriptPolicy =
    | AsciiTelugu            // [^\x00-\x7F\u0C00-\u0C7F]+
    | AsciiDevanagariTelugu  // [^\x00-\x7F\u0900-\u097F\u0C00-\u0C7F]+
    | AnyScript              // no filter step at all

  /** The characters the policy keeps. */
  predicate Allowed(policy: ScriptPolicy, c: char) {
    var n := c as int;
    match policy
    case AsciiTelugu => n <= 0x7F || (0x0C00 <= n <= 0x0C7F)
    case AsciiDevanagariTelugu => n <= 0x7F || (0x0900 <= n <= 0x097F) || (0x0C00 <= n <= 0x0C7F)
    case AnyScript => true
  }

  /** Removing every run of characters outside the policy: a filter on characters. */
  function Keep(policy: ScriptPolicy, s: string): (r: string)
    ensures |r| <= |s|
    ensures forall i :: 0 <= i < |r| ==> Allowed(policy, r[i])
    decreases |s|
  {
    if s == [] then []
    else (if Allowed(policy, s[0]) then [s[0]] else []) + Keep(policy, s[1..])
  }

  /** The filter distributes over concatenation. */
  lemma {:induction false} KeepAppend(policy: ScriptPolicy, a: string, b: string)
    ensures Keep(policy, a + b) == Keep(policy, a) + Keep(policy, b)
    decreases |a|
  {
    if a != [] {
      var ab := a + b;
      assert ab[0] == a[0] && ab[1..] == a[1..] + b;
      var h := if Allowed(policy, a[0]) then [a[0]] else [];
      assert Keep(policy, ab) == h + Keep(policy, a[1..] + b);
      KeepAppend(policy, a[1..], b);
      assert Keep(policy, a) == h + Keep(policy, a[1..]);
    } else {
      assert a + b == b;
    }
  }

  /** A lone character is kept exactly when the policy allows it. */
  lemma KeepOne(policy: ScriptPolicy, c: char)
    ensures Keep(policy, [c]) == if Allowed(policy, c) then [c] else []
  {
    assert [c][1..] == [];
  }

  /** An allowed character of the input is kept, in place between what the filter makes of its two sides. */
  lemma KeepsAllowed(policy: ScriptPolicy, a: string, c: char, b: string)
    requires Allowed(policy, c)
    ensures Keep(policy, a + [c] + b) == Keep(policy, a) + [c] + Keep(policy, b)
  {
    KeepAppend(policy, a + [c], b);
    KeepAppend(policy, a, [c]);
    KeepOne(policy, c);
  }

  /** A character outside the policy is dropped and nothing else changes. */
  lemma DropsDisallowed(policy: ScriptPolicy, a: string, c: char, b: string)
    requires !Allowed(policy, c)
    ensures Keep(policy, a + [c] + b) == Keep(policy, a) + Keep(policy, b)
  {
    KeepAppend(policy, a + [c], b);
    KeepAppend(policy, a, [c]);
    KeepOne(policy, c);
    assert Keep(policy, a) + [] == Keep(policy, a);
  }

  /** Text already within the policy passes unchanged; with no filter that is every text. */
  lemma {:induction false} KeepIdentity(policy: ScriptPolicy, s: string)
    requires forall i :: 0 <= i < |s| ==> Allowed(policy, s[i])
    ensures Keep(policy, s) == s
    decreases |s|
  {
    if s != [] {
      KeepIdentity(policy, s[1..]);
    }
  }

  // ---------------------------------------------------------------------
  // The whole preprocessing chain
  // ---------------------------------------------------------------------

  /**
   * `preprocess_comment`: optionally return `""` for an empty comment, then
   * unescape, remove links, tags and handles, filter the script, and
   * collapse whitespace. The result is collapsed and within the policy.
   */
  function Preprocess(policy: ScriptPolicy, guardEmpty: bool, unescape: string -> string, comment: string): (r: string)
    ensures Collapsed(r)
    ensures forall i :: 0 <= i < |r| ==> Allowed(policy, r[i])
    ensures guardEmpty && comment == "" ==> r == ""
  {
    if guardEmpty && comment == "" then ""
    else
      var cleaned := Keep(policy, Sub(Handle, Sub(Tag, Sub(Link, unescape(comment)))));
      CollapseWithin(cleaned, c => Allowed(policy, c));
      Collapse(cleaned)
  }

  /** Preprocessing twice collapses nothing further: the collapse step is idempotent on the output. */
  lemma PreprocessCollapseStable(policy: ScriptPolicy, guardEmpty: bool, unescape: string -> string, comment: string)
    ensures var r := Preprocess(policy, guardEmpty, unescape, comment); Collapse(r) == r
  {
    var r := Preprocess(policy, guardEmpty, unescape, comment);
    if !(guardEmpty && comment == "") {
      CollapseIdempotent(Keep(policy, Sub(Handle, Sub(Tag, Sub(Link, unescape(comment))))));
    }
  }

  /** An emoji survives only where there is no script filter. */
  lemma EmojiOnlyWithoutFilter(unescape: string -> string, comment: string)
    requires unescape(comment) == "\U{1F600}"
    ensures Preprocess(AnyScript, false, unescape, comment) == "\U{1F600}"
    ensures Preprocess(AsciiTelugu, true, unescape, comment) == ""
    ensures Preprocess(AsciiDevanagariTelugu, false, unescape, comment) == ""
  {
    var c := '\U{1F600}';
    assert "\U{1F600}" == [c];
    SubSingle(Link, c);
    SubSingle(Tag, c);
    SubSingle(Handle, c);
    KeepOne(AnyScript, c);
    KeepOne(AsciiTelugu, c);
    KeepOne(AsciiDevanagariTelugu, c);
    CollapseSingle(c);
    assert Blank([]);
  }
}
