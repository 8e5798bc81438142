/** The usual optional-value wrapper. */
module Options {
  datatype Option<+T> = None | Some(value: T)
}

/**
 * The Python string builtins the scripts rely on (`in`, `find`, `split`,
 * `join`, `strip`, and whitespace splitting), written out over `seq<char>`.
 */
module Text {
  import opened Options

  // ---------------------------------------------------------------------
  // Substrings
  // ---------------------------------------------------------------------

  /** `t` occurs in `s` starting at index `i`. */
  predicate OccursAt(s: string, t: string, i: int) {
    0 <= i && i + |t| <= |s| && s[i..i + |t|] == t
  }

  /** Python's `t in s`. */
  predicate Contains(s: string, t: string) {
    exists i :: 0 <= i <= |s| && OccursAt(s, t, i)
  }

  /** A one-character string occurs exactly where that character stands. */
  lemma CharOccurs(s: string, c: char)
    ensures Contains(s, [c]) <==> c in s
  {
    if c in s {
      var i :| 0 <= i < |s| && s[i] == c;
      assert s[i..i + 1] == [c];
      assert OccursAt(s, [c], i);
    }
    if Contains(s, [c]) {
      var i :| 0 <= i <= |s| && OccursAt(s, [c], i);
      assert s[i] == s[i..i + 1][0];
    }
  }

  /** Python's `s.find(t, start)`: the lowest index at or after `start` where `t` occurs. */
  function FindFrom(s: string, t: string, start: nat): (r: Option<nat>)
    ensures r.Some? ==> start <= r.value && OccursAt(s, t, r.value)
    ensures r.Some? ==> forall j :: start <= j < r.value ==> !OccursAt(s, t, j)
    ensures r.None? ==> forall j :: start <= j ==> !OccursAt(s, t, j)
    decreases |s| - start
  {
    if start + |t| > |s| then None
    else if s[start..start + |t|] == t then Some(start)
    else FindFrom(s, t, start + 1)
  }

  /** Python's `s.find(t)`, with `None` for -1. */
  function Find(s: string, t: string): Option<nat> {
    FindFrom(s, t, 0)
  }

  /** `Find` fails exactly when `t` is not a substring. */
  lemma FindContains(s: string, t: string)
    ensures Find(s, t).Some? <==> Contains(s, t)
  {
    if Find(s, t).Some? {
      assert OccursAt(s, t, Find(s, t).value);
    }
  }

  // ---------------------------------------------------------------------
  // split and join on a separator
  // ---------------------------------------------------------------------

  /**
   * The pieces of `s[start..]` separated by `sep`, found left to right as
   * CPython's `str.split` does.
   */
  function SplitFrom(s: string, sep: string, start: nat): (pieces: seq<string>)
    requires sep != "" && start <= |s|
    ensures |pieces| >= 1
    decreases |s| - start
  {
    match FindFrom(s, sep, start)
    case None => [s[start..]]
    case Some(k) => [s[start..k]] + SplitFrom(s, sep, k + |sep|)
  }

  /** Python's `s.split(sep)` for a non-empty separator. */
  function Split(s: string, sep: string): (pieces: seq<string>)
    requires sep != ""
    ensures |pieces| >= 1
  {
    SplitFrom(s, sep, 0)
  }

  /** The last element of a non-empty sequence (Python's `xs[-1]`). */
  function Last<T>(xs: seq<T>): T
    requires xs != []
  {
    xs[|xs| - 1]
  }

  /** Python's `sep.join(pieces)`. */
  function Join(pieces: seq<string>, sep: string): string {
    if pieces == [] then ""
    else if |pieces| == 1 then pieces[0]
    else pieces[0] + sep + Join(pieces[1..], sep)
  }

  /** A split yields more than one piece exactly when the separator occurs. */
  lemma SplitCount(s: string, sep: string)
    requires sep != ""
    ensures |Split(s, sep)| > 1 <==> Contains(s, sep)
  {
    FindContains(s, sep);
  }

  /** A slice between `start` and the next occurrence of `sep` does not contain `sep`. */
  lemma GapFree(s: string, sep: string, start: nat, k: nat)
    requires sep != "" && start <= k <= |s|
    requires forall j :: start <= j < k ==> !OccursAt(s, sep, j)
    ensures !Contains(s[start..k], sep)
  {
    if Contains(s[start..k], sep) {
      var j :| 0 <= j <= k - start && OccursAt(s[start..k], sep, j);
      var w := s[start..k];
      assert j + |sep| <= |w|;
      var u, v := w[j..j + |sep|], s[start + j..start + j + |sep|];
      assert forall i :: 0 <= i < |u| ==> u[i] == v[i];
      assert u == v;
      assert OccursAt(s, sep, start + j);
    }
  }

  /** No piece of a split contains the separator. */
  lemma {:induction false} SplitFromPiecesFree(s: string, sep: string, start: nat)
    requires sep != "" && start <= |s|
    ensures forall i :: 0 <= i < |SplitFrom(s, sep, start)| ==> !Contains(SplitFrom(s, sep, start)[i], sep)
    decreases |s| - start
  {
    match FindFrom(s, sep, start)
    case None =>
      GapFree(s, sep, start, |s|);
      assert s[start..|s|] == s[start..];
    case Some(k) =>
      SplitFromPiecesFree(s, sep, k + |sep|);
      GapFree(s, sep, start, k);
      assert SplitFrom(s, sep, start) == [s[start..k]] + SplitFrom(s, sep, k + |sep|);
  }

  /** No piece of `s.split(sep)` contains `sep`. */
  lemma SplitPiecesFree(s: string, sep: string)
    requires sep != ""
    ensures forall i :: 0 <= i < |Split(s, sep)| ==> !Contains(Split(s, sep)[i], sep)
  {
    SplitFromPiecesFree(s, sep, 0);
  }

  /** Cutting out an occurrence and putting it back changes nothing. */
  lemma Reassemble(s: string, t: string, start: nat, k: nat)
    requires start <= k && OccursAt(s, t, k)
    ensures s[start..k] + t + s[k + |t|..] == s[start..]
  {
    assert s[start..k] + s[k..k + |t|] == s[start..k + |t|];
  }

  /** Joining the pieces of a split with the same separator gives back the text. */
  lemma {:induction false} SplitFromJoin(s: string, sep: string, start: nat)
    requires sep != "" && start <= |s|
    ensures Join(SplitFrom(s, sep, start), sep) == s[start..]
    decreases |s| - start
  {
    match FindFrom(s, sep, start)
    case None =>
    case Some(k) =>
      var tail := SplitFrom(s, sep, k + |sep|);
      var pieces := [s[start..k]] + tail;
      assert SplitFrom(s, sep, start) == pieces;
      assert Join(pieces, sep) == s[start..k] + sep + Join(tail, sep) by {
        assert pieces[0] == s[start..k] && pieces[1..] == tail;
      }
      SplitFromJoin(s, sep, k + |sep|);
      Reassemble(s, sep, start, k);
  }

  /** `sep.join(s.split(sep)) == s`. */
  lemma SplitJoin(s: string, sep: string)
    requires sep != ""
    ensures Join(Split(s, sep), sep) == s
  {
    SplitFromJoin(s, sep, 0);
  }

  /**
   * The first piece runs from `start` to the first separator after it, or
   * to the end when there is none.
   */
  lemma SplitFromHead(s: string, sep: string, start: nat)
    requires sep != "" && start <= |s|
    ensures var h := SplitFrom(s, sep, start)[0];
      start + |h| <= |s| && s[start..start + |h|] == h
      && (start + |h| == |s| || OccursAt(s, sep, start + |h|))
      && forall j :: start <= j < start + |h| ==> !OccursAt(s, sep, j)
  {
  }

  /** The position of the last separator in `s[start..]`, found left to right as `split` does. */
  function LastSep(s: string, sep: string, start: nat): (r: Option<nat>)
    requires sep != "" && start <= |s|
    ensures r.Some? ==> start <= r.value && OccursAt(s, sep, r.value)
    decreases |s| - start
  {
    match FindFrom(s, sep, start)
    case None => None
    case Some(k) =>
      match LastSep(s, sep, k + |sep|)
      case None => Some(k)
      case Some(j) => Some(j)
  }

  /**
   * Where the last piece of `s[start..].split(sep)` begins: right after
   * the last separator, or at `start` when there is none.
   */
  function LastCut(s: string, sep: string, start: nat): (p: nat)
    requires sep != "" && start <= |s|
    ensures start <= p <= |s|
  {
    match LastSep(s, sep, start)
    case None => start
    case Some(j) => j + |sep|
  }

  /** The cut sits right after a separator, unless it is `start` itself. */
  lemma LastCutPlaced(s: string, sep: string, start: nat)
    requires sep != "" && start <= |s|
    ensures var p := LastCut(s, sep, start);
      p == start || (p >= |sep| && OccursAt(s, sep, p - |sep|))
  {
    match LastSep(s, sep, start)
    case None =>
    case Some(j) =>
      assert LastCut(s, sep, start) - |sep| == j;
  }

  /** After a separator at `k`, the cut is the cut of the rest. */
  lemma LastCutSkip(s: string, sep: string, start: nat, k: nat)
    requires sep != "" && start <= |s| && FindFrom(s, sep, start) == Some(k)
    ensures OccursAt(s, sep, k) && k + |sep| <= |s|
    ensures LastCut(s, sep, start) == LastCut(s, sep, k + |sep|)
  {
    assert OccursAt(s, sep, k);
  }

  /** The last piece is the suffix from `LastCut`. */
  lemma {:induction false} SplitFromLast(s: string, sep: string, start: nat)
    requires sep != "" && start <= |s|
    ensures Last(SplitFrom(s, sep, start)) == s[LastCut(s, sep, start)..]
    decreases |s| - start
  {
    match FindFrom(s, sep, start)
    case None =>
      LastOfFinalSplit(s, sep, start);
    case Some(k) =>
      LastOfLaterSplit(s, sep, start, k);
      LastCutSkip(s, sep, start, k);
      SplitFromLast(s, sep, k + |sep|);
  }

  /** With no separator left, the last piece is everything from `start`. */
  lemma LastOfFinalSplit(s: string, sep: string, start: nat)
    requires sep != "" && start <= |s| && FindFrom(s, sep, start).None?
    ensures Last(SplitFrom(s, sep, start)) == s[start..] && LastCut(s, sep, start) == start
  {
    assert SplitFrom(s, sep, start) == [s[start..]];
  }

  /** After a separator at `k`, the last piece is the last piece of the rest. */
  lemma LastOfLaterSplit(s: string, sep: string, start: nat, k: nat)
    requires sep != "" && start <= |s| && FindFrom(s, sep, start) == Some(k)
    ensures OccursAt(s, sep, k) && k + |sep| <= |s|
    ensures Last(SplitFrom(s, sep, start)) == Last(SplitFrom(s, sep, k + |sep|))
  {
    assert OccursAt(s, sep, k);
    var tail := SplitFrom(s, sep, k + |sep|);
    assert SplitFrom(s, sep, start) == [s[start..k]] + tail;
    LastAfterHead(s[start..k], tail);
  }

  /** Putting an element in front does not change the last one. */
  lemma LastAfterHead<T>(x: T, tail: seq<T>)
    requires tail != []
    ensures Last([x] + tail) == Last(tail)
  {
  }

  // ---------------------------------------------------------------------
  // strip of one character
  // ---------------------------------------------------------------------

  /** Every character of `s` is `c`. */
  predicate AllChar(s: string, c: char) {
    forall i :: 0 <= i < |s| ==> s[i] == c
  }

  /** Where the leading run of `c` from `i` ends: the first index at or after `i` not holding `c`. */
  function LeadEnd(s: string, c: char, i: nat): (n: nat)
    requires i <= |s|
    ensures i <= n <= |s|
    ensures forall k :: i <= k < n ==> s[k] == c
    ensures n == |s| || s[n] != c
    decreases |s| - i
  {
    if i < |s| && s[i] == c then LeadEnd(s, c, i + 1) else i
  }

  /** Where the trailing run of `c` before `j` starts, going back no further than `lo`. */
  function TrailStart(s: string, c: char, lo: nat, j: nat): (n: nat)
    requires lo <= j <= |s|
    ensures lo <= n <= j
    ensures forall k :: n <= k < j ==> s[k] == c
    ensures n == lo || s[n - 1] != c
    decreases j
  {
    if j > lo && s[j - 1] == c then TrailStart(s, c, lo, j - 1) else j
  }

  /**
   * Python's `s.strip(c)`: `s` is a run of `c`, then the result, then a run
   * of `c`, and the result neither starts nor ends with `c`.
   */
  function StripChar(s: string, c: char): (r: string)
    ensures |r| <= |s|
    ensures r == [] || (r[0] != c && r[|r| - 1] != c)
  {
    var a := LeadEnd(s, c, 0);
    s[a..TrailStart(s, c, a, |s|)]
  }

  /** What `strip` removes: `s` is a run of `c` of length `a`, then the result, then a run of `c`. */
  lemma StripCharParts(s: string, c: char) returns (a: nat)
    ensures var r := StripChar(s, c);
      a + |r| <= |s| && s[a..a + |r|] == r && AllChar(s[..a], c) && AllChar(s[a + |r|..], c)
  {
    a := LeadEnd(s, c, 0);
    var b := TrailStart(s, c, a, |s|);
    assert StripChar(s, c) == s[a..b];
    assert forall k :: 0 <= k < a ==> s[..a][k] == s[k];
    assert forall k :: 0 <= k < |s| - b ==> s[b..][k] == s[b + k];
  }

  /** Stripping `c` leaves nothing exactly when the string is all `c`. */
  lemma StripCharEmpty(s: string, c: char)
    ensures StripChar(s, c) == "" <==> AllChar(s, c)
  {
    var a := LeadEnd(s, c, 0);
    if AllChar(s, c) {
      assert a == |s|;
    }
  }

  // ---------------------------------------------------------------------
  // Whitespace, str.split() and ' '.join
  // ---------------------------------------------------------------------

  /**
   * The characters Python's `str.isspace()` accepts (also what `\s` and
   * `\S` mean in the scripts' regular expressions).
   */
  predicate IsSpace(c: char) {
    var n := c as int;
    (9 <= n <= 13) || (28 <= n <= 32) || n == 0x85 || n == 0xA0 || n == 0x1680
    || (0x2000 <= n <= 0x200A) || n == 0x2028 || n == 0x2029 || n == 0x202F
    || n == 0x205F || n == 0x3000
  }

  /** `not s.strip()`: the string is empty or only whitespace. */
  predicate Blank(s: string) {
    forall i :: 0 <= i < |s| ==> IsSpace(s[i])
  }

  /** The length of the longest prefix of `s` without whitespace. */
  function NonSpaceRun(s: string): (n: nat)
    ensures n <= |s|
    ensures forall i :: 0 <= i < n ==> !IsSpace(s[i])
    ensures n == |s| || IsSpace(s[n])
    decreases |s|
  {
    if s != [] && !IsSpace(s[0]) then 1 + NonSpaceRun(s[1..]) else 0
  }

  /** A word of `str.split()`: non-empty, no whitespace. */
  predicate IsWord(w: string) {
    w != [] && forall i :: 0 <= i < |w| ==> !IsSpace(w[i])
  }

  /** Python's `s.split()` with no argument: the maximal runs of non-whitespace. */
  function Words(s: string): (ws: seq<string>)
    ensures forall i :: 0 <= i < |ws| ==> IsWord(ws[i])
    ensures ws == [] <==> Blank(s)
    decreases |s|
  {
    if s == [] then []
    else if IsSpace(s[0]) then Words(s[1..])
    else
      var n := NonSpaceRun(s);
      [s[..n]] + Words(s[n..])
  }

  /** A string is collapsed: no whitespace at either end, and every whitespace character is a lone space. */
  predicate Collapsed(t: string) {
    && (t == [] || (!IsSpace(t[0]) && !IsSpace(t[|t| - 1])))
    && forall i :: 0 <= i < |t| && IsSpace(t[i]) ==>
         t[i] == ' ' && 0 < i < |t| - 1 && !IsSpace(t[i + 1])
  }

  /** Joining words with single spaces yields a collapsed string. */
  lemma {:induction false} JoinWordsCollapsed(ws: seq<string>)
    requires forall i :: 0 <= i < |ws| ==> IsWord(ws[i])
    ensures Collapsed(Join(ws, " "))
    ensures Join(ws, " ") == [] <==> ws == []
  {
    if |ws| > 1 {
      JoinWordsCollapsed(ws[1..]);
      var w, j := ws[0], Join(ws[1..], " ");
      var t := w + " " + j;
      assert IsWord(w);
      forall i | 0 <= i < |t| && IsSpace(t[i])
        ensures t[i] == ' ' && 0 < i < |t| - 1 && !IsSpace(t[i + 1])
      {
        if i > |w| {
          assert t[i] == j[i - |w| - 1];
          if i + 1 < |t| {
            assert t[i + 1] == j[i - |w|];
          }
        } else if i == |w| {
          assert t[i + 1] == j[0];
        }
      }
      assert t[|t| - 1] == j[|j| - 1];
    }
  }

  /** Splitting joined words gives back the same words: the `' '.join` / `split()` round trip. */
  lemma {:induction false} WordsOfJoin(ws: seq<string>)
    requires forall i :: 0 <= i < |ws| ==> IsWord(ws[i])
    ensures Words(Join(ws, " ")) == ws
  {
    if ws == [] {
    } else if |ws| == 1 {
      WordsOfWord(ws[0], "");
      assert ws[0] + "" == ws[0];
    } else {
      var j := Join(ws[1..], " ");
      assert Join(ws, " ") == ws[0] + (" " + j);
      WordsOfJoin(ws[1..]);
      WordsOfWord(ws[0], " " + j);
      WordsAfterSpace(j);
      assert ws == [ws[0]] + ws[1..];
    }
  }

  /** A leading space adds no word. */
  lemma WordsAfterSpace(j: string)
    ensures Words(" " + j) == Words(j)
  {
    assert (" " + j)[1..] == j;
  }

  /** A word followed by nothing or by whitespace is split off as the first word. */
  lemma WordsOfWord(w: string, rest: string)
    requires IsWord(w) && (rest == [] || IsSpace(rest[0]))
    ensures Words(w + rest) == [w] + Words(rest)
  {
    var t := w + rest;
    if rest == [] {
      assert t == w;
      NonSpaceRunWhole(w);
    } else {
      NonSpaceRunPrefix(t, |w|);
    }
    assert t[..|w|] == w && t[|w|..] == rest;
  }

  /** A string without whitespace is one run. */
  lemma {:induction false} NonSpaceRunWhole(s: string)
    requires forall i :: 0 <= i < |s| ==> !IsSpace(s[i])
    ensures NonSpaceRun(s) == |s|
    decreases |s|
  {
    if s != [] {
      NonSpaceRunWhole(s[1..]);
    }
  }

  /** If the first `k` characters are not whitespace and the next one is, the run is `k` long. */
  lemma {:induction false} NonSpaceRunPrefix(s: string, k: nat)
    requires k < |s| && IsSpace(s[k])
    requires forall i :: 0 <= i < k ==> !IsSpace(s[i])
    ensures NonSpaceRun(s) == k
    decreases k
  {
    if k > 0 {
      NonSpaceRunPrefix(s[1..], k - 1);
    }
  }

  /** `' '.join(s.split())`: every whitespace run becomes one space, and the ends are trimmed. */
  function Collapse(s: string): (r: string)
    ensures Collapsed(r)
    ensures r == [] <==> Blank(s)
  {
    var ws := Words(s);
    JoinWordsCollapsed(ws);
    Join(ws, " ")
  }

  /** A lone non-whitespace character collapses to itself. */
  lemma CollapseSingle(c: char)
    requires !IsSpace(c)
    ensures Collapse([c]) == [c]
  {
    WordsOfWord([c], "");
    assert [c] + "" == [c];
  }

  /** Collapsing twice is collapsing once. */
  lemma CollapseIdempotent(s: string)
    ensures Collapse(Collapse(s)) == Collapse(s)
  {
    WordsOfJoin(Words(s));
  }

  /** Collapsing keeps the words of the text, in order. */
  lemma CollapseKeepsWords(s: string)
    ensures Words(Collapse(s)) == Words(s)
  {
    WordsOfJoin(Words(s));
  }

  /**
   * An independent one-pass reading of `' '.join(s.split())`: every
   * non-whitespace character is kept in order, whitespace is dropped, and
   * one space is put between two kept characters exactly when whitespace
   * separated them.
   */
  function Squeeze(s: string): string
    decreases |s|
  {
    if s == [] then []
    else if IsSpace(s[0]) then Squeeze(s[1..])
    else
      var r := Squeeze(s[1..]);
      if |s| > 1 && IsSpace(s[1]) && r != [] then [s[0]] + " " + r else [s[0]] + r
  }

  /** A word standing before whitespace or the end is kept whole, followed by one space if anything comes after. */
  lemma {:induction false} SqueezeWord(w: string, rest: string)
    requires IsWord(w) && (rest == [] || IsSpace(rest[0]))
    ensures Squeeze(w + rest) == w + (if Squeeze(rest) == [] then [] else " " + Squeeze(rest))
    decreases |w|
  {
    var t := w + rest;
    assert t[0] == w[0] && t[1..] == w[1..] + rest;
    if |w| == 1 {
      assert t[1..] == rest;
      assert w == [w[0]];
    } else {
      assert IsWord(w[1..]);
      SqueezeWord(w[1..], rest);
      assert t[1] == w[1];
      assert w == [w[0]] + w[1..];
    }
  }

  /** The collapse is the one-pass squeeze. */
  lemma {:induction false} CollapseIsSqueeze(s: string)
    ensures Collapse(s) == Squeeze(s)
    decreases |s|
  {
    if s != [] {
      if IsSpace(s[0]) {
        CollapseIsSqueeze(s[1..]);
      } else {
        var n := NonSpaceRun(s);
        var w, rest := s[..n], s[n..];
        CollapseIsSqueeze(rest);
        assert s == w + rest;
        assert Words(s) == [w] + Words(rest);
        JoinHead(w, Words(rest));
        SqueezeWord(w, rest);
      }
    }
  }

  /** Joining a word in front of a list of words. */
  lemma JoinHead(w: string, ws: seq<string>)
    ensures Join([w] + ws, " ") == w + (if ws == [] then [] else " " + Join(ws, " "))
  {
    assert ([w] + ws)[1..] == ws;
  }

  /** The words of `s` are the only list of words whose space-joined form is the squeeze of `s`. */
  lemma WordsUnique(s: string, vs: seq<string>)
    requires forall i :: 0 <= i < |vs| ==> IsWord(vs[i])
    ensures Join(vs, " ") == Squeeze(s) <==> vs == Words(s)
  {
    CollapseIsSqueeze(s);
    WordsOfJoin(vs);
    WordsOfJoin(Words(s));
  }

  /** Every character of `s` has property `P`. */
  predicate Within(s: string, P: char -> bool) {
    forall i :: 0 <= i < |s| ==> P(s[i])
  }

  /** The words of a string are made of its own characters. */
  lemma {:induction false} WordsWithin(s: string, P: char -> bool)
    requires Within(s, P)
    ensures forall k :: 0 <= k < |Words(s)| ==> Within(Words(s)[k], P)
    decreases |s|
  {
    if s != [] {
      if IsSpace(s[0]) {
        WordsWithin(s[1..], P);
      } else {
        var n := NonSpaceRun(s);
        WordsWithin(s[n..], P);
        assert Words(s) == [s[..n]] + Words(s[n..]);
      }
    }
  }

  /** Joining with single spaces adds nothing but spaces. */
  lemma {:induction false} JoinWithin(ws: seq<string>, P: char -> bool)
    requires P(' ') && forall k :: 0 <= k < |ws| ==> Within(ws[k], P)
    ensures Within(Join(ws, " "), P)
  {
    if |ws| > 1 {
      JoinWithin(ws[1..], P);
      var w, j := ws[0], Join(ws[1..], " ");
      var t := w + " " + j;
      forall i | 0 <= i < |t| ensures P(t[i]) {
        if i > |w| {
          assert t[i] == j[i - |w| - 1];
        } else if i < |w| {
          assert t[i] == w[i];
        }
      }
    }
  }

  /**
   * Collapsing whitespace adds no new kind of character: a class that holds
   * the input and the space holds the output.
   */
  lemma CollapseWithin(s: string, P: char -> bool)
    requires P(' ') && Within(s, P)
    ensures Within(Collapse(s), P)
  {
    WordsWithin(s, P);
    JoinWithin(Words(s), P);
  }
}
