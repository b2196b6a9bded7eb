/**
 * The two regular expressions of the ArchiveLeaf parser hook, as matchers at an
 * index of the wikitext.
 *
 *   `\n{2,}(<(?:transcription|transliteration|translation)[> ])`
 *   `(<\/(?:transcription|transliteration|translation)>)\n{2,}`
 *
 * Each matcher returns the index just after the match, or the start index when
 * nothing matches there. Both patterns are deterministic at a position:
 * `\n{2,}` is greedy and what follows it starts with `<`, and the names consist
 * of lower-case letters, so the name in a tag is exactly the run of letters
 * after `<` (or `</`) and the character after it is not a letter. Backtracking
 * therefore never finds another match, which `OpenTagMatchesAlternation` and
 * `CloseTagMatchesAlternation` state.
 *
 * The alternation is a parameter `tags`; the hook uses the three names the
 * extension registers.
 */
module TagPatterns {

  /** The three parser tags the extension registers. */
  const ParserTags: set<string> := {"transcription", "transliteration", "translation"}

  predicate IsLetter(c: char) {
    'a' <= c <= 'z'
  }

  /** Every name is a non-empty run of lower-case letters. */
  ghost predicate AreWords(tags: set<string>) {
    forall w :: w in tags ==> w != [] && forall x :: 0 <= x < |w| ==> IsLetter(w[x])
  }

  lemma ParserTagsAreWords()
    ensures AreWords(ParserTags)
  {
    forall w | w in ParserTags ensures w != [] && forall x :: 0 <= x < |w| ==> IsLetter(w[x]) {
    }
  }

  // ---------------------------------------------------------------------------
  // Small facts about sequences, stated over plain variables
  // ---------------------------------------------------------------------------

  lemma ConcatAssoc(a: string, b: string, c: string)
    ensures a + (b + c) == (a + b) + c
  {
  }

  lemma SliceSplit(s: string, a: nat, b: nat)
    requires a <= b <= |s|
    ensures s[a..] == s[a..b] + s[b..]
  {
  }

  /** Two equal windows agree on every sub-window. */
  lemma WindowAgrees(s: string, i: nat, t: string, j: nat, n: nat, a: nat, b: nat)
    requires i + n <= |s| && j + n <= |t| && t[j..j + n] == s[i..i + n] && a <= b <= n
    ensures t[j + a..j + b] == s[i + a..i + b]
    ensures a < b ==> t[j + a] == s[i + a]
  {
    var u, v := t[j + a..j + b], s[i + a..i + b];
    forall x | 0 <= x < |u| ensures u[x] == v[x] {
      assert t[j + a + x] == t[j..j + n][a + x];
      assert s[i + a + x] == s[i..i + n][a + x];
    }
  }

  /** A window of `p + q` that lies inside `q`. */
  lemma WindowOfSuffix(p: string, q: string, k: nat, n: nat)
    requires k + n <= |q|
    ensures (p + q)[|p| + k..|p| + k + n] == q[k..k + n]
  {
  }

  // ---------------------------------------------------------------------------
  // Runs and names
  // ---------------------------------------------------------------------------

  /** Index just after the run of `c` that starts at index `i` (a greedy `c*`). */
  function RunEnd(s: string, i: nat, c: char): (e: nat)
    requires i <= |s|
    ensures i <= e <= |s|
    decreases |s| - i
  {
    if i < |s| && s[i] == c then RunEnd(s, i + 1, c) else i
  }

  lemma {:induction false} RunEndShape(s: string, i: nat, c: char)
    requires i <= |s|
    ensures forall k :: i <= k < RunEnd(s, i, c) ==> s[k] == c
    ensures RunEnd(s, i, c) < |s| ==> s[RunEnd(s, i, c)] != c
    decreases |s| - i
  {
    if i < |s| && s[i] == c {
      RunEndShape(s, i + 1, c);
    }
  }

  /** A run is determined by its characters and the one that ends it. */
  lemma {:induction false} RunEndAgrees(s: string, i: nat, t: string, j: nat, c: char)
    requires i <= |s| && j <= |t| && RunEnd(s, i, c) < |s|
    requires j + (RunEnd(s, i, c) - i) < |t|
    requires t[j..j + (RunEnd(s, i, c) - i) + 1] == s[i..RunEnd(s, i, c) + 1]
    ensures RunEnd(t, j, c) == j + (RunEnd(s, i, c) - i)
    decreases |s| - i
  {
    var n := RunEnd(s, i, c) - i;
    assert s[i..RunEnd(s, i, c) + 1] == s[i..i + n + 1];
    WindowAgrees(s, i, t, j, n + 1, 0, 1);
    if n > 0 {
      WindowAgrees(s, i, t, j, n + 1, 1, n + 1);
      assert RunEnd(s, i + 1, c) == RunEnd(s, i, c);
      RunEndAgrees(s, i + 1, t, j + 1, c);
    }
  }

  /** Text put in front shifts a run and does not change it. */
  lemma {:induction false} RunEndShift(p: string, q: string, k: nat, c: char)
    requires k <= |q|
    ensures RunEnd(p + q, |p| + k, c) == |p| + RunEnd(q, k, c)
    decreases |q| - k
  {
    if k < |q| {
      assert (p + q)[|p| + k] == q[k];
      RunEndShift(p, q, k + 1, c);
    }
  }

  /** A run of `c` at the end of `p` continues into `q`. */
  lemma {:induction false} RunEndConcat(p: string, q: string, k: nat, c: char)
    requires k <= |p| && forall x :: k <= x < |p| ==> p[x] == c
    ensures RunEnd(p + q, k, c) == |p| + RunEnd(q, 0, c)
    decreases |p| - k
  {
    if k == |p| {
      RunEndShift(p, q, 0, c);
    } else {
      assert (p + q)[k] == p[k];
      RunEndConcat(p, q, k + 1, c);
    }
  }

  /** The run of letters starting at index `i`: the name in a tag. */
  function NameAt(s: string, i: nat): (w: string)
    requires i <= |s|
    ensures i + |w| <= |s|
    decreases |s| - i
  {
    if i < |s| && IsLetter(s[i]) then [s[i]] + NameAt(s, i + 1) else []
  }

  lemma {:induction false} NameAtShape(s: string, i: nat)
    requires i <= |s|
    ensures forall k :: 0 <= k < |NameAt(s, i)| ==> NameAt(s, i)[k] == s[i + k]
    ensures forall k :: i <= k < i + |NameAt(s, i)| ==> IsLetter(s[k])
    ensures i + |NameAt(s, i)| < |s| ==> !IsLetter(s[i + |NameAt(s, i)|])
    decreases |s| - i
  {
    if i < |s| && IsLetter(s[i]) {
      NameAtShape(s, i + 1);
    }
  }

  /** A name is determined by its letters and the character that ends it. */
  lemma {:induction false} NameAtAgrees(s: string, i: nat, t: string, j: nat)
    requires i <= |s| && j <= |t|
    requires i + |NameAt(s, i)| < |s| && j + |NameAt(s, i)| < |t|
    requires t[j..j + |NameAt(s, i)| + 1] == s[i..i + |NameAt(s, i)| + 1]
    ensures NameAt(t, j) == NameAt(s, i)
    decreases |s| - i
  {
    var n := |NameAt(s, i)|;
    WindowAgrees(s, i, t, j, n + 1, 0, 1);
    if n > 0 {
      WindowAgrees(s, i, t, j, n + 1, 1, n + 1);
      NameAtAgrees(s, i + 1, t, j + 1);
    }
  }

  /** A word followed by a non-letter is the name at that index. */
  lemma {:induction false} NameAtWord(s: string, i: nat, w: string)
    requires i + |w| < |s| && !IsLetter(s[i + |w|])
    requires forall x :: 0 <= x < |w| ==> IsLetter(w[x]) && s[i + x] == w[x]
    ensures NameAt(s, i) == w
    decreases |w|
  {
    if w != [] {
      forall x | 0 <= x < |w[1..]|
        ensures IsLetter(w[1..][x]) && s[i + 1 + x] == w[1..][x]
      {
        assert w[1..][x] == w[x + 1];
      }
      NameAtWord(s, i + 1, w[1..]);
      assert w == [w[0]] + w[1..];
    }
  }

  // ---------------------------------------------------------------------------
  // Tags
  // ---------------------------------------------------------------------------

  /** Length of `<(?:tags)[> ]` at index `i`, or 0. */
  function OpenTagAt(s: string, i: nat, tags: set<string>): (n: nat)
    requires i <= |s|
    ensures i + n <= |s|
  {
    if i < |s| && s[i] == '<' then
      var w := NameAt(s, i + 1);
      if w in tags && i + 1 + |w| < |s| && (s[i + 1 + |w|] == '>' || s[i + 1 + |w|] == ' ')
      then |w| + 2
      else 0
    else 0
  }

  /** Length of `</(?:tags)>` at index `i`, or 0. */
  function CloseTagAt(s: string, i: nat, tags: set<string>): (n: nat)
    requires i <= |s|
    ensures i + n <= |s|
  {
    if i + 1 < |s| && s[i] == '<' && s[i + 1] == '/' then
      var w := NameAt(s, i + 2);
      if w in tags && i + 2 + |w| < |s| && s[i + 2 + |w|] == '>' then |w| + 3 else 0
    else 0
  }

  /** An opening tag the matcher finds spells `<`, a name of `tags`, and `>` or a space. */
  lemma OpenTagSpells(s: string, i: nat, tags: set<string>)
    requires i <= |s| && OpenTagAt(s, i, tags) > 0
    ensures NameAt(s, i + 1) in tags && i + |NameAt(s, i + 1)| + 2 <= |s|
    ensures s[i..i + |NameAt(s, i + 1)| + 2]
      == ['<'] + NameAt(s, i + 1) + [s[i + |NameAt(s, i + 1)| + 1]]
  {
    var w := NameAt(s, i + 1);
    NameAtShape(s, i + 1);
    assert s[i..i + |w| + 2] == ['<'] + w + [s[i + |w| + 1]];
  }

  /** Text that spells `<`, a word and a non-letter has that word as the name after `<`. */
  lemma SpelledName(s: string, i: nat, w: string, d: nat)
    requires i + |w| + d + 1 <= |s| && d <= 2 && (forall x :: 0 <= x < |w| ==> IsLetter(w[x]))
    requires forall x :: 0 <= x < |w| ==> s[i + d + x] == w[x]
    requires !IsLetter(s[i + d + |w|])
    ensures NameAt(s, i + d) == w
  {
    NameAtWord(s, i + d, w);
  }

  /** With names made of letters, the tag matcher finds exactly the alternatives the
      regular expression accepts: `<`, some name of `tags`, then `>` or a space. */
  lemma OpenTagMatchesAlternation(s: string, i: nat, tags: set<string>, w: string)
    requires i <= |s| && AreWords(tags) && w in tags
    ensures (i + |w| + 2 <= |s| && s[i..i + |w| + 2] == ['<'] + w + [s[i + |w| + 1]]
             && (s[i + |w| + 1] == '>' || s[i + |w| + 1] == ' '))
        <==> (OpenTagAt(s, i, tags) > 0 && NameAt(s, i + 1) == w)
  {
    if OpenTagAt(s, i, tags) > 0 && NameAt(s, i + 1) == w {
      OpenTagSpells(s, i, tags);
    }
    if i + |w| + 2 <= |s| && s[i..i + |w| + 2] == ['<'] + w + [s[i + |w| + 1]]
       && (s[i + |w| + 1] == '>' || s[i + |w| + 1] == ' ') {
      var u := s[i..i + |w| + 2];
      forall x | 0 <= x < |w|
        ensures s[i + 1 + x] == w[x]
      {
        assert s[i + 1 + x] == u[1 + x];
      }
      assert s[i] == u[0];
      SpelledName(s, i, w, 1);
    }
  }

  /** The same for closing tags: `</`, some name of `tags`, then `>`. */
  lemma CloseTagMatchesAlternation(s: string, i: nat, tags: set<string>, w: string)
    requires i <= |s| && AreWords(tags) && w in tags
    ensures (i + |w| + 3 <= |s| && s[i..i + |w| + 3] == "</" + w + ">")
        <==> (CloseTagAt(s, i, tags) > 0 && NameAt(s, i + 2) == w)
  {
    if CloseTagAt(s, i, tags) > 0 && NameAt(s, i + 2) == w {
      NameAtShape(s, i + 2);
      assert s[i..i + |w| + 3] == "</" + w + ">";
    }
    if i + |w| + 3 <= |s| && s[i..i + |w| + 3] == "</" + w + ">" {
      var u := s[i..i + |w| + 3];
      forall x | 0 <= x < |w|
        ensures s[i + 2 + x] == w[x]
      {
        assert s[i + 2 + x] == u[2 + x];
      }
      assert s[i] == u[0] && s[i + 1] == u[1] && s[i + 2 + |w|] == u[2 + |w|];
      SpelledName(s, i, w, 2);
    }
  }

  /** An opening tag is `<`, letters, and `>` or a space: no newline in it. */
  lemma OpenTagShape(s: string, i: nat, tags: set<string>)
    requires i <= |s| && OpenTagAt(s, i, tags) > 0
    ensures s[i] == '<'
    ensures forall k :: i <= k < i + OpenTagAt(s, i, tags) ==> s[k] != '\n'
  {
    NameAtShape(s, i + 1);
  }

  /** A closing tag is `</`, letters and `>`: no newline in it and no `<` after its start. */
  lemma CloseTagShape(s: string, i: nat, tags: set<string>)
    requires i <= |s| && CloseTagAt(s, i, tags) > 0
    ensures CloseTagAt(s, i, tags) >= 3 && s[i] == '<'
    ensures forall k :: i <= k < i + CloseTagAt(s, i, tags) ==> s[k] != '\n'
    ensures forall k :: i < k < i + CloseTagAt(s, i, tags) ==> s[k] != '<'
  {
    NameAtShape(s, i + 2);
  }

  /** Whether an opening tag stands at an index depends only on the tag's own characters. */
  lemma OpenTagAgrees(s: string, i: nat, t: string, j: nat, tags: set<string>)
    requires i <= |s| && j <= |t| && OpenTagAt(s, i, tags) > 0 && j + OpenTagAt(s, i, tags) <= |t|
    requires t[j..j + OpenTagAt(s, i, tags)] == s[i..i + OpenTagAt(s, i, tags)]
    ensures OpenTagAt(t, j, tags) == OpenTagAt(s, i, tags)
  {
    var n := OpenTagAt(s, i, tags);
    var k := |NameAt(s, i + 1)|;
    assert n == k + 2;
    WindowAgrees(s, i, t, j, n, 0, 1);
    WindowAgrees(s, i, t, j, n, 1, k + 2);
    NameAtAgrees(s, i + 1, t, j + 1);
    WindowAgrees(s, i, t, j, n, k + 1, k + 2);
  }

  /** Whether a closing tag stands at an index depends only on the tag's own characters. */
  lemma CloseTagAgrees(s: string, i: nat, t: string, j: nat, tags: set<string>)
    requires i <= |s| && j <= |t| && CloseTagAt(s, i, tags) > 0 && j + CloseTagAt(s, i, tags) <= |t|
    requires t[j..j + CloseTagAt(s, i, tags)] == s[i..i + CloseTagAt(s, i, tags)]
    ensures CloseTagAt(t, j, tags) == CloseTagAt(s, i, tags)
  {
    var n := CloseTagAt(s, i, tags);
    var k := |NameAt(s, i + 2)|;
    assert n == k + 3;
    WindowAgrees(s, i, t, j, n, 0, 1);
    WindowAgrees(s, i, t, j, n, 1, 2);
    WindowAgrees(s, i, t, j, n, 2, k + 3);
    NameAtAgrees(s, i + 2, t, j + 2);
    WindowAgrees(s, i, t, j, n, k + 2, k + 3);
  }

  /** Text put in front does not change an opening tag. */
  lemma OpenTagShift(p: string, q: string, k: nat, tags: set<string>)
    requires k <= |q|
    ensures OpenTagAt(p + q, |p| + k, tags) == OpenTagAt(q, k, tags)
  {
    var pq := p + q;
    if OpenTagAt(q, k, tags) > 0 {
      WindowOfSuffix(p, q, k, OpenTagAt(q, k, tags));
      OpenTagAgrees(q, k, pq, |p| + k, tags);
    } else if OpenTagAt(pq, |p| + k, tags) > 0 {
      WindowOfSuffix(p, q, k, OpenTagAt(pq, |p| + k, tags));
      OpenTagAgrees(pq, |p| + k, q, k, tags);
    }
  }

  /** Text put in front does not change a closing tag. */
  lemma CloseTagShift(p: string, q: string, k: nat, tags: set<string>)
    requires k <= |q|
    ensures CloseTagAt(p + q, |p| + k, tags) == CloseTagAt(q, k, tags)
  {
    var pq := p + q;
    if CloseTagAt(q, k, tags) > 0 {
      WindowOfSuffix(p, q, k, CloseTagAt(q, k, tags));
      CloseTagAgrees(q, k, pq, |p| + k, tags);
    } else if CloseTagAt(pq, |p| + k, tags) > 0 {
      WindowOfSuffix(p, q, k, CloseTagAt(pq, |p| + k, tags));
      CloseTagAgrees(pq, |p| + k, q, k, tags);
    }
  }

  // ---------------------------------------------------------------------------
  // The two patterns
  // ---------------------------------------------------------------------------

  /** End of the match of `\n{2,}(<(?:tags)[> ])` at index `i`, or `i` when there is none. */
  function BlankBeforeOpenEnd(s: string, i: nat, tags: set<string>): (e: nat)
    requires i <= |s|
    ensures i <= e <= |s|
  {
    var t := RunEnd(s, i, '\n');
    if t >= i + 2 && OpenTagAt(s, t, tags) > 0 then t + OpenTagAt(s, t, tags) else i
  }

  /** End of the match of `(<\/(?:tags)>)\n{2,}` at index `i`, or `i` when there is none. */
  function BlankAfterCloseEnd(s: string, i: nat, tags: set<string>): (e: nat)
    requires i <= |s|
    ensures i <= e <= |s|
  {
    var k := CloseTagAt(s, i, tags);
    if k > 0 && RunEnd(s, i + k, '\n') >= i + k + 2 then RunEnd(s, i + k, '\n') else i
  }

  /** The parts of a match of the first pattern: two or more newlines, then a tag. */
  lemma BlankBeforeOpenParts(s: string, i: nat, tags: set<string>)
    requires i <= |s| && BlankBeforeOpenEnd(s, i, tags) > i
    ensures i + 2 <= RunEnd(s, i, '\n') < BlankBeforeOpenEnd(s, i, tags)
    ensures BlankBeforeOpenEnd(s, i, tags) == RunEnd(s, i, '\n') + OpenTagAt(s, RunEnd(s, i, '\n'), tags)
    ensures OpenTagAt(s, RunEnd(s, i, '\n'), tags) > 0
  {
  }

  /** The parts of a match of the second pattern: a closing tag, then two or more newlines. */
  lemma BlankAfterCloseParts(s: string, i: nat, tags: set<string>)
    requires i <= |s| && BlankAfterCloseEnd(s, i, tags) > i
    ensures CloseTagAt(s, i, tags) > 0
    ensures i + CloseTagAt(s, i, tags) + 2 <= BlankAfterCloseEnd(s, i, tags)
    ensures BlankAfterCloseEnd(s, i, tags) == RunEnd(s, i + CloseTagAt(s, i, tags), '\n')
  {
  }

  /** A match of the first pattern depends only on the characters it spans. */
  lemma BlankBeforeOpenAgrees(s: string, i: nat, t: string, j: nat, tags: set<string>)
    requires i <= |s| && j <= |t| && BlankBeforeOpenEnd(s, i, tags) > i
    requires j + (BlankBeforeOpenEnd(s, i, tags) - i) <= |t|
    requires t[j..j + (BlankBeforeOpenEnd(s, i, tags) - i)] == s[i..BlankBeforeOpenEnd(s, i, tags)]
    ensures BlankBeforeOpenEnd(t, j, tags) == j + (BlankBeforeOpenEnd(s, i, tags) - i)
  {
    var e, r := BlankBeforeOpenEnd(s, i, tags), RunEnd(s, i, '\n');
    BlankBeforeOpenParts(s, i, tags);
    OpenTagShape(s, r, tags);
    var n, m := e - i, r - i;
    assert s[i..e] == s[i..i + n];
    WindowAgrees(s, i, t, j, n, 0, m + 1);
    RunEndAgrees(s, i, t, j, '\n');
    WindowAgrees(s, i, t, j, n, m, n);
    OpenTagAgrees(s, r, t, j + m, tags);
  }

  /** A match of the second pattern depends only on the characters it spans and the one
      after them. */
  lemma BlankAfterCloseAgrees(s: string, i: nat, t: string, j: nat, tags: set<string>)
    requires i <= |s| && j <= |t| && BlankAfterCloseEnd(s, i, tags) > i
    requires BlankAfterCloseEnd(s, i, tags) < |s| && j + (BlankAfterCloseEnd(s, i, tags) - i) < |t|
    requires t[j..j + (BlankAfterCloseEnd(s, i, tags) - i) + 1] == s[i..BlankAfterCloseEnd(s, i, tags) + 1]
    ensures BlankAfterCloseEnd(t, j, tags) == j + (BlankAfterCloseEnd(s, i, tags) - i)
  {
    var e, c := BlankAfterCloseEnd(s, i, tags), CloseTagAt(s, i, tags);
    BlankAfterCloseParts(s, i, tags);
    var n := e - i;
    assert s[i..e + 1] == s[i..i + n + 1];
    WindowAgrees(s, i, t, j, n + 1, 0, c);
    CloseTagAgrees(s, i, t, j, tags);
    WindowAgrees(s, i, t, j, n + 1, c, n + 1);
    assert s[i + c..e + 1] == s[i + c..i + n + 1];
    RunEndAgrees(s, i + c, t, j + c, '\n');
  }

  /** Text put in front does not change a match of the first pattern. */
  lemma BlankBeforeOpenShift(p: string, q: string, k: nat, tags: set<string>)
    requires k <= |q|
    ensures BlankBeforeOpenEnd(p + q, |p| + k, tags) == |p| + BlankBeforeOpenEnd(q, k, tags)
  {
    RunEndShift(p, q, k, '\n');
    var r := RunEnd(q, k, '\n');
    OpenTagShift(p, q, r, tags);
  }

  /** Text put in front does not change a match of the second pattern. */
  lemma BlankAfterCloseShift(p: string, q: string, k: nat, tags: set<string>)
    requires k <= |q|
    ensures BlankAfterCloseEnd(p + q, |p| + k, tags) == |p| + BlankAfterCloseEnd(q, k, tags)
  {
    CloseTagShift(p, q, k, tags);
    var c := CloseTagAt(q, k, tags);
    if c > 0 {
      RunEndShift(p, q, k + c, '\n');
    }
  }

  /** The first pattern cannot start anywhere but at a newline. */
  lemma BlankBeforeOpenNeedsNewline(s: string, i: nat, tags: set<string>)
    requires i < |s| && s[i] != '\n'
    ensures BlankBeforeOpenEnd(s, i, tags) == i
  {
  }

  /** The second pattern cannot start anywhere but at `<`. */
  lemma BlankAfterCloseNeedsLt(s: string, i: nat, tags: set<string>)
    requires i < |s| && s[i] != '<'
    ensures BlankAfterCloseEnd(s, i, tags) == i
  {
  }

  /** No run of two or more newlines stands right before an opening tag. */
  ghost predicate NoBlankBeforeOpen(s: string, tags: set<string>) {
    forall i :: 0 <= i <= |s| ==> BlankBeforeOpenEnd(s, i, tags) == i
  }

  /** No run of two or more newlines stands right after a closing tag. */
  ghost predicate NoBlankAfterClose(s: string, tags: set<string>) {
    forall i :: 0 <= i <= |s| ==> BlankAfterCloseEnd(s, i, tags) == i
  }

  // ---------------------------------------------------------------------------
  // Newlines removed: what both replacements must leave alone
  // ---------------------------------------------------------------------------

  /** `s` with every newline removed. */
  function StripNewlines(s: string): (r: string)
    ensures |r| <= |s|
  {
    if s == [] then [] else (if s[0] == '\n' then [] else [s[0]]) + StripNewlines(s[1..])
  }

  /** The stripped text holds no newline. */
  lemma {:induction false} StripNewlinesHasNone(s: string)
    ensures forall i :: 0 <= i < |StripNewlines(s)| ==> StripNewlines(s)[i] != '\n'
  {
    if s != [] {
      StripNewlinesHasNone(s[1..]);
    }
  }

  lemma {:induction false} StripNewlinesAppend(a: string, b: string)
    ensures StripNewlines(a + b) == StripNewlines(a) + StripNewlines(b)
  {
    if a != [] {
      assert (a + b)[1..] == a[1..] + b;
      StripNewlinesAppend(a[1..], b);
    } else {
      assert a + b == b;
    }
  }

  /** A run of newlines strips to nothing. */
  lemma {:induction false} StripNewlinesRun(s: string)
    requires forall i :: 0 <= i < |s| ==> s[i] == '\n'
    ensures StripNewlines(s) == []
  {
    if s != [] {
      StripNewlinesRun(s[1..]);
    }
  }

  /** Stripping commutes with cutting the input at `j`. */
  lemma StripNewlinesSplit(s: string, i: nat, j: nat, head: string, rest: string)
    requires i <= j <= |s|
    requires StripNewlines(head) == StripNewlines(s[i..j])
    requires StripNewlines(rest) == StripNewlines(s[j..])
    ensures StripNewlines(head + rest) == StripNewlines(s[i..])
  {
    SliceSplit(s, i, j);
    StripNewlinesAppend(head, rest);
    StripNewlinesAppend(s[i..j], s[j..]);
  }

  /** A run of newlines in front of `s[t..e]` strips like a single newline. */
  lemma StripNewlinesRunLine(s: string, i: nat, t: nat, e: nat)
    requires i <= t <= e <= |s|
    requires forall x :: i <= x < t ==> s[x] == '\n'
    ensures StripNewlines("\n" + s[t..e]) == StripNewlines(s[i..e])
  {
    var run, line := s[i..t], s[t..e];
    assert s[i..e] == run + line;
    forall x | 0 <= x < |run|
      ensures run[x] == '\n'
    {
      assert run[x] == s[i + x];
    }
    StripNewlinesAppend("\n", line);
    StripNewlinesAppend(run, line);
    StripNewlinesRun(run);
  }

  /** A run of newlines after `s[i..t]` strips like a single newline. */
  lemma StripNewlinesLineRun(s: string, i: nat, t: nat, e: nat)
    requires i <= t <= e <= |s|
    requires forall x :: t <= x < e ==> s[x] == '\n'
    ensures StripNewlines(s[i..t] + "\n") == StripNewlines(s[i..e])
  {
    var line, run := s[i..t], s[t..e];
    assert s[i..e] == line + run;
    forall x | 0 <= x < |run|
      ensures run[x] == '\n'
    {
      assert run[x] == s[t + x];
    }
    StripNewlinesAppend(line, "\n");
    StripNewlinesAppend(line, run);
    StripNewlinesRun(run);
  }
}
