/**
 * The two `preg_replace` calls of the ArchiveLeaf parser hook.
 *
 * `preg_replace` finds the leftmost match, replaces it, resumes after it and
 * copies everything between matches; the scanners below walk an index through
 * the text the same way. The first call turns `\n{2,}` before an opening tag
 * into one newline followed by the tag; the second turns `\n{2,}` after a
 * closing tag into the tag followed by one newline.
 *
 * What is proved about each: the output is never longer; it is the input
 * exactly when the input has no match; it has no match left (one pass is
 * enough); and only newlines are removed. The second replacement also creates
 * no match of the first, so the hook, which runs them in order, is idempotent.
 */
module Collapse {
  import opened TagPatterns

  // ---------------------------------------------------------------------------
  // Facts about plain strings that the scanner proofs share
  // ---------------------------------------------------------------------------

  /** Dropping the first character keeps a newline-free head newline-free. */
  lemma TailKeepsNoNewline(r: string, c: char, r': string, len: nat)
    requires r == [c] + r' && len <= |r|
    requires forall k :: 0 <= k < len ==> r[k] != '\n'
    ensures forall k :: 0 <= k < len - 1 ==> r'[k] != '\n'
  {
    forall k | 0 <= k < len - 1
      ensures r'[k] != '\n'
    {
      assert r'[k] == r[k + 1];
    }
  }

  /** A copied first character extends a copied prefix by one. */
  lemma ConsPrefix(r: string, r': string, s: string, i: nat, len: nat)
    requires 0 < len <= |r| && i + len <= |s| && r == [s[i]] + r'
    requires r'[..len - 1] == s[i + 1..i + len]
    ensures r[..len] == s[i..i + len]
  {
    assert r[..len] == [s[i]] + r'[..len - 1];
    assert s[i..i + len] == [s[i]] + s[i + 1..i + len];
  }

  /** Replacing the run of newlines at `t`, after the text `s[i..t]`, by one newline
      keeps the text. */
  lemma StripNewlinesTagRun(s: string, i: nat, t: nat, rest: string)
    requires i <= t <= |s|
    requires StripNewlines(rest) == StripNewlines(s[RunEnd(s, t, '\n')..])
    ensures StripNewlines(s[i..t] + "\n" + rest) == StripNewlines(s[i..])
  {
    var e := RunEnd(s, t, '\n');
    RunEndShape(s, t, '\n');
    StripNewlinesLineRun(s, i, t, e);
    StripNewlinesSplit(s, i, e, s[i..t] + "\n", rest);
  }

  /** Replacing the run of newlines at `i`, before the text up to `e`, by one newline
      keeps the text. */
  lemma StripNewlinesRunTag(s: string, i: nat, e: nat, rest: string)
    requires i <= e <= |s| && RunEnd(s, i, '\n') <= e
    requires StripNewlines(rest) == StripNewlines(s[e..])
    ensures StripNewlines("\n" + s[RunEnd(s, i, '\n')..e] + rest) == StripNewlines(s[i..])
  {
    RunEndShape(s, i, '\n');
    StripNewlinesRunLine(s, i, RunEnd(s, i, '\n'), e);
    StripNewlinesSplit(s, i, e, "\n" + s[RunEnd(s, i, '\n')..e], rest);
  }

  /** What lies between a closing tag and the end of the second pattern's match. */
  lemma BlankAfterCloseRun(s: string, i: nat, tags: set<string>)
    requires i < |s| && BlankAfterCloseEnd(s, i, tags) > i
    ensures i + CloseTagAt(s, i, tags) <= BlankAfterCloseEnd(s, i, tags)
    ensures forall x :: i + CloseTagAt(s, i, tags) <= x < BlankAfterCloseEnd(s, i, tags) ==> s[x] == '\n'
    ensures BlankAfterCloseEnd(s, i, tags) < |s| ==> s[BlankAfterCloseEnd(s, i, tags)] != '\n'
  {
    BlankAfterCloseParts(s, i, tags);
    RunEndShape(s, i + CloseTagAt(s, i, tags), '\n');
  }

  /** A closing tag followed by exactly one newline is no match of the second pattern. */
  lemma CloseTagThenOneNewline(s: string, i: nat, rest: string, tags: set<string>)
    requires i <= |s| && CloseTagAt(s, i, tags) > 0 && RunEnd(rest, 0, '\n') == 0
    ensures BlankAfterCloseEnd(s[i..i + CloseTagAt(s, i, tags)] + "\n" + rest, 0, tags) == 0
  {
    var c := CloseTagAt(s, i, tags);
    var tag := s[i..i + c];
    var r := tag + "\n" + rest;
    assert r[0..c] == tag;
    CloseTagAgrees(s, i, r, 0, tags);
    RunEndConcat(tag + "\n", rest, c, '\n');
  }

  /** A closing tag keeps its length when text follows it. */
  lemma CloseTagPrefix(s: string, i: nat, rest: string, tags: set<string>)
    requires i <= |s| && CloseTagAt(s, i, tags) > 0
    ensures CloseTagAt(s[i..i + CloseTagAt(s, i, tags)] + rest, 0, tags) == CloseTagAt(s, i, tags)
  {
    var c := CloseTagAt(s, i, tags);
    var r := s[i..i + c] + rest;
    assert r[0..c] == s[i..i + c];
    CloseTagAgrees(s, i, r, 0, tags);
  }

  /** A closing tag followed by at most one newline is no match of the second pattern. */
  lemma CloseTagThenShortRun(tag: string, rest: string, tags: set<string>)
    requires CloseTagAt(tag + rest, 0, tags) == |tag| > 0 && RunEnd(rest, 0, '\n') <= 1
    ensures BlankAfterCloseEnd(tag + rest, 0, tags) == 0
  {
    RunEndShift(tag, rest, 0, '\n');
  }

  /** Inside a closing tag that starts no match of the second pattern, no position
      starts one, and at most one newline follows the tag. */
  lemma CloseTagWithoutMatch(s: string, i: nat, tags: set<string>)
    requires i <= |s| && CloseTagAt(s, i, tags) > 0 && BlankAfterCloseEnd(s, i, tags) == i
    ensures forall x :: i <= x < i + CloseTagAt(s, i, tags) ==> BlankAfterCloseEnd(s, x, tags) == x
    ensures RunEnd(s, i + CloseTagAt(s, i, tags), '\n') <= i + CloseTagAt(s, i, tags) + 1
  {
    var c := CloseTagAt(s, i, tags);
    CloseTagShape(s, i, tags);
    forall x | i < x < i + c
      ensures BlankAfterCloseEnd(s, x, tags) == x
    {
      BlankAfterCloseNeedsLt(s, x, tags);
    }
  }

  // ---------------------------------------------------------------------------
  // First replacement: `\n{2,}(<(?:tags)[> ])` becomes `\n$1`
  // ---------------------------------------------------------------------------

  /** The first replacement, scanning from index `i`. */
  function CollapseBeforeOpenFrom(s: string, i: nat, tags: set<string>): string
    requires i <= |s|
    decreases |s| - i
  {
    if i == |s| then []
    else if BlankBeforeOpenEnd(s, i, tags) > i then
      "\n" + s[RunEnd(s, i, '\n')..BlankBeforeOpenEnd(s, i, tags)]
        + CollapseBeforeOpenFrom(s, BlankBeforeOpenEnd(s, i, tags), tags)
    else [s[i]] + CollapseBeforeOpenFrom(s, i + 1, tags)
  }

  function CollapseBeforeOpen(s: string, tags: set<string>): string {
    CollapseBeforeOpenFrom(s, 0, tags)
  }

  lemma CollapseBeforeOpenCopy(s: string, i: nat, tags: set<string>)
    requires i < |s| && BlankBeforeOpenEnd(s, i, tags) == i
    ensures CollapseBeforeOpenFrom(s, i, tags) == [s[i]] + CollapseBeforeOpenFrom(s, i + 1, tags)
  {
  }

  lemma CollapseBeforeOpenMatch(s: string, i: nat, tags: set<string>)
    requires i < |s| && BlankBeforeOpenEnd(s, i, tags) > i
    ensures i + 2 <= RunEnd(s, i, '\n') < BlankBeforeOpenEnd(s, i, tags)
    ensures CollapseBeforeOpenFrom(s, i, tags)
      == "\n" + s[RunEnd(s, i, '\n')..BlankBeforeOpenEnd(s, i, tags)]
        + CollapseBeforeOpenFrom(s, BlankBeforeOpenEnd(s, i, tags), tags)
  {
    BlankBeforeOpenParts(s, i, tags);
  }

  /** The output starts with the same character as the input. */
  lemma CollapseBeforeOpenFromHead(s: string, i: nat, tags: set<string>)
    requires i < |s|
    ensures |CollapseBeforeOpenFrom(s, i, tags)| > 0 && CollapseBeforeOpenFrom(s, i, tags)[0] == s[i]
  {
    if BlankBeforeOpenEnd(s, i, tags) > i {
      CollapseBeforeOpenMatch(s, i, tags);
      RunEndShape(s, i, '\n');
    } else {
      CollapseBeforeOpenCopy(s, i, tags);
    }
  }

  /** The replacement never lengthens the text. */
  lemma {:induction false} CollapseBeforeOpenFromBounds(s: string, i: nat, tags: set<string>)
    requires i <= |s|
    ensures |CollapseBeforeOpenFrom(s, i, tags)| <= |s| - i
    decreases |s| - i
  {
    if i < |s| {
      var e := BlankBeforeOpenEnd(s, i, tags);
      if e > i {
        CollapseBeforeOpenMatch(s, i, tags);
        var t := RunEnd(s, i, '\n');
        CollapseBeforeOpenFromBounds(s, e, tags);
        assert |CollapseBeforeOpenFrom(s, i, tags)| == 1 + (e - t) + |CollapseBeforeOpenFrom(s, e, tags)|;
      } else {
        CollapseBeforeOpenCopy(s, i, tags);
        CollapseBeforeOpenFromBounds(s, i + 1, tags);
      }
    }
  }

  /** A match at `i` makes the output strictly shorter. */
  lemma CollapseBeforeOpenMatchShortens(s: string, i: nat, tags: set<string>)
    requires i <= |s| && BlankBeforeOpenEnd(s, i, tags) > i
    ensures |CollapseBeforeOpenFrom(s, i, tags)| < |s| - i
  {
    CollapseBeforeOpenMatch(s, i, tags);
    CollapseBeforeOpenFromBounds(s, BlankBeforeOpenEnd(s, i, tags), tags);
  }

  /** Output shortened from `j` on is shortened from any earlier `i` on. */
  lemma {:induction false} CollapseBeforeOpenFromShortens(s: string, i: nat, j: nat, tags: set<string>)
    requires i <= j <= |s| && |CollapseBeforeOpenFrom(s, j, tags)| < |s| - j
    ensures |CollapseBeforeOpenFrom(s, i, tags)| < |s| - i
    decreases j - i
  {
    if i < j {
      if BlankBeforeOpenEnd(s, i, tags) > i {
        CollapseBeforeOpenMatchShortens(s, i, tags);
      } else {
        CollapseBeforeOpenCopy(s, i, tags);
        CollapseBeforeOpenFromShortens(s, i + 1, j, tags);
      }
    }
  }

  /** Text without a match is left as it is. */
  lemma {:induction false} CollapseBeforeOpenFromFixpoint(s: string, i: nat, tags: set<string>)
    requires i <= |s| && NoBlankBeforeOpen(s, tags)
    ensures CollapseBeforeOpenFrom(s, i, tags) == s[i..]
    decreases |s| - i
  {
    if i < |s| {
      assert BlankBeforeOpenEnd(s, i, tags) == i;
      CollapseBeforeOpenCopy(s, i, tags);
      CollapseBeforeOpenFromFixpoint(s, i + 1, tags);
      assert s[i..] == [s[i]] + s[i + 1..];
    }
  }

  /** A stretch at the head of the output without newlines was copied from the input. */
  lemma {:induction false} CollapseBeforeOpenFromKeepsPrefix(s: string, i: nat, len: nat, tags: set<string>)
    requires i <= |s| && len <= |CollapseBeforeOpenFrom(s, i, tags)|
    requires forall k :: 0 <= k < len ==> CollapseBeforeOpenFrom(s, i, tags)[k] != '\n'
    ensures i + len <= |s| && CollapseBeforeOpenFrom(s, i, tags)[..len] == s[i..i + len]
    decreases len
  {
    if len > 0 {
      var r := CollapseBeforeOpenFrom(s, i, tags);
      CollapseBeforeOpenFromBounds(s, i, tags);
      CollapseBeforeOpenFromHead(s, i, tags);
      BlankBeforeOpenNeedsNewline(s, i, tags);
      CollapseBeforeOpenCopy(s, i, tags);
      var r' := CollapseBeforeOpenFrom(s, i + 1, tags);
      TailKeepsNoNewline(r, s[i], r', len);
      CollapseBeforeOpenFromKeepsPrefix(s, i + 1, len - 1, tags);
      ConsPrefix(r, r', s, i, len);
    }
  }

  /** An opening tag at the head of the output was an opening tag in the input. */
  lemma CollapseBeforeOpenFromOpenTag(s: string, i: nat, tags: set<string>)
    requires i <= |s|
    ensures OpenTagAt(CollapseBeforeOpenFrom(s, i, tags), 0, tags) > 0 ==>
      OpenTagAt(s, i, tags) == OpenTagAt(CollapseBeforeOpenFrom(s, i, tags), 0, tags)
  {
    var r := CollapseBeforeOpenFrom(s, i, tags);
    var w := OpenTagAt(r, 0, tags);
    if w > 0 {
      OpenTagShape(r, 0, tags);
      CollapseBeforeOpenFromKeepsPrefix(s, i, w, tags);
      assert r[0..w] == r[..w];
      OpenTagAgrees(r, 0, s, i, tags);
    }
  }

  /** Without a match at `i`, the run of newlines there is copied as it stands. */
  lemma {:induction false} CollapseBeforeOpenFromCopiesRun(s: string, i: nat, tags: set<string>)
    requires i <= |s| && BlankBeforeOpenEnd(s, i, tags) == i
    ensures CollapseBeforeOpenFrom(s, i, tags)
      == s[i..RunEnd(s, i, '\n')] + CollapseBeforeOpenFrom(s, RunEnd(s, i, '\n'), tags)
    decreases |s| - i
  {
    var t := RunEnd(s, i, '\n');
    if t > i {
      assert RunEnd(s, i + 1, '\n') == t;
      assert BlankBeforeOpenEnd(s, i + 1, tags) == i + 1;
      CollapseBeforeOpenCopy(s, i, tags);
      CollapseBeforeOpenFromCopiesRun(s, i + 1, tags);
      assert s[i..t] == [s[i]] + s[i + 1..t];
      ConcatAssoc([s[i]], s[i + 1..t], CollapseBeforeOpenFrom(s, t, tags));
    }
  }

  /** The output never starts with a match. */
  lemma CollapseBeforeOpenFromStartsClean(s: string, i: nat, tags: set<string>)
    requires i <= |s|
    ensures BlankBeforeOpenEnd(CollapseBeforeOpenFrom(s, i, tags), 0, tags) == 0
  {
    var r := CollapseBeforeOpenFrom(s, i, tags);
    if i < |s| {
      var e, t := BlankBeforeOpenEnd(s, i, tags), RunEnd(s, i, '\n');
      if e > i {
        CollapseBeforeOpenMatch(s, i, tags);
        BlankBeforeOpenParts(s, i, tags);
        OpenTagShape(s, t, tags);
        assert r[0] == '\n' && r[1] == '<';
        assert RunEnd(r, 1, '\n') == 1;
      } else {
        var rest := CollapseBeforeOpenFrom(s, t, tags);
        CollapseBeforeOpenFromCopiesRun(s, i, tags);
        RunEndShape(s, i, '\n');
        var run := s[i..t];
        forall x | 0 <= x < |run|
          ensures run[x] == '\n'
        {
          assert run[x] == s[i + x];
        }
        RunEndConcat(run, rest, 0, '\n');
        if t < |s| {
          CollapseBeforeOpenFromHead(s, t, tags);
        }
        assert RunEnd(rest, 0, '\n') == 0;
        OpenTagShift(run, rest, 0, tags);
        CollapseBeforeOpenFromOpenTag(s, t, tags);
      }
    }
  }

  /** Putting `head` in front of text without a match creates none, when the result
      does not start with one and `head` holds no newline after its first character. */
  lemma NoBlankBeforeOpenJoin(head: string, rest: string, tags: set<string>)
    requires BlankBeforeOpenEnd(head + rest, 0, tags) == 0
    requires forall k :: 0 < k < |head| ==> head[k] != '\n'
    requires NoBlankBeforeOpen(rest, tags)
    ensures NoBlankBeforeOpen(head + rest, tags)
  {
    var r := head + rest;
    forall k | 0 <= k <= |r|
      ensures BlankBeforeOpenEnd(r, k, tags) == k
    {
      if 0 < k < |head| {
        assert r[k] == head[k];
        BlankBeforeOpenNeedsNewline(r, k, tags);
      } else if k >= |head| {
        BlankBeforeOpenShift(head, rest, k - |head|, tags);
      }
    }
  }

  /** A newline and the opening tag at `t`, put in front of text without a match,
      create none unless the whole starts with one. */
  lemma NoBlankBeforeOpenAfterTag(s: string, t: nat, e: nat, rest: string, tags: set<string>)
    requires t <= |s| && OpenTagAt(s, t, tags) > 0 && e == t + OpenTagAt(s, t, tags)
    requires NoBlankBeforeOpen(rest, tags)
    requires BlankBeforeOpenEnd("\n" + s[t..e] + rest, 0, tags) == 0
    ensures NoBlankBeforeOpen("\n" + s[t..e] + rest, tags)
  {
    OpenTagShape(s, t, tags);
    var head := "\n" + s[t..e];
    forall k | 0 < k < |head|
      ensures head[k] != '\n'
    {
      assert head[k] == s[t + k - 1];
    }
    NoBlankBeforeOpenJoin(head, rest, tags);
  }

  lemma CollapseBeforeOpenLeavesNoMatchStep(s: string, i: nat, tags: set<string>)
    requires i < |s| && BlankBeforeOpenEnd(s, i, tags) > i
    requires NoBlankBeforeOpen(CollapseBeforeOpenFrom(s, BlankBeforeOpenEnd(s, i, tags), tags), tags)
    ensures NoBlankBeforeOpen(CollapseBeforeOpenFrom(s, i, tags), tags)
  {
    var e, t := BlankBeforeOpenEnd(s, i, tags), RunEnd(s, i, '\n');
    CollapseBeforeOpenMatch(s, i, tags);
    CollapseBeforeOpenFromStartsClean(s, i, tags);
    BlankBeforeOpenParts(s, i, tags);
    NoBlankBeforeOpenAfterTag(s, t, e, CollapseBeforeOpenFrom(s, e, tags), tags);
  }

  lemma CollapseBeforeOpenLeavesNoMatchCopy(s: string, i: nat, tags: set<string>)
    requires i < |s| && BlankBeforeOpenEnd(s, i, tags) == i
    requires NoBlankBeforeOpen(CollapseBeforeOpenFrom(s, i + 1, tags), tags)
    ensures NoBlankBeforeOpen(CollapseBeforeOpenFrom(s, i, tags), tags)
  {
    CollapseBeforeOpenCopy(s, i, tags);
    CollapseBeforeOpenFromStartsClean(s, i, tags);
    NoBlankBeforeOpenJoin([s[i]], CollapseBeforeOpenFrom(s, i + 1, tags), tags);
  }

  /** No match is left in the output: the replacement is done in one pass. */
  lemma {:induction false} CollapseBeforeOpenFromLeavesNoMatch(s: string, i: nat, tags: set<string>)
    requires i <= |s|
    ensures NoBlankBeforeOpen(CollapseBeforeOpenFrom(s, i, tags), tags)
    decreases |s| - i
  {
    if i < |s| {
      var e := BlankBeforeOpenEnd(s, i, tags);
      if e > i {
        CollapseBeforeOpenFromLeavesNoMatch(s, e, tags);
        CollapseBeforeOpenLeavesNoMatchStep(s, i, tags);
      } else {
        CollapseBeforeOpenFromLeavesNoMatch(s, i + 1, tags);
        CollapseBeforeOpenLeavesNoMatchCopy(s, i, tags);
      }
    }
  }

  lemma CollapseBeforeOpenKeepsTextStep(s: string, i: nat, tags: set<string>)
    requires i < |s| && BlankBeforeOpenEnd(s, i, tags) > i
    requires StripNewlines(CollapseBeforeOpenFrom(s, BlankBeforeOpenEnd(s, i, tags), tags))
      == StripNewlines(s[BlankBeforeOpenEnd(s, i, tags)..])
    ensures StripNewlines(CollapseBeforeOpenFrom(s, i, tags)) == StripNewlines(s[i..])
  {
    var e := BlankBeforeOpenEnd(s, i, tags);
    CollapseBeforeOpenMatch(s, i, tags);
    StripNewlinesRunTag(s, i, e, CollapseBeforeOpenFrom(s, e, tags));
  }

  lemma CollapseBeforeOpenKeepsTextCopy(s: string, i: nat, tags: set<string>)
    requires i < |s| && BlankBeforeOpenEnd(s, i, tags) == i
    requires StripNewlines(CollapseBeforeOpenFrom(s, i + 1, tags)) == StripNewlines(s[i + 1..])
    ensures StripNewlines(CollapseBeforeOpenFrom(s, i, tags)) == StripNewlines(s[i..])
  {
    CollapseBeforeOpenCopy(s, i, tags);
    assert [s[i]] == s[i..i + 1];
    StripNewlinesSplit(s, i, i + 1, [s[i]], CollapseBeforeOpenFrom(s, i + 1, tags));
  }

  /** Only newlines are removed: the text between them is kept, in order. */
  lemma {:induction false} CollapseBeforeOpenFromKeepsText(s: string, i: nat, tags: set<string>)
    requires i <= |s|
    ensures StripNewlines(CollapseBeforeOpenFrom(s, i, tags)) == StripNewlines(s[i..])
    decreases |s| - i
  {
    if i < |s| {
      var e := BlankBeforeOpenEnd(s, i, tags);
      if e > i {
        CollapseBeforeOpenFromKeepsText(s, e, tags);
        CollapseBeforeOpenKeepsTextStep(s, i, tags);
      } else {
        CollapseBeforeOpenFromKeepsText(s, i + 1, tags);
        CollapseBeforeOpenKeepsTextCopy(s, i, tags);
      }
    }
  }

  // ---------------------------------------------------------------------------
  // Second replacement: `(<\/(?:tags)>)\n{2,}` becomes `$1\n`
  // ---------------------------------------------------------------------------

  /** The second replacement, scanning from index `i`. */
  function CollapseAfterCloseFrom(s: string, i: nat, tags: set<string>): string
    requires i <= |s|
    decreases |s| - i
  {
    if i == |s| then []
    else if BlankAfterCloseEnd(s, i, tags) > i then
      s[i..i + CloseTagAt(s, i, tags)] + "\n" + CollapseAfterCloseFrom(s, BlankAfterCloseEnd(s, i, tags), tags)
    else [s[i]] + CollapseAfterCloseFrom(s, i + 1, tags)
  }

  function CollapseAfterClose(s: string, tags: set<string>): string {
    CollapseAfterCloseFrom(s, 0, tags)
  }

  lemma CollapseAfterCloseCopy(s: string, i: nat, tags: set<string>)
    requires i < |s| && BlankAfterCloseEnd(s, i, tags) == i
    ensures CollapseAfterCloseFrom(s, i, tags) == [s[i]] + CollapseAfterCloseFrom(s, i + 1, tags)
  {
  }

  lemma CollapseAfterCloseMatch(s: string, i: nat, tags: set<string>)
    requires i < |s| && BlankAfterCloseEnd(s, i, tags) > i
    ensures CloseTagAt(s, i, tags) >= 3
    ensures i + CloseTagAt(s, i, tags) + 2 <= BlankAfterCloseEnd(s, i, tags)
    ensures BlankAfterCloseEnd(s, i, tags) == RunEnd(s, i + CloseTagAt(s, i, tags), '\n')
    ensures CollapseAfterCloseFrom(s, i, tags)
      == s[i..i + CloseTagAt(s, i, tags)] + "\n" + CollapseAfterCloseFrom(s, BlankAfterCloseEnd(s, i, tags), tags)
  {
    BlankAfterCloseParts(s, i, tags);
    CloseTagShape(s, i, tags);
  }

  /** The output starts with the same character as the input. */
  lemma CollapseAfterCloseFromHead(s: string, i: nat, tags: set<string>)
    requires i < |s|
    ensures |CollapseAfterCloseFrom(s, i, tags)| > 0 && CollapseAfterCloseFrom(s, i, tags)[0] == s[i]
  {
    if BlankAfterCloseEnd(s, i, tags) > i {
      CollapseAfterCloseMatch(s, i, tags);
    } else {
      CollapseAfterCloseCopy(s, i, tags);
    }
  }

  /** The replacement never lengthens the text. */
  lemma {:induction false} CollapseAfterCloseFromBounds(s: string, i: nat, tags: set<string>)
    requires i <= |s|
    ensures |CollapseAfterCloseFrom(s, i, tags)| <= |s| - i
    decreases |s| - i
  {
    if i < |s| {
      var e := BlankAfterCloseEnd(s, i, tags);
      if e > i {
        CollapseAfterCloseMatch(s, i, tags);
        CollapseAfterCloseFromBounds(s, e, tags);
      } else {
        CollapseAfterCloseCopy(s, i, tags);
        CollapseAfterCloseFromBounds(s, i + 1, tags);
      }
    }
  }

  /** A match at `i` makes the output strictly shorter. */
  lemma CollapseAfterCloseMatchShortens(s: string, i: nat, tags: set<string>)
    requires i <= |s| && BlankAfterCloseEnd(s, i, tags) > i
    ensures |CollapseAfterCloseFrom(s, i, tags)| < |s| - i
  {
    CollapseAfterCloseMatch(s, i, tags);
    CollapseAfterCloseFromBounds(s, BlankAfterCloseEnd(s, i, tags), tags);
  }

  /** Output shortened from `j` on is shortened from any earlier `i` on. */
  lemma {:induction false} CollapseAfterCloseFromShortens(s: string, i: nat, j: nat, tags: set<string>)
    requires i <= j <= |s| && |CollapseAfterCloseFrom(s, j, tags)| < |s| - j
    ensures |CollapseAfterCloseFrom(s, i, tags)| < |s| - i
    decreases j - i
  {
    if i < j {
      if BlankAfterCloseEnd(s, i, tags) > i {
        CollapseAfterCloseMatchShortens(s, i, tags);
      } else {
        CollapseAfterCloseCopy(s, i, tags);
        CollapseAfterCloseFromShortens(s, i + 1, j, tags);
      }
    }
  }

  /** Text without a match is left as it is. */
  lemma {:induction false} CollapseAfterCloseFromFixpoint(s: string, i: nat, tags: set<string>)
    requires i <= |s| && NoBlankAfterClose(s, tags)
    ensures CollapseAfterCloseFrom(s, i, tags) == s[i..]
    decreases |s| - i
  {
    if i < |s| {
      assert BlankAfterCloseEnd(s, i, tags) == i;
      CollapseAfterCloseCopy(s, i, tags);
      CollapseAfterCloseFromFixpoint(s, i + 1, tags);
      assert s[i..] == [s[i]] + s[i + 1..];
    }
  }

  lemma CollapseAfterCloseCopiesOne(s: string, i: nat, j: nat, tags: set<string>)
    requires i < j <= |s| && BlankAfterCloseEnd(s, i, tags) == i
    requires CollapseAfterCloseFrom(s, i + 1, tags) == s[i + 1..j] + CollapseAfterCloseFrom(s, j, tags)
    ensures CollapseAfterCloseFrom(s, i, tags) == s[i..j] + CollapseAfterCloseFrom(s, j, tags)
  {
    CollapseAfterCloseCopy(s, i, tags);
    assert s[i..j] == [s[i]] + s[i + 1..j];
    ConcatAssoc([s[i]], s[i + 1..j], CollapseAfterCloseFrom(s, j, tags));
  }

  /** Positions without a match are copied one by one. */
  lemma {:induction false} CollapseAfterCloseFromCopies(s: string, i: nat, j: nat, tags: set<string>)
    requires i <= j <= |s|
    requires forall x :: i <= x < j ==> BlankAfterCloseEnd(s, x, tags) == x
    ensures CollapseAfterCloseFrom(s, i, tags) == s[i..j] + CollapseAfterCloseFrom(s, j, tags)
    decreases j - i
  {
    if i < j {
      CollapseAfterCloseFromCopies(s, i + 1, j, tags);
      CollapseAfterCloseCopiesOne(s, i, j, tags);
    }
  }

  lemma CollapseAfterCloseKeepsPrefixStep(s: string, i: nat, len: nat, tags: set<string>)
    requires i < |s| && BlankAfterCloseEnd(s, i, tags) > i && len <= |CollapseAfterCloseFrom(s, i, tags)|
    requires forall k :: 0 <= k < len ==> CollapseAfterCloseFrom(s, i, tags)[k] != '\n'
    ensures i + len <= |s| && CollapseAfterCloseFrom(s, i, tags)[..len] == s[i..i + len]
  {
    var r, c := CollapseAfterCloseFrom(s, i, tags), CloseTagAt(s, i, tags);
    CollapseAfterCloseMatch(s, i, tags);
    assert r[c] == '\n';
    assert len <= c;
    forall x | 0 <= x < len
      ensures r[x] == s[i + x]
    {
      assert r[x] == s[i..i + c][x];
    }
    assert r[..len] == s[i..i + len];
  }

  /** A stretch at the head of the output without newlines was copied from the input. */
  lemma {:induction false} CollapseAfterCloseFromKeepsPrefix(s: string, i: nat, len: nat, tags: set<string>)
    requires i <= |s| && len <= |CollapseAfterCloseFrom(s, i, tags)|
    requires forall k :: 0 <= k < len ==> CollapseAfterCloseFrom(s, i, tags)[k] != '\n'
    ensures i + len <= |s| && CollapseAfterCloseFrom(s, i, tags)[..len] == s[i..i + len]
    decreases len
  {
    if len > 0 {
      CollapseAfterCloseFromBounds(s, i, tags);
      if BlankAfterCloseEnd(s, i, tags) > i {
        CollapseAfterCloseKeepsPrefixStep(s, i, len, tags);
      } else {
        var r := CollapseAfterCloseFrom(s, i, tags);
        CollapseAfterCloseCopy(s, i, tags);
        var r' := CollapseAfterCloseFrom(s, i + 1, tags);
        TailKeepsNoNewline(r, s[i], r', len);
        CollapseAfterCloseFromKeepsPrefix(s, i + 1, len - 1, tags);
        ConsPrefix(r, r', s, i, len);
      }
    }
  }

  /** A closing tag at the head of the output was a closing tag in the input. */
  lemma CollapseAfterCloseFromCloseTag(s: string, i: nat, tags: set<string>)
    requires i <= |s|
    ensures CloseTagAt(CollapseAfterCloseFrom(s, i, tags), 0, tags) > 0 ==>
      CloseTagAt(s, i, tags) == CloseTagAt(CollapseAfterCloseFrom(s, i, tags), 0, tags)
  {
    var r := CollapseAfterCloseFrom(s, i, tags);
    var w := CloseTagAt(r, 0, tags);
    if w > 0 {
      CloseTagShape(r, 0, tags);
      CollapseAfterCloseFromKeepsPrefix(s, i, w, tags);
      assert r[0..w] == r[..w];
      CloseTagAgrees(r, 0, s, i, tags);
    }
  }

  /** An opening tag at the head of the output was an opening tag in the input. */
  lemma CollapseAfterCloseFromOpenTag(s: string, i: nat, tags: set<string>)
    requires i <= |s|
    ensures OpenTagAt(CollapseAfterCloseFrom(s, i, tags), 0, tags) > 0 ==>
      OpenTagAt(s, i, tags) == OpenTagAt(CollapseAfterCloseFrom(s, i, tags), 0, tags)
  {
    var r := CollapseAfterCloseFrom(s, i, tags);
    var w := OpenTagAt(r, 0, tags);
    if w > 0 {
      OpenTagShape(r, 0, tags);
      CollapseAfterCloseFromKeepsPrefix(s, i, w, tags);
      assert r[0..w] == r[..w];
      OpenTagAgrees(r, 0, s, i, tags);
    }
  }

  /** A run of at most one newline at `j` starts the output from `j` unchanged. */
  lemma CollapseAfterCloseFromShortRun(s: string, j: nat, tags: set<string>)
    requires j <= |s| && RunEnd(s, j, '\n') <= j + 1
    ensures RunEnd(CollapseAfterCloseFrom(s, j, tags), 0, '\n') == RunEnd(s, j, '\n') - j
  {
    if j < |s| {
      if s[j] != '\n' {
        CollapseAfterCloseFromHead(s, j, tags);
      } else {
        assert RunEnd(s, j + 1, '\n') == j + 1;
        BlankAfterCloseNeedsLt(s, j, tags);
        CollapseAfterCloseCopy(s, j, tags);
        var rest := CollapseAfterCloseFrom(s, j + 1, tags);
        RunEndConcat([s[j]], rest, 0, '\n');
        if j + 1 < |s| {
          CollapseAfterCloseFromHead(s, j + 1, tags);
        }
        assert RunEnd(rest, 0, '\n') == 0;
      }
    }
  }

  /** After a match of the second pattern, the rest of the output starts without a newline. */
  lemma CollapseAfterCloseMatchRest(s: string, i: nat, tags: set<string>)
    requires i < |s| && BlankAfterCloseEnd(s, i, tags) > i
    ensures RunEnd(CollapseAfterCloseFrom(s, BlankAfterCloseEnd(s, i, tags), tags), 0, '\n') == 0
  {
    var e := BlankAfterCloseEnd(s, i, tags);
    BlankAfterCloseRun(s, i, tags);
    if e < |s| {
      CollapseAfterCloseFromHead(s, e, tags);
    }
  }

  lemma CollapseAfterCloseStartsCleanMatch(s: string, i: nat, tags: set<string>)
    requires i < |s| && BlankAfterCloseEnd(s, i, tags) > i
    ensures BlankAfterCloseEnd(CollapseAfterCloseFrom(s, i, tags), 0, tags) == 0
  {
    CollapseAfterCloseMatch(s, i, tags);
    CollapseAfterCloseMatchRest(s, i, tags);
    CloseTagThenOneNewline(s, i, CollapseAfterCloseFrom(s, BlankAfterCloseEnd(s, i, tags), tags), tags);
  }

  /** A closing tag that starts no match is copied whole, and at most one newline follows it. */
  lemma CollapseAfterCloseCopiesTag(s: string, i: nat, tags: set<string>)
    requires i <= |s| && CloseTagAt(s, i, tags) > 0 && BlankAfterCloseEnd(s, i, tags) == i
    ensures CollapseAfterCloseFrom(s, i, tags)
      == s[i..i + CloseTagAt(s, i, tags)] + CollapseAfterCloseFrom(s, i + CloseTagAt(s, i, tags), tags)
    ensures RunEnd(s, i + CloseTagAt(s, i, tags), '\n') <= i + CloseTagAt(s, i, tags) + 1
  {
    CloseTagWithoutMatch(s, i, tags);
    CollapseAfterCloseFromCopies(s, i, i + CloseTagAt(s, i, tags), tags);
  }

  lemma CollapseAfterCloseStartsCleanCopy(s: string, i: nat, tags: set<string>)
    requires i < |s| && BlankAfterCloseEnd(s, i, tags) == i
    ensures BlankAfterCloseEnd(CollapseAfterCloseFrom(s, i, tags), 0, tags) == 0
  {
    var c := CloseTagAt(s, i, tags);
    if c > 0 {
      CollapseAfterCloseCopiesTag(s, i, tags);
      CollapseAfterCloseFromShortRun(s, i + c, tags);
      CloseTagPrefix(s, i, CollapseAfterCloseFrom(s, i + c, tags), tags);
      CloseTagThenShortRun(s[i..i + c], CollapseAfterCloseFrom(s, i + c, tags), tags);
    } else {
      CollapseAfterCloseFromCloseTag(s, i, tags);
    }
  }

  /** Putting `head` in front of text without a match creates none, when the result
      does not start with one and `head` holds no `<` after its first character. */
  lemma NoBlankAfterCloseJoin(head: string, rest: string, tags: set<string>)
    requires BlankAfterCloseEnd(head + rest, 0, tags) == 0
    requires forall k :: 0 < k < |head| ==> head[k] != '<'
    requires NoBlankAfterClose(rest, tags)
    ensures NoBlankAfterClose(head + rest, tags)
  {
    var r := head + rest;
    forall k | 0 <= k <= |r|
      ensures BlankAfterCloseEnd(r, k, tags) == k
    {
      if 0 < k < |head| {
        assert r[k] == head[k];
        BlankAfterCloseNeedsLt(r, k, tags);
      } else if k >= |head| {
        BlankAfterCloseShift(head, rest, k - |head|, tags);
      }
    }
  }

  /** The closing tag at `i` and a newline, put in front of text without a match,
      create none unless the whole starts with one. */
  lemma NoBlankAfterCloseAfterTag(s: string, i: nat, rest: string, tags: set<string>)
    requires i <= |s| && CloseTagAt(s, i, tags) > 0
    requires NoBlankAfterClose(rest, tags)
    requires BlankAfterCloseEnd(s[i..i + CloseTagAt(s, i, tags)] + "\n" + rest, 0, tags) == 0
    ensures NoBlankAfterClose(s[i..i + CloseTagAt(s, i, tags)] + "\n" + rest, tags)
  {
    CloseTagShape(s, i, tags);
    var c := CloseTagAt(s, i, tags);
    var head := s[i..i + c] + "\n";
    forall k | 0 < k < |head|
      ensures head[k] != '<'
    {
      if k < c {
        assert head[k] == s[i + k];
      }
    }
    NoBlankAfterCloseJoin(head, rest, tags);
  }

  lemma CollapseAfterCloseLeavesNoMatchStep(s: string, i: nat, tags: set<string>)
    requires i < |s| && BlankAfterCloseEnd(s, i, tags) > i
    requires NoBlankAfterClose(CollapseAfterCloseFrom(s, BlankAfterCloseEnd(s, i, tags), tags), tags)
    ensures NoBlankAfterClose(CollapseAfterCloseFrom(s, i, tags), tags)
  {
    var c, e := CloseTagAt(s, i, tags), BlankAfterCloseEnd(s, i, tags);
    CollapseAfterCloseMatch(s, i, tags);
    CollapseAfterCloseStartsCleanMatch(s, i, tags);
    NoBlankAfterCloseAfterTag(s, i, CollapseAfterCloseFrom(s, e, tags), tags);
  }

  lemma CollapseAfterCloseLeavesNoMatchCopy(s: string, i: nat, tags: set<string>)
    requires i < |s| && BlankAfterCloseEnd(s, i, tags) == i
    requires NoBlankAfterClose(CollapseAfterCloseFrom(s, i + 1, tags), tags)
    ensures NoBlankAfterClose(CollapseAfterCloseFrom(s, i, tags), tags)
  {
    CollapseAfterCloseCopy(s, i, tags);
    CollapseAfterCloseStartsCleanCopy(s, i, tags);
    NoBlankAfterCloseJoin([s[i]], CollapseAfterCloseFrom(s, i + 1, tags), tags);
  }

  /** No match is left in the output: the replacement is done in one pass. */
  lemma {:induction false} CollapseAfterCloseFromLeavesNoMatch(s: string, i: nat, tags: set<string>)
    requires i <= |s|
    ensures NoBlankAfterClose(CollapseAfterCloseFrom(s, i, tags), tags)
    decreases |s| - i
  {
    if i < |s| {
      var e := BlankAfterCloseEnd(s, i, tags);
      if e > i {
        CollapseAfterCloseFromLeavesNoMatch(s, e, tags);
        CollapseAfterCloseLeavesNoMatchStep(s, i, tags);
      } else {
        CollapseAfterCloseFromLeavesNoMatch(s, i + 1, tags);
        CollapseAfterCloseLeavesNoMatchCopy(s, i, tags);
      }
    }
  }

  lemma CollapseAfterCloseKeepsTextStep(s: string, i: nat, tags: set<string>)
    requires i < |s| && BlankAfterCloseEnd(s, i, tags) > i
    requires StripNewlines(CollapseAfterCloseFrom(s, BlankAfterCloseEnd(s, i, tags), tags))
      == StripNewlines(s[BlankAfterCloseEnd(s, i, tags)..])
    ensures StripNewlines(CollapseAfterCloseFrom(s, i, tags)) == StripNewlines(s[i..])
  {
    var c, e := CloseTagAt(s, i, tags), BlankAfterCloseEnd(s, i, tags);
    CollapseAfterCloseMatch(s, i, tags);
    StripNewlinesTagRun(s, i, i + c, CollapseAfterCloseFrom(s, e, tags));
  }

  lemma CollapseAfterCloseKeepsTextCopy(s: string, i: nat, tags: set<string>)
    requires i < |s| && BlankAfterCloseEnd(s, i, tags) == i
    requires StripNewlines(CollapseAfterCloseFrom(s, i + 1, tags)) == StripNewlines(s[i + 1..])
    ensures StripNewlines(CollapseAfterCloseFrom(s, i, tags)) == StripNewlines(s[i..])
  {
    CollapseAfterCloseCopy(s, i, tags);
    assert [s[i]] == s[i..i + 1];
    StripNewlinesSplit(s, i, i + 1, [s[i]], CollapseAfterCloseFrom(s, i + 1, tags));
  }

  /** Only newlines are removed: the text between them is kept, in order. */
  lemma {:induction false} CollapseAfterCloseFromKeepsText(s: string, i: nat, tags: set<string>)
    requires i <= |s|
    ensures StripNewlines(CollapseAfterCloseFrom(s, i, tags)) == StripNewlines(s[i..])
    decreases |s| - i
  {
    if i < |s| {
      var e := BlankAfterCloseEnd(s, i, tags);
      if e > i {
        CollapseAfterCloseFromKeepsText(s, e, tags);
        CollapseAfterCloseKeepsTextStep(s, i, tags);
      } else {
        CollapseAfterCloseFromKeepsText(s, i + 1, tags);
        CollapseAfterCloseKeepsTextCopy(s, i, tags);
      }
    }
  }

  /** Without a match of the first pattern at `i`, the output of the second replacement
      does not start with one either. */
  lemma CollapseAfterCloseFromStartsWithoutBlankBeforeOpen(s: string, i: nat, tags: set<string>)
    requires i <= |s| && BlankBeforeOpenEnd(s, i, tags) == i
    ensures BlankBeforeOpenEnd(CollapseAfterCloseFrom(s, i, tags), 0, tags) == 0
  {
    var r := CollapseAfterCloseFrom(s, i, tags);
    if i < |s| {
      CollapseAfterCloseFromHead(s, i, tags);
      if s[i] == '\n' {
        var t := RunEnd(s, i, '\n');
        RunEndShape(s, i, '\n');
        forall x | i <= x < t
          ensures BlankAfterCloseEnd(s, x, tags) == x
        {
          BlankAfterCloseNeedsLt(s, x, tags);
        }
        CollapseAfterCloseFromCopies(s, i, t, tags);
        var run, rest := s[i..t], CollapseAfterCloseFrom(s, t, tags);
        forall x | 0 <= x < |run|
          ensures run[x] == '\n'
        {
          assert run[x] == s[i + x];
        }
        RunEndConcat(run, rest, 0, '\n');
        if t < |s| {
          CollapseAfterCloseFromHead(s, t, tags);
        }
        assert RunEnd(rest, 0, '\n') == 0;
        OpenTagShift(run, rest, 0, tags);
        CollapseAfterCloseFromOpenTag(s, t, tags);
      } else {
        BlankBeforeOpenNeedsNewline(r, 0, tags);
      }
    }
  }

  /** The closing tag at `i`, a newline and text without a match of the first
      pattern that starts with no newline hold no match of it. */
  lemma NoBlankBeforeOpenAroundNewline(s: string, i: nat, rest: string, tags: set<string>)
    requires i <= |s| && CloseTagAt(s, i, tags) > 0
    requires NoBlankBeforeOpen(rest, tags) && RunEnd(rest, 0, '\n') == 0
    ensures NoBlankBeforeOpen(s[i..i + CloseTagAt(s, i, tags)] + "\n" + rest, tags)
  {
    CloseTagShape(s, i, tags);
    var tag := s[i..i + CloseTagAt(s, i, tags)];
    forall k | 0 < k < |tag|
      ensures tag[k] != '\n'
    {
      assert tag[k] == s[i + k];
    }
    RunEndConcat("\n", rest, 0, '\n');
    NoBlankBeforeOpenJoin("\n", rest, tags);
    ConcatAssoc(tag, "\n", rest);
    BlankBeforeOpenNeedsNewline(tag + ("\n" + rest), 0, tags);
    NoBlankBeforeOpenJoin(tag, "\n" + rest, tags);
  }

  lemma CollapseAfterCloseKeepsNoBlankBeforeOpenStep(s: string, i: nat, tags: set<string>)
    requires i < |s| && BlankAfterCloseEnd(s, i, tags) > i
    requires NoBlankBeforeOpen(CollapseAfterCloseFrom(s, BlankAfterCloseEnd(s, i, tags), tags), tags)
    ensures NoBlankBeforeOpen(CollapseAfterCloseFrom(s, i, tags), tags)
  {
    var c, e := CloseTagAt(s, i, tags), BlankAfterCloseEnd(s, i, tags);
    CollapseAfterCloseMatch(s, i, tags);
    CollapseAfterCloseMatchRest(s, i, tags);
    NoBlankBeforeOpenAroundNewline(s, i, CollapseAfterCloseFrom(s, e, tags), tags);
  }

  lemma CollapseAfterCloseKeepsNoBlankBeforeOpenCopy(s: string, i: nat, tags: set<string>)
    requires i < |s| && BlankAfterCloseEnd(s, i, tags) == i && BlankBeforeOpenEnd(s, i, tags) == i
    requires NoBlankBeforeOpen(CollapseAfterCloseFrom(s, i + 1, tags), tags)
    ensures NoBlankBeforeOpen(CollapseAfterCloseFrom(s, i, tags), tags)
  {
    CollapseAfterCloseCopy(s, i, tags);
    CollapseAfterCloseFromStartsWithoutBlankBeforeOpen(s, i, tags);
    NoBlankBeforeOpenJoin([s[i]], CollapseAfterCloseFrom(s, i + 1, tags), tags);
  }

  /** The second replacement creates no match of the first. */
  lemma {:induction false} CollapseAfterCloseFromKeepsNoBlankBeforeOpen(s: string, i: nat, tags: set<string>)
    requires i <= |s| && forall x :: i <= x <= |s| ==> BlankBeforeOpenEnd(s, x, tags) == x
    ensures NoBlankBeforeOpen(CollapseAfterCloseFrom(s, i, tags), tags)
    decreases |s| - i
  {
    if i < |s| {
      var e := BlankAfterCloseEnd(s, i, tags);
      if e > i {
        CollapseAfterCloseFromKeepsNoBlankBeforeOpen(s, e, tags);
        CollapseAfterCloseKeepsNoBlankBeforeOpenStep(s, i, tags);
      } else {
        CollapseAfterCloseFromKeepsNoBlankBeforeOpen(s, i + 1, tags);
        CollapseAfterCloseKeepsNoBlankBeforeOpenCopy(s, i, tags);
      }
    }
  }
}
