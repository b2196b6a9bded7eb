/**
 * The wiki-markup round trip of the transcription editor.
 *
 * Decode (opening an edit session) rewrites every match of the regular
 * expression ` *<br(?: *\/ *)?> *\n*` to one newline and trims the result;
 * Encode (closing it) trims the buffer, appends a newline when it is not empty,
 * and rewrites every match of ` *\n` to `<br>\n`.
 *
 * A global `String.prototype.replace` takes the leftmost match, replaces it
 * and resumes after it. Each scanner below does the same: at the start of the
 * remaining input it either finds a match (and skips it) or copies one
 * character. In both patterns every repetition is greedy and what follows it
 * cannot start with the repeated character, so the engine never backtracks
 * into a shorter repetition: the match at a position, when there is one, is
 * the one these functions compute.
 */
module Markup {
  import opened Strings

  // ---------------------------------------------------------------------------
  // Decode: ` *<br(?: *\/ *)?> *\n*` becomes "\n", then trim
  // ---------------------------------------------------------------------------

  /** Length of `(?: *\/ *)?>` at the start of `t`, or 0 when it does not match there. */
  function BrCloseLen(t: string): (n: nat)
    ensures n <= |t|
  {
    if |t| > 0 && t[0] == '>' then 1
    else
      var a := CharRun(t, ' ');
      if a < |t| && t[a] == '/' then
        var b := CharRun(t[a + 1..], ' ');
        if a + 1 + b < |t| && t[a + 1 + b] == '>' then a + b + 2 else 0
      else 0
  }

  /** Length of a line-break tag `<br(?: *\/ *)?>` at the start of `s`, or 0. */
  function BrTagLen(s: string): (n: nat)
    ensures n == 0 || 4 <= n <= |s|
  {
    if |s| >= 3 && s[0] == '<' && s[1] == 'b' && s[2] == 'r' && BrCloseLen(s[3..]) > 0
    then 3 + BrCloseLen(s[3..])
    else 0
  }

  /** A line-break tag contains no newline: it is `<br`, spaces, an optional `/` and `>`. */
  lemma BrTagHasNoNewline(s: string)
    ensures forall i :: 0 <= i < BrTagLen(s) ==> s[i] != '\n'
  {
    if BrTagLen(s) > 0 {
      var t := s[3..];
      if t[0] != '>' {
        var a := CharRun(t, ' ');
        var b := CharRun(t[a + 1..], ' ');
        assert forall i :: 0 <= i < a ==> t[i] == ' ';
        assert forall i :: a + 1 <= i < a + 1 + b ==> t[i] == t[a + 1..][i - a - 1] == ' ';
      }
    }
  }

  /** Whether the end of a tag is at the start of `u` depends only on its own characters. */
  lemma BrCloseLenAgrees(u: string, v: string)
    requires BrCloseLen(u) > 0 && BrCloseLen(u) <= |v|
    requires forall i :: 0 <= i < BrCloseLen(u) ==> v[i] == u[i]
    ensures BrCloseLen(v) == BrCloseLen(u)
  {
    if u[0] != '>' {
      var a := CharRun(u, ' ');
      CharRunAgrees(u, v, ' ');
      CharRunAgrees(u[a + 1..], v[a + 1..], ' ');
    }
  }

  /** Whether a tag is at the start of `s` depends only on the tag's own characters. */
  lemma BrTagLenAgrees(s: string, t: string)
    requires BrTagLen(s) > 0 && BrTagLen(s) <= |t|
    requires forall i :: 0 <= i < BrTagLen(s) ==> t[i] == s[i]
    ensures BrTagLen(t) == BrTagLen(s)
  {
    var u, v := s[3..], t[3..];
    assert forall i :: 0 <= i < BrCloseLen(u) ==> v[i] == u[i];
    BrCloseLenAgrees(u, v);
  }

  /** Length of the whole decode pattern ` *<br(?: *\/ *)?> *\n*` at the start of `s`, or 0. */
  function BreakMatchLen(s: string): (n: nat)
    ensures n <= |s|
  {
    var k := CharRun(s, ' ');
    var t := BrTagLen(s[k..]);
    if t == 0 then 0
    else
      var j := k + t;
      var sp := CharRun(s[j..], ' ');
      j + sp + CharRun(s[j + sp..], '\n')
  }

  /** `s.replace(/ *<br(?: *\/ *)?> *\n*`/g, '\n')`. */
  function ReplaceBreaks(s: string): (r: string)
    ensures |r| <= |s|
    decreases |s|
  {
    if s == [] then []
    else
      var n := BreakMatchLen(s);
      if n > 0 then "\n" + ReplaceBreaks(s[n..]) else [s[0]] + ReplaceBreaks(s[1..])
  }

  /** The text the editor loads from the wiki's text box (`finalizeState`). */
  function Decode(value: string): (r: string)
    ensures IsTrimmed(r, IsJsWhitespace)
    ensures |r| <= |value|
  {
    JsTrim(ReplaceBreaks(value))
  }

  /** No line-break tag starts anywhere in `s`. */
  ghost predicate NoBrTag(s: string) {
    forall i :: 0 <= i <= |s| ==> BrTagLen(s[i..]) == 0
  }

  /** Where no tag is left, the replacement changes nothing. */
  lemma {:induction false} ReplaceBreaksFixpoint(s: string)
    requires NoBrTag(s)
    ensures ReplaceBreaks(s) == s
    decreases |s|
  {
    if s != [] {
      assert BrTagLen(s[CharRun(s, ' ')..]) == 0;
      assert forall i :: 0 <= i <= |s| - 1 ==> s[1..][i..] == s[i + 1..];
      ReplaceBreaksFixpoint(s[1..]);
    }
  }

  /** A prefix of the output that holds no newline was copied unchanged from the input. */
  lemma {:induction false} ReplaceBreaksKeepsPrefix(s: string, len: nat)
    requires len <= |ReplaceBreaks(s)|
    requires forall i :: 0 <= i < len ==> ReplaceBreaks(s)[i] != '\n'
    ensures len <= |s| && forall i :: 0 <= i < len ==> ReplaceBreaks(s)[i] == s[i]
    decreases |s|
  {
    if len > 0 {
      var r, r' := ReplaceBreaks(s), ReplaceBreaks(s[1..]);
      assert BreakMatchLen(s) == 0 by { assert r[0] != '\n'; }
      assert r == [s[0]] + r';
      assert forall i :: 0 <= i < len - 1 ==> r'[i] == r[i + 1];
      ReplaceBreaksKeepsPrefix(s[1..], len - 1);
    }
  }

  /** A tag at the very start of the text is a match of the decode pattern. */
  lemma TagStartsBreakMatch(s: string)
    ensures BrTagLen(s) > 0 ==> BreakMatchLen(s) > 0
  {
    if BrTagLen(s) > 0 {
      assert CharRun(s, ' ') == 0;
      assert s[0..] == s;
    }
  }

  /** A tag at the start of the output was copied from the start of the input. */
  lemma ReplaceBreaksTagAtStart(s: string)
    ensures BrTagLen(ReplaceBreaks(s)) > 0 ==> BrTagLen(s) == BrTagLen(ReplaceBreaks(s))
  {
    var r := ReplaceBreaks(s);
    if BrTagLen(r) > 0 {
      BrTagHasNoNewline(r);
      ReplaceBreaksKeepsPrefix(s, BrTagLen(r));
      BrTagLenAgrees(r, s);
    }
  }

  /** One character without a tag at the front keeps tag-free text tag-free. */
  lemma NoBrTagCons(c: char, r: string)
    requires NoBrTag(r) && BrTagLen([c] + r) == 0
    ensures NoBrTag([c] + r)
  {
    var u := [c] + r;
    forall i | 0 <= i <= |u|
      ensures BrTagLen(u[i..]) == 0
    {
      if i > 0 {
        assert u[i..] == r[i - 1..];
      }
    }
  }

  /** The replacement leaves no line-break tag behind. */
  lemma {:induction false} ReplaceBreaksLeavesNoTag(s: string)
    ensures NoBrTag(ReplaceBreaks(s))
    decreases |s|
  {
    if s != [] {
      var n := BreakMatchLen(s);
      if n > 0 {
        ReplaceBreaksLeavesNoTag(s[n..]);
        NoBrTagCons('\n', ReplaceBreaks(s[n..]));
      } else {
        ReplaceBreaksLeavesNoTag(s[1..]);
        ReplaceBreaksTagAtStart(s);
        TagStartsBreakMatch(s);
        NoBrTagCons(s[0], ReplaceBreaks(s[1..]));
      }
    }
  }

  /** A slice of tag-free text is tag-free. */
  lemma NoBrTagSlice(s: string, a: nat, b: nat, u: string)
    requires NoBrTag(s) && a <= b <= |s| && u == s[a..b]
    ensures NoBrTag(u)
  {
    forall i | 0 <= i <= |u| ensures BrTagLen(u[i..]) == 0 {
      var w := u[i..];
      if BrTagLen(w) > 0 {
        assert forall j :: 0 <= j < BrTagLen(w) ==> s[a + i..][j] == w[j];
        BrTagLenAgrees(w, s[a + i..]);
      }
    }
  }

  /** Trimming tag-free text leaves it tag-free. */
  lemma NoBrTagTrim(u: string)
    requires NoBrTag(u)
    ensures NoBrTag(JsTrim(u))
  {
    var a, r := LeadingCount(u, IsJsWhitespace), JsTrim(u);
    JsTrimIsSlice(u);
    NoBrTagSlice(u, a, a + |r|, r);
  }

  /** Decoded text holds no line-break tag. */
  lemma DecodeLeavesNoTag(value: string)
    ensures NoBrTag(Decode(value))
  {
    ReplaceBreaksLeavesNoTag(value);
    NoBrTagTrim(ReplaceBreaks(value));
  }

  /** Trimmed text without a line-break tag decodes to itself. */
  lemma DecodeFixesTagFree(text: string)
    requires NoBrTag(text) && IsTrimmed(text, IsJsWhitespace)
    ensures Decode(text) == text
  {
    ReplaceBreaksFixpoint(text);
  }

  /** Decoding is idempotent: decoded text decodes to itself. */
  lemma DecodeIdempotent(value: string)
    ensures Decode(Decode(value)) == Decode(value)
  {
    DecodeLeavesNoTag(value);
    DecodeFixesTagFree(Decode(value));
  }

  // ---------------------------------------------------------------------------
  // Encode: trim, append "\n" when non-empty, ` *\n` becomes "<br>\n"
  // ---------------------------------------------------------------------------

  /** Length of ` *\n` at the start of `s`, or 0. */
  function SpacesNewlineLen(s: string): (n: nat)
    ensures n <= |s|
  {
    var k := CharRun(s, ' ');
    if k < |s| && s[k] == '\n' then k + 1 else 0
  }

  /** `s.replace(/ *\n/g, '<br>\n')`. */
  function ReplaceNewlines(s: string): (r: string)
    decreases |s|
  {
    if s == [] then []
    else
      var n := SpacesNewlineLen(s);
      if n > 0 then "<br>\n" + ReplaceNewlines(s[n..]) else [s[0]] + ReplaceNewlines(s[1..])
  }

  /** The value written back to the wiki's text box (`saveTranscription`). */
  function Encode(text: string): (r: string)
    ensures r == [] <==> JsTrim(text) == []
  {
    var t := JsTrim(text);
    var withEnd := if |t| > 0 then t + "\n" else t;
    ReplaceNewlinesEmpty(withEnd);
    ReplaceNewlines(withEnd)
  }

  lemma ReplaceNewlinesEmpty(s: string)
    ensures ReplaceNewlines(s) == [] <==> s == []
  {
  }

  /** The newline at index `i` of `r` directly follows `<br>`, with no space right before that `<br>`. */
  ghost predicate BreakBefore(r: string, i: int) {
    4 <= i <= |r| && r[i - 4] == '<' && r[i - 3] == 'b' && r[i - 2] == 'r' && r[i - 1] == '>'
    && (i == 4 || r[i - 5] != ' ')
  }

  /** Every newline of `r` directly follows `<br>`, and no space comes right before that `<br>`. */
  ghost predicate LinesEndWithBreak(r: string) {
    forall i :: 0 <= i < |r| && r[i] == '\n' ==> BreakBefore(r, i)
  }

  /** A newline preceded by `<br>` stays so when text is put in front, unless that text ends
      in a space and the `<br>` starts the tail. */
  lemma BreakBeforeAppend(head: string, tail: string, j: int)
    requires BreakBefore(tail, j)
    requires j > 4 || head == [] || head[|head| - 1] != ' '
    ensures BreakBefore(head + tail, |head| + j)
  {
    var r := head + tail;
    assert forall k :: 0 <= k < |tail| ==> r[|head| + k] == tail[k];
  }

  /** Every line of the rewritten text ends in `<br>` with no space before it. */
  lemma {:induction false} ReplaceNewlinesBreaksLines(s: string)
    ensures LinesEndWithBreak(ReplaceNewlines(s))
    decreases |s|, 1
  {
    if s != [] {
      var n := SpacesNewlineLen(s);
      var rest := if n > 0 then s[n..] else s[1..];
      ReplaceNewlinesBreaksLines(rest);
      var r, r' := ReplaceNewlines(s), ReplaceNewlines(rest);
      var head := if n > 0 then "<br>\n" else [s[0]];
      assert r == head + r';
      if n == 0 && s[0] == ' ' && |r'| > 4 && r'[4] == '\n' {
        // the `<br>\n` that starts r' is a match at the start of rest,
        // and the space before it would have been part of that match
        BreakAtFourIsMatch(rest);
      }
      PrependKeepsBreaks(head, r');
    }
  }

  /** A break or a single non-newline character put in front keeps every line ending in
      `<br>`, unless it is a space directly before a leading `<br>\n`. */
  lemma PrependKeepsBreaks(head: string, tail: string)
    requires head == "<br>\n" || (|head| == 1 && head[0] != '\n' && (head[0] == ' ' ==> !(|tail| > 4 && tail[4] == '\n')))
    requires LinesEndWithBreak(tail)
    ensures LinesEndWithBreak(head + tail)
  {
    var r := head + tail;
    forall i | 0 <= i < |r| && r[i] == '\n' ensures BreakBefore(r, i) {
      if i >= |head| {
        BreakBeforeAppend(head, tail, i - |head|);
      }
    }
  }

  /** A newline at index 4 of the output is the one of a match at the very start of the input. */
  lemma {:induction false} BreakAtFourIsMatch(s: string)
    requires |ReplaceNewlines(s)| > 4 && ReplaceNewlines(s)[4] == '\n'
    ensures SpacesNewlineLen(s) > 0
    decreases |s|, 0
  {
    if SpacesNewlineLen(s) == 0 {
      ReplaceNewlinesBreaksLines(s[1..]);
    }
  }

  /** The encoded text ends with `<br>` and a newline whenever it is not empty. */
  lemma {:induction false} EncodeEndsWithBreak(text: string)
    requires JsTrim(text) != []
    ensures var r := Encode(text); |r| >= 5 && r[|r| - 1] == '\n' && BreakBefore(r, |r| - 1)
  {
    var t := JsTrim(text);
    ReplaceNewlinesEndsWithNewline(t + "\n");
    ReplaceNewlinesBreaksLines(t + "\n");
  }

  lemma {:induction false} ReplaceNewlinesEndsWithNewline(s: string)
    requires s != [] && s[|s| - 1] == '\n'
    ensures var r := ReplaceNewlines(s); r != [] && r[|r| - 1] == '\n'
    decreases |s|
  {
    var n := SpacesNewlineLen(s);
    if n == 0 {
      assert s[0] != '\n';
      ReplaceNewlinesEndsWithNewline(s[1..]);
    } else if n < |s| {
      ReplaceNewlinesEndsWithNewline(s[n..]);
    }
  }

  /** The encoded text obeys the line-break convention throughout. */
  lemma EncodeBreaksEveryLine(text: string)
    ensures LinesEndWithBreak(Encode(text))
  {
    var t := JsTrim(text);
    ReplaceNewlinesBreaksLines(if |t| > 0 then t + "\n" else t);
  }

  // ---------------------------------------------------------------------------
  // The round trip
  // ---------------------------------------------------------------------------

  /** `<br` occurs nowhere in `s`. */
  predicate HasNoBrText(s: string) {
    forall i :: 0 <= i < |s| - 2 ==> !(s[i] == '<' && s[i + 1] == 'b' && s[i + 2] == 'r')
  }

  /** No space stands directly before a newline in `s`. */
  predicate NoSpaceBeforeNewline(s: string) {
    forall i :: 0 <= i < |s| - 1 ==> !(s[i] == ' ' && s[i + 1] == '\n')
  }

  /** Reference rewriting: `<br>` inserted before every newline, nothing else changed. */
  function Expand(s: string): string
  {
    if s == [] then [] else (if s[0] == '\n' then "<br>\n" else [s[0]]) + Expand(s[1..])
  }

  lemma {:induction false} ExpandAppend(a: string, b: string)
    ensures Expand(a + b) == Expand(a) + Expand(b)
  {
    if a != [] {
      assert (a + b)[0] == a[0];
      assert (a + b)[1..] == a[1..] + b;
      ExpandAppend(a[1..], b);
    } else {
      assert a + b == b;
    }
  }

  lemma {:induction false} ExpandSpaces(a: string)
    requires forall i :: 0 <= i < |a| ==> a[i] == ' '
    ensures Expand(a) == a
  {
    if a != [] {
      ExpandSpaces(a[1..]);
    }
  }

  lemma {:induction false} CharRunAppend(a: string, b: string, c: char)
    requires forall i :: 0 <= i < |a| ==> a[i] == c
    ensures CharRun(a + b, c) == |a| + CharRun(b, c)
  {
    if a != [] {
      assert (a + b)[0] == c;
      assert (a + b)[1..] == a[1..] + b;
      CharRunAppend(a[1..], b, c);
    } else {
      assert a + b == b;
    }
  }

  /** Where there is no space before a newline, the encoder's rewriting is Expand. */
  lemma {:induction false} ReplaceNewlinesIsExpand(s: string)
    requires NoSpaceBeforeNewline(s)
    ensures ReplaceNewlines(s) == Expand(s)
    decreases |s|
  {
    if s != [] {
      var k := CharRun(s, ' ');
      if 0 < k < |s| {
        assert s[k - 1] == ' ';
      }
      ReplaceNewlinesIsExpand(s[1..]);
    }
  }

  /** Expanded text that did not start with a newline starts with no line-break tag. */
  lemma ExpandStartsWithoutTag(z: string)
    requires HasNoBrText(z) && (z == [] || z[0] != '\n')
    ensures BrTagLen(Expand(z)) == 0
  {
    if z != [] && z[0] == '<' && |z| >= 2 && z[1] != '\n' {
      assert Expand(z) == [z[0], z[1]] + Expand(z[2..]);
    }
  }

  /** An expanded newline is one whole match of the decode pattern: `<br>` and that newline. */
  lemma ExpandedNewlineMatches(y: string)
    requires y != [] && y[0] == '\n'
    ensures BreakMatchLen(Expand(y)) == 5 && Expand(y)[5..] == Expand(y[1..])
  {
    var e, e' := Expand(y), Expand(y[1..]);
    assert e == "<br>\n" + e';
    assert e[3..] == ">\n" + e';
    assert BrCloseLen(e[3..]) == 1;
    assert CharRun(e, ' ') == 0 && e[0..] == e;
    assert BrTagLen(e) == 4;
    assert e[4..] == "\n" + e';
    assert CharRun(e[4..], ' ') == 0 && e[4..][0..] == e[4..];
    assert e' == [] || e'[0] != '\n';
    assert e[4..][1..] == e';
    assert CharRun(e[4..], '\n') == 1;
  }

  /** Any other expanded character starts no match of the decode pattern. */
  lemma ExpandedCharDoesNotMatch(y: string)
    requires HasNoBrText(y) && NoSpaceBeforeNewline(y)
    requires y != [] && y[0] != '\n'
    ensures BreakMatchLen(Expand(y)) == 0 && Expand(y)[1..] == Expand(y[1..])
  {
    var m := CharRun(y, ' ');
    AfterSpaceRun(y);
    ExpandSpaceRun(y);
    ExpandStartsWithoutTag(y[m..]);
    assert Expand(y) == [y[0]] + Expand(y[1..]);
  }

  /** After the leading spaces of such text comes no newline and no `<br`. */
  lemma AfterSpaceRun(y: string)
    requires HasNoBrText(y) && NoSpaceBeforeNewline(y)
    requires y != [] && y[0] != '\n'
    ensures var m := CharRun(y, ' ');
      HasNoBrText(y[m..]) && (y[m..] == [] || y[m..][0] != '\n')
  {
    var m := CharRun(y, ' ');
    if 0 < m < |y| {
      assert y[m - 1] == ' ';
    }
    SliceKeepsNoBr(y, m, |y|);
    assert y[m..|y|] == y[m..];
  }

  /** Expand leaves the leading run of spaces alone and adds none after it. */
  lemma ExpandSpaceRun(y: string)
    ensures var m := CharRun(y, ' ');
      CharRun(Expand(y), ' ') == m && Expand(y)[m..] == Expand(y[m..])
  {
    var m := CharRun(y, ' ');
    var z := y[m..];
    assert y == y[..m] + z;
    ExpandAppend(y[..m], z);
    ExpandSpaces(y[..m]);
    assert z == [] || Expand(z)[0] != ' ';
    CharRunAppend(y[..m], Expand(z), ' ');
  }

  /** Decoding undoes Expand on text without `<br` and without a space before a newline. */
  lemma {:induction false} ExpandDecodes(y: string)
    requires HasNoBrText(y) && NoSpaceBeforeNewline(y)
    ensures ReplaceBreaks(Expand(y)) == y
    decreases |y|
  {
    if y != [] {
      ExpandDecodes(y[1..]);
      if y[0] == '\n' {
        ExpandedNewlineMatches(y);
      } else {
        ExpandedCharDoesNotMatch(y);
      }
    }
  }

  /** Text without `<br` whose lines do not end in spaces survives closing and reopening the editor. */
  lemma DecodeEncodeRoundTrip(text: string)
    requires IsTrimmed(text, IsJsWhitespace) && HasNoBrText(text) && NoSpaceBeforeNewline(text)
    ensures Decode(Encode(text)) == text
  {
    if text != [] {
      var y := text + "\n";
      assert NoSpaceBeforeNewline(y);
      assert HasNoBrText(y);
      ReplaceNewlinesIsExpand(y);
      ExpandDecodes(y);
      TrimDropsAppended(text, '\n', IsJsWhitespace);
    }
  }

  /** `s` without the spaces that stand directly before a newline, possibly through
      further spaces; every other character is kept, in order. */
  function DropSpacesBeforeNewlines(s: string): (r: string)
    decreases |s|
  {
    if s == [] then []
    else
      var rest := DropSpacesBeforeNewlines(s[1..]);
      if s[0] == ' ' && rest != [] && rest[0] == '\n' then rest else [s[0]] + rest
  }

  /** The dropped text starts with a newline exactly where the encoder's ` *\n` matches,
      and it then continues with the text after that match. */
  lemma {:induction false} DropSpacesAtMatch(s: string)
    ensures var d := DropSpacesBeforeNewlines(s);
      (d != [] && d[0] == '\n') <==> SpacesNewlineLen(s) > 0
    ensures SpacesNewlineLen(s) > 0 ==>
      DropSpacesBeforeNewlines(s) == "\n" + DropSpacesBeforeNewlines(s[SpacesNewlineLen(s)..])
    decreases |s|
  {
    if s != [] && s[0] == ' ' {
      DropSpacesAtMatch(s[1..]);
      assert CharRun(s, ' ') == 1 + CharRun(s[1..], ' ');
      assert SpacesNewlineLen(s) > 0 ==> SpacesNewlineLen(s) == 1 + SpacesNewlineLen(s[1..]);
      assert s[1..][SpacesNewlineLen(s[1..])..] == s[1 + SpacesNewlineLen(s[1..])..];
    }
  }

  /** For every text, the encoder's rewriting keeps all characters except the spaces
      directly before a newline, in order, and puts `<br>` before each newline. */
  lemma {:induction false} ReplaceNewlinesKeepsText(s: string)
    ensures ReplaceNewlines(s) == Expand(DropSpacesBeforeNewlines(s))
    decreases |s|
  {
    if s != [] {
      DropSpacesAtMatch(s);
      var n := SpacesNewlineLen(s);
      if n > 0 {
        ReplaceNewlinesKeepsText(s[n..]);
        var d := DropSpacesBeforeNewlines(s[n..]);
        assert ("\n" + d)[0] == '\n' && ("\n" + d)[1..] == d;
      } else {
        ReplaceNewlinesKeepsText(s[1..]);
        DropSpacesAtMatch(s[1..]);
        var d := DropSpacesBeforeNewlines(s[1..]);
        assert s[0] == ' ' ==> !(d != [] && d[0] == '\n');
        assert ([s[0]] + d)[0] == s[0] && ([s[0]] + d)[1..] == d;
      }
    }
  }

  /** Encoding, for every text: the trimmed text with a newline appended loses only the
      spaces before its newlines and gets `<br>` before each of them. */
  lemma EncodeKeepsText(text: string)
    ensures var t := JsTrim(text);
      Encode(text) == if t == [] then [] else Expand(DropSpacesBeforeNewlines(t + "\n"))
  {
    var t := JsTrim(text);
    if t != [] {
      ReplaceNewlinesKeepsText(t + "\n");
    }
  }

  /** Dropping starts with the first character or with a newline, and ends with the
      last character when that is not a space. */
  lemma {:induction false} DropSpacesEnds(s: string)
    requires s != []
    ensures var d := DropSpacesBeforeNewlines(s);
      d != [] && (d[0] == s[0] || d[0] == '\n')
      && (s[|s| - 1] != ' ' ==> d[|d| - 1] == s[|s| - 1])
    decreases |s|
  {
    if |s| > 1 {
      DropSpacesEnds(s[1..]);
    }
  }

  /** After dropping, no space stands before a newline. */
  lemma {:induction false} DropSpacesLeavesNone(s: string)
    ensures NoSpaceBeforeNewline(DropSpacesBeforeNewlines(s))
    decreases |s|
  {
    if s != [] {
      DropSpacesLeavesNone(s[1..]);
      var d := DropSpacesBeforeNewlines(s[1..]);
      var r := DropSpacesBeforeNewlines(s);
      if r != d {
        assert r == [s[0]] + d;
        forall i | 0 <= i < |r| - 1 ensures !(r[i] == ' ' && r[i + 1] == '\n') {
          if i > 0 {
            assert r[i] == d[i - 1] && r[i + 1] == d[i];
          }
        }
      }
    }
  }

  /** A dropped text that starts with `br` comes from a text that starts with `br`. */
  lemma DropSpacesKeepsBrHead(x: string)
    requires var d := DropSpacesBeforeNewlines(x); |d| >= 2 && d[0] == 'b' && d[1] == 'r'
    ensures |x| >= 2 && x[0] == 'b' && x[1] == 'r'
  {
    DropSpacesEnds(x);
    assert x[1..] != [];
    DropSpacesEnds(x[1..]);
  }

  /** Dropping spaces creates no `<br`. */
  lemma {:induction false} DropSpacesKeepsNoBr(s: string)
    requires HasNoBrText(s)
    ensures HasNoBrText(DropSpacesBeforeNewlines(s))
    decreases |s|
  {
    if s != [] {
      assert HasNoBrText(s[1..]) by {
        forall i | 0 <= i < |s[1..]| - 2
          ensures !(s[1..][i] == '<' && s[1..][i + 1] == 'b' && s[1..][i + 2] == 'r')
        {
          assert s[1..][i] == s[i + 1] && s[1..][i + 1] == s[i + 2] && s[1..][i + 2] == s[i + 3];
        }
      }
      DropSpacesKeepsNoBr(s[1..]);
      var d := DropSpacesBeforeNewlines(s[1..]);
      var r := DropSpacesBeforeNewlines(s);
      if r != d {
        assert r == [s[0]] + d;
        if |d| >= 2 && s[0] == '<' && d[0] == 'b' && d[1] == 'r' {
          DropSpacesKeepsBrHead(s[1..]);
          assert false;
        }
        forall i | 0 <= i < |r| - 2 ensures !(r[i] == '<' && r[i + 1] == 'b' && r[i + 2] == 'r') {
          if i > 0 {
            assert r[i] == d[i - 1] && r[i + 1] == d[i] && r[i + 2] == d[i + 1];
          }
        }
      }
    }
  }

  /** On text whose last character is not a space, a newline appended survives dropping. */
  lemma {:induction false} DropSpacesAppendNewline(t: string)
    requires t == [] || t[|t| - 1] != ' '
    ensures DropSpacesBeforeNewlines(t + "\n") == DropSpacesBeforeNewlines(t) + "\n"
    decreases |t|
  {
    if t != [] {
      assert (t + "\n")[1..] == t[1..] + "\n";
      DropSpacesAppendNewline(t[1..]);
      if t[1..] != [] {
        DropSpacesEnds(t[1..]);
      }
    }
  }

  /** Trimming creates no `<br`. */
  lemma JsTrimKeepsNoBr(text: string)
    requires HasNoBrText(text)
    ensures HasNoBrText(JsTrim(text))
  {
    JsTrimIsSlice(text);
    var lead := LeadingCount(text, IsJsWhitespace);
    SliceKeepsNoBr(text, lead, lead + |JsTrim(text)|);
  }

  /** A slice of text without `<br` has none either. */
  lemma SliceKeepsNoBr(s: string, a: nat, b: nat)
    requires a <= b <= |s| && HasNoBrText(s)
    ensures HasNoBrText(s[a..b])
  {
    var t := s[a..b];
    forall i | 0 <= i < |t| - 2 ensures !(t[i] == '<' && t[i + 1] == 'b' && t[i + 2] == 'r') {
      assert t[i] == s[a + i] && t[i + 1] == s[a + i + 1] && t[i + 2] == s[a + i + 2];
    }
  }

  /** Dropping keeps trimmed text trimmed: its ends are the original ends. */
  lemma DropSpacesKeepsTrimmed(t: string)
    requires t != [] && IsTrimmed(t, IsJsWhitespace)
    ensures var d := DropSpacesBeforeNewlines(t);
      d != [] && IsTrimmed(d, IsJsWhitespace) && d[|d| - 1] != ' '
  {
    DropSpacesEnds(t);
    DropSpacesAtMatch(t);
    assert CharRun(t, ' ') == 0;
  }

  /** A newline appended to text that does not end in a space creates neither `<br`
      nor a space before a newline. */
  lemma AppendNewlineKeepsPlain(d: string)
    requires d != [] && d[|d| - 1] != ' '
    requires HasNoBrText(d) && NoSpaceBeforeNewline(d)
    ensures HasNoBrText(d + "\n") && NoSpaceBeforeNewline(d + "\n")
  {
    var y := d + "\n";
    forall i | 0 <= i < |y| - 2 ensures !(y[i] == '<' && y[i + 1] == 'b' && y[i + 2] == 'r') {
      assert y[i] == d[i] && y[i + 1] == d[i + 1];
    }
    forall i | 0 <= i < |y| - 1 ensures !(y[i] == ' ' && y[i + 1] == '\n') {
      assert y[i] == d[i];
      if i + 1 < |d| {
        assert y[i + 1] == d[i + 1];
      }
    }
  }

  /** For every text without `<br`, closing and reopening the editor gives back the
      trimmed text without the spaces that stood before a newline, and nothing else lost. */
  lemma DecodeEncodeKeepsText(text: string)
    requires HasNoBrText(text)
    ensures Decode(Encode(text)) == DropSpacesBeforeNewlines(JsTrim(text))
  {
    var t := JsTrim(text);
    EncodeKeepsText(text);
    if t != [] {
      var d := DropSpacesBeforeNewlines(t);
      JsTrimKeepsNoBr(text);
      DropSpacesKeepsNoBr(t);
      DropSpacesLeavesNone(t);
      DropSpacesKeepsTrimmed(t);
      DropSpacesAppendNewline(t);
      AppendNewlineKeepsPlain(d);
      ExpandDecodes(d + "\n");
      TrimDropsAppended(d, '\n', IsJsWhitespace);
    }
  }

  /** Such text is also unchanged by decoding alone, so decode(encode(x)) == decode(x) for it. */
  lemma DecodeFixesPlainText(text: string)
    requires IsTrimmed(text, IsJsWhitespace) && HasNoBrText(text)
    ensures Decode(text) == text
  {
    forall i | 0 <= i <= |text| ensures BrTagLen(text[i..]) == 0 {
    }
    ReplaceBreaksFixpoint(text);
  }

  /** Expand leaves a line without a newline as it is and ends it with `<br>` before its newline. */
  lemma {:induction false} ExpandLine(s: string)
    requires forall i :: 0 <= i < |s| ==> s[i] != '\n'
    ensures Expand(s) == s && Expand(s + "\n") == s + "<br>\n"
    decreases |s|
  {
    if s != [] {
      ExpandLine(s[1..]);
      assert (s + "\n")[1..] == s[1..] + "\n";
      assert s == [s[0]] + s[1..];
    }
  }

  /** Two lines: `<br>` goes before the newline between them and before a final newline. */
  lemma ExpandTwoLines(a: string, b: string)
    requires forall i :: 0 <= i < |a| ==> a[i] != '\n'
    requires forall i :: 0 <= i < |b| ==> b[i] != '\n'
    ensures Expand(a + "\n" + b) == a + "<br>\n" + b
    ensures Expand(a + "\n" + b + "\n") == a + "<br>\n" + b + "<br>\n"
  {
    ExpandLine(a);
    ExpandLine(b);
    ExpandAppend(a + "\n", b);
    ExpandAppend(a + "\n", b + "\n");
    assert a + "\n" + b + "\n" == (a + "\n") + (b + "\n");
  }

  /** Encoding trimmed, non-empty text rewrites it with one newline appended. */
  lemma EncodeTrimmed(text: string)
    requires text != [] && IsTrimmed(text, IsJsWhitespace)
    ensures Encode(text) == ReplaceNewlines(text + "\n")
  {
  }

  /** Outside the round trip's conditions it is lossy: a space before a newline is dropped,
      although decoding alone keeps it. */
  lemma RoundTripDropsSpaceBeforeNewline(a: string, b: string)
    requires a == "a" && b == "b"
    ensures Encode(a + " \n" + b) == a + "<br>\n" + b + "<br>\n"
    ensures Decode(Encode(a + " \n" + b)) == a + "\n" + b
    ensures Decode(a + " \n" + b) == a + " \n" + b
  {
    EncodeSpaceLineExample(a, b);
    DecodeTwoLinesExample(a, b);
    DecodeKeepsSpaceExample(a, b);
  }

  lemma EncodeSpaceLineExample(a: string, b: string)
    requires a == "a" && b == "b"
    ensures Encode(a + " \n" + b) == a + "<br>\n" + b + "<br>\n"
  {
    SpaceLineEncodes(a, b);
    TwoShortLinesShape(a, b);
    ReplaceNewlinesIsExpand(b + "\n");
    ExpandLine(b);
  }

  lemma DecodeTwoLinesExample(a: string, b: string)
    requires a == "a" && b == "b"
    ensures Decode(a + "<br>\n" + b + "<br>\n") == a + "\n" + b
  {
    SpaceLineShape(a, b);
    TwoShortLinesShape(a, b);
    ExpandTwoLines(a, b);
    ExpandDecodes(a + "\n" + b + "\n");
    TrimDropsAppended(a + "\n" + b, '\n', IsJsWhitespace);
  }

  lemma DecodeKeepsSpaceExample(a: string, b: string)
    requires a == "a" && b == "b"
    ensures Decode(a + " \n" + b) == a + " \n" + b
  {
    SpaceLineShape(a, b);
    DecodeFixesPlainText(a + " \n" + b);
  }

  /** The first two steps of encoding `a \nb`: the space and newline become one `<br>\n`. */
  lemma SpaceLineEncodes(a: string, b: string)
    requires a == "a" && b == "b"
    ensures Encode(a + " \n" + b) == a + "<br>\n" + ReplaceNewlines(b + "\n")
  {
    var y := a + " \n" + b + "\n";
    SpaceLineShape(a, b);
    EncodeTrimmed(a + " \n" + b);
    var y1 := y[1..];
    assert y1 == " \n" + b + "\n";
    assert CharRun(y, ' ') == 0 && SpacesNewlineLen(y) == 0;
    assert ReplaceNewlines(y) == a + ReplaceNewlines(y1);
    assert CharRun(y1, ' ') == 1 && y1[1] == '\n';
    assert SpacesNewlineLen(y1) == 2 && y1[2..] == b + "\n";
  }

  lemma SpaceLineShape(a: string, b: string)
    requires a == "a" && b == "b"
    ensures IsTrimmed(a + " \n" + b, IsJsWhitespace) && HasNoBrText(a + " \n" + b)
    ensures IsTrimmed(a + "\n" + b, IsJsWhitespace)
  {
  }

  lemma TwoShortLinesShape(a: string, b: string)
    requires a == "a" && b == "b"
    ensures HasNoBrText(a + "\n" + b + "\n") && NoSpaceBeforeNewline(a + "\n" + b + "\n")
    ensures NoSpaceBeforeNewline(b + "\n")
  {
  }

  /** Opening the editor on `Foo<br>\nBar` gives `Foo\nBar`, seven characters long. */
  lemma DecodeExample(a: string, b: string)
    requires a == "Foo" && b == "Bar"
    ensures Decode(a + "<br>\n" + b) == "Foo\nBar"
    ensures |Decode(a + "<br>\n" + b)| == 7
  {
    var plain := a + "\n" + b;
    ExpandTwoLines(a, b);
    assert HasNoBrText(plain) && NoSpaceBeforeNewline(plain);
    ExpandDecodes(plain);
    assert IsTrimmed(plain, IsJsWhitespace);
  }

  /** `<br />` and `<br/>` are line breaks; `<br >` (a space but no slash) is not. */
  lemma BrTagExamples(a: string, b: string, c: string)
    requires a == "<br />" && b == "<br/>" && c == "<br >"
    ensures BrTagLen(a) == 6 && BrTagLen(b) == 5 && BrTagLen(c) == 0
  {
    assert a[3..] == " />";
    assert CharRun(a[3..], ' ') == 1;
  }

  /** Closing the editor on `Line1\nLine2` writes `Line1<br>\nLine2<br>\n`. */
  lemma EncodeExample(a: string, b: string)
    requires a == "Line1" && b == "Line2"
    ensures Encode(a + "\n" + b) == "Line1<br>\nLine2<br>\n"
  {
    TwoLinesPlain(a, b);
    EncodeTrimmed(a + "\n" + b);
    ReplaceNewlinesIsExpand(a + "\n" + b + "\n");
    ExpandTwoLines(a, b);
  }

  lemma TwoLinesPlain(a: string, b: string)
    requires a == "Line1" && b == "Line2"
    ensures IsTrimmed(a + "\n" + b, IsJsWhitespace)
    ensures NoSpaceBeforeNewline(a + "\n" + b + "\n")
  {
  }

  /** A buffer holding only whitespace writes nothing back. */
  lemma EncodeBlankExample(text: string)
    requires text == " \n "
    ensures Encode(text) == ""
  {
  }
}
