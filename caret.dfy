/**
 * Recovering a caret offset from a tap on the emulated text view.
 *
 * When the on-screen keyboard replaces the native text area, the editor shows
 * the buffer as a `div` holding the text before the caret, a caret `span`, and
 * the text after it. A tap reports a DOM node and an offset inside it; the
 * editor turns that into an offset into the whole buffer by adding the lengths
 * of every text node (DOM nodeType 3) that precedes the tapped node among its
 * siblings. Other siblings, such as the caret `span`, add nothing.
 */
module Caret {

  /** A child of the emulated text view, as far as the offset computation sees it. */
  datatype DomNode = TextNode(value: string) | ElementNode

  /** What a collapsed selection reports: the siblings before the anchor node, in
      document order, and the offset inside the anchor node. */
  datatype Selection = Selection(preceding: seq<DomNode>, offset: nat)

  /** Characters a node contributes to the offset: its text, or nothing for an element. */
  function NodeLength(n: DomNode): nat {
    match n
    case TextNode(v) => |v|
    case ElementNode => 0
  }

  /** Total length of the text nodes in `nodes`. */
  function TextLength(nodes: seq<DomNode>): nat {
    if nodes == [] then 0 else NodeLength(nodes[0]) + TextLength(nodes[1..])
  }

  /** The text of `nodes` as the user reads it: the text nodes' values, in order. */
  function Flatten(nodes: seq<DomNode>): string {
    if nodes == [] then [] else (if nodes[0].TextNode? then nodes[0].value else []) + Flatten(nodes[1..])
  }

  /** The summed lengths are the length of the text those nodes display. */
  lemma {:induction false} TextLengthIsFlattenLength(nodes: seq<DomNode>)
    ensures TextLength(nodes) == |Flatten(nodes)|
  {
    if nodes != [] {
      TextLengthIsFlattenLength(nodes[1..]);
    }
  }

  lemma {:induction false} FlattenAppend(a: seq<DomNode>, b: seq<DomNode>)
    ensures Flatten(a + b) == Flatten(a) + Flatten(b)
  {
    if a != [] {
      assert (a + b)[0] == a[0];
      assert (a + b)[1..] == a[1..] + b;
      FlattenAppend(a[1..], b);
    } else {
      assert a + b == b;
    }
  }

  /** The offset computation of `handleCaretMove`: walk back over the siblings
      before the anchor node and add the length of each text node. */
  method CaretOffset(sel: Selection) returns (pos: nat)
    ensures pos == sel.offset + TextLength(sel.preceding)
  {
    pos := sel.offset;
    var i := |sel.preceding|;
    while i > 0
      invariant 0 <= i <= |sel.preceding|
      invariant pos == sel.offset + TextLength(sel.preceding[i..])
    {
      i := i - 1;
      var node := sel.preceding[i];
      assert sel.preceding[i..] == [node] + sel.preceding[i + 1..];
      if node.TextNode? {
        pos := pos + |node.value|;
      }
    }
    assert sel.preceding[0..] == sel.preceding;
  }

  /** The children of the emulated view for `text` with the caret at `caret`. */
  function EmulatedView(text: string, caret: nat): (view: seq<DomNode>)
    requires caret <= |text|
    ensures Flatten(view) == text
  {
    var view := [TextNode(text[..caret]), ElementNode, TextNode(text[caret..])];
    assert Flatten(view[2..]) == text[caret..] by { assert view[2..][1..] == []; }
    assert Flatten(view[1..]) == text[caret..] by { assert view[1..][1..] == view[2..]; }
    assert text[..caret] + text[caret..] == text;
    view
  }

  /** The selection a tap on one of the two text nodes of the emulated view reports:
      no sibling before the text before the caret, or that text and the caret marker
      before the text after it, and an offset inside the tapped text. */
  predicate TapInView(text: string, caret: nat, sel: Selection)
    requires caret <= |text|
  {
    var view := EmulatedView(text, caret);
    || (sel.preceding == view[..0] && sel.offset <= |view[0].value|)
    || (sel.preceding == view[..2] && sel.offset <= |view[2].value|)
  }

  /** The recovered offset of a tap inside a text node indexes the displayed text:
      what is displayed before the tapped character is the text before that offset. */
  lemma TapOffsetIndexesText(view: seq<DomNode>, index: nat, offset: nat)
    requires index < |view| && view[index].TextNode? && offset <= |view[index].value|
    ensures var pos := offset + TextLength(view[..index]);
      pos <= |Flatten(view)| &&
      Flatten(view)[..pos] == Flatten(view[..index]) + view[index].value[..offset]
  {
    var before, node, after := view[..index], view[index], view[index + 1..];
    assert view == before + [node] + after;
    FlattenAppend(before + [node], after);
    FlattenAppend(before, [node]);
    assert Flatten([node]) == node.value + Flatten([]);
    TextLengthIsFlattenLength(before);
  }

  /** A tap anywhere in the text of the emulated view puts the caret inside the buffer,
      at the position of the tapped character. */
  lemma EmulatedTapLandsInText(text: string, caret: nat, index: nat, offset: nat)
    requires caret <= |text| && (index == 0 || index == 2)
    requires offset <= |EmulatedView(text, caret)[index].value|
    ensures var pos := offset + TextLength(EmulatedView(text, caret)[..index]);
      pos <= |text| && pos == (if index == 0 then offset else caret + offset)
  {
    var view := EmulatedView(text, caret);
    TapOffsetIndexesText(view, index, offset);
    if index == 2 {
      var before := view[..2];
      assert before[1..][1..] == [];
      assert TextLength(before[1..]) == 0;
      assert TextLength(before) == caret;
    }
  }

  /** A tap in the emulated view gives a caret inside the buffer. */
  lemma TapInViewLandsInText(text: string, caret: nat, sel: Selection)
    requires caret <= |text| && TapInView(text, caret, sel)
    ensures sel.offset + TextLength(sel.preceding) <= |text|
  {
    var view := EmulatedView(text, caret);
    if sel.preceding == view[..0] && sel.offset <= |view[0].value| {
      EmulatedTapLandsInText(text, caret, 0, sel.offset);
    } else {
      EmulatedTapLandsInText(text, caret, 2, sel.offset);
    }
  }
}
