/**
 How video buttons sit in a transcript. Every registered button occupies a
 block: its own anchor, followed, while the button is active, by the
 expansion the toggle callback inserted (a newline, the web-view anchor and,
 unless the button was inserted at the end of the text, a second newline).
 `LaidOut` is the invariant the registry keeps between the blocks and the
 buffer; the lemmas here show that each buffer edit of the video-frames code
 preserves it.
 */
module Layout {
  import opened TextBuffer

  /** What expanding a button inserts right after it. */
  function Expansion(isEnd: bool): (e: seq<Elem>)
    ensures |e| == if isEnd then 2 else 3
    ensures e[1] == Anchor(WebView)
    ensures forall i :: 0 <= i < |e| ==> !IsButton(e[i])
  {
    [Char('\n'), Anchor(WebView)] + (if isEnd then [] else [Char('\n')])
  }

  /** The toggle callback builds the expansion with two or three insertions at
      consecutive positions: a newline, the web view's anchor and, when the button is
      not at the end of the text, another newline. */
  lemma ExpansionInserted(s: seq<Elem>, p: nat, isEnd: bool)
    requires p <= |s|
    ensures p + 1 <= |Splice(s, p, Chars("\n"))|
    ensures var two := Splice(Splice(s, p, Chars("\n")), p + 1, [Anchor(WebView)]);
      if isEnd then two == Splice(s, p, Expansion(isEnd))
      else p + 2 <= |two| && Splice(two, p + 2, Chars("\n")) == Splice(s, p, Expansion(isEnd))
  {
    assert Chars("\n") == [Char('\n')];
    SplicesCompose(s, p, [Char('\n')], [Anchor(WebView)]);
    assert [Char('\n')] + [Anchor(WebView)] == [Char('\n'), Anchor(WebView)];
    if isEnd {
      assert Expansion(isEnd) == [Char('\n'), Anchor(WebView)];
    } else {
      SplicesCompose(s, p, [Char('\n'), Anchor(WebView)], [Char('\n')]);
    }
  }

  /** The marks move for the two or three insertions as for one insertion of the expansion. */
  lemma ExpansionShifts(marks: map<Mark, nat>, p: nat, isEnd: bool)
    ensures var two := ShiftForInsert(ShiftForInsert(marks, p, 1), p + 1, 1);
      if isEnd then two == ShiftForInsert(marks, p, |Expansion(isEnd)|)
      else ShiftForInsert(two, p + 2, 1) == ShiftForInsert(marks, p, |Expansion(isEnd)|)
  {
    InsertShiftsCompose(marks, p, 1, 1);
    if !isEnd {
      InsertShiftsCompose(marks, p, 2, 1);
    }
  }

  /** The span of one button: where its anchor is, the stored end-of-text flag,
      and whether it is expanded. */
  datatype Block = Block(start: nat, isEnd: bool, expanded: bool)
  {
    /** One past the last position the block occupies. */
    function End(): nat
    {
      start + 1 + if expanded then |Expansion(isEnd)| else 0
    }
  }

  function ShiftBlocksForInsert(blocks: map<Handle, Block>, p: nat, k: nat): map<Handle, Block>
  {
    map h | h in blocks :: blocks[h].(start := InsPos(blocks[h].start, p, k))
  }

  function ShiftBlocksForDelete(blocks: map<Handle, Block>, a: nat, b: nat): map<Handle, Block>
    requires a <= b
  {
    map h | h in blocks :: blocks[h].(start := DelPos(blocks[h].start, a, b))
  }

  /** Block `b` of button `h` is present in `elems`. */
  ghost predicate BlockIn(elems: seq<Elem>, h: Handle, b: Block)
  {
    && b.End() <= |elems|
    && elems[b.start] == Anchor(Button(h))
    && (b.expanded ==> elems[b.start + 1..b.End()] == Expansion(b.isEnd))
  }

  /** Every block is in place, blocks are separated by at least one position, and
      every button anchor in the buffer is the anchor of its own block. */
  ghost predicate LaidOut(elems: seq<Elem>, blocks: map<Handle, Block>)
  {
    InPlace(elems, blocks) && Separated(blocks) && Owned(elems, blocks)
  }

  ghost predicate InPlace(elems: seq<Elem>, blocks: map<Handle, Block>)
  {
    forall h :: h in blocks ==> BlockIn(elems, h, blocks[h])
  }

  /** Two blocks with at least one position between them. */
  ghost predicate Apart(b1: Block, b2: Block)
  {
    b1.End() < b2.start || b2.End() < b1.start
  }

  ghost predicate Separated(blocks: map<Handle, Block>)
  {
    forall h1, h2 {:trigger Apart(blocks[h1], blocks[h2])} :: h1 in blocks && h2 in blocks && h1 != h2 ==>
      Apart(blocks[h1], blocks[h2])
  }

  /** The anchor of a video button. */
  predicate IsButton(e: Elem)
  {
    e.Anchor? && e.child.Button?
  }

  ghost predicate Owned(elems: seq<Elem>, blocks: map<Handle, Block>)
  {
    forall i {:trigger IsButton(elems[i])} :: 0 <= i < |elems| && IsButton(elems[i]) ==>
      elems[i].child.handle in blocks && blocks[elems[i].child.handle].start == i
  }

  /** A position where a new button may go: strictly before a block, or at least one
      position past its end. */
  ghost predicate FreeAt(blocks: map<Handle, Block>, loc: nat)
  {
    forall h :: h in blocks ==> loc < blocks[h].start || blocks[h].End() < loc
  }

  ghost predicate NoButtons(elems: seq<Elem>)
  {
    forall i :: 0 <= i < |elems| ==> !IsButton(elems[i])
  }

  /** A transcript without video buttons is laid out for an empty registry. */
  lemma EmptyLayout(elems: seq<Elem>)
    requires NoButtons(elems)
    ensures LaidOut(elems, map[])
  {
  }

  /** Content before an insertion point keeps its place. */
  lemma SpliceBefore<T>(s: seq<T>, p: nat, e: seq<T>, i: nat, j: nat)
    requires p <= |s| && i <= j <= p
    ensures Splice(s, p, e)[i..j] == s[i..j]
  {
  }

  /** Content after an insertion point moves right by the inserted length. */
  lemma SpliceAfter<T>(s: seq<T>, p: nat, e: seq<T>, i: nat, j: nat)
    requires p <= i <= j <= |s|
    ensures Splice(s, p, e)[i + |e|..j + |e|] == s[i..j]
  {
    var t := Splice(s, p, e);
    assert t[p + |e|..] == s[p..];
    assert t[i + |e|..j + |e|] == t[p + |e|..][i - p..j - p];
  }

  /** Content after a deleted range moves left by the deleted length. */
  lemma CutAfter<T>(s: seq<T>, a: nat, b: nat, i: nat, j: nat)
    requires a <= b <= i <= j <= |s|
    ensures Cut(s, a, b)[i - (b - a)..j - (b - a)] == s[i..j]
  {
    var t := Cut(s, a, b);
    assert t[a..] == s[b..];
    assert t[i - (b - a)..j - (b - a)] == t[a..][i - b..j - b];
  }

  /** Content before a deleted range keeps its place. */
  lemma CutBefore<T>(s: seq<T>, a: nat, b: nat, i: nat, j: nat)
    requires i <= j <= a <= b <= |s|
    ensures Cut(s, a, b)[i..j] == s[i..j]
  {
  }

  /** A block untouched by an edit, or moved as a whole, stays in place. */
  lemma BlockMovedRight(elems: seq<Elem>, p: nat, e: seq<Elem>, h: Handle, b: Block)
    requires p <= |elems| && BlockIn(elems, h, b) && p <= b.start
    ensures BlockIn(Splice(elems, p, e), h, b.(start := b.start + |e|))
  {
    var t := Splice(elems, p, e);
    SpliceAfter(elems, p, e, b.start, b.End());
    assert t[b.start + |e|] == t[b.start + |e|..b.End() + |e|][0];
    assert t[b.start + 1 + |e|..b.End() + |e|] == t[b.start + |e|..b.End() + |e|][1..];
  }

  lemma BlockStaysBefore(elems: seq<Elem>, p: nat, e: seq<Elem>, h: Handle, b: Block)
    requires p <= |elems| && BlockIn(elems, h, b) && b.End() <= p
    ensures BlockIn(Splice(elems, p, e), h, b)
  {
    var t := Splice(elems, p, e);
    SpliceBefore(elems, p, e, b.start, b.End());
    assert t[b.start] == t[b.start..b.End()][0];
    assert t[b.start + 1..b.End()] == t[b.start..b.End()][1..];
  }

  lemma BlockMovedLeft(elems: seq<Elem>, a: nat, c: nat, h: Handle, b: Block)
    requires a <= c <= b.start && BlockIn(elems, h, b)
    ensures BlockIn(Cut(elems, a, c), h, b.(start := b.start - (c - a)))
  {
    var t := Cut(elems, a, c);
    var d := c - a;
    CutAfter(elems, a, c, b.start, b.End());
    assert t[b.start - d] == t[b.start - d..b.End() - d][0];
    assert t[b.start + 1 - d..b.End() - d] == t[b.start - d..b.End() - d][1..];
  }

  lemma BlockStaysBeforeCut(elems: seq<Elem>, a: nat, c: nat, h: Handle, b: Block)
    requires b.End() <= a <= c <= |elems| && BlockIn(elems, h, b)
    ensures BlockIn(Cut(elems, a, c), h, b)
  {
    var t := Cut(elems, a, c);
    CutBefore(elems, a, c, b.start, b.End());
    assert t[b.start] == t[b.start..b.End()][0];
    assert t[b.start + 1..b.End()] == t[b.start..b.End()][1..];
  }

  /** The blocks after a new, collapsed button `h` was inserted at `loc`. */
  function BlocksAfterInsert(blocks: map<Handle, Block>, loc: nat, h: Handle, isEnd: bool): map<Handle, Block>
  {
    ShiftBlocksForInsert(blocks, loc, 1)[h := Block(loc, isEnd, false)]
  }

  lemma InsertInPlace(elems: seq<Elem>, blocks: map<Handle, Block>, loc: nat, h: Handle, isEnd: bool)
    requires InPlace(elems, blocks) && loc <= |elems| && FreeAt(blocks, loc)
    ensures InPlace(Splice(elems, loc, [Anchor(Button(h))]), BlocksAfterInsert(blocks, loc, h, isEnd))
  {
    var e := [Anchor(Button(h))];
    var t := Splice(elems, loc, e);
    var nb := BlocksAfterInsert(blocks, loc, h, isEnd);
    forall g | g in nb
      ensures BlockIn(t, g, nb[g])
    {
      if g == h {
        assert t[loc] == Anchor(Button(h));
      } else if loc < blocks[g].start {
        BlockMovedRight(elems, loc, e, g, blocks[g]);
      } else {
        BlockStaysBefore(elems, loc, e, g, blocks[g]);
      }
    }
  }

  lemma InsertSeparated(blocks: map<Handle, Block>, loc: nat, h: Handle, isEnd: bool)
    requires Separated(blocks) && h !in blocks && FreeAt(blocks, loc)
    ensures Separated(BlocksAfterInsert(blocks, loc, h, isEnd))
  {
    var nb := BlocksAfterInsert(blocks, loc, h, isEnd);
    forall g1, g2 | g1 in nb && g2 in nb && g1 != g2
      ensures Apart(nb[g1], nb[g2])
    {
      if g1 != h && g2 != h {
        assert Apart(blocks[g1], blocks[g2]);
      }
    }
  }

  lemma InsertOwned(elems: seq<Elem>, blocks: map<Handle, Block>, loc: nat, h: Handle, isEnd: bool)
    requires InPlace(elems, blocks) && Owned(elems, blocks) && loc <= |elems| && h !in blocks && FreeAt(blocks, loc)
    ensures Owned(Splice(elems, loc, [Anchor(Button(h))]), BlocksAfterInsert(blocks, loc, h, isEnd))
  {
    var t := Splice(elems, loc, [Anchor(Button(h))]);
    var nb := BlocksAfterInsert(blocks, loc, h, isEnd);
    forall i | 0 <= i < |t| && IsButton(t[i])
      ensures t[i].child.handle in nb && nb[t[i].child.handle].start == i
    {
      if i < loc {
        assert t[i] == elems[i];
      } else if i > loc {
        assert t[i] == elems[i - 1] && IsButton(elems[i - 1]);
        var g := elems[i - 1].child.handle;
        assert blocks[g].start == i - 1;
        assert BlockIn(elems, g, blocks[g]);
      }
    }
  }

  /**
   Inserting a new, collapsed button at a free position keeps the layout: the new
   button's block is its single anchor at `loc`, and every other block keeps its
   content and moves right by one when it lay after `loc`.
   */
  lemma InsertKeepsLayout(elems: seq<Elem>, blocks: map<Handle, Block>, loc: nat, h: Handle, isEnd: bool,
                          after: map<Handle, Block>)
    requires LaidOut(elems, blocks) && loc <= |elems| && h !in blocks && FreeAt(blocks, loc)
    requires after == BlocksAfterInsert(blocks, loc, h, isEnd)
    ensures LaidOut(Splice(elems, loc, [Anchor(Button(h))]), after)
  {
    InsertInPlace(elems, blocks, loc, h, isEnd);
    InsertSeparated(blocks, loc, h, isEnd);
    InsertOwned(elems, blocks, loc, h, isEnd);
  }

  /** The blocks after the collapsed button `h` was expanded. */
  function BlocksAfterExpand(blocks: map<Handle, Block>, h: Handle): map<Handle, Block>
    requires h in blocks
  {
    ShiftBlocksForInsert(blocks, blocks[h].start + 1, |Expansion(blocks[h].isEnd)|)[h := blocks[h].(expanded := true)]
  }

  lemma ExpandInPlace(elems: seq<Elem>, blocks: map<Handle, Block>, h: Handle)
    requires InPlace(elems, blocks) && Separated(blocks) && h in blocks && !blocks[h].expanded
    ensures blocks[h].start + 1 <= |elems|
    ensures InPlace(Splice(elems, blocks[h].start + 1, Expansion(blocks[h].isEnd)), BlocksAfterExpand(blocks, h))
  {
    assert BlockIn(elems, h, blocks[h]);
    var p := blocks[h].start + 1;
    var e := Expansion(blocks[h].isEnd);
    var t := Splice(elems, p, e);
    var nb := BlocksAfterExpand(blocks, h);
    forall g | g in nb
      ensures BlockIn(t, g, nb[g])
    {
      if g != h {
        assert Apart(blocks[g], blocks[h]);
      }
      if g == h {
        assert t[blocks[h].start] == elems[blocks[h].start];
        assert t[p..p + |e|] == e;
      } else if blocks[g].End() < blocks[h].start {
        BlockStaysBefore(elems, p, e, g, blocks[g]);
      } else {
        BlockMovedRight(elems, p, e, g, blocks[g]);
      }
    }
  }

  lemma ExpandSeparated(blocks: map<Handle, Block>, h: Handle)
    requires Separated(blocks) && h in blocks && !blocks[h].expanded
    ensures Separated(BlocksAfterExpand(blocks, h))
  {
    var nb := BlocksAfterExpand(blocks, h);
    forall g1, g2 | g1 in nb && g2 in nb && g1 != g2
      ensures Apart(nb[g1], nb[g2])
    {
      assert Apart(blocks[g1], blocks[g2]);
    }
  }

  lemma ExpandOwned(elems: seq<Elem>, blocks: map<Handle, Block>, h: Handle)
    requires InPlace(elems, blocks) && Separated(blocks) && Owned(elems, blocks)
    requires h in blocks && !blocks[h].expanded
    ensures blocks[h].start + 1 <= |elems|
    ensures Owned(Splice(elems, blocks[h].start + 1, Expansion(blocks[h].isEnd)), BlocksAfterExpand(blocks, h))
  {
    assert BlockIn(elems, h, blocks[h]);
    var p := blocks[h].start + 1;
    var e := Expansion(blocks[h].isEnd);
    var k := |e|;
    var t := Splice(elems, p, e);
    var nb := BlocksAfterExpand(blocks, h);
    forall i | 0 <= i < |t| && IsButton(t[i])
      ensures t[i].child.handle in nb && nb[t[i].child.handle].start == i
    {
      if i < p {
        assert t[i] == elems[i];
      } else if i >= p + k {
        assert t[i] == elems[i - k] && IsButton(elems[i - k]);
        var g := elems[i - k].child.handle;
        assert blocks[g].start == i - k;
        assert Apart(blocks[g], blocks[h]);
      }
    }
  }

  /**
   Expanding a collapsed button keeps the layout: its block now holds the expansion
   right after the anchor, and every block after it moves right by the expansion's
   length.
   */
  lemma ExpandKeepsLayout(elems: seq<Elem>, blocks: map<Handle, Block>, h: Handle,
                          p: nat, e: seq<Elem>, after: map<Handle, Block>)
    requires LaidOut(elems, blocks) && h in blocks && !blocks[h].expanded
    requires p == blocks[h].start + 1 && e == Expansion(blocks[h].isEnd) && after == BlocksAfterExpand(blocks, h)
    ensures p <= |elems|
    ensures LaidOut(Splice(elems, p, e), after)
  {
    ExpandInPlace(elems, blocks, h);
    ExpandSeparated(blocks, h);
    ExpandOwned(elems, blocks, h);
  }

  /** The blocks after the expanded button `h` was collapsed. */
  function BlocksAfterCollapse(blocks: map<Handle, Block>, h: Handle): map<Handle, Block>
    requires h in blocks
  {
    ShiftBlocksForDelete(blocks, blocks[h].start + 1, blocks[h].End())[h := blocks[h].(expanded := false)]
  }

  lemma CollapseInPlace(elems: seq<Elem>, blocks: map<Handle, Block>, h: Handle)
    requires InPlace(elems, blocks) && Separated(blocks) && h in blocks && blocks[h].expanded
    ensures blocks[h].End() <= |elems|
    ensures InPlace(Cut(elems, blocks[h].start + 1, blocks[h].End()), BlocksAfterCollapse(blocks, h))
  {
    assert BlockIn(elems, h, blocks[h]);
    var p := blocks[h].start + 1;
    var q := blocks[h].End();
    var t := Cut(elems, p, q);
    var nb := BlocksAfterCollapse(blocks, h);
    forall g | g in nb
      ensures BlockIn(t, g, nb[g])
    {
      if g != h {
        assert Apart(blocks[g], blocks[h]);
      }
      if g == h {
        assert t[blocks[h].start] == elems[blocks[h].start];
      } else if blocks[g].End() < blocks[h].start {
        BlockStaysBeforeCut(elems, p, q, g, blocks[g]);
      } else {
        BlockMovedLeft(elems, p, q, g, blocks[g]);
      }
    }
  }

  lemma CollapseSeparated(blocks: map<Handle, Block>, h: Handle)
    requires Separated(blocks) && h in blocks && blocks[h].expanded
    ensures Separated(BlocksAfterCollapse(blocks, h))
  {
    var nb := BlocksAfterCollapse(blocks, h);
    forall g1, g2 | g1 in nb && g2 in nb && g1 != g2
      ensures Apart(nb[g1], nb[g2])
    {
      assert Apart(blocks[g1], blocks[g2]);
      if g1 != h {
        assert Apart(blocks[g1], blocks[h]);
      }
      if g2 != h {
        assert Apart(blocks[g2], blocks[h]);
      }
    }
  }

  lemma CollapseOwned(elems: seq<Elem>, blocks: map<Handle, Block>, h: Handle)
    requires InPlace(elems, blocks) && Owned(elems, blocks) && h in blocks && blocks[h].expanded
    ensures blocks[h].End() <= |elems|
    ensures Owned(Cut(elems, blocks[h].start + 1, blocks[h].End()), BlocksAfterCollapse(blocks, h))
  {
    assert BlockIn(elems, h, blocks[h]);
    var p := blocks[h].start + 1;
    var q := blocks[h].End();
    var k := q - p;
    var t := Cut(elems, p, q);
    var nb := BlocksAfterCollapse(blocks, h);
    forall i | 0 <= i < |t| && IsButton(t[i])
      ensures t[i].child.handle in nb && nb[t[i].child.handle].start == i
    {
      if i < p {
        assert t[i] == elems[i];
      } else {
        assert t[i] == elems[i + k] && IsButton(elems[i + k]);
        assert blocks[elems[i + k].child.handle].start == i + k;
      }
    }
  }

  /**
   Collapsing an expanded button keeps the layout: the expansion right after its
   anchor is deleted, and every block after it moves left by the expansion's length.
   */
  lemma CollapseKeepsLayout(elems: seq<Elem>, blocks: map<Handle, Block>, h: Handle,
                            p: nat, q: nat, elems': seq<Elem>, after: map<Handle, Block>)
    requires LaidOut(elems, blocks) && h in blocks && blocks[h].expanded
    requires p == blocks[h].start + 1 && q == blocks[h].End() && after == BlocksAfterCollapse(blocks, h)
    requires q <= |elems| && elems' == Cut(elems, p, q)
    ensures LaidOut(elems', after)
  {
    CollapseInPlace(elems, blocks, h);
    CollapseSeparated(blocks, h);
    CollapseOwned(elems, blocks, h);
  }

  /** The blocks after the collapsed button `h` was deleted. */
  function BlocksAfterRemove(blocks: map<Handle, Block>, h: Handle): map<Handle, Block>
    requires h in blocks
  {
    ShiftBlocksForDelete(blocks, blocks[h].start, blocks[h].start + 1) - {h}
  }

  lemma RemoveInPlace(elems: seq<Elem>, blocks: map<Handle, Block>, h: Handle)
    requires InPlace(elems, blocks) && Separated(blocks) && h in blocks && !blocks[h].expanded
    ensures blocks[h].start + 1 <= |elems|
    ensures InPlace(Cut(elems, blocks[h].start, blocks[h].start + 1), BlocksAfterRemove(blocks, h))
  {
    assert BlockIn(elems, h, blocks[h]);
    var s := blocks[h].start;
    var nb := BlocksAfterRemove(blocks, h);
    forall g | g in nb
      ensures BlockIn(Cut(elems, s, s + 1), g, nb[g])
    {
      assert Apart(blocks[g], blocks[h]);
      RemoveOtherInPlace(elems, s, g, blocks[g]);
    }
  }

  lemma RemoveOtherInPlace(elems: seq<Elem>, s: nat, g: Handle, b: Block)
    requires BlockIn(elems, g, b) && s + 1 <= |elems| && (b.End() < s || s + 1 < b.start)
    ensures BlockIn(Cut(elems, s, s + 1), g, b.(start := DelPos(b.start, s, s + 1)))
  {
    if b.End() < s {
      BlockStaysBeforeCut(elems, s, s + 1, g, b);
    } else {
      BlockMovedLeft(elems, s, s + 1, g, b);
    }
  }

  lemma RemoveSeparated(blocks: map<Handle, Block>, h: Handle)
    requires Separated(blocks) && h in blocks && !blocks[h].expanded
    ensures Separated(BlocksAfterRemove(blocks, h))
  {
    var nb := BlocksAfterRemove(blocks, h);
    forall g1, g2 | g1 in nb && g2 in nb && g1 != g2
      ensures Apart(nb[g1], nb[g2])
    {
      assert Apart(blocks[g1], blocks[g2]);
      if g1 != h {
        assert Apart(blocks[g1], blocks[h]);
      }
      if g2 != h {
        assert Apart(blocks[g2], blocks[h]);
      }
    }
  }

  lemma RemoveOwned(elems: seq<Elem>, blocks: map<Handle, Block>, h: Handle)
    requires InPlace(elems, blocks) && Owned(elems, blocks) && h in blocks && !blocks[h].expanded
    ensures blocks[h].start + 1 <= |elems|
    ensures Owned(Cut(elems, blocks[h].start, blocks[h].start + 1), BlocksAfterRemove(blocks, h))
  {
    assert BlockIn(elems, h, blocks[h]);
    var s := blocks[h].start;
    var t := Cut(elems, s, s + 1);
    var nb := BlocksAfterRemove(blocks, h);
    forall i | 0 <= i < |t| && IsButton(t[i])
      ensures t[i].child.handle in nb && nb[t[i].child.handle].start == i
    {
      if i < s {
        assert t[i] == elems[i];
      } else {
        assert t[i] == elems[i + 1] && IsButton(elems[i + 1]);
        assert blocks[elems[i + 1].child.handle].start == i + 1;
      }
    }
  }

  /**
   Removing a collapsed button keeps the layout for the remaining buttons: its single
   anchor is deleted, its block is dropped, and every block after it moves left by one.
   */
  lemma RemoveKeepsLayout(elems: seq<Elem>, blocks: map<Handle, Block>, h: Handle,
                          s: nat, after: map<Handle, Block>)
    requires LaidOut(elems, blocks) && h in blocks && !blocks[h].expanded
    requires s == blocks[h].start && after == BlocksAfterRemove(blocks, h)
    ensures s + 1 <= |elems|
    ensures LaidOut(Cut(elems, s, s + 1), after)
  {
    RemoveInPlace(elems, blocks, h);
    RemoveSeparated(blocks, h);
    RemoveOwned(elems, blocks, h);
  }
}
