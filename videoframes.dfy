/**
 The bookkeeping layer of the inline video player: a registry from toggle
 buttons to their information, and the edits that inserting, toggling and
 removing a button make to the conversation's text buffer.

 Widgets are opaque handles; a button's toggle state is kept in `active`.
 The buffer is one conversation's transcript.
 */
module VideoFrames {
  import opened TextBuffer
  import opened Layout
  import Page

  /** The information kept for one button: its mark, the website whose pattern
      matched, the matched URL text and whether the button went in at the end of
      the text. */
  datatype ButtonInfo = ButtonInfo(mark: Mark, website: Page.Website, url: string, isEnd: bool)

  /** Every registered button has a widget and a live mark. */
  ghost predicate Linked(marks: map<Mark, nat>, table: map<Handle, ButtonInfo>, active: map<Handle, bool>)
  {
    forall h :: h in table ==> h in active && table[h].mark in marks
  }

  /** The block each registered button occupies, read off its mark and toggle state. */
  ghost function BlocksOf(marks: map<Mark, nat>, table: map<Handle, ButtonInfo>, active: map<Handle, bool>): map<Handle, Block>
    requires Linked(marks, table, active)
  {
    map h | h in table :: Block(marks[table[h].mark], table[h].isEnd, active[h])
  }

  ghost function MarksOf(table: map<Handle, ButtonInfo>): set<Mark>
  {
    set h | h in table :: table[h].mark
  }

  /** Where the anchor of button `h` is: the position of its mark. */
  ghost function AnchorAt(marks: map<Mark, nat>, table: map<Handle, ButtonInfo>, h: Handle): nat
    requires h in table && table[h].mark in marks
  {
    marks[table[h].mark]
  }

  /** Where the expansion of button `h` starts: right after its anchor. */
  ghost function ExpansionStart(marks: map<Mark, nat>, table: map<Handle, ButtonInfo>, h: Handle): nat
    requires h in table && table[h].mark in marks
  {
    AnchorAt(marks, table, h) + 1
  }

  /** One past the end of the expansion of button `h`. */
  ghost function ExpansionEnd(marks: map<Mark, nat>, table: map<Handle, ButtonInfo>, h: Handle): nat
    requires h in table && table[h].mark in marks
  {
    ExpansionStart(marks, table, h) + |Expansion(table[h].isEnd)|
  }

  /** One past the end of the block of button `h`: its anchor and, when the button is
      active, its expansion. */
  ghost function BlockEnd(marks: map<Mark, nat>, table: map<Handle, ButtonInfo>, active: map<Handle, bool>, h: Handle): nat
    requires h in table && table[h].mark in marks && h in active
  {
    if active[h] then ExpansionEnd(marks, table, h) else AnchorAt(marks, table, h) + 1
  }

  /**
   The registry and the transcript agree: every entry has a widget and a mark, the
   buffer holds exactly the entries' marks, and the buttons' blocks are laid out in
   the buffer.
   */
  ghost predicate Consistent(elems: seq<Elem>, marks: map<Mark, nat>, table: map<Handle, ButtonInfo>, active: map<Handle, bool>)
  {
    && Linked(marks, table, active)
    && marks.Keys == MarksOf(table)
    && LaidOut(elems, BlocksOf(marks, table, active))
  }

  lemma BlocksAfterShiftForInsert(marks: map<Mark, nat>, table: map<Handle, ButtonInfo>, active: map<Handle, bool>, p: nat, k: nat)
    requires Linked(marks, table, active)
    ensures ShiftForInsert(marks, p, k).Keys == marks.Keys
    ensures Linked(ShiftForInsert(marks, p, k), table, active)
    ensures BlocksOf(ShiftForInsert(marks, p, k), table, active) == ShiftBlocksForInsert(BlocksOf(marks, table, active), p, k)
  {
  }

  lemma BlocksAfterShiftForDelete(marks: map<Mark, nat>, table: map<Handle, ButtonInfo>, active: map<Handle, bool>, a: nat, b: nat)
    requires Linked(marks, table, active) && a <= b
    ensures ShiftForDelete(marks, a, b).Keys == marks.Keys
    ensures Linked(ShiftForDelete(marks, a, b), table, active)
    ensures BlocksOf(ShiftForDelete(marks, a, b), table, active) == ShiftBlocksForDelete(BlocksOf(marks, table, active), a, b)
  {
  }

  lemma BlocksWithFlag(marks: map<Mark, nat>, table: map<Handle, ButtonInfo>, active: map<Handle, bool>, h: Handle, v: bool)
    requires Linked(marks, table, active) && h in table
    ensures Linked(marks, table, active[h := v])
    ensures BlocksOf(marks, table, active[h := v]) == BlocksOf(marks, table, active)[h := BlocksOf(marks, table, active)[h].(expanded := v)]
  {
  }

  /** Updating a block that lies before an insertion commutes with shifting for it. */
  lemma ShiftForInsertAfterUpdate(blocks: map<Handle, Block>, h: Handle, b: Block, p: nat, k: nat)
    requires b.start <= p
    ensures ShiftBlocksForInsert(blocks[h := b], p, k) == ShiftBlocksForInsert(blocks, p, k)[h := b]
  {
  }

  /** Updating a block that lies before a deletion commutes with shifting for it. */
  lemma ShiftForDeleteAfterUpdate(blocks: map<Handle, Block>, h: Handle, b: Block, p: nat, q: nat)
    requires b.start <= p <= q
    ensures ShiftBlocksForDelete(blocks[h := b], p, q) == ShiftBlocksForDelete(blocks, p, q)[h := b]
  {
  }

  /** The mark of entry `h`. */
  ghost function EntryMark(table: map<Handle, ButtonInfo>, h: Handle): Mark
    requires h in table
  {
    table[h].mark
  }

  /** No two entries share a mark. */
  ghost predicate DistinctMarks(table: map<Handle, ButtonInfo>)
  {
    forall g, h {:trigger EntryMark(table, g), EntryMark(table, h)} :: g in table && h in table && g != h ==>
      EntryMark(table, g) != EntryMark(table, h)
  }

  /** Separated blocks start at different positions, so their marks differ. */
  lemma MarksDistinct(marks: map<Mark, nat>, table: map<Handle, ButtonInfo>, active: map<Handle, bool>)
    requires Linked(marks, table, active) && Separated(BlocksOf(marks, table, active))
    ensures DistinctMarks(table)
  {
    var blocks := BlocksOf(marks, table, active);
    forall g, h | g in table && h in table && g != h
      ensures EntryMark(table, g) != EntryMark(table, h)
    {
      assert Apart(blocks[g], blocks[h]);
    }
  }

  lemma OtherMarksDiffer(table: map<Handle, ButtonInfo>, h: Handle)
    requires DistinctMarks(table) && h in table
    ensures forall g :: g in table && g != h ==> table[g].mark != table[h].mark
  {
    forall g | g in table && g != h
      ensures table[g].mark != table[h].mark
    {
      assert EntryMark(table, g) != EntryMark(table, h);
    }
  }

  lemma DistinctMarksWithout(table: map<Handle, ButtonInfo>, h: Handle)
    requires DistinctMarks(table)
    ensures DistinctMarks(table - {h})
  {
    var t := table - {h};
    forall g1, g2 | g1 in t && g2 in t && g1 != g2
      ensures EntryMark(t, g1) != EntryMark(t, g2)
    {
      assert EntryMark(table, g1) != EntryMark(table, g2);
    }
  }

  lemma MarksOfWithEntry(table: map<Handle, ButtonInfo>, h: Handle, info: ButtonInfo)
    requires h !in table
    ensures MarksOf(table[h := info]) == MarksOf(table) + {info.mark}
  {
    var t := table[h := info];
    forall m | m in MarksOf(t)
      ensures m in MarksOf(table) + {info.mark}
    {
      var g :| g in t && t[g].mark == m;
      if g != h {
        assert g in table && table[g].mark == m;
      }
    }
    forall m | m in MarksOf(table) + {info.mark}
      ensures m in MarksOf(t)
    {
      if m == info.mark {
        assert h in t && t[h].mark == m;
      } else {
        var g :| g in table && table[g].mark == m;
        assert g in t && t[g].mark == m;
      }
    }
  }

  lemma MarksOfWithoutEntry(table: map<Handle, ButtonInfo>, h: Handle)
    requires h in table
    requires forall g :: g in table && g != h ==> table[g].mark != table[h].mark
    ensures MarksOf(table - {h}) == MarksOf(table) - {table[h].mark}
  {
    var t := table - {h};
    forall m | m in MarksOf(t)
      ensures m in MarksOf(table) - {table[h].mark}
    {
      var g :| g in t && t[g].mark == m;
      assert g in table && table[g].mark == m;
    }
    forall m | m in MarksOf(table) - {table[h].mark}
      ensures m in MarksOf(t)
    {
      var g :| g in table && table[g].mark == m;
      assert g in t && t[g].mark == m;
    }
  }

  /** A mark made at the insertion point keeps its place, being left-gravity. */
  lemma NewMarkStaysLeft(marks: map<Mark, nat>, m: Mark, loc: nat, k: nat)
    ensures ShiftForInsert(marks[m := loc], loc, k) == ShiftForInsert(marks, loc, k)[m := loc]
  {
  }

  /** The registry is empty in a transcript without buttons. */
  lemma InitStep(elems: seq<Elem>, active: map<Handle, bool>)
    requires NoButtons(elems)
    ensures Consistent(elems, map[], map[], active)
  {
    assert BlocksOf(map[], map[], active) == map[];
    EmptyLayout(elems);
  }

  /** The blocks after registering `h` with a fresh mark at `loc` and shifting the other
      marks for its anchor. */
  lemma InsertBlocks(marks: map<Mark, nat>, table: map<Handle, ButtonInfo>, active: map<Handle, bool>,
                     loc: nat, h: Handle, info: ButtonInfo)
    requires Linked(marks, table, active) && h !in table && info.mark !in marks
    ensures Linked(ShiftForInsert(marks, loc, 1)[info.mark := loc], table[h := info], active[h := false])
    ensures BlocksOf(ShiftForInsert(marks, loc, 1)[info.mark := loc], table[h := info], active[h := false])
         == BlocksAfterInsert(BlocksOf(marks, table, active), loc, h, info.isEnd)
  {
    BlocksAfterShiftForInsert(marks, table, active, loc, 1);
  }

  /**
   Registering a collapsed button `h` whose fresh mark sits at `loc`, and inserting
   its anchor there, keeps the registry consistent; the new block is the anchor at
   `loc`.
   */
  lemma InsertStep(elems: seq<Elem>, marks: map<Mark, nat>, table: map<Handle, ButtonInfo>, active: map<Handle, bool>,
                   loc: nat, h: Handle, info: ButtonInfo,
                   elems': seq<Elem>, marks': map<Mark, nat>, table': map<Handle, ButtonInfo>, active': map<Handle, bool>)
    requires Consistent(elems, marks, table, active)
    requires loc <= |elems| && h !in table && info.mark !in marks
    requires FreeAt(BlocksOf(marks, table, active), loc)
    requires elems' == Splice(elems, loc, [Anchor(Button(h))]) && marks' == ShiftForInsert(marks, loc, 1)[info.mark := loc]
    requires table' == table[h := info] && active' == active[h := false]
    ensures Consistent(elems', marks', table', active')
    ensures BlocksOf(marks', table', active') == BlocksAfterInsert(BlocksOf(marks, table, active), loc, h, info.isEnd)
  {
    InsertBlocks(marks, table, active, loc, h, info);
    BlocksAfterShiftForInsert(marks, table, active, loc, 1);
    MarksOfWithEntry(table, h, info);
    InsertKeepsLayout(elems, BlocksOf(marks, table, active), loc, h, info.isEnd, BlocksOf(marks', table', active'));
  }

  /** The blocks after `h` became active and the marks were shifted for its expansion
      `e`, inserted at `p`, right after its anchor. */
  lemma ExpandBlocks(marks: map<Mark, nat>, table: map<Handle, ButtonInfo>, active: map<Handle, bool>, h: Handle,
                     p: nat, e: seq<Elem>)
    requires Linked(marks, table, active) && h in table
    requires p == marks[table[h].mark] + 1 && e == Expansion(table[h].isEnd)
    ensures ShiftForInsert(marks, p, |e|).Keys == marks.Keys
    ensures Linked(ShiftForInsert(marks, p, |e|), table, active[h := true])
    ensures BlocksOf(ShiftForInsert(marks, p, |e|), table, active[h := true]) == BlocksAfterExpand(BlocksOf(marks, table, active), h)
  {
    var blocks := BlocksOf(marks, table, active);
    assert blocks[h] == Block(p - 1, table[h].isEnd, active[h]);
    var expanded := blocks[h].(expanded := true);
    assert BlocksAfterExpand(blocks, h) == ShiftBlocksForInsert(blocks, p, |e|)[h := expanded];
    BlocksWithFlag(marks, table, active, h, true);
    BlocksAfterShiftForInsert(marks, table, active[h := true], p, |e|);
    ShiftForInsertAfterUpdate(blocks, h, expanded, p, |e|);
  }

  /** The anchor of a registered button lies inside the buffer. */
  lemma AnchorInside(elems: seq<Elem>, marks: map<Mark, nat>, table: map<Handle, ButtonInfo>, active: map<Handle, bool>, h: Handle)
    requires Consistent(elems, marks, table, active) && h in table
    ensures marks[table[h].mark] < |elems|
  {
    assert BlockIn(elems, h, BlocksOf(marks, table, active)[h]);
  }

  /**
   Expanding the collapsed button `h`: the expansion goes in right after its anchor,
   and the registry, with `h` now active, stays consistent.
   */
  lemma ExpandStep(elems: seq<Elem>, marks: map<Mark, nat>, table: map<Handle, ButtonInfo>, active: map<Handle, bool>, h: Handle,
                   p: nat, e: seq<Elem>, elems': seq<Elem>, marks': map<Mark, nat>, active': map<Handle, bool>)
    requires Consistent(elems, marks, table, active) && h in table && !active[h]
    requires p == marks[table[h].mark] + 1 && e == Expansion(table[h].isEnd) && p <= |elems|
    requires elems' == Splice(elems, p, e) && marks' == ShiftForInsert(marks, p, |e|) && active' == active[h := true]
    ensures Consistent(elems', marks', table, active')
    ensures BlocksOf(marks', table, active') == BlocksAfterExpand(BlocksOf(marks, table, active), h)
  {
    var blocks := BlocksOf(marks, table, active);
    ExpandBlocks(marks, table, active, h, p, e);
    var after := BlocksOf(ShiftForInsert(marks, p, |e|), table, active[h := true]);
    ExpandKeepsLayout(elems, blocks, h, p, e, after);
  }

  /** The blocks after `h` became inactive and the marks were shifted for the deletion
      of its expansion `e` at `p`, right after its anchor. */
  lemma CollapseBlocks(marks: map<Mark, nat>, table: map<Handle, ButtonInfo>, active: map<Handle, bool>, h: Handle,
                       p: nat, e: seq<Elem>)
    requires Linked(marks, table, active) && h in table && active[h]
    requires p == marks[table[h].mark] + 1 && e == Expansion(table[h].isEnd)
    ensures ShiftForDelete(marks, p, p + |e|).Keys == marks.Keys
    ensures Linked(ShiftForDelete(marks, p, p + |e|), table, active[h := false])
    ensures BlocksOf(ShiftForDelete(marks, p, p + |e|), table, active[h := false]) == BlocksAfterCollapse(BlocksOf(marks, table, active), h)
  {
    var blocks, q := BlocksOf(marks, table, active), p + |e|;
    assert blocks[h] == Block(p - 1, table[h].isEnd, true);
    assert blocks[h].start + 1 == p && blocks[h].End() == q;
    var collapsed := blocks[h].(expanded := false);
    assert BlocksAfterCollapse(blocks, h) == ShiftBlocksForDelete(blocks, p, q)[h := collapsed];
    BlocksWithFlag(marks, table, active, h, false);
    assert BlocksOf(marks, table, active[h := false]) == blocks[h := collapsed];
    BlocksAfterShiftForDelete(marks, table, active[h := false], p, q);
    ShiftForDeleteAfterUpdate(blocks, h, collapsed, p, q);
    assert ShiftBlocksForDelete(BlocksOf(marks, table, active[h := false]), p, q) == ShiftBlocksForDelete(blocks, p, q)[h := collapsed];
  }

  /** The expansion of an active button lies inside the buffer. */
  lemma ExpansionInside(elems: seq<Elem>, marks: map<Mark, nat>, table: map<Handle, ButtonInfo>, active: map<Handle, bool>, h: Handle)
    requires Consistent(elems, marks, table, active) && h in table && active[h]
    ensures marks[table[h].mark] + 1 + |Expansion(table[h].isEnd)| <= |elems|
  {
    assert BlockIn(elems, h, BlocksOf(marks, table, active)[h]);
  }

  /**
   Collapsing the expanded button `h`: the expansion right after its anchor is deleted,
   and the registry, with `h` now inactive, stays consistent.
   */
  lemma CollapseStep(elems: seq<Elem>, marks: map<Mark, nat>, table: map<Handle, ButtonInfo>, active: map<Handle, bool>, h: Handle,
                     p: nat, e: seq<Elem>, elems': seq<Elem>, marks': map<Mark, nat>, active': map<Handle, bool>)
    requires Consistent(elems, marks, table, active) && h in table && active[h]
    requires p == marks[table[h].mark] + 1 && e == Expansion(table[h].isEnd) && p + |e| <= |elems|
    requires elems' == Cut(elems, p, p + |e|) && marks' == ShiftForDelete(marks, p, p + |e|) && active' == active[h := false]
    ensures Consistent(elems', marks', table, active')
    ensures BlocksOf(marks', table, active') == BlocksAfterCollapse(BlocksOf(marks, table, active), h)
  {
    var blocks := BlocksOf(marks, table, active);
    CollapseBlocks(marks, table, active, h, p, e);
    assert blocks[h].start + 1 == p && blocks[h].End() == p + |e|;
    CollapseKeepsLayout(elems, blocks, h, p, p + |e|, elems', BlocksOf(marks', table, active'));
  }

  /** The blocks after the anchor of `h`, at `s`, was deleted and its entry and mark dropped. */
  lemma RemoveBlocks(marks: map<Mark, nat>, table: map<Handle, ButtonInfo>, active: map<Handle, bool>, h: Handle, s: nat)
    requires Linked(marks, table, active) && h in table && s == marks[table[h].mark]
    requires forall g :: g in table && g != h ==> table[g].mark != table[h].mark
    ensures Linked(ShiftForDelete(marks, s, s + 1) - {table[h].mark}, table - {h}, active - {h})
    ensures BlocksOf(ShiftForDelete(marks, s, s + 1) - {table[h].mark}, table - {h}, active - {h})
         == BlocksAfterRemove(BlocksOf(marks, table, active), h)
  {
    BlocksAfterShiftForDelete(marks, table, active, s, s + 1);
  }

  /**
   Removing the collapsed button `h`: its anchor, at `s`, is deleted and its entry and
   mark are dropped; the remaining registry stays consistent.
   */
  lemma RemoveStep(elems: seq<Elem>, marks: map<Mark, nat>, table: map<Handle, ButtonInfo>, active: map<Handle, bool>, h: Handle,
                   s: nat, elems': seq<Elem>, marks': map<Mark, nat>, table': map<Handle, ButtonInfo>, active': map<Handle, bool>)
    requires Consistent(elems, marks, table, active) && h in table && !active[h] && s == marks[table[h].mark] && s < |elems|
    requires elems' == Cut(elems, s, s + 1) && marks' == ShiftForDelete(marks, s, s + 1) - {table[h].mark}
    requires table' == table - {h} && active' == active - {h}
    ensures Consistent(elems', marks', table', active')
    ensures BlocksOf(marks', table', active') == BlocksAfterRemove(BlocksOf(marks, table, active), h)
  {
    MarksDistinct(marks, table, active);
    OtherMarksDiffer(table, h);
    MarksOfWithoutEntry(table, h);
    RemoveBlocks(marks, table, active, h, s);
    BlocksAfterShiftForDelete(marks, table, active, s, s + 1);
    RemoveKeepsLayout(elems, BlocksOf(marks, table, active), h, s, BlocksOf(marks', table', active'));
  }

  /** Deleting the positions from `s + 1` to `end` and then the one at `s` deletes them
      all; dropping the mark `m` as well leaves the same marks. */
  lemma CollapseThenDelete(elems: seq<Elem>, marks: map<Mark, nat>, s: nat, end: nat, m: Mark,
                           elems1: seq<Elem>, marks1: map<Mark, nat>, elems': seq<Elem>, marks': map<Mark, nat>)
    requires s + 1 <= end <= |elems|
    requires elems1 == Cut(elems, s + 1, end) && marks1 == ShiftForDelete(marks, s + 1, end)
    requires s < |elems1|
    requires elems' == Cut(elems1, s, s + 1) && marks' == ShiftForDelete(marks1, s, s + 1) - {m}
    ensures elems' == Cut(elems, s, end) && marks' == ShiftForDelete(marks, s, end) - {m}
  {
    CutsCompose(elems, s, end - s - 1);
    DeleteShiftsCompose(marks, s, end - s - 1);
  }

  /**
   Removing the button `h` whose anchor is at `s` and whose block ends at `end`: when it
   is active its expansion is deleted first, then its anchor; in all, its whole block is
   deleted, its entry and mark are dropped, and the remaining registry stays consistent.
   */
  lemma RemoveBlockStep(elems: seq<Elem>, marks: map<Mark, nat>, table: map<Handle, ButtonInfo>, active: map<Handle, bool>, h: Handle,
                        s: nat, end: nat, elems1: seq<Elem>, marks1: map<Mark, nat>,
                        elems': seq<Elem>, marks': map<Mark, nat>, table': map<Handle, ButtonInfo>, active': map<Handle, bool>)
    requires Consistent(elems, marks, table, active) && h in table
    requires s == AnchorAt(marks, table, h) && end == BlockEnd(marks, table, active, h) && end <= |elems|
    requires active[h] ==> elems1 == Cut(elems, s + 1, end) && marks1 == ShiftForDelete(marks, s + 1, end)
    requires !active[h] ==> elems1 == elems && marks1 == marks
    requires s < |elems1|
    requires elems' == Cut(elems1, s, s + 1) && marks' == ShiftForDelete(marks1, s, s + 1) - {table[h].mark}
    requires table' == table - {h} && active' == active - {h}
    ensures Consistent(elems', marks', table', active')
    ensures elems' == Cut(elems, s, end) && marks' == ShiftForDelete(marks, s, end) - {table[h].mark}
  {
    if active[h] {
      CollapseThenRemoveStep(elems, marks, table, active, h, s, end, elems1, marks1, elems', marks', table', active');
    } else {
      assert end == s + 1;
      RemoveStep(elems, marks, table, active, h, s, elems', marks', table', active');
    }
  }

  /** The active case of RemoveBlockStep: the collapse and then the removal of the anchor. */
  lemma CollapseThenRemoveStep(elems: seq<Elem>, marks: map<Mark, nat>, table: map<Handle, ButtonInfo>, active: map<Handle, bool>, h: Handle,
                               s: nat, end: nat, elems1: seq<Elem>, marks1: map<Mark, nat>,
                               elems': seq<Elem>, marks': map<Mark, nat>, table': map<Handle, ButtonInfo>, active': map<Handle, bool>)
    requires Consistent(elems, marks, table, active) && h in table && active[h]
    requires s == AnchorAt(marks, table, h) && end == ExpansionEnd(marks, table, h) && end <= |elems|
    requires elems1 == Cut(elems, s + 1, end) && marks1 == ShiftForDelete(marks, s + 1, end)
    requires s < |elems1|
    requires elems' == Cut(elems1, s, s + 1) && marks' == ShiftForDelete(marks1, s, s + 1) - {table[h].mark}
    requires table' == table - {h} && active' == active - {h}
    ensures Consistent(elems', marks', table', active')
    ensures elems' == Cut(elems, s, end) && marks' == ShiftForDelete(marks, s, end) - {table[h].mark}
  {
    var m := table[h].mark;
    var p, e := s + 1, Expansion(table[h].isEnd);
    assert end == p + |e|;
    var active1 := active[h := false];
    CollapseStep(elems, marks, table, active, h, p, e, elems1, marks1, active1);
    assert marks1[m] == s;
    UpdateThenRemove(active, h, false);
    RemoveStep(elems1, marks1, table, active1, h, s, elems', marks', table', active');
    CollapseThenDelete(elems, marks, s, end, m, elems1, marks1, elems', marks');
  }

  /** When every mark is a button's mark, no mark lies inside a block after its anchor. */
  lemma MarksOutsideBlock(elems: seq<Elem>, marks: map<Mark, nat>, table: map<Handle, ButtonInfo>, active: map<Handle, bool>, h: Handle)
    requires Consistent(elems, marks, table, active) && h in table
    ensures var b := BlocksOf(marks, table, active)[h];
      forall m :: m in marks ==> marks[m] <= b.start || marks[m] > b.End()
  {
    var blocks := BlocksOf(marks, table, active);
    forall m | m in marks
      ensures marks[m] <= blocks[h].start || marks[m] > blocks[h].End()
    {
      var g :| g in table && table[g].mark == m;
      if g != h {
        assert Apart(blocks[g], blocks[h]);
      }
    }
  }

  /** Removing a key forgets the value it was just given. */
  lemma UpdateThenRemove<K, V>(m: map<K, V>, k: K, v: V)
    ensures m[k := v] - {k} == m - {k}
  {
  }

  /** Every widget handle in `active` is below `n`. */
  ghost predicate HandlesBelow(active: map<Handle, bool>, n: Handle)
  {
    forall h :: h in active ==> h < n
  }

  /** Dropping a widget, or flipping its state, keeps the handles below the counter. */
  lemma HandlesBelowAfterUpdate(active: map<Handle, bool>, n: Handle, h: Handle, v: bool)
    requires HandlesBelow(active, n) && h in active
    ensures HandlesBelow(active - {h}, n) && HandlesBelow(active[h := v], n)
  {
  }

  /** The counter is a handle no widget has yet; the next widget gets it. */
  lemma HandlesBelowAfterAdd(active: map<Handle, bool>, n: Handle)
    requires HandlesBelow(active, n)
    ensures n !in active && HandlesBelow(active[n := false], n + 1)
  {
  }

  /**
   Toggling a collapsed button twice restores everything: the expansion goes in right
   after the anchor without moving it, and deleting it again gives back the transcript
   and every mark.
   */
  lemma CollapseUndoesExpand(elems: seq<Elem>, marks: map<Mark, nat>, table: map<Handle, ButtonInfo>, active: map<Handle, bool>, h: Handle)
    requires Consistent(elems, marks, table, active) && h in table && !active[h]
    ensures ExpansionStart(marks, table, h) <= |elems|
    ensures ShiftForInsert(marks, ExpansionStart(marks, table, h), |Expansion(table[h].isEnd)|).Keys == marks.Keys
    ensures ExpansionStart(ShiftForInsert(marks, ExpansionStart(marks, table, h), |Expansion(table[h].isEnd)|), table, h)
         == ExpansionStart(marks, table, h)
    ensures Cut(Splice(elems, ExpansionStart(marks, table, h), Expansion(table[h].isEnd)),
                ExpansionStart(marks, table, h), ExpansionEnd(marks, table, h)) == elems
    ensures ShiftForDelete(ShiftForInsert(marks, ExpansionStart(marks, table, h), |Expansion(table[h].isEnd)|),
                           ExpansionStart(marks, table, h), ExpansionEnd(marks, table, h)) == marks
  {
    var p, e := ExpansionStart(marks, table, h), Expansion(table[h].isEnd);
    AnchorInside(elems, marks, table, active, h);
    SpliceThenCut(elems, p, e);
    MarksInsertThenDelete(marks, p, |e|);
  }

  /**
   Toggling an expanded button twice restores everything: deleting the expansion leaves
   the anchor where it was, and no other mark lies inside the expansion, so inserting it
   again gives back the transcript and every mark.
   */
  lemma ExpandUndoesCollapse(elems: seq<Elem>, marks: map<Mark, nat>, table: map<Handle, ButtonInfo>, active: map<Handle, bool>, h: Handle)
    requires Consistent(elems, marks, table, active) && h in table && active[h]
    ensures ExpansionEnd(marks, table, h) <= |elems|
    ensures ShiftForDelete(marks, ExpansionStart(marks, table, h), ExpansionEnd(marks, table, h)).Keys == marks.Keys
    ensures ExpansionStart(ShiftForDelete(marks, ExpansionStart(marks, table, h), ExpansionEnd(marks, table, h)), table, h)
         == ExpansionStart(marks, table, h)
    ensures Splice(Cut(elems, ExpansionStart(marks, table, h), ExpansionEnd(marks, table, h)),
                   ExpansionStart(marks, table, h), Expansion(table[h].isEnd)) == elems
    ensures ShiftForInsert(ShiftForDelete(marks, ExpansionStart(marks, table, h), ExpansionEnd(marks, table, h)),
                           ExpansionStart(marks, table, h), |Expansion(table[h].isEnd)|) == marks
  {
    var p, e := ExpansionStart(marks, table, h), Expansion(table[h].isEnd);
    var b := BlocksOf(marks, table, active)[h];
    assert BlockIn(elems, h, b);
    assert elems[p..p + |e|] == e;
    CutThenSplice(elems, p, e);
    assert b.start + 1 == p && b.End() == p + |e| == ExpansionEnd(marks, table, h);
    MarksOutsideBlock(elems, marks, table, active, h);
    assert forall m :: m in marks ==> marks[m] <= p || marks[m] > ExpansionEnd(marks, table, h);
    MarksDeleteThenInsert(marks, p, ExpansionEnd(marks, table, h), |e|);
  }

  /**
   Two buttons with nothing between them, as insert_new_button allows: `a` goes into an
   empty transcript, then `b` right after it, at the end of `a`'s block. Expanding `a`
   inserts at position 1, where `b`'s left-gravity mark sits, so the mark stays on the
   inserted newline while `b`'s anchor moves on to position 3, and the registry no longer
   finds `b` at its mark. `FreeAt`, which keeps a position between blocks, excludes the
   second insertion.
   */
  lemma AdjacentButtonLosesMark(a: Handle, b: Handle, ma: Mark, mb: Mark, table: map<Handle, ButtonInfo>,
                                elems2: seq<Elem>, marks2: map<Mark, nat>, elems3: seq<Elem>, marks3: map<Mark, nat>)
    requires a != b && ma != mb
    requires elems2 == Splice(Splice([], 0, [Anchor(Button(a))]), 1, [Anchor(Button(b))])
    requires marks2 == ShiftForInsert(ShiftForInsert(map[], 0, 1)[ma := 0], 1, 1)[mb := 1]
    requires elems3 == Splice(elems2, 1, Expansion(true)) && marks3 == ShiftForInsert(marks2, 1, |Expansion(true)|)
    requires table.Keys == {a, b} && table[a].mark == ma && table[b].mark == mb && table[a].isEnd && table[b].isEnd
    ensures !FreeAt(map[a := Block(0, true, false)], 1)
    ensures marks2.Keys == {ma, mb} && elems2[marks2[ma]] == Anchor(Button(a)) && elems2[marks2[mb]] == Anchor(Button(b))
    ensures marks3[mb] == 1 && elems3[1] == Char('\n') && elems3[3] == Anchor(Button(b))
    ensures !Consistent(elems3, marks3, table, map[a := true, b := false])
  {
    var single := map[a := Block(0, true, false)];
    assert a in single && single[a].End() == 1;
    assert elems2 == [Anchor(Button(a)), Anchor(Button(b))];
    assert marks2 == map[ma := 0, mb := 1];
    var blocks3 := BlocksOf(marks3, table, map[a := true, b := false]);
    assert marks3[mb] == 1 && elems3[1] == Char('\n');
    assert !BlockIn(elems3, b, blocks3[b]);
    assert elems3[3] == Anchor(Button(b));
    StrayMarkBreaksLayout(elems3, marks3, table, map[a := true, b := false], b);
  }

  /** A registered button whose block is not where its mark says breaks consistency. */
  lemma StrayMarkBreaksLayout(elems: seq<Elem>, marks: map<Mark, nat>, table: map<Handle, ButtonInfo>, active: map<Handle, bool>, h: Handle)
    requires Linked(marks, table, active) && h in table && !BlockIn(elems, h, BlocksOf(marks, table, active)[h])
    ensures !Consistent(elems, marks, table, active)
  {
  }

  /**
   Removing a button right after inserting it restores everything: deleting its anchor
   and dropping its fresh mark gives back the transcript and every other mark.
   */
  lemma RemoveUndoesInsert(elems: seq<Elem>, marks: map<Mark, nat>, loc: nat, m: Mark, h: Handle)
    requires loc <= |elems| && m !in marks
    ensures Cut(Splice(elems, loc, [Anchor(Button(h))]), loc, loc + 1) == elems
    ensures ShiftForDelete(ShiftForInsert(marks, loc, 1)[m := loc], loc, loc + 1) - {m} == marks
  {
    SpliceThenCut(elems, loc, [Anchor(Button(h))]);
    var shifted := ShiftForInsert(marks, loc, 1);
    MarksInsertThenDelete(marks, loc, 1);
    assert ShiftForDelete(shifted[m := loc], loc, loc + 1) - {m} == ShiftForDelete(shifted, loc, loc + 1);
  }

  /**
   button_info_new: a left-gravity mark at `location`, and g_string_new_len's copy of
   `text` as the URL: its first `len` characters, or, for a negative `len`, the text up to
   its first NUL.
   */
  method ButtonInfoNew(doc: Buffer, location: nat, website: Page.Website, text: string, len: int, isEnd: bool)
    returns (info: ButtonInfo)
    requires doc.Valid() && location <= |doc.elems| && len <= |text|
    modifies doc
    ensures doc.Valid() && doc.elems == old(doc.elems)
    ensures info.mark !in old(doc.marks) && doc.marks == old(doc.marks)[info.mark := location]
    ensures info.website == website && info.url == (if len < 0 then text[..Page.Strlen(text)] else text[..len]) && info.isEnd == isEnd
  {
    var mark := doc.CreateMark(location);
    var url := if len < 0 then text[..Page.Strlen(text)] else text[..len];
    info := ButtonInfo(mark, website, url, isEnd);
  }

  /** button_info_free: the entry's mark is released. */
  method ButtonInfoFree(doc: Buffer, info: ButtonInfo)
    requires doc.Valid() && info.mark in doc.marks
    modifies doc
    ensures doc.Valid() && doc.elems == old(doc.elems)
    ensures doc.marks == old(doc.marks) - {info.mark}
  {
    doc.DeleteMark(info.mark);
  }

  /** The edits that expand a button: a newline, the web view's anchor and, unless the
      button is at the end of the text, another newline, inserted one after the other
      from `where`. */
  method InsertExpansion(doc: Buffer, where: nat, isEnd: bool)
    requires doc.Valid() && where <= |doc.elems|
    modifies doc
    ensures doc.Valid()
    ensures doc.elems == Splice(old(doc.elems), where, Expansion(isEnd))
    ensures doc.marks == ShiftForInsert(old(doc.marks), where, |Expansion(isEnd)|)
  {
    ExpansionInserted(doc.elems, where, isEnd);
    ExpansionShifts(doc.marks, where, isEnd);
    var it := doc.Insert(where, "\n");
    it := doc.InsertChildAnchor(it, WebView);
    if !isEnd {
      it := doc.Insert(it, "\n");
    }
  }

  /** The edits that collapse a button: the two positions of the expansion of a button
      at the end of the text, or three otherwise, are deleted from `where` on. */
  method DeleteExpansion(doc: Buffer, where: nat, isEnd: bool)
    requires doc.Valid() && where + |Expansion(isEnd)| <= |doc.elems|
    modifies doc
    ensures doc.Valid()
    ensures doc.elems == Cut(old(doc.elems), where, where + |Expansion(isEnd)|)
    ensures doc.marks == ShiftForDelete(old(doc.marks), where, where + |Expansion(isEnd)|)
  {
    var next := ForwardChars(where, if isEnd then 2 else 3, |doc.elems|);
    doc.Delete(where, next);
  }

  /** The edits of the callback for a button that became inactive: the 2 or 3 positions
      of its expansion, right after its anchor, are deleted. */
  method CollapseExpansion(doc: Buffer, info: ButtonInfo, ghost p: nat, ghost q: nat)
    requires doc.Valid() && info.mark in doc.marks && p == doc.marks[info.mark] + 1
    requires q == p + |Expansion(info.isEnd)| <= |doc.elems|
    modifies doc
    ensures doc.Valid()
    ensures doc.elems == Cut(old(doc.elems), p, q)
    ensures doc.marks == ShiftForDelete(old(doc.marks), p, q)
  {
    var it := doc.IterAtMark(info.mark);
    it := ForwardChars(it, 1, |doc.elems|);
    DeleteExpansion(doc, it, info.isEnd);
  }

  /** Destroying the hash table frees every entry in turn, and with it the entry's mark;
      no two entries share a mark. */
  method FreeEntries(doc: Buffer, table: map<Handle, ButtonInfo>)
    requires doc.Valid() && doc.marks.Keys == MarksOf(table)
    requires DistinctMarks(table)
    modifies doc
    ensures doc.Valid() && doc.elems == old(doc.elems) && doc.marks == map[]
  {
    var rest := table;
    while rest != map[]
      invariant doc.Valid() && doc.elems == old(doc.elems)
      invariant doc.marks.Keys == MarksOf(rest)
      invariant DistinctMarks(rest)
      decreases |rest|
    {
      var h :| h in rest;
      var info := rest[h];
      assert info.mark in MarksOf(rest);
      OtherMarksDiffer(rest, h);
      MarksOfWithoutEntry(rest, h);
      DistinctMarksWithout(rest, h);
      rest := rest - {h};
      ButtonInfoFree(doc, info);
    }
  }

  /** The edits that put a new button in the transcript: its information, with a
      left-gravity mark at `location`, and its anchor at `location`. */
  method PlaceButton(doc: Buffer, location: nat, button: Handle, website: Page.Website, text: string, len: int)
    returns (info: ButtonInfo)
    requires doc.Valid() && location <= |doc.elems| && len <= |text|
    modifies doc
    ensures doc.Valid()
    ensures info.mark !in old(doc.marks) && info.website == website && info.url == (if len < 0 then text[..Page.Strlen(text)] else text[..len])
    ensures info.isEnd == (location == |old(doc.elems)|)
    ensures doc.elems == Splice(old(doc.elems), location, [Anchor(Button(button))])
    ensures doc.marks == ShiftForInsert(old(doc.marks), location, 1)[info.mark := location]
  {
    ghost var marks0 := doc.marks;
    var isEnd := location == |doc.elems|;
    info := ButtonInfoNew(doc, location, website, text, len, isEnd);
    var _ := doc.InsertChildAnchor(location, Button(button));
    NewMarkStaysLeft(marks0, info.mark, location, 1);
  }

  /** The edits that take a button out of the transcript: the one position at its mark,
      its anchor, is deleted, and then its information is freed with its mark. */
  method UnplaceButton(doc: Buffer, info: ButtonInfo, ghost s: nat)
    requires doc.Valid() && info.mark in doc.marks && s == doc.marks[info.mark] < |doc.elems|
    modifies doc
    ensures doc.Valid()
    ensures doc.elems == Cut(old(doc.elems), s, s + 1)
    ensures doc.marks == ShiftForDelete(old(doc.marks), s, s + 1) - {info.mark}
  {
    var it := doc.IterAtMark(info.mark);
    var next := ForwardChars(it, 1, |doc.elems|);
    doc.Delete(it, next);
    ButtonInfoFree(doc, info);
  }

  /**
   The module state: the button registry (the hash table from buttons to their
   information), the toggle state of each button widget, and the transcript the
   buttons live in.
   */
  class Registry {
    const doc: Buffer
    /** The hash table exists: set by Init, cleared by Destroy. */
    var live: bool
    var table: map<Handle, ButtonInfo>
    var active: map<Handle, bool>
    var nextHandle: Handle

    /** Every widget handle handed out so far is below `nextHandle`. */
    ghost predicate HandlesIssued()
      reads this
    {
      HandlesBelow(active, nextHandle)
    }

    ghost predicate Valid()
      reads this, doc
    {
      live && doc.Valid() && HandlesIssued() && Consistent(doc.elems, doc.marks, table, active)
    }

    /** Where each registered button's block currently is. */
    ghost function Blocks(): map<Handle, Block>
      reads this, doc
      requires Linked(doc.marks, table, active)
    {
      BlocksOf(doc.marks, table, active)
    }

    constructor (doc: Buffer)
      ensures this.doc == doc && !live && HandlesIssued()
      ensures table == map[] && active == map[]
    {
      this.doc := doc;
      live := false;
      table := map[];
      active := map[];
      nextHandle := 0;
    }

    /** videoframes_init: an empty registry. */
    method Init()
      requires !live && doc.Valid() && HandlesIssued() && doc.marks == map[] && NoButtons(doc.elems)
      modifies this
      ensures Valid() && table == map[]
      ensures active == old(active) && nextHandle == old(nextHandle)
    {
      table := map[];
      live := true;
      InitStep(doc.elems, active);
    }

    /** videoframes_destroy: every remaining entry is freed, releasing its mark. */
    method Destroy()
      requires Valid()
      modifies this, doc
      ensures !live && table == map[] && HandlesIssued()
      ensures doc.Valid() && doc.elems == old(doc.elems) && doc.marks == map[]
      ensures active == old(active) && nextHandle == old(nextHandle)
    {
      MarksDistinct(doc.marks, table, active);
      var entries := table;
      table := map[];
      live := false;
      FreeEntries(doc, entries);
    }

    /**
     videoframes_insert_new_button: a new, inactive button is registered with a mark at
     `location` and inserted there as one anchor.
     */
    method InsertNewButton(location: nat, website: Page.Website, text: string, len: int) returns (button: Handle)
      requires Valid() && location <= |doc.elems| && len <= |text| && FreeAt(Blocks(), location)
      modifies this, doc
      ensures Valid() && nextHandle == old(nextHandle) + 1
      ensures button !in old(active) && active == old(active)[button := false]
      ensures button !in old(table) && button in table && table == old(table)[button := table[button]]
      ensures table[button].url == (if len < 0 then text[..Page.Strlen(text)] else text[..len]) && table[button].website == website
      ensures table[button].isEnd == (location == |old(doc.elems)|)
      ensures doc.elems == Splice(old(doc.elems), location, [Anchor(Button(button))])
      ensures table[button].mark !in old(doc.marks)
      ensures doc.marks == ShiftForInsert(old(doc.marks), location, 1)[table[button].mark := location]
      ensures Blocks() == BlocksAfterInsert(old(Blocks()), location, button, location == |old(doc.elems)|)
    {
      ghost var elems0, marks0, table0, active0 := doc.elems, doc.marks, table, active;
      HandlesBelowAfterAdd(active0, nextHandle);
      button := nextHandle;
      var info := PlaceButton(doc, location, button, website, text, len);
      table := table[button := info];
      active := active[button := false];
      nextHandle := nextHandle + 1;
      InsertStep(elems0, marks0, table0, active0, location, button, info, doc.elems, doc.marks, table, active);
    }

    /** The edits of the callback for a button that became active: its expansion goes in
        right after its anchor. */
    method ExpandButton(button: Handle)
      requires live && doc.Valid() && HandlesIssued() && button in table && button in active && active[button]
      requires Consistent(doc.elems, doc.marks, table, active[button := false])
      modifies doc
      ensures Valid()
      ensures Blocks() == BlocksAfterExpand(old(BlocksOf(doc.marks, table, active[button := false])), button)
      ensures ExpansionStart(old(doc.marks), old(table), button) <= |old(doc.elems)|
      ensures doc.elems == Splice(old(doc.elems), ExpansionStart(old(doc.marks), old(table), button), Expansion(old(table)[button].isEnd))
      ensures doc.marks == ShiftForInsert(old(doc.marks), ExpansionStart(old(doc.marks), old(table), button), |Expansion(old(table)[button].isEnd)|)
    {
      ghost var prior := active[button := false];
      ghost var elems0, marks0 := doc.elems, doc.marks;
      var info := table[button];
      var it := doc.IterAtMark(info.mark);
      ghost var p, e := ExpansionStart(marks0, table, button), Expansion(info.isEnd);
      AnchorInside(elems0, marks0, table, prior, button);
      it := ForwardChars(it, 1, |doc.elems|);
      assert it == p;
      InsertExpansion(doc, it, info.isEnd);
      ExpandStep(elems0, marks0, table, prior, button, p, e, doc.elems, doc.marks, active);
    }

    /** The callback for a button that became inactive: its expansion is deleted and the
        registry, with the button inactive, is consistent again. */
    method CollapseButton(button: Handle)
      requires live && doc.Valid() && HandlesIssued() && button in table && button in active && !active[button]
      requires Consistent(doc.elems, doc.marks, table, active[button := true])
      modifies doc
      ensures Valid()
      ensures Blocks() == BlocksAfterCollapse(old(BlocksOf(doc.marks, table, active[button := true])), button)
      ensures ExpansionEnd(old(doc.marks), old(table), button) <= |old(doc.elems)|
      ensures doc.elems == Cut(old(doc.elems), ExpansionStart(old(doc.marks), old(table), button), ExpansionEnd(old(doc.marks), old(table), button))
      ensures doc.marks == ShiftForDelete(old(doc.marks), ExpansionStart(old(doc.marks), old(table), button), ExpansionEnd(old(doc.marks), old(table), button))
    {
      ghost var prior := active[button := true];
      ghost var elems0, marks0 := doc.elems, doc.marks;
      var info := table[button];
      ghost var p, q := ExpansionStart(marks0, table, button), ExpansionEnd(marks0, table, button);
      ExpansionInside(elems0, marks0, table, prior, button);
      CollapseExpansion(doc, info, p, q);
      CollapseStep(elems0, marks0, table, prior, button, p, Expansion(info.isEnd), doc.elems, doc.marks, active);
    }

    /**
     videoframes_toggle_button_cb, called once the toggle state of `button` has changed.
     When it became active, the page for the stored URL is generated (`videoId` is the
     video id the website's pattern finds in that URL, `tmpName` the temporary file's
     name): `page` is the file written and the URI the web view loads, and the button is
     expanded; when it became inactive no page is made and the button is collapsed.
     */
    method ToggledCallback(button: Handle, videoId: Page.Option<string>, tmpName: string) returns (page: Page.Option<Page.Generated>)
      requires live && doc.Valid() && HandlesIssued() && button in table && button in active
      requires Consistent(doc.elems, doc.marks, table, active[button := !active[button]])
      requires active[button] ==> videoId.Some? && Page.NUL !in table[button].website.embed
                                  && Page.NUL !in videoId.value && Page.NUL !in tmpName
      modifies doc
      ensures Valid()
      ensures page.Some? <==> active[button]
      ensures page.Some? ==> page.value.uri == Page.FileScheme + tmpName
      ensures page.Some? ==> page.value.content
                             == Page.Header + Page.ReplaceLiteral(table[button].website.embed, Page.Placeholder, videoId.value) + Page.Footer
      ensures active[button] ==> ExpansionStart(old(doc.marks), old(table), button) <= |old(doc.elems)|
      ensures active[button] ==> doc.elems == Splice(old(doc.elems), ExpansionStart(old(doc.marks), old(table), button), Expansion(old(table)[button].isEnd))
      ensures active[button] ==> doc.marks == ShiftForInsert(old(doc.marks), ExpansionStart(old(doc.marks), old(table), button), |Expansion(old(table)[button].isEnd)|)
      ensures !active[button] ==> ExpansionEnd(old(doc.marks), old(table), button) <= |old(doc.elems)|
      ensures !active[button] ==> doc.elems == Cut(old(doc.elems), ExpansionStart(old(doc.marks), old(table), button), ExpansionEnd(old(doc.marks), old(table), button))
      ensures !active[button] ==> doc.marks == ShiftForDelete(old(doc.marks), ExpansionStart(old(doc.marks), old(table), button), ExpansionEnd(old(doc.marks), old(table), button))
    {
      if active[button] {
        page := Page.Some(Page.GeneratePage(table[button].website, videoId, tmpName));
        ExpandButton(button);
      } else {
        page := Page.None;
        CollapseButton(button);
      }
    }

    /**
     videoframes_toggle_button: flip the toggle state, which runs the callback; the
     arguments are passed on to it.
     */
    method Toggle(button: Handle, videoId: Page.Option<string>, tmpName: string) returns (page: Page.Option<Page.Generated>)
      requires Valid() && button in table
      requires !active[button] ==> videoId.Some? && Page.NUL !in table[button].website.embed
                                   && Page.NUL !in videoId.value && Page.NUL !in tmpName
      modifies this, doc
      ensures Valid() && table == old(table) && nextHandle == old(nextHandle)
      ensures active == old(active)[button := !old(active[button])]
      ensures page.Some? <==> !old(active[button])
      ensures page.Some? ==> page.value.uri == Page.FileScheme + tmpName
      ensures page.Some? ==> page.value.content
                             == Page.Header + Page.ReplaceLiteral(table[button].website.embed, Page.Placeholder, videoId.value) + Page.Footer
      ensures !old(active[button]) ==> ExpansionStart(old(doc.marks), old(table), button) <= |old(doc.elems)|
      ensures !old(active[button]) ==> doc.elems == Splice(old(doc.elems), ExpansionStart(old(doc.marks), old(table), button), Expansion(old(table)[button].isEnd))
      ensures !old(active[button]) ==> doc.marks == ShiftForInsert(old(doc.marks), ExpansionStart(old(doc.marks), old(table), button), |Expansion(old(table)[button].isEnd)|)
      ensures old(active[button]) ==> ExpansionEnd(old(doc.marks), old(table), button) <= |old(doc.elems)|
      ensures old(active[button]) ==> doc.elems == Cut(old(doc.elems), ExpansionStart(old(doc.marks), old(table), button), ExpansionEnd(old(doc.marks), old(table), button))
      ensures old(active[button]) ==> doc.marks == ShiftForDelete(old(doc.marks), ExpansionStart(old(doc.marks), old(table), button), ExpansionEnd(old(doc.marks), old(table), button))
    {
      ghost var was := active;
      HandlesBelowAfterUpdate(active, nextHandle, button, !active[button]);
      if active[button] {
        active := active[button := false];
        assert active[button := true] == was;
      } else {
        active := active[button := true];
        assert active[button := false] == was;
      }
      page := ToggledCallback(button, videoId, tmpName);
    }

    /**
     videoframes_remove_button: an active button is toggled off first, which collapses
     it; then the one position at its mark (the button) is deleted and its entry, with
     its mark, is dropped. The whole block of the button goes.
     */
    method RemoveButton(button: Handle)
      requires Valid() && button in table
      modifies this, doc
      ensures Valid() && nextHandle == old(nextHandle)
      ensures table == old(table) - {button} && active == old(active) - {button}
      ensures BlockEnd(old(doc.marks), old(table), old(active), button) <= |old(doc.elems)|
      ensures doc.elems == Cut(old(doc.elems), AnchorAt(old(doc.marks), old(table), button), BlockEnd(old(doc.marks), old(table), old(active), button))
      ensures doc.marks == ShiftForDelete(old(doc.marks), AnchorAt(old(doc.marks), old(table), button), BlockEnd(old(doc.marks), old(table), old(active), button))
                           - {old(table)[button].mark}
    {
      ghost var elems0, marks0, table0, active0 := doc.elems, doc.marks, table, active;
      ghost var s, end := AnchorAt(marks0, table0, button), BlockEnd(marks0, table0, active0, button);
      var info := table[button];
      AnchorInside(elems0, marks0, table0, active0, button);
      if active[button] {
        // videoframes_toggle_button: the button turns inactive and the callback collapses it
        UpdateThenRemove(active0, button, false);
        active := active[button := false];
        ExpansionInside(elems0, marks0, table0, active0, button);
        assert end == s + 1 + |Expansion(info.isEnd)|;
        CollapseExpansion(doc, info, s + 1, end);
        assert doc.marks[info.mark] == s < |doc.elems|;
      } else {
        assert end == s + 1;
      }
      ghost var elems1, marks1 := doc.elems, doc.marks;
      UnplaceButton(doc, info, s);
      table := table - {button};
      active := active - {button};
      RemoveBlockStep(elems0, marks0, table0, active0, button, s, end, elems1, marks1, doc.elems, doc.marks, table, active);
      HandlesBelowAfterUpdate(active0, nextHandle, button, false);
    }
  }
}
