/**
 A model of the part of a GTK text buffer that the video-frames code drives:
 a stream of content positions (characters and child anchors) and a set of
 left-gravity marks that follow insertions and deletions.
 */
module TextBuffer {

  /** Identity of a text mark. */
  type Mark = nat

  /** Identity of a toggle-button widget. */
  type Handle = nat

  /** A widget placed in the transcript at a child anchor. */
  datatype Child = Button(handle: Handle) | WebView

  /** One content position of the buffer: a character or a child anchor. */
  datatype Elem = Char(c: char) | Anchor(child: Child)

  /** The buffer elements of a run of plain text. */
  function Chars(text: string): seq<Elem>
  {
    seq(|text|, i requires 0 <= i < |text| => Char(text[i]))
  }

  /** `e` placed at position `p` of `s`. */
  function Splice<T>(s: seq<T>, p: nat, e: seq<T>): seq<T>
    requires p <= |s|
  {
    s[..p] + e + s[p..]
  }

  /** `s` without the positions `a` up to (excluding) `b`. */
  function Cut<T>(s: seq<T>, a: nat, b: nat): seq<T>
    requires a <= b <= |s|
  {
    s[..a] + s[b..]
  }

  /** Where a left-gravity mark at `x` ends up when `k` elements are inserted at `p`:
      a mark sitting exactly at `p` stays to the left of the new text. */
  function InsPos(x: nat, p: nat, k: nat): nat
  {
    if x > p then x + k else x
  }

  /** Where a mark at `x` ends up when the range [a, b) is deleted. */
  function DelPos(x: nat, a: nat, b: nat): nat
    requires a <= b
  {
    if x >= b then x - (b - a) else if x > a then a else x
  }

  function ShiftForInsert(marks: map<Mark, nat>, p: nat, k: nat): map<Mark, nat>
  {
    map m | m in marks :: InsPos(marks[m], p, k)
  }

  function ShiftForDelete(marks: map<Mark, nat>, a: nat, b: nat): map<Mark, nat>
    requires a <= b
  {
    map m | m in marks :: DelPos(marks[m], a, b)
  }

  /** gtk_text_iter_forward_chars: move `n` positions, stopping at the end of the buffer. */
  function ForwardChars(it: nat, n: nat, len: nat): (r: nat)
    ensures it <= len ==> it <= r <= len
    ensures r == it + n <==> it + n <= len
    ensures r != it + n ==> r == len
  {
    if it + n <= len then it + n else len
  }

  /** Deleting exactly what was inserted gives back the original content. */
  lemma SpliceThenCut<T>(s: seq<T>, p: nat, e: seq<T>)
    requires p <= |s|
    ensures p + |e| <= |Splice(s, p, e)|
    ensures Cut(Splice(s, p, e), p, p + |e|) == s
  {
    var t := Splice(s, p, e);
    assert t[..p] == s[..p];
    assert t[p + |e|..] == s[p..];
    assert s[..p] + s[p..] == s;
  }

  /** Re-inserting what was just deleted gives back the original content. */
  lemma CutThenSplice<T>(s: seq<T>, p: nat, e: seq<T>)
    requires p + |e| <= |s| && s[p..p + |e|] == e
    ensures Splice(Cut(s, p, p + |e|), p, e) == s
  {
    var c := Cut(s, p, p + |e|);
    assert c[..p] == s[..p];
    assert c[p..] == s[p + |e|..];
    assert s[..p] + s[p..p + |e|] + s[p + |e|..] == s;
  }

  /** Inserting `e1` and then `e2` just after it is one insertion of `e1 + e2`. */
  lemma SplicesCompose<T>(s: seq<T>, p: nat, e1: seq<T>, e2: seq<T>)
    requires p <= |s|
    ensures p + |e1| <= |Splice(s, p, e1)|
    ensures Splice(Splice(s, p, e1), p + |e1|, e2) == Splice(s, p, e1 + e2)
  {
    var t := Splice(s, p, e1);
    assert t[..p + |e1|] == s[..p] + e1;
    assert t[p + |e1|..] == s[p..];
  }

  /** Deleting the range after the button and then the button itself is one deletion. */
  lemma CutsCompose<T>(s: seq<T>, p: nat, k: nat)
    requires p + 1 + k <= |s|
    ensures p + 1 <= |Cut(s, p + 1, p + 1 + k)|
    ensures Cut(Cut(s, p + 1, p + 1 + k), p, p + 1) == Cut(s, p, p + 1 + k)
  {
    var t := Cut(s, p + 1, p + 1 + k);
    assert t[..p] == s[..p];
    assert t[p + 1..] == s[p + 1 + k..];
  }

  /** Marks come back to where they were when an insertion is deleted again. */
  lemma {:induction false} MarksInsertThenDelete(marks: map<Mark, nat>, p: nat, k: nat)
    ensures ShiftForDelete(ShiftForInsert(marks, p, k), p, p + k) == marks
  {
    var r := ShiftForDelete(ShiftForInsert(marks, p, k), p, p + k);
    assert r.Keys == marks.Keys;
    forall m | m in marks
      ensures r[m] == marks[m]
    {
      assert DelPos(InsPos(marks[m], p, k), p, p + k) == marks[m];
    }
  }

  /** Marks come back to where they were when the `k` positions deleted from `p` to `q`
      are inserted again, provided no mark lay strictly inside that range or at its end. */
  lemma {:induction false} MarksDeleteThenInsert(marks: map<Mark, nat>, p: nat, q: nat, k: nat)
    requires q == p + k
    requires forall m :: m in marks ==> marks[m] <= p || marks[m] > q
    ensures ShiftForInsert(ShiftForDelete(marks, p, q), p, k) == marks
  {
    var r := ShiftForInsert(ShiftForDelete(marks, p, q), p, k);
    assert r.Keys == marks.Keys;
    forall m | m in marks
      ensures r[m] == marks[m]
    {
      assert marks[m] <= p || marks[m] > q;
    }
  }

  /** Two left-gravity insertions, the second at the end of the first, shift marks like one. */
  lemma {:induction false} InsertShiftsCompose(marks: map<Mark, nat>, p: nat, k1: nat, k2: nat)
    ensures ShiftForInsert(ShiftForInsert(marks, p, k1), p + k1, k2) == ShiftForInsert(marks, p, k1 + k2)
  {
    var l := ShiftForInsert(ShiftForInsert(marks, p, k1), p + k1, k2);
    var r := ShiftForInsert(marks, p, k1 + k2);
    assert l.Keys == r.Keys;
    forall m | m in marks
      ensures l[m] == r[m]
    {
      assert InsPos(InsPos(marks[m], p, k1), p + k1, k2) == InsPos(marks[m], p, k1 + k2);
    }
  }

  /** Deleting the range after position `p` and then position `p` shifts marks like one deletion. */
  lemma {:induction false} DeleteShiftsCompose(marks: map<Mark, nat>, p: nat, k: nat)
    ensures ShiftForDelete(ShiftForDelete(marks, p + 1, p + 1 + k), p, p + 1) == ShiftForDelete(marks, p, p + 1 + k)
  {
    var l := ShiftForDelete(ShiftForDelete(marks, p + 1, p + 1 + k), p, p + 1);
    var r := ShiftForDelete(marks, p, p + 1 + k);
    assert l.Keys == r.Keys;
    forall m | m in marks
      ensures l[m] == r[m]
    {
      assert DelPos(DelPos(marks[m], p + 1, p + 1 + k), p, p + 1) == DelPos(marks[m], p, p + 1 + k);
    }
  }

  /**
   The text buffer of a conversation view. Only the operations the video-frames code
   calls are modelled; every mark has left gravity.
   */
  class Buffer {
    var elems: seq<Elem>
    var marks: map<Mark, nat>
    var nextMark: Mark

    ghost predicate Valid()
      reads this
    {
      forall m :: m in marks ==> m < nextMark && marks[m] <= |elems|
    }

    constructor (content: seq<Elem>)
      ensures Valid() && elems == content && marks == map[]
    {
      elems := content;
      marks := map[];
      nextMark := 0;
    }

    /** gtk_text_buffer_create_mark with left gravity. */
    method CreateMark(where: nat) returns (m: Mark)
      requires Valid() && where <= |elems|
      modifies this
      ensures Valid() && elems == old(elems)
      ensures m !in old(marks) && marks == old(marks)[m := where]
    {
      m := nextMark;
      nextMark := nextMark + 1;
      marks := marks[m := where];
    }

    /** gtk_text_buffer_delete_mark. */
    method DeleteMark(m: Mark)
      requires Valid() && m in marks
      modifies this
      ensures Valid() && elems == old(elems)
      ensures marks == old(marks) - {m}
    {
      marks := marks - {m};
    }

    /** gtk_text_buffer_get_iter_at_mark. */
    function IterAtMark(m: Mark): (it: nat)
      reads this
      requires Valid() && m in marks
      ensures it <= |elems|
    {
      marks[m]
    }

    /** gtk_text_buffer_insert: the iterator comes back pointing after the new text. */
    method Insert(where: nat, text: string) returns (after: nat)
      requires Valid() && where <= |elems|
      modifies this
      ensures Valid() && after == where + |text| && after <= |elems|
      ensures elems == Splice(old(elems), where, Chars(text))
      ensures marks == ShiftForInsert(old(marks), where, |text|)
    {
      elems := Splice(elems, where, Chars(text));
      marks := ShiftForInsert(marks, where, |text|);
      after := where + |text|;
    }

    /** gtk_text_buffer_create_child_anchor followed by attaching `child` to it. */
    method InsertChildAnchor(where: nat, child: Child) returns (after: nat)
      requires Valid() && where <= |elems|
      modifies this
      ensures Valid() && after == where + 1 && after <= |elems|
      ensures elems == Splice(old(elems), where, [Anchor(child)])
      ensures marks == ShiftForInsert(old(marks), where, 1)
    {
      elems := Splice(elems, where, [Anchor(child)]);
      marks := ShiftForInsert(marks, where, 1);
      after := where + 1;
    }

    /** gtk_text_buffer_delete; anchored widgets in the range go with it. */
    method Delete(start: nat, end: nat)
      requires Valid() && start <= end <= |elems|
      modifies this
      ensures Valid()
      ensures elems == Cut(old(elems), start, end)
      ensures marks == ShiftForDelete(old(marks), start, end)
    {
      elems := Cut(elems, start, end);
      marks := ShiftForDelete(marks, start, end);
    }
  }
}
