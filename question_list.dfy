/**
 * The teacher's question list: drag-and-drop reordering and the display of each question's
 * correct option. A drop moves the dragged question to the drop index by two splices on a
 * copy of the list and then renumbers the positions 1..n in list order.
 */
module QuestionList {
  import opened Wrappers

  datatype OptionView = OptionView(id: nat, text: string, isCorrect: bool)
  datatype QuestionView = QuestionView(id: nat, position: int, prompt: string, points: real, options: seq<OptionView>)

  /** `s` with the entry at `i` taken out (`splice(i, 1)`). */
  function RemovedAt<T>(s: seq<T>, i: nat): (r: seq<T>)
    requires i < |s|
    ensures |r| == |s| - 1
  {
    s[..i] + s[i + 1..]
  }

  /** `s` with `x` inserted before index `j`, or appended when `j` is past the end
      (`splice(j, 0, x)`). */
  function InsertedAt<T>(s: seq<T>, j: nat, x: T): (r: seq<T>)
    ensures |r| == |s| + 1
  {
    if j <= |s| then s[..j] + [x] + s[j..] else s + [x]
  }

  /** The list after moving the entry at `from` to index `to`. */
  function Moved<T>(s: seq<T>, from: nat, to: nat): seq<T>
    requires from < |s|
  {
    InsertedAt(RemovedAt(s, from), to, s[from])
  }

  /** Entry `m` of `s` with index `i` taken out. */
  lemma RemovedAtIndex<T>(s: seq<T>, i: nat, m: nat)
    requires i < |s| && m < |s| - 1
    ensures RemovedAt(s, i)[m] == if m < i then s[m] else s[m + 1]
  {
  }

  /** Entry `m` of `s` with `x` inserted at `j`, where `j` is clamped to the end of `s`. */
  lemma InsertedAtIndex<T>(s: seq<T>, j: nat, x: T, m: nat)
    requires m <= |s|
    ensures var k := if j <= |s| then j else |s|;
      InsertedAt(s, j, x)[m] == if m < k then s[m] else if m == k then x else s[m - 1]
  {
  }

  /** Moving keeps the same entries, puts the moved one at the drop index (clamped to the end
      of the list), and leaves the others in their relative order. */
  lemma MovedFacts<T>(s: seq<T>, from: nat, to: nat)
    requires from < |s|
    ensures |Moved(s, from, to)| == |s|
    ensures multiset(Moved(s, from, to)) == multiset(s)
    ensures var k := if to < |s| then to else |s| - 1; Moved(s, from, to)[k] == s[from]
    ensures var k := if to < |s| then to else |s| - 1; RemovedAt(Moved(s, from, to), k) == RemovedAt(s, from)
  {
    var r := RemovedAt(s, from);
    assert s == s[..from] + [s[from]] + s[from + 1..];
    assert multiset(s) == multiset(r) + multiset{s[from]};
    if to <= |r| {
      assert Moved(s, from, to) == r[..to] + [s[from]] + r[to..];
      assert r[..to] + r[to..] == r;
      assert multiset(Moved(s, from, to)) == multiset(r[..to]) + multiset{s[from]} + multiset(r[to..]);
      assert multiset(r) == multiset(r[..to]) + multiset(r[to..]);
      assert RemovedAt(Moved(s, from, to), to) == r[..to] + r[to..];
    } else {
      assert Moved(s, from, to) == r + [s[from]];
      assert RemovedAt(Moved(s, from, to), |s| - 1) == r;
    }
  }

  /** The two splices, done in place on the copy `a`: shift the entries after `from` one to the
      left, then shift the entries from the drop index one to the right and put the dragged
      entry there. */
  method MoveInPlace<T>(a: array<T>, from: nat, to: nat)
    requires from < a.Length
    modifies a
    ensures a[..] == Moved(old(a[..]), from, to)
  {
    ghost var s := a[..];
    var item := a[from];
    var n := a.Length;
    // splice(from, 1): the entries after `from` move one to the left.
    var i := from;
    while i < n - 1
      invariant from <= i <= n - 1
      invariant forall m :: 0 <= m < from ==> a[m] == s[m]
      invariant forall m :: from <= m < i ==> a[m] == s[m + 1]
      invariant forall m :: i < m < n ==> a[m] == s[m]
    {
      a[i] := a[i + 1];
      i := i + 1;
    }
    ghost var r := RemovedAt(s, from);
    forall m | 0 <= m < n - 1 ensures a[m] == r[m] {
      RemovedAtIndex(s, from, m);
    }
    // splice(to, 0, item): the entries from the insertion point move one to the right.
    var j := if to < n - 1 then to else n - 1;
    var k := n - 1;
    while k > j
      invariant j <= k <= n - 1
      invariant forall m :: 0 <= m < k ==> a[m] == r[m]
      invariant forall m :: k < m < n ==> a[m] == r[m - 1]
    {
      a[k] := a[k - 1];
      k := k - 1;
    }
    a[j] := item;
    forall m | 0 <= m < n ensures a[m] == Moved(s, from, to)[m] {
      InsertedAtIndex(r, to, item, m);
    }
  }

  /** Positions renumbered 1..n in list order (`map`). */
  function Renumbered(qs: seq<QuestionView>): (r: seq<QuestionView>)
    ensures |r| == |qs|
    ensures forall i :: 0 <= i < |r| ==> r[i] == qs[i].(position := i + 1)
  {
    seq(|qs|, i requires 0 <= i < |qs| => qs[i].(position := i + 1))
  }

  /** The outcome of a drop: no call to `onReorder`, or a call with the reordered list. */
  function DropOutcome(questions: seq<QuestionView>, draggedIndex: Option<int>, dropIndex: nat, hasReorder: bool)
    : (r: Option<seq<QuestionView>>)
    ensures draggedIndex.None? || draggedIndex == Some(dropIndex as int) || !hasReorder ==> r.None?
    ensures draggedIndex.Some? && !(0 <= draggedIndex.value < |questions|) ==> r.None?
    ensures r.Some? ==> |r.value| == |questions|
    ensures (draggedIndex.Some? && 0 <= draggedIndex.value < |questions| && draggedIndex.value != dropIndex
      && hasReorder) ==> r == Some(Renumbered(Moved(questions, draggedIndex.value, dropIndex)))
  {
    if draggedIndex.None? || draggedIndex.value == dropIndex || !hasReorder then None
    else if !(0 <= draggedIndex.value < |questions|) then None
    else Some(Renumbered(Moved(questions, draggedIndex.value, dropIndex)))
  }

  /** A drop that happens holds every question exactly once, the dragged one at the drop index,
      the others in their old relative order, and positions 1..n. */
  lemma DropReorders(questions: seq<QuestionView>, draggedIndex: Option<int>, dropIndex: nat, hasReorder: bool)
    requires DropOutcome(questions, draggedIndex, dropIndex, hasReorder).Some?
    ensures var r := DropOutcome(questions, draggedIndex, dropIndex, hasReorder).value;
      var from := draggedIndex.value;
      var moved := Moved(questions, from, dropIndex);
      var k := if dropIndex < |questions| then dropIndex else |questions| - 1;
      && multiset(moved) == multiset(questions)
      && moved[k] == questions[from]
      && RemovedAt(moved, k) == RemovedAt(questions, from)
      && (forall i :: 0 <= i < |r| ==> r[i].position == i + 1)
      && (forall i :: 0 <= i < |r| ==> r[i] == moved[i].(position := i + 1))
  {
    MovedFacts(questions, draggedIndex.value, dropIndex);
  }

  /** `getCorrectOption`: the first option marked correct (`find`). */
  function CorrectOption(options: seq<OptionView>): (r: Option<OptionView>)
    ensures r.None? <==> forall i :: 0 <= i < |options| ==> !options[i].isCorrect
    ensures r.Some? ==> exists i :: (0 <= i < |options| && options[i] == r.value && r.value.isCorrect
      && forall j :: 0 <= j < i ==> !options[j].isCorrect)
  {
    if options == [] then None
    else if options[0].isCorrect then Some(options[0])
    else
      var r := CorrectOption(options[1..]);
      if r.Some? then
        ghost var i :| 0 <= i < |options[1..]| && options[1..][i] == r.value && r.value.isCorrect
          && forall j :: 0 <= j < i ==> !options[1..][j].isCorrect;
        assert options[i + 1] == r.value;
        r
      else r
  }

  /** The list's drag state. */
  class QuestionListState {
    var draggedIndex: Option<int>
    var dragOverIndex: Option<int>

    constructor ()
      ensures draggedIndex.None? && dragOverIndex.None?
    {
      draggedIndex, dragOverIndex := None, None;
    }

    /** `handleDragStart`. */
    method DragStart(index: nat)
      modifies this
      ensures draggedIndex == Some(index as int) && dragOverIndex == old(dragOverIndex)
    {
      draggedIndex := Some(index);
    }

    /** `handleDragOver`: the entry under the pointer is remembered. */
    method DragOver(index: nat)
      modifies this
      ensures dragOverIndex == Some(index as int) && draggedIndex == old(draggedIndex)
    {
      dragOverIndex := Some(index);
    }

    /** `handleDragLeave`. */
    method DragLeave()
      modifies this
      ensures dragOverIndex.None? && draggedIndex == old(draggedIndex)
    {
      dragOverIndex := None;
    }

    /** `handleDragEnd`: the drag state is cleared. */
    method DragEnd()
      modifies this
      ensures draggedIndex.None? && dragOverIndex.None?
    {
      draggedIndex, dragOverIndex := None, None;
    }

    /** `handleDrop`: whatever happens the drag state is cleared; the reordered list is handed
        to `onReorder` unless the drop is a no-op. */
    method Drop(questions: seq<QuestionView>, dropIndex: nat, hasReorder: bool) returns (reordered: Option<seq<QuestionView>>)
      modifies this
      ensures reordered == DropOutcome(questions, old(draggedIndex), dropIndex, hasReorder)
      ensures draggedIndex.None? && dragOverIndex.None?
    {
      if draggedIndex.None? || draggedIndex.value == dropIndex || !hasReorder {
        draggedIndex, dragOverIndex := None, None;
        return None;
      }
      var from := draggedIndex.value;
      if !(0 <= from < |questions|) {
        draggedIndex, dragOverIndex := None, None;
        return None;
      }
      var copy := new QuestionView[|questions|](i requires 0 <= i < |questions| => questions[i]);
      assert copy[..] == questions;
      MoveInPlace(copy, from, dropIndex);
      reordered := Some(Renumbered(copy[..]));
      draggedIndex, dragOverIndex := None, None;
    }
  }
}
