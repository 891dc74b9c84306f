/**
 * The wall emission of index.js (lines 145-189): the two nested `forEach`
 * walks over `horizontals` and then `verticals` that place a wall body for
 * every entry still `false`. Only the selection is modelled: which entries get
 * a body, and in which order.
 */
module Emission {
  import opened Grid

  /** Entry (e.0, e.1) exists in `m` and holds `open`. */
  ghost predicate Holds(m: array2<bool>, e: Cell, open: bool)
    reads m
  {
    0 <= e.0 < m.Length0 && 0 <= e.1 < m.Length1 && m[e.0, e.1] == open
  }

  /** `a` comes before `b` in a row-by-row, left-to-right walk. */
  predicate Before(a: Cell, b: Cell) {
    a.0 < b.0 || (a.0 == b.0 && a.1 < b.1)
  }

  /** The entries of `es` come in the order of the walk, with none repeated. */
  predicate RowMajor(es: seq<Cell>) {
    forall i, j :: 0 <= i < j < |es| ==> Before(es[i], es[j])
  }

  /**
   * `row.forEach` over row `r` of `m`, from column `from` on: the positions
   * whose entry is `open`, left to right.
   */
  function EntriesInRow(m: array2<bool>, open: bool, r: nat, from: nat): (es: seq<Cell>)
    reads m
    requires r < m.Length0 && from <= m.Length1
    decreases m.Length1 - from
    ensures forall e :: e in es <==> e.0 == r && from <= e.1 && Holds(m, e, open)
    ensures forall i, j :: 0 <= i < j < |es| ==> es[i].1 < es[j].1
  {
    if from == m.Length1 then []
    else if m[r, from] == open then [(r as int, from as int)] + EntriesInRow(m, open, r, from + 1)
    else EntriesInRow(m, open, r, from + 1)
  }

  /** The nested `forEach` over rows `r` and below of `m`: the positions whose entry is `open`. */
  function Entries(m: array2<bool>, open: bool, r: nat): (es: seq<Cell>)
    reads m
    requires r <= m.Length0
    decreases m.Length0 - r
    ensures forall e :: e in es <==> r <= e.0 && Holds(m, e, open)
    ensures RowMajor(es)
  {
    if r == m.Length0 then []
    else
      var first := EntriesInRow(m, open, r, 0);
      var rest := Entries(m, open, r + 1);
      assert forall i :: 0 <= i < |first| ==> first[i] in first;
      assert forall i :: 0 <= i < |rest| ==> rest[i] in rest;
      first + rest
  }

  /** The order in which index.js walks the entries: all of `horizontals` first. */
  predicate WallBefore(a: Wall, b: Wall) {
    (a.orientation == Horizontal && b.orientation == Vertical) ||
    (a.orientation == b.orientation && Before(Near(a), Near(b)))
  }

  /** The walls of one matrix, tagged with the matrix they belong to. */
  function Tagged(o: Orientation, es: seq<Cell>): (ws: seq<Wall>)
    ensures |ws| == |es|
    ensures forall i :: 0 <= i < |es| ==> ws[i] == Wall(o, es[i].0, es[i].1)
    ensures forall w :: w in ws <==> w.orientation == o && Near(w) in es
    ensures RowMajor(es) ==> forall i, j :: 0 <= i < j < |ws| ==> WallBefore(ws[i], ws[j])
  {
    var ws := seq(|es|, i requires 0 <= i < |es| => Wall(o, es[i].0, es[i].1));
    assert forall i :: 0 <= i < |es| ==> Near(ws[i]) == es[i];
    ws
  }

  /** Entry `w` of its matrix exists and holds `open`. */
  ghost predicate WallHolds(horizontals: array2<bool>, verticals: array2<bool>, w: Wall, open: bool)
    reads horizontals, verticals
  {
    match w.orientation
    case Horizontal => Holds(horizontals, Near(w), open)
    case Vertical => Holds(verticals, Near(w), open)
  }

  /**
   * The walls whose entry is `open`, in the order index.js walks them:
   * `horizontals` row by row, then `verticals` row by row.
   */
  function Walls(horizontals: array2<bool>, verticals: array2<bool>, open: bool): (ws: seq<Wall>)
    reads horizontals, verticals
    ensures forall w :: w in ws <==> WallHolds(horizontals, verticals, w, open)
    ensures forall i, j :: 0 <= i < j < |ws| ==> WallBefore(ws[i], ws[j])
  {
    var hs := Tagged(Horizontal, Entries(horizontals, open, 0));
    var vs := Tagged(Vertical, Entries(verticals, open, 0));
    assert forall i :: 0 <= i < |hs| ==> hs[i].orientation == Horizontal by {
      forall i | 0 <= i < |hs| ensures hs[i].orientation == Horizontal {
        assert hs[i] in hs;
      }
    }
    assert forall i :: 0 <= i < |vs| ==> vs[i].orientation == Vertical by {
      forall i | 0 <= i < |vs| ensures vs[i].orientation == Vertical {
        assert vs[i] in vs;
      }
    }
    hs + vs
  }

  /**
   * The walls the source turns into bodies: exactly the entries that are
   * still `false`, and no open one.
   */
  function ClosedWalls(horizontals: array2<bool>, verticals: array2<bool>): (ws: seq<Wall>)
    reads horizontals, verticals
    ensures forall w :: w in ws <==> WallHolds(horizontals, verticals, w, false)
    ensures forall w :: w in ws ==> !WallHolds(horizontals, verticals, w, true)
    ensures forall i, j :: 0 <= i < j < |ws| ==> WallBefore(ws[i], ws[j])
  {
    Walls(horizontals, verticals, false)
  }

  lemma {:induction false} RowEntriesSplit(m: array2<bool>, r: nat, from: nat)
    requires r < m.Length0 && from <= m.Length1
    ensures |EntriesInRow(m, true, r, from)| + |EntriesInRow(m, false, r, from)| == m.Length1 - from
    decreases m.Length1 - from
  {
    if from < m.Length1 {
      RowEntriesSplit(m, r, from + 1);
    }
  }

  /** Every entry of the rows `r` and below of `m` is either open or closed. */
  lemma {:induction false} EntriesSplit(m: array2<bool>, r: nat)
    requires r <= m.Length0
    ensures |Entries(m, true, r)| + |Entries(m, false, r)| == (m.Length0 - r) * m.Length1
    decreases m.Length0 - r
  {
    if r < m.Length0 {
      EntriesSplit(m, r + 1);
      EntriesSplitStep(m, r);
    }
  }

  lemma EntriesSplitStep(m: array2<bool>, r: nat)
    requires r < m.Length0
    requires |Entries(m, true, r + 1)| + |Entries(m, false, r + 1)| == (m.Length0 - (r + 1)) * m.Length1
    ensures |Entries(m, true, r)| + |Entries(m, false, r)| == (m.Length0 - r) * m.Length1
  {
    RowEntriesSplit(m, r, 0);
    EntriesUnfold(m, true, r);
    EntriesUnfold(m, false, r);
    RowsStep(|EntriesInRow(m, true, r, 0)|, |EntriesInRow(m, false, r, 0)|,
             |Entries(m, true, r + 1)|, |Entries(m, false, r + 1)|, m.Length0 - (r + 1), m.Length1);
  }

  lemma EntriesUnfold(m: array2<bool>, open: bool, r: nat)
    requires r < m.Length0
    ensures |Entries(m, open, r)| == |EntriesInRow(m, open, r, 0)| + |Entries(m, open, r + 1)|
  {
  }

  /** One more row of `width` entries, split between open and closed. */
  lemma RowsStep(rowOpen: int, rowClosed: int, restOpen: int, restClosed: int, n: int, width: int)
    requires rowOpen + rowClosed == width && restOpen + restClosed == n * width
    ensures (rowOpen + restOpen) + (rowClosed + restClosed) == (n + 1) * width
  {
  }

  /** The open and the closed walls together are all the entries of both matrices. */
  lemma WallsSplit(horizontals: array2<bool>, verticals: array2<bool>)
    ensures |Walls(horizontals, verticals, true)| + |Walls(horizontals, verticals, false)|
         == horizontals.Length0 * horizontals.Length1 + verticals.Length0 * verticals.Length1
  {
    EntriesSplit(horizontals, 0);
    EntriesSplit(verticals, 0);
  }

  /** A sequence without repetitions has as many elements as its set. */
  lemma {:induction false} DistinctCount<T>(s: seq<T>)
    requires forall i, j :: 0 <= i < j < |s| ==> s[i] != s[j]
    ensures |set x | x in s| == |s|
  {
    if |s| > 0 {
      var rest := s[1..];
      DistinctCount(rest);
      assert (set x | x in s) == (set x | x in rest) + {s[0]};
      assert s[0] !in rest;
    }
  }

  /** The walk over the walls meets each of them once. */
  lemma WallsDistinct(horizontals: array2<bool>, verticals: array2<bool>, open: bool)
    ensures var ws := Walls(horizontals, verticals, open);
      |set w | w in ws| == |ws|
  {
    var ws := Walls(horizontals, verticals, open);
    forall i, j | 0 <= i < j < |ws| ensures ws[i] != ws[j] {
      assert WallBefore(ws[i], ws[j]);
    }
    DistinctCount(ws);
  }
}
