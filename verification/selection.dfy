/** The pure rules of the row-selection form: which rows may be chosen,
    what is chosen by default, what a valid choice is, what the batch buttons
    and the checkboxes do, and what is submitted. */
module Selection {
  import opened Js
  import opened Strings
  import opened Rows

  /** The marketplace accepts at most this many articles per submission. */
  const MaxSelected: nat := 100

  /** `rows.filter((r) => r.enabled)` */
  function EnabledRows(rows: seq<ParsedRow>): (r: seq<ParsedRow>)
    ensures |r| <= |rows|
    ensures forall i :: 0 <= i < |r| ==> r[i].enabled
  {
    if rows == [] then []
    else if rows[0].enabled then [rows[0]] + EnabledRows(rows[1..])
    else EnabledRows(rows[1..])
  }

  /** A row is offered exactly when it is one of the rows and enabled. */
  lemma {:induction false} EnabledRowsMembership(rows: seq<ParsedRow>, x: ParsedRow)
    ensures x in EnabledRows(rows) <==> x in rows && x.enabled
  {
    if rows != [] {
      EnabledRowsMembership(rows[1..], x);
      assert rows == [rows[0]] + rows[1..];
    }
  }

  /** `rows.map((r) => r.id)` */
  function Ids(rows: seq<ParsedRow>): (r: seq<nat>)
    ensures |r| == |rows|
    ensures forall i :: 0 <= i < |r| ==> r[i] == rows[i].id
  {
    seq(|rows|, i requires 0 <= i < |rows| => rows[i].id)
  }

  /** The initial selection: `enabledRows.slice(0, 100).map((r) => r.id)`. */
  function DefaultSelection(rows: seq<ParsedRow>): (r: seq<nat>)
    ensures var n := |EnabledRows(rows)|;
      |r| == (if n < MaxSelected then n else MaxSelected)
    ensures forall k :: 0 <= k < |r| ==> r[k] == EnabledRows(rows)[k].id
  {
    Ids(Slice(EnabledRows(rows), 0, MaxSelected))
  }

  /** The form's validation: between 1 and 100 ids. */
  predicate ValidSelection(sel: seq<nat>) {
    1 <= |sel| <= MaxSelected
  }

  /** The default selection validates exactly when some row is enabled. */
  lemma DefaultSelectionValid(rows: seq<ParsedRow>)
    ensures ValidSelection(DefaultSelection(rows)) <==> |EnabledRows(rows)| >= 1
  {
  }

  /** `rows.filter((r) => selectedRows.includes(r.id))` */
  function Submit(rows: seq<ParsedRow>, sel: seq<nat>): (r: seq<ParsedRow>)
    ensures |r| <= |rows|
    ensures forall i :: 0 <= i < |r| ==> r[i].id in sel
  {
    if rows == [] then []
    else if rows[0].id in sel then [rows[0]] + Submit(rows[1..], sel)
    else Submit(rows[1..], sel)
  }

  /** A row is submitted exactly when it is one of the rows and its id is selected. */
  lemma {:induction false} SubmitMembership(rows: seq<ParsedRow>, sel: seq<nat>, x: ParsedRow)
    ensures x in Submit(rows, sel) <==> x in rows && x.id in sel
  {
    if rows != [] {
      SubmitMembership(rows[1..], sel, x);
      assert rows == [rows[0]] + rows[1..];
    }
  }

  /** Submission follows the order of the rows, not the order of the
      selection: two selections holding the same ids submit the same rows. */
  lemma {:induction false} SubmitIgnoresSelectionOrder(rows: seq<ParsedRow>, s1: seq<nat>, s2: seq<nat>)
    requires forall id :: id in s1 <==> id in s2
    ensures Submit(rows, s1) == Submit(rows, s2)
  {
    if rows != [] {
      SubmitIgnoresSelectionOrder(rows[1..], s1, s2);
    }
  }

  /** Submission works row by row: it keeps the relative order of the rows. */
  lemma {:induction false} SubmitInRowOrder(xs: seq<ParsedRow>, ys: seq<ParsedRow>, sel: seq<nat>)
    ensures Submit(xs + ys, sel) == Submit(xs, sel) + Submit(ys, sel)
  {
    if xs == [] {
      assert xs + ys == ys;
    } else {
      assert (xs + ys)[0] == xs[0];
      assert (xs + ys)[1..] == xs[1..] + ys;
      SubmitInRowOrder(xs[1..], ys, sel);
    }
  }

  /** The rows the table lists: all of them with `showDisabled`, otherwise the
      enabled ones and the selected ones. */
  function VisibleRows(rows: seq<ParsedRow>, sel: seq<nat>, showDisabled: bool): (r: seq<ParsedRow>)
    ensures showDisabled ==> r == rows
    ensures |r| <= |rows|
    ensures !showDisabled ==> forall i :: 0 <= i < |r| ==> r[i].enabled || r[i].id in sel
  {
    if showDisabled then rows
    else if rows == [] then []
    else if rows[0].enabled || rows[0].id in sel then [rows[0]] + VisibleRows(rows[1..], sel, false)
    else VisibleRows(rows[1..], sel, false)
  }

  /** With `showDisabled` off a row is listed exactly when it is enabled or selected. */
  lemma {:induction false} VisibleRowsMembership(rows: seq<ParsedRow>, sel: seq<nat>, x: ParsedRow)
    ensures x in VisibleRows(rows, sel, false) <==> x in rows && (x.enabled || x.id in sel)
  {
    if rows != [] {
      VisibleRowsMembership(rows[1..], sel, x);
      assert rows == [rows[0]] + rows[1..];
    }
  }

  /** A batch button for `[start, end]`: `enabledRows.slice(start - 1, end).map((r) => r.id)`. */
  function BatchSelection(rows: seq<ParsedRow>, start: int, end: int): (r: seq<nat>)
    ensures 1 <= start && start - 1 <= end <= |EnabledRows(rows)| ==>
      |r| == end - start + 1
      && forall k :: 0 <= k < |r| ==> r[k] == EnabledRows(rows)[start - 1 + k].id
  {
    Ids(Slice(EnabledRows(rows), start - 1, end))
  }

  /** A checkbox change: `setInArray(selectedRows, id, checked)`. */
  function Toggle(sel: seq<nat>, id: nat, checked: bool): (r: seq<nat>)
    ensures checked <==> id in r
    ensures forall x :: x in sel && x != id ==> x in r
    ensures forall x :: x in r && x != id ==> x in sel
  {
    SetInArray(sel, id, checked)
  }

  /** Unchecking never makes a valid selection too large, and checking an
      unselected row grows the selection by exactly one id. */
  lemma ToggleSize(sel: seq<nat>, id: nat)
    ensures |Toggle(sel, id, false)| <= |sel|
    ensures id !in sel ==> |Toggle(sel, id, true)| == |sel| + 1
    ensures id in sel ==> Toggle(sel, id, true) == sel
  {
  }

  /** Ranges moved up by `d` positions. */
  function Shift(rs: seq<(nat, nat)>, d: nat): (r: seq<(nat, nat)>)
    ensures |r| == |rs|
    ensures forall k :: 0 <= k < |r| ==> r[k].0 == rs[k].0 + d && r[k].1 == rs[k].1 + d
  {
    seq(|rs|, k requires 0 <= k < |rs| => (rs[k].0 + d, rs[k].1 + d))
  }

  /** `splitIntoBatches(total)`: consecutive 1-based inclusive ranges of at
      most 100 positions covering `1..total`. */
  function SplitIntoBatches(total: nat): (r: seq<(nat, nat)>)
    ensures total == 0 <==> r == []
    ensures forall k :: 0 <= k < |r| ==> 1 <= r[k].0 <= r[k].1 <= total && r[k].1 - r[k].0 < MaxSelected
    ensures |r| > 0 ==> r[0].0 == 1 && r[|r| - 1].1 == total
    ensures forall k :: 0 <= k < |r| - 1 ==> r[k].1 + 1 == r[k + 1].0
    ensures forall k :: 0 <= k < |r| - 1 ==> r[k].1 - r[k].0 + 1 == MaxSelected
    decreases total
  {
    if total == 0 then []
    else if total <= MaxSelected then [(1, total)]
    else [(1, MaxSelected)] + Shift(SplitIntoBatches(total - MaxSelected), MaxSelected)
  }

  /** One batch range lies inside `1..total` and spans at most 100 positions. */
  lemma BatchBounds(total: nat, k: nat)
    requires k < |SplitIntoBatches(total)|
    ensures var b := SplitIntoBatches(total)[k];
      1 <= b.0 <= b.1 <= total && b.1 - b.0 < MaxSelected
  {
  }

  /** Every batch button offers a selection the form accepts, made of the
      enabled rows at that range. */
  lemma BatchSelectionsAreValid(rows: seq<ParsedRow>, k: nat)
    requires k < |SplitIntoBatches(|EnabledRows(rows)|)|
    ensures var b := SplitIntoBatches(|EnabledRows(rows)|)[k];
      var sel := BatchSelection(rows, b.0, b.1);
      && ValidSelection(sel)
      && forall j :: 0 <= j < |sel| ==> sel[j] == EnabledRows(rows)[b.0 - 1 + j].id
  {
    var n := |EnabledRows(rows)|;
    BatchBounds(n, k);
    var b := SplitIntoBatches(n)[k];
    var sel := BatchSelection(rows, b.0, b.1);
    assert |sel| == b.1 - b.0 + 1;
  }

  /** `splitIntoBatches(250)` is `[[1, 100], [101, 200], [201, 250]]`. */
  lemma SplitExample()
    ensures SplitIntoBatches(250) == [(1, 100), (101, 200), (201, 250)]
  {
    assert SplitIntoBatches(50) == [(1, 50)];
    assert SplitIntoBatches(150) == [(1, 100), (101, 150)];
  }
}
