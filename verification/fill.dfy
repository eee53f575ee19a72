/** `fillPage` as a fold over the selected rows: each row is looked up by
    name in the page snapshot and, when found, written into that snapshot row
    or into a fresh copy of it. The variants differ only in how much of a copy
    they reset and whether they write the foil checkbox, which `Rules` records. */
module Fill {
  import opened Js
  import opened Strings
  import opened Page
  import opened Rows

  datatype Rules = Rules(reset: Reset, writesFoil: bool)

  /** The writes of one parsed row: quantity and price only when non-zero
      (`if (row.quantity)`, `if (row.price)`), price with two decimals, and the
      foil box only ever checked. */
  function WriteFor(rt: Runtime, row: ParsedRow, rules: Rules): (w: Write)
    ensures w.quantity.Some? <==> NumTruthy(row.quantity)
    ensures w.quantity.Some? ==> w.quantity.value == rt.show(row.quantity)
    ensures w.price.Some? <==> NumTruthy(row.price)
    ensures w.price.Some? ==> w.price.value == rt.fixed2(row.price)
    ensures w.foil == CheckFoil <==> rules.writesFoil && IsFoil(row)
    ensures w.foil != ClickFoil
  {
    Write(
      if NumTruthy(row.quantity) then Some(rt.show(row.quantity)) else None,
      if NumTruthy(row.price) then Some(rt.fixed2(row.price)) else None,
      if rules.writesFoil && IsFoil(row) then CheckFoil else LeaveFoil)
  }

  /** The page so far and the number of rows filled. */
  datatype Progress = Progress(groups: seq<Group>, count: nat)

  /** One iteration of the `rows.forEach` loop. */
  function Step(rt: Runtime, names: seq<string>, st: Progress, row: ParsedRow, rules: Rules): (r: Progress)
    requires |st.groups| == |names|
    ensures |r.groups| == |names|
    ensures !NameOnPage(rt, names, row.name) ==> r == st
    ensures NameOnPage(rt, names, row.name) ==>
      && r.count == st.count + 1
      && var k := FindName(rt, names, row.name).value;
         r.groups == st.groups[k := FillRow(st.groups[k], rules.reset, WriteFor(rt, row, rules)).group]
  {
    match FindName(rt, names, row.name)
    case None => st
    case Some(k) =>
      Progress(st.groups[k := FillRow(st.groups[k], rules.reset, WriteFor(rt, row, rules)).group], st.count + 1)
  }

  /** The rows whose name is on the page, in input order. */
  function Matched(rt: Runtime, names: seq<string>, rows: seq<ParsedRow>): (r: seq<ParsedRow>)
    ensures |r| <= |rows|
    ensures forall i :: 0 <= i < |r| ==> NameOnPage(rt, names, r[i].name) && r[i] in rows
  {
    if rows == [] then []
    else if NameOnPage(rt, names, rows[0].name) then [rows[0]] + Matched(rt, names, rows[1..])
    else Matched(rt, names, rows[1..])
  }

  /** A row is kept exactly when it is one of the rows and its name is on the page. */
  lemma {:induction false} MatchedMembership(rt: Runtime, names: seq<string>, rows: seq<ParsedRow>, x: ParsedRow)
    ensures x in Matched(rt, names, rows) <==> x in rows && NameOnPage(rt, names, x.name)
  {
    if rows != [] {
      MatchedMembership(rt, names, rows[1..], x);
      assert rows == [rows[0]] + rows[1..];
    }
  }

  /** The rows kept keep their relative order: the filter distributes over concatenation. */
  lemma {:induction false} MatchedAppend(rt: Runtime, names: seq<string>, xs: seq<ParsedRow>, ys: seq<ParsedRow>)
    ensures Matched(rt, names, xs + ys) == Matched(rt, names, xs) + Matched(rt, names, ys)
  {
    if xs == [] {
      assert xs + ys == ys;
    } else {
      assert (xs + ys)[0] == xs[0];
      assert (xs + ys)[1..] == xs[1..] + ys;
      MatchedAppend(rt, names, xs[1..], ys);
    }
  }

  /** The rest of the loop from state `st`. */
  function FillFrom(rt: Runtime, names: seq<string>, st: Progress, rows: seq<ParsedRow>, rules: Rules): (r: Progress)
    requires |st.groups| == |names|
    ensures |r.groups| == |names|
    ensures r.count == st.count + |Matched(rt, names, rows)|
    ensures forall i :: 0 <= i < |names| ==> r.groups[i].original.name == st.groups[i].original.name
    ensures forall i :: 0 <= i < |names| && HoldsQuantity(st.groups[i].original) ==>
      r.groups[i].original == st.groups[i].original
    ensures forall i :: 0 <= i < |names| && st.groups[i].original.foil ==> r.groups[i].original.foil
    ensures forall i :: 0 <= i < |names| ==>
      && |st.groups[i].clones| <= |r.groups[i].clones|
      && r.groups[i].clones[..|st.groups[i].clones|] == st.groups[i].clones
    decreases |rows|
  {
    if rows == [] then st
    else
      var next := Step(rt, names, st, rows[0], rules);
      var r := FillFrom(rt, names, next, rows[1..], rules);
      StepGrows(rt, names, st, rows[0], rules);
      assert forall i :: 0 <= i < |names| ==> Grows(st.groups[i], r.groups[i]) by {
        forall i | 0 <= i < |names|
          ensures Grows(st.groups[i], r.groups[i])
        {
          GrowsTransitive(st.groups[i], next.groups[i], r.groups[i]);
        }
      }
      r
  }

  /** What a fill that only ever checks the foil box may do to one group: it
      extends the group, and a checked foil box stays checked. */
  predicate Grows(a: Group, b: Group) {
    Extends(a, b) && (a.original.foil ==> b.original.foil)
  }

  lemma GrowsTransitive(a: Group, b: Group, c: Group)
    requires Grows(a, b) && Grows(b, c)
    ensures Grows(a, c)
  {
    ExtendsTransitive(a, b, c);
  }

  /** One loop iteration lets every group grow and nothing else. */
  lemma StepGrows(rt: Runtime, names: seq<string>, st: Progress, row: ParsedRow, rules: Rules)
    requires |st.groups| == |names|
    ensures forall i :: 0 <= i < |names| ==> Grows(st.groups[i], Step(rt, names, st, row, rules).groups[i])
  {
    if NameOnPage(rt, names, row.name) {
      var k := FindName(rt, names, row.name).value;
      var f := FillRow(st.groups[k], rules.reset, WriteFor(rt, row, rules));
      assert Grows(st.groups[k], f.group);
    }
  }

  /** `fillPage(rows)`: the page before the loop, its names as the lookup
      snapshot, and the rows in order. The count is the number of rows whose
      name is on the page; a snapshot row that already held a quantity is
      never overwritten, no name changes and no foil box is unchecked. */
  function FillPage(rt: Runtime, page: seq<Row>, rows: seq<ParsedRow>, rules: Rules): (r: Progress)
    ensures |r.groups| == |page|
    ensures r.count == |Matched(rt, Names(page), rows)| <= |rows|
    ensures forall i :: 0 <= i < |page| ==> r.groups[i].original.name == page[i].name
    ensures forall i :: 0 <= i < |page| && HoldsQuantity(page[i]) ==> r.groups[i].original == page[i]
    ensures forall i :: 0 <= i < |page| && page[i].foil ==> r.groups[i].original.foil
  {
    FillFrom(rt, Names(page), Progress(Open(page), 0), rows, rules)
  }

  /** The loop is a fold: running two runs of rows one after the other is
      running their concatenation. */
  lemma {:induction false} FillFromAppend(rt: Runtime, names: seq<string>, st: Progress, xs: seq<ParsedRow>, ys: seq<ParsedRow>, rules: Rules)
    requires |st.groups| == |names|
    ensures FillFrom(rt, names, st, xs + ys, rules) == FillFrom(rt, names, FillFrom(rt, names, st, xs, rules), ys, rules)
    decreases |xs|
  {
    if xs == [] {
      assert xs + ys == ys;
    } else {
      assert (xs + ys)[0] == xs[0];
      assert (xs + ys)[1..] == xs[1..] + ys;
      FillFromAppend(rt, names, Step(rt, names, st, xs[0], rules), xs[1..], ys, rules);
    }
  }

  /** Rows whose name is not on the page have no effect at all: dropping them
      beforehand changes neither the page nor the count. */
  lemma {:induction false} UnmatchedRowsChangeNothing(rt: Runtime, names: seq<string>, st: Progress, rows: seq<ParsedRow>, rules: Rules)
    requires |st.groups| == |names|
    ensures FillFrom(rt, names, st, rows, rules) == FillFrom(rt, names, st, Matched(rt, names, rows), rules)
    decreases |rows|
  {
    if rows != [] {
      UnmatchedRowsChangeNothing(rt, names, Step(rt, names, st, rows[0], rules), rows[1..], rules);
      if NameOnPage(rt, names, rows[0].name) {
        var m := Matched(rt, names, rows);
        assert m[0] == rows[0] && m[1..] == Matched(rt, names, rows[1..]);
      }
    }
  }

  /** Lookups go to the snapshot, never to copies: a second row with the same
      name as an earlier one lands on the same snapshot row, and since that row
      now holds the quantity the first row wrote, it gets a copy of its own.
      Two such rows leave one copy more than before when the row started empty
      and two more when it was already filled; the earlier copies stay. */
  lemma RepeatedNameAddsCopy(rt: Runtime, names: seq<string>, st: Progress, a: ParsedRow, b: ParsedRow, rules: Rules, k: nat)
    requires |st.groups| == |names|
    requires FindName(rt, names, a.name) == Some(k) && FindName(rt, names, b.name) == Some(k)
    requires NumTruthy(a.quantity) && rt.show(a.quantity) != "" && rt.show(a.quantity) != "0"
    ensures var before := st.groups[k];
      var after := FillFrom(rt, names, st, [a, b], rules).groups[k];
      && |after.clones| == |before.clones| + (if HoldsQuantity(before.original) then 2 else 1)
      && after.clones[..|before.clones|] == before.clones
      && HoldsQuantity(after.original)
  {
    var s1 := Step(rt, names, st, a, rules);
    var s2 := Step(rt, names, s1, b, rules);
    assert [a, b][1..] == [b];
    assert [b][1..] == [];
    assert FillFrom(rt, names, st, [a, b], rules) == FillFrom(rt, names, s1, [b], rules);
    assert FillFrom(rt, names, s1, [b], rules) == FillFrom(rt, names, s2, [], rules);
    var g0 := st.groups[k];
    var g1 := s1.groups[k];
    var g2 := s2.groups[k];
    assert HoldsQuantity(g1.original);
    assert g2.clones[..|g0.clones|] == g2.clones[..|g1.clones|][..|g0.clones|];
  }

  /** When every row's name is on the page, every row is filled. */
  lemma {:induction false} AllOnPageAllMatched(rt: Runtime, names: seq<string>, rows: seq<ParsedRow>)
    requires forall i :: 0 <= i < |rows| ==> NameOnPage(rt, names, rows[i].name)
    ensures Matched(rt, names, rows) == rows
  {
    if rows != [] {
      AllOnPageAllMatched(rt, names, rows[1..]);
    }
  }
}
