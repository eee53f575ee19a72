/** `GenericGameManager`: name, quantity and price only. Its fill resets a
    copy's quantity and price but never reads or writes the foil box. */
module GenericManager {
  import opened Js
  import opened Strings
  import opened Page
  import opened Rows
  import opened Fill

  datatype Mapping = Mapping(name: string, quantity: Column, price: Column)

  const GenericRules := Rules(ResetQuantityPrice, false)

  /** The parsed row for record number `i`. */
  function ParseRecord(rt: Runtime, names: seq<string>, i: nat, rec: Record, m: Mapping): (r: ParsedRow)
    ensures r.id == i
    ensures r.name == CellText(rec, m.name)
    ensures CoercedFrom(rt, rec, m.quantity, r.quantity)
    ensures CoercedFrom(rt, rec, m.price, r.price)
    ensures r.extra == NoExtra && !IsFoil(r)
    ensures r.enabled <==> exists j :: 0 <= j < |names| && Compare(rt, names[j], r.name)
  {
    var name := CellText(rec, m.name);
    ParsedRow(i, name, NumberField(rt, rec, m.quantity), NumberField(rt, rec, m.price),
      NameOnPage(rt, names, name), NoExtra)
  }

  /** `parseCsv(file, columnMapping)` on the file's records. */
  function ParseCsv(rt: Runtime, names: seq<string>, records: seq<Record>, m: Mapping): (r: seq<ParsedRow>)
    ensures |r| == |records|
    ensures forall i :: 0 <= i < |r| ==> r[i] == ParseRecord(rt, names, i, records[i], m)
  {
    seq(|records|, i requires 0 <= i < |records| => ParseRecord(rt, names, i, records[i], m))
  }

  /** `fillPage(rows)`, resolving to the number of rows filled. */
  function FillPage(rt: Runtime, page: seq<Row>, rows: seq<ParsedRow>): (r: Progress)
    ensures |r.groups| == |page|
    ensures r.count == |Matched(rt, Names(page), rows)| <= |rows|
    ensures forall i :: 0 <= i < |page| && HoldsQuantity(page[i]) ==> r.groups[i].original == page[i]
  {
    Fill.FillPage(rt, page, rows, GenericRules)
  }

  /** Every row of a group shows its snapshot row's foil state. */
  predicate FoilUniform(g: Group) {
    forall c :: 0 <= c < |g.clones| ==> g.clones[c].foil == g.original.foil
  }

  /** The generic fill leaves every foil box as it found it: snapshot rows
      keep theirs, and every copy shows the state of the row it copies. */
  lemma {:induction false} FoilUntouched(rt: Runtime, names: seq<string>, st: Progress, rows: seq<ParsedRow>)
    requires |st.groups| == |names|
    ensures var r := FillFrom(rt, names, st, rows, GenericRules);
      forall i :: 0 <= i < |names| ==>
        && r.groups[i].original.foil == st.groups[i].original.foil
        && (FoilUniform(st.groups[i]) ==> FoilUniform(r.groups[i]))
    decreases |rows|
  {
    if rows != [] {
      var next := Step(rt, names, st, rows[0], GenericRules);
      FoilUntouched(rt, names, next, rows[1..]);
      forall i | 0 <= i < |names|
        ensures next.groups[i].original.foil == st.groups[i].original.foil
        ensures FoilUniform(st.groups[i]) ==> FoilUniform(next.groups[i])
      {
        if NameOnPage(rt, names, rows[0].name) && FindName(rt, names, rows[0].name).value == i {
          var f := FillRow(st.groups[i], ResetQuantityPrice, WriteFor(rt, rows[0], GenericRules));
          if f.onCopy {
            assert f.group.clones[|f.group.clones| - 1] == Resolved(f);
            assert forall c :: 0 <= c < |st.groups[i].clones| ==>
              f.group.clones[c] == f.group.clones[..|st.groups[i].clones|][c];
          }
        }
      }
    }
  }

  /** After a generic fill every row on the page, copies included, shows the
      foil state its snapshot row had before. */
  lemma FillPageKeepsFoil(rt: Runtime, page: seq<Row>, rows: seq<ParsedRow>)
    ensures var r := FillPage(rt, page, rows);
      forall i :: 0 <= i < |page| ==>
        && r.groups[i].original.foil == page[i].foil
        && forall c :: 0 <= c < |r.groups[i].clones| ==> r.groups[i].clones[c].foil == page[i].foil
  {
    FoilUntouched(rt, Names(page), Progress(Open(page), 0), rows);
  }

  /** A row aimed at a snapshot row that already holds a quantity writes into a
      new copy whose quantity and price start from their defaults while its
      foil box keeps the copied state. */
  lemma CopyResetsQuantityAndPrice(rt: Runtime, names: seq<string>, st: Progress, row: ParsedRow, k: nat)
    requires |st.groups| == |names|
    requires FindName(rt, names, row.name) == Some(k)
    requires HoldsQuantity(st.groups[k].original)
    ensures var g := Step(rt, names, st, row, GenericRules).groups[k];
      var o := st.groups[k].original;
      && g.original == o
      && |g.clones| == |st.groups[k].clones| + 1
      && var c := g.clones[|g.clones| - 1];
         && c.name == o.name
         && c.quantity == (if NumTruthy(row.quantity) then rt.show(row.quantity) else o.defaults.quantity)
         && c.price == (if NumTruthy(row.price) then rt.fixed2(row.price) else o.defaults.price)
         && c.foil == o.foil
  {
    var f := FillRow(st.groups[k], ResetQuantityPrice, WriteFor(rt, row, GenericRules));
    assert Resolved(f) == f.group.clones[|f.group.clones| - 1];
  }
}
