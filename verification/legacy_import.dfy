/** The first importer (`utils/parse.ts`): name, quantity, foil and price
    columns, rows enabled by name alone, and a fill whose copies are reset
    completely before the writes. */
module LegacyImport {
  import opened Js
  import opened Strings
  import opened Page
  import opened Rows
  import opened Fill

  /** The column chosen for each field. */
  datatype Mapping = Mapping(name: string, quantity: Column, isFoil: Column, price: Column)

  /** Copies are reset in all three controls; the foil box is written. */
  const LegacyRules := Rules(ResetAll, true)

  /** The parsed row for record number `i`. */
  function ParseRecord(rt: Runtime, names: seq<string>, i: nat, rec: Record, m: Mapping): (r: ParsedRow)
    ensures r.id == i
    ensures r.name == CellText(rec, m.name)
    ensures CoercedFrom(rt, rec, m.quantity, r.quantity)
    ensures CoercedFrom(rt, rec, m.price, r.price)
    ensures r.extra.Foil?
    ensures IsFoil(r) <==> Mapped(m.isFoil) && rt.lower(CellText(rec, m.isFoil.value)) in FoilValues
    ensures r.enabled <==> exists j :: 0 <= j < |names| && Compare(rt, names[j], r.name)
  {
    var name := CellText(rec, m.name);
    ParsedRow(i, name, NumberField(rt, rec, m.quantity), NumberField(rt, rec, m.price),
      NameOnPage(rt, names, name), Foil(FoilField(rt, rec, m.isFoil)))
  }

  /** `parseCsv(file, columnMapping)` on the file's records. */
  function ParseCsv(rt: Runtime, names: seq<string>, records: seq<Record>, m: Mapping): (r: seq<ParsedRow>)
    ensures |r| == |records|
    ensures forall i :: 0 <= i < |r| ==> r[i] == ParseRecord(rt, names, i, records[i], m)
  {
    seq(|records|, i requires 0 <= i < |records| => ParseRecord(rt, names, i, records[i], m))
  }

  /** `fillPage(rows)` */
  function FillPage(rt: Runtime, page: seq<Row>, rows: seq<ParsedRow>): (r: Progress)
    ensures |r.groups| == |page|
    ensures r.count == |Matched(rt, Names(page), rows)| <= |rows|
    ensures forall i :: 0 <= i < |page| && HoldsQuantity(page[i]) ==> r.groups[i].original == page[i]
    ensures forall i :: 0 <= i < |page| && page[i].foil ==> r.groups[i].original.foil
  {
    Fill.FillPage(rt, page, rows, LegacyRules)
  }

  /** Parsing and filling agree on which rows exist: read against the same
      page, exactly the enabled rows are filled, so filling any run of enabled
      rows reports all of them. */
  lemma EnabledRowsAreFilled(rt: Runtime, page: seq<Row>, records: seq<Record>, m: Mapping, sel: seq<nat>)
    requires forall k :: 0 <= k < |sel| ==> sel[k] < |records|
    ensures var rows := ParseCsv(rt, Names(page), records, m);
      forall i :: 0 <= i < |rows| ==> (rows[i].enabled <==> NameOnPage(rt, Names(page), rows[i].name))
    ensures var rows := ParseCsv(rt, Names(page), records, m);
      var chosen := seq(|sel|, k requires 0 <= k < |sel| => rows[sel[k]]);
      (forall k :: 0 <= k < |chosen| ==> chosen[k].enabled) ==> FillPage(rt, page, chosen).count == |chosen|
  {
    var rows := ParseCsv(rt, Names(page), records, m);
    var chosen := seq(|sel|, k requires 0 <= k < |sel| => rows[sel[k]]);
    if forall k :: 0 <= k < |chosen| ==> chosen[k].enabled {
      AllOnPageAllMatched(rt, Names(page), chosen);
    }
  }

  /** A row aimed at a snapshot row that already holds a quantity writes into a
      new copy whose three controls start from their defaults: quantity and
      price are the row's when non-zero and the defaults otherwise, and the foil
      box is the default state, checked in addition when the row is foil. */
  lemma CopyIsResetThenWritten(rt: Runtime, names: seq<string>, st: Progress, row: ParsedRow, k: nat)
    requires |st.groups| == |names|
    requires FindName(rt, names, row.name) == Some(k)
    requires HoldsQuantity(st.groups[k].original)
    ensures var g := Step(rt, names, st, row, LegacyRules).groups[k];
      var o := st.groups[k].original;
      && g.original == o
      && |g.clones| == |st.groups[k].clones| + 1
      && var c := g.clones[|g.clones| - 1];
         && c.name == o.name
         && c.quantity == (if NumTruthy(row.quantity) then rt.show(row.quantity) else o.defaults.quantity)
         && c.price == (if NumTruthy(row.price) then rt.fixed2(row.price) else o.defaults.price)
         && (c.foil <==> IsFoil(row) || o.defaults.foil)
  {
    var f := FillRow(st.groups[k], ResetAll, WriteFor(rt, row, LegacyRules));
    assert Resolved(f) == f.group.clones[|f.group.clones| - 1];
  }
}
