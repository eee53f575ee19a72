/** The set-aware importer (`parse.ts`): the first importer plus a set
    column, resolved against the set table and checked against the page's
    expansion. Its fill is the first importer's. */
module SetImport {
  import opened Js
  import opened Strings
  import opened SetTable
  import opened Page
  import opened Rows
  import opened Fill

  datatype Mapping = Mapping(name: string, setColumn: Column, quantity: Column, isFoil: Column, price: Column)

  const SetImportRules := Rules(ResetAll, true)

  /** The parsed row for record number `i`, on a page for expansion `expansion`. */
  function ParseRecord(rt: Runtime, names: seq<string>, table: seq<SetEntry>, expansion: Num,
                       i: nat, rec: Record, m: Mapping): (r: ParsedRow)
    ensures r.id == i
    ensures r.name == CellText(rec, m.name)
    ensures CoercedFrom(rt, rec, m.quantity, r.quantity)
    ensures CoercedFrom(rt, rec, m.price, r.price)
    ensures r.extra.SetFoil?
    ensures IsFoil(r) <==> Mapped(m.isFoil) && rt.lower(CellText(rec, m.isFoil.value)) in FoilValues
    ensures r.enabled ==> NameOnPage(rt, names, r.name)
    ensures var cell := SetCell(rec, m.setColumn);
      cell == "" || MatchSet(rt, table, cell).None? ==>
        r.extra.setCode == "" && (r.enabled <==> NameOnPage(rt, names, r.name))
    ensures var cell := SetCell(rec, m.setColumn);
      cell != "" && MatchSet(rt, table, cell).Some? ==>
        && r.extra.setCode == MatchSet(rt, table, cell).value.code
        && (r.enabled <==>
              (NameOnPage(rt, names, r.name) && expansion == Finite(MatchSet(rt, table, cell).value.cardmarketId)))
  {
    var name := CellText(rec, m.name);
    var s := ResolveSet(rt, table, SetCell(rec, m.setColumn), expansion, NameOnPage(rt, names, name));
    ParsedRow(i, name, NumberField(rt, rec, m.quantity), NumberField(rt, rec, m.price),
      s.enabled, SetFoil(s.setCode, FoilField(rt, rec, m.isFoil)))
  }

  /** `parseCsv(file, columnMapping)`; `idExpansion` is the page's query parameter. */
  function ParseCsv(rt: Runtime, names: seq<string>, table: seq<SetEntry>, idExpansion: Option<string>,
                    records: seq<Record>, m: Mapping): (r: seq<ParsedRow>)
    ensures |r| == |records|
    ensures forall i :: 0 <= i < |r| ==>
      r[i] == ParseRecord(rt, names, table, ExpansionId(rt, idExpansion), i, records[i], m)
  {
    seq(|records|, i requires 0 <= i < |records| =>
      ParseRecord(rt, names, table, ExpansionId(rt, idExpansion), i, records[i], m))
  }

  /** Without an `idExpansion` parameter the page's expansion reads as 0, so
      every row whose set resolves to an edition with a non-zero id is disabled. */
  lemma MissingExpansionDisablesResolvedSets(rt: Runtime, names: seq<string>, table: seq<SetEntry>,
                                             i: nat, rec: Record, m: Mapping)
    requires var cell := SetCell(rec, m.setColumn);
      cell != "" && MatchSet(rt, table, cell).Some? && MatchSet(rt, table, cell).value.cardmarketId != 0.0
    ensures !ParseRecord(rt, names, table, ExpansionId(rt, None), i, rec, m).enabled
  {
  }

  /** `fillPage(rows)`: the same protocol as the first importer. */
  function FillPage(rt: Runtime, page: seq<Row>, rows: seq<ParsedRow>): (r: Progress)
    ensures |r.groups| == |page|
    ensures r.count == |Matched(rt, Names(page), rows)| <= |rows|
    ensures forall i :: 0 <= i < |page| && HoldsQuantity(page[i]) ==> r.groups[i].original == page[i]
    ensures forall i :: 0 <= i < |page| && page[i].foil ==> r.groups[i].original.foil
  {
    Fill.FillPage(rt, page, rows, SetImportRules)
  }

  /** Disabling by set never hides a row from the fill: a row disabled because
      of its set is still filled when it is submitted, since the fill looks at
      names only. */
  lemma FillIgnoresSet(rt: Runtime, page: seq<Row>, row: ParsedRow, code: string)
    requires row.extra.SetFoil?
    ensures var other := row.(extra := SetFoil(code, row.extra.isFoil), enabled := !row.enabled);
      FillPage(rt, page, [row]) == FillPage(rt, page, [other])
  {
    var other := row.(extra := SetFoil(code, row.extra.isFoil), enabled := !row.enabled);
    assert WriteFor(rt, row, SetImportRules) == WriteFor(rt, other, SetImportRules);
    assert [row][1..] == [] && [other][1..] == [];
  }
}
