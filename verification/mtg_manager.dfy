/** `MtgGameManager`: the base manager's row plus a set and a foil field, and
    a fill that checks the foil box on whatever row the base fill wrote to. */
module MtgManager {
  import opened Js
  import opened Strings
  import opened SetTable
  import opened Page
  import opened Rows
  import opened Fill
  import GenericManager

  datatype Mapping = Mapping(name: string, quantity: Column, price: Column, setColumn: Column, isFoil: Column)

  /** What the base `parseRow` hands over: the common fields and the text of
      the page row whose name matched, if any. */
  datatype BaseRow = BaseRow(common: ParsedRow, matchedName: Option<string>)

  /** `parseRow(id, rawRowData, columnMapping)` given the base row. The row is
      enabled only with a (non-empty) matched name, and a resolved set from
      another edition than the page's disables it. */
  function ParseRow(rt: Runtime, table: seq<SetEntry>, expansion: Num, base: BaseRow, rec: Record, m: Mapping): (r: ParsedRow)
    ensures r.id == base.common.id && r.name == base.common.name
    ensures r.quantity == base.common.quantity && r.price == base.common.price
    ensures r.extra.MtgExtra? && r.extra.matchedName == base.matchedName
    ensures IsFoil(r) <==> Mapped(m.isFoil) && rt.lower(CellText(rec, m.isFoil.value)) in FoilValues
    ensures r.enabled ==> StrTruthy(base.matchedName)
    ensures SetCell(rec, m.setColumn) == "" ==> r.extra.setCode == "" && (r.enabled <==> StrTruthy(base.matchedName))
    ensures var cell := SetCell(rec, m.setColumn);
      cell != "" && MatchSet(rt, table, cell).None? ==>
        r.extra.setCode == "" && (r.enabled <==> StrTruthy(base.matchedName))
    ensures var cell := SetCell(rec, m.setColumn);
      cell != "" && MatchSet(rt, table, cell).Some? ==>
        && r.extra.setCode == MatchSet(rt, table, cell).value.code
        && (r.enabled <==>
              (StrTruthy(base.matchedName) && expansion == Finite(MatchSet(rt, table, cell).value.cardmarketId)))
  {
    var s := ResolveSet(rt, table, SetCell(rec, m.setColumn), expansion, StrTruthy(base.matchedName));
    base.common.(enabled := s.enabled, extra := MtgExtra(base.matchedName, s.setCode, FoilField(rt, rec, m.isFoil)))
  }

  /** When the base row's `matchedName` is the text of the first page row
      matching its name, the Magic row is enabled only for a name on the page,
      and with no set to check any name on the page under a non-empty text
      enables it. */
  lemma MatchedNameDecidesEnabled(rt: Runtime, names: seq<string>, table: seq<SetEntry>, expansion: Num,
                                  base: BaseRow, rec: Record, m: Mapping)
    requires base.matchedName == MatchedName(rt, names, base.common.name)
    ensures ParseRow(rt, table, expansion, base, rec, m).enabled ==> NameOnPage(rt, names, base.common.name)
    ensures SetCell(rec, m.setColumn) == "" && NameOnPage(rt, names, base.common.name)
            && names[FindName(rt, names, base.common.name).value] != "" ==>
      ParseRow(rt, table, expansion, base, rec, m).enabled
  {
  }

  /** A mapped set column whose cell is missing from the record reads as the
      text "undefined", which is not empty and is therefore looked up. */
  lemma MissingSetCellIsLookedUp(rt: Runtime, table: seq<SetEntry>, expansion: Num, base: BaseRow, rec: Record, m: Mapping)
    requires Mapped(m.setColumn) && m.setColumn.value !in rec
    requires MatchSet(rt, table, "undefined").None?
    ensures ParseRow(rt, table, expansion, base, rec, m).extra.setCode == ""
    ensures ParseRow(rt, table, expansion, base, rec, m).enabled == StrTruthy(base.matchedName)
  {
  }

  const MtgRules := Rules(ResetQuantityPrice, true)

  /** The base `fillRow`: the generic manager's per-row protocol. */
  function BaseFillRow(rt: Runtime, g: Group, row: ParsedRow): Filled {
    FillRow(g, ResetQuantityPrice, WriteFor(rt, row, GenericManager.GenericRules))
  }

  /** Check the foil box of the row a fill resolved to, and nothing else. */
  function CheckResolvedFoil(f: Filled): (r: Filled)
    ensures r.onCopy == f.onCopy
    ensures |r.group.clones| == |f.group.clones|
    ensures Resolved(r) == Resolved(f).(foil := true)
    ensures f.onCopy && |f.group.clones| > 0 ==>
      r.group.original == f.group.original
      && r.group.clones[..|f.group.clones| - 1] == f.group.clones[..|f.group.clones| - 1]
    ensures !(f.onCopy && |f.group.clones| > 0) ==> r.group.clones == f.group.clones
  {
    var cs := f.group.clones;
    if f.onCopy && |cs| > 0 then
      var r := Filled(Group(cs[..|cs| - 1] + [cs[|cs| - 1].(foil := true)], f.group.original), true);
      assert r.group.clones[..|cs| - 1] == cs[..|cs| - 1];
      r
    else Filled(Group(cs, f.group.original.(foil := true)), f.onCopy)
  }

  /** `fillRow(trEl, row)`: the base fill, then the foil box of the row it
      resolved to is checked when the row is foil; it is never unchecked. */
  function MtgFillRow(rt: Runtime, g: Group, row: ParsedRow): (r: Filled)
    ensures r.onCopy <==> HoldsQuantity(g.original)
    ensures Resolved(r).foil <==> IsFoil(row) || Resolved(BaseFillRow(rt, g, row)).foil
    ensures !IsFoil(row) ==> r == BaseFillRow(rt, g, row)
  {
    var base := BaseFillRow(rt, g, row);
    if IsFoil(row) then CheckResolvedFoil(base) else base
  }

  /** The composition is the shared protocol with foil writes switched on: a
      foil row's writes plus a checked box, on the same row. */
  lemma MtgFillRowIsFoilAwareFill(rt: Runtime, g: Group, row: ParsedRow)
    ensures MtgFillRow(rt, g, row) == FillRow(g, ResetQuantityPrice, WriteFor(rt, row, MtgRules))
  {
    var base := BaseFillRow(rt, g, row);
    var direct := FillRow(g, ResetQuantityPrice, WriteFor(rt, row, MtgRules));
    if IsFoil(row) {
      var cs := base.group.clones;
      if base.onCopy {
        assert cs == g.clones + [Resolved(base)] by {
          assert cs == cs[..|g.clones|] + [cs[|g.clones|]];
        }
        assert direct.group.clones == g.clones + [Resolved(direct)] by {
          var ds := direct.group.clones;
          assert ds == ds[..|g.clones|] + [ds[|g.clones|]];
        }
        assert cs[..|cs| - 1] == g.clones;
      }
    }
  }

  /** One loop iteration of the manager's `fillPage`, using its `fillRow`. */
  function MtgStep(rt: Runtime, names: seq<string>, st: Progress, row: ParsedRow): (r: Progress)
    requires |st.groups| == |names|
    ensures |r.groups| == |names|
  {
    match FindName(rt, names, row.name)
    case None => st
    case Some(k) => Progress(st.groups[k := MtgFillRow(rt, st.groups[k], row).group], st.count + 1)
  }

  /** The manager's loop over the rows; it is the shared fold with foil writes on. */
  function MtgFillFrom(rt: Runtime, names: seq<string>, st: Progress, rows: seq<ParsedRow>): (r: Progress)
    requires |st.groups| == |names|
    ensures r == FillFrom(rt, names, st, rows, MtgRules)
    decreases |rows|
  {
    if rows == [] then st
    else
      var next := MtgStep(rt, names, st, rows[0]);
      assert next == Step(rt, names, st, rows[0], MtgRules) by {
        if NameOnPage(rt, names, rows[0].name) {
          var k := FindName(rt, names, rows[0].name).value;
          MtgFillRowIsFoilAwareFill(rt, st.groups[k], rows[0]);
        }
      }
      MtgFillFrom(rt, names, next, rows[1..])
  }

  /** `fillPage(rows)`: the number of rows with a page row of the same name;
      rows already holding a quantity are never overwritten and foil boxes are
      never unchecked. */
  function FillPage(rt: Runtime, page: seq<Row>, rows: seq<ParsedRow>): (r: Progress)
    ensures |r.groups| == |page|
    ensures r.count == |Matched(rt, Names(page), rows)| <= |rows|
    ensures forall i :: 0 <= i < |page| && HoldsQuantity(page[i]) ==> r.groups[i].original == page[i]
    ensures forall i :: 0 <= i < |page| && page[i].foil ==> r.groups[i].original.foil
  {
    MtgFillFrom(rt, Names(page), Progress(Open(page), 0), rows)
  }
}
