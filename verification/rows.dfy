/** The parsed-row record every import variant produces, and the per-cell
    rules they share: number coercion with a 0 default, foil keywords, the
    name lookup against the page and the set rule. */
module Rows {
  import opened Js
  import opened Strings
  import opened SetTable

  /** The CSV header chosen for an optional field, or `undefined`. */
  type Column = Option<string>

  /** A mapping entry is used only when it is truthy: `undefined` and `''` are not. */
  predicate Mapped(column: Column) {
    StrTruthy(column)
  }

  /** `n` is what a numeric field should hold: the coerced cell when the
      column is mapped and the coercion is neither 0 nor NaN, and 0 otherwise. */
  ghost predicate CoercedFrom(rt: Runtime, rec: Record, column: Column, n: Num) {
    if Mapped(column) && NumTruthy(CellNumber(rt, rec, column.value))
    then n == CellNumber(rt, rec, column.value)
    else n == Finite(0.0)
  }

  /** `columnMapping[f] ? (Number(row[columnMapping[f]]) || 0) : 0` */
  function NumberField(rt: Runtime, rec: Record, column: Column): (r: Num)
    ensures !r.NaN?
    ensures CoercedFrom(rt, rec, column, r)
    ensures !Mapped(column) || column.value !in rec ==> r == Finite(0.0)
  {
    if Mapped(column) then OrZero(CellNumber(rt, rec, column.value)) else Finite(0.0)
  }

  /** `VALID_FOIL_VALUES` */
  const FoilValues: seq<string> := ["t", "1", "foil", "yes"]

  /** `columnMapping.isFoil ? VALID_FOIL_VALUES.includes(String(row[col]).toLowerCase()) : false` */
  predicate FoilField(rt: Runtime, rec: Record, column: Column) {
    Mapped(column) && rt.lower(CellText(rec, column.value)) in FoilValues
  }

  /** Some page row's name text compares equal to `name`. */
  predicate NameOnPage(rt: Runtime, names: seq<string>, name: string) {
    exists j :: 0 <= j < |names| && Compare(rt, names[j], name)
  }

  /** `getWebsiteRows().find((el) => compareNormalized(el.textContent, name))`,
      as a position among the page's rows. */
  function FindName(rt: Runtime, names: seq<string>, name: string): (r: Option<nat>)
    ensures r.Some? ==> r.value < |names| && Compare(rt, names[r.value], name)
    ensures r.Some? ==> forall j :: 0 <= j < r.value ==> !Compare(rt, names[j], name)
    ensures r.None? <==> !NameOnPage(rt, names, name)
  {
    if names == [] then None
    else if Compare(rt, names[0], name) then Some(0)
    else match FindName(rt, names[1..], name)
      case Some(i) =>
        assert forall j :: 1 <= j < i + 1 ==> names[j] == names[1..][j - 1];
        Some(i + 1)
      case None =>
        assert forall j :: 1 <= j < |names| ==> names[j] == names[1..][j - 1];
        None
  }

  /** The text of the first matching page row, if any: what the base manager's
      `parseRow` is taken to report as `matchedName`. */
  function MatchedName(rt: Runtime, names: seq<string>, name: string): (r: Option<string>)
    ensures r.Some? <==> NameOnPage(rt, names, name)
    ensures r.Some? ==> Compare(rt, r.value, name)
  {
    match FindName(rt, names, name)
    case Some(i) => Some(names[i])
    case None => None
  }

  /** `columnMapping.set ? String(row[columnMapping.set]) : ''` */
  function SetCell(rec: Record, column: Column): (r: string)
    ensures !Mapped(column) ==> r == ""
    ensures Mapped(column) && column.value !in rec ==> r == "undefined"
    ensures Mapped(column) && column.value in rec ==> r == rec[column.value]
  {
    if Mapped(column) then CellText(rec, column.value) else ""
  }

  /** `Number(new URLSearchParams(location.search).get('idExpansion'))`: a
      missing parameter is `Number(null)`, which is 0. */
  function ExpansionId(rt: Runtime, param: Option<string>): (r: Num)
    ensures param.None? ==> r == Finite(0.0)
    ensures param.Some? ==> r == rt.number(param.value)
  {
    match param
    case None => Finite(0.0)
    case Some(s) => rt.number(s)
  }

  datatype SetOutcome = SetOutcome(setCode: string, enabled: bool)

  /** The set rule: a non-empty set cell is looked up in the table; a hit
      replaces it by the canonical code and disables the row when the set's
      edition is not the page's, a miss clears it. */
  function ResolveSet(rt: Runtime, table: seq<SetEntry>, cell: string, expansion: Num, enabled: bool): (r: SetOutcome)
    ensures r.enabled ==> enabled
    ensures cell == "" ==> r == SetOutcome("", enabled)
    ensures MatchSet(rt, table, cell).None? ==> r == SetOutcome("", enabled)
    ensures cell != "" && MatchSet(rt, table, cell).Some? ==>
      var m := MatchSet(rt, table, cell).value;
      && r.setCode == m.code
      && (r.enabled <==> enabled && expansion == Finite(m.cardmarketId))
  {
    if cell == "" then SetOutcome("", enabled)
    else match MatchSet(rt, table, cell)
      case Some(m) => SetOutcome(m.code, enabled && expansion == Finite(m.cardmarketId))
      case None => SetOutcome("", enabled)
  }

  /** A non-empty set on a parsed row is the code of a table entry holding a key
      equal to the cell, and an enabled row with a resolved set belongs to the
      page's expansion. */
  lemma ResolvedSetComesFromTable(rt: Runtime, table: seq<SetEntry>, cell: string, expansion: Num, enabled: bool)
    ensures var r := ResolveSet(rt, table, cell, expansion, enabled);
      r.setCode != "" ==>
        exists i :: 0 <= i < |table| && table[i].code == r.setCode && HasKey(rt, table[i], cell)
          && (r.enabled ==> expansion == Finite(table[i].cardmarketId))
  {
    var r := ResolveSet(rt, table, cell, expansion, enabled);
    if r.setCode != "" {
      var i :| 0 <= i < |table| && HasKey(rt, table[i], cell)
        && MatchSet(rt, table, cell).value == SetMatch(table[i].code, table[i].cardmarketId)
        && forall j :: 0 <= j < i ==> !HasKey(rt, table[j], cell);
      assert table[i].code == r.setCode;
    }
  }

  /** What an import variant adds to the common fields. */
  datatype Extra =
    | NoExtra
    | Foil(isFoil: bool)
    | SetFoil(setCode: string, isFoil: bool)
    | MtgExtra(matchedName: Option<string>, setCode: string, isFoil: bool)

  /** One CSV record after parsing: the fields every variant has
      (`CommonParsedRowFields`) and the variant's own. */
  datatype ParsedRow = ParsedRow(id: nat, name: string, quantity: Num, price: Num, enabled: bool, extra: Extra)

  /** A row without a foil field is not foil. */
  predicate IsFoil(row: ParsedRow) {
    match row.extra
    case NoExtra => false
    case Foil(f) => f
    case SetFoil(_, f) => f
    case MtgExtra(_, _, f) => f
  }
}
