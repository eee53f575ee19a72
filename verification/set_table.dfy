/** The set reference table built from the public sets CSV, and the lookup
    that turns a CSV set cell into a canonical code and marketplace edition id.
    Fetching the CSV and passing the table between extension contexts are not
    modelled: the parsed rows and the resulting table are inputs. */
module SetTable {
  import opened Js
  import opened Strings

  /** The columns of one row of the sets CSV that the table uses. The `code`
      column is taken as present, as the source's `set.code!` asserts; any other
      column may be absent from the file. */
  datatype SetsRow = SetsRow(
    code: string,
    codeV3: Option<string>,
    id: Option<string>,
    mcmId: Option<string>,
    mcmName: Option<string>,
    mtgoCode: Option<string>,
    name: Option<string>)

  datatype SetEntry = SetEntry(matchKeys: seq<string>, code: string, cardmarketId: real)

  /** `Number(v.mcmId)`; an absent cell is `Number(undefined)`, `NaN`. */
  function McmNumber(rt: Runtime, row: SetsRow): Num {
    match row.mcmId
    case Some(s) => rt.number(s)
    case None => NaN
  }

  /** `Number.isFinite(set.mcmId)` */
  predicate Retained(rt: Runtime, row: SetsRow) {
    McmNumber(rt, row).Finite?
  }

  /** Number printing never yields "" or "0" for a non-zero number. */
  ghost predicate PrintsNonZero(rt: Runtime) {
    forall n :: NumTruthy(n) ==> rt.show(n) != "" && rt.show(n) != "0"
  }

  /** One candidate identifier of a sets row: a text cell or the numeric id. */
  datatype KeySource = Text(text: Option<string>) | Id(n: real)

  /** `!!v` */
  predicate KeyTruthy(k: KeySource) {
    match k
    case Text(t) => StrTruthy(t)
    case Id(n) => n != 0.0
  }

  /** `v.toString()` */
  function KeyString(rt: Runtime, k: KeySource): string {
    match k
    case Text(t) => if t.Some? then t.value else ""
    case Id(n) => rt.show(Finite(n))
  }

  /** `[code, codeV3, id, mcmId, mcmName, mtgoCode, name]`, with `mcmId`
      already the number `id`. */
  function Candidates(row: SetsRow, id: real): (r: seq<KeySource>)
    ensures |r| == 7
  {
    [Text(Some(row.code)), Text(row.codeV3), Text(row.id), Id(id),
     Text(row.mcmName), Text(row.mtgoCode), Text(row.name)]
  }

  /** `.filter((v) => !!v).map((v) => v.toString())` */
  function PresentKeys(rt: Runtime, ks: seq<KeySource>): (r: seq<string>)
    ensures |r| <= |ks|
  {
    if ks == [] then []
    else (if KeyTruthy(ks[0]) then [KeyString(rt, ks[0])] else []) + PresentKeys(rt, ks[1..])
  }

  /** A string survives the filter exactly when some truthy candidate prints as it. */
  lemma {:induction false} PresentKeysMembership(rt: Runtime, ks: seq<KeySource>, s: string)
    ensures s in PresentKeys(rt, ks) <==>
      exists k :: 0 <= k < |ks| && KeyTruthy(ks[k]) && s == KeyString(rt, ks[k])
  {
    if ks != [] {
      PresentKeysMembership(rt, ks[1..], s);
      if exists k :: 1 <= k < |ks| && KeyTruthy(ks[k]) && s == KeyString(rt, ks[k]) {
        var k :| 1 <= k < |ks| && KeyTruthy(ks[k]) && s == KeyString(rt, ks[k]);
        assert ks[1..][k - 1] == ks[k];
      }
      if s in PresentKeys(rt, ks[1..]) {
        var k :| 0 <= k < |ks[1..]| && KeyTruthy(ks[1..][k]) && s == KeyString(rt, ks[1..][k]);
        assert ks[k + 1] == ks[1..][k];
      }
    }
  }

  /** The filter keeps the candidates' order: it distributes over concatenation. */
  lemma {:induction false} PresentKeysAppend(rt: Runtime, xs: seq<KeySource>, ys: seq<KeySource>)
    ensures PresentKeys(rt, xs + ys) == PresentKeys(rt, xs) + PresentKeys(rt, ys)
  {
    if xs == [] {
      assert xs + ys == ys;
    } else {
      assert (xs + ys)[0] == xs[0];
      assert (xs + ys)[1..] == xs[1..] + ys;
      PresentKeysAppend(rt, xs[1..], ys);
    }
  }

  /** The match keys of a sets row: its truthy identifiers, stringified, in
      column order. */
  function MatchKeys(rt: Runtime, row: SetsRow, id: real): (r: seq<string>)
    ensures |r| <= 7
    ensures row.code != "" ==> |r| >= 1 && r[0] == row.code
  {
    PresentKeys(rt, Candidates(row, id))
  }

  /** A string is a key exactly when it is one of the present, non-empty
      text cells or the printed id, and the id only when it is non-zero. */
  lemma MatchKeysMembership(rt: Runtime, row: SetsRow, id: real, s: string)
    ensures s in MatchKeys(rt, row, id) <==>
      || (row.code != "" && s == row.code)
      || (StrTruthy(row.codeV3) && s == row.codeV3.value)
      || (StrTruthy(row.id) && s == row.id.value)
      || (id != 0.0 && s == rt.show(Finite(id)))
      || (StrTruthy(row.mcmName) && s == row.mcmName.value)
      || (StrTruthy(row.mtgoCode) && s == row.mtgoCode.value)
      || (StrTruthy(row.name) && s == row.name.value)
  {
    var c := Candidates(row, id);
    PresentKeysMembership(rt, c, s);
    assert c[0] == Text(Some(row.code)) && c[1] == Text(row.codeV3) && c[2] == Text(row.id);
    assert c[3] == Id(id) && c[4] == Text(row.mcmName) && c[5] == Text(row.mtgoCode) && c[6] == Text(row.name);
  }

  /** With number printing that never prints a non-zero number as "" or "0",
      no key is empty. */
  lemma MatchKeysNonEmpty(rt: Runtime, row: SetsRow, id: real)
    requires PrintsNonZero(rt)
    ensures forall k :: 0 <= k < |MatchKeys(rt, row, id)| ==> MatchKeys(rt, row, id)[k] != ""
  {
    forall k | 0 <= k < |MatchKeys(rt, row, id)|
      ensures MatchKeys(rt, row, id)[k] != ""
    {
      MatchKeysMembership(rt, row, id, MatchKeys(rt, row, id)[k]);
      assert NumTruthy(Finite(id)) <==> id != 0.0;
    }
  }

  function Entry(rt: Runtime, row: SetsRow): SetEntry
    requires Retained(rt, row)
  {
    var id := McmNumber(rt, row).value;
    SetEntry(MatchKeys(rt, row, id), row.code, id)
  }

  /** How many rows carry a finite marketplace id. */
  function CountRetained(rt: Runtime, rows: seq<SetsRow>): nat {
    if rows == [] then 0
    else (if Retained(rt, rows[0]) then 1 else 0) + CountRetained(rt, rows[1..])
  }

  /** The table: one entry per retained row, in row order. */
  function BuildSetTable(rt: Runtime, rows: seq<SetsRow>): (r: seq<SetEntry>)
    ensures |r| == CountRetained(rt, rows) <= |rows|
    ensures forall i :: 0 <= i < |r| ==> |r[i].matchKeys| <= 7
  {
    if rows == [] then []
    else
      var head := if Retained(rt, rows[0]) then [Entry(rt, rows[0])] else [];
      head + BuildSetTable(rt, rows[1..])
  }

  /** Every entry comes from a row with a finite `mcmId`, carries that row's
      code and coerced id, and holds only non-empty keys. */
  lemma {:induction false} TableEntriesWellFormed(rt: Runtime, rows: seq<SetsRow>)
    requires PrintsNonZero(rt)
    ensures forall e :: e in BuildSetTable(rt, rows) ==>
      && (exists j :: 0 <= j < |rows| && Retained(rt, rows[j]) && e == Entry(rt, rows[j]))
      && (forall k :: 0 <= k < |e.matchKeys| ==> e.matchKeys[k] != "")
  {
    if rows != [] {
      TableEntriesWellFormed(rt, rows[1..]);
      forall e | e in BuildSetTable(rt, rows)
        ensures exists j :: 0 <= j < |rows| && Retained(rt, rows[j]) && e == Entry(rt, rows[j])
        ensures forall k :: 0 <= k < |e.matchKeys| ==> e.matchKeys[k] != ""
      {
        if e !in BuildSetTable(rt, rows[1..]) {
          assert Retained(rt, rows[0]) && e == Entry(rt, rows[0]);
          MatchKeysNonEmpty(rt, rows[0], e.cardmarketId);
        } else {
          var j :| 0 <= j < |rows[1..]| && Retained(rt, rows[1..][j]) && e == Entry(rt, rows[1..][j]);
          assert rows[j + 1] == rows[1..][j];
        }
      }
    }
  }

  /** Rows are processed independently and in order. */
  lemma {:induction false} TableInRowOrder(rt: Runtime, xs: seq<SetsRow>, ys: seq<SetsRow>)
    ensures BuildSetTable(rt, xs + ys) == BuildSetTable(rt, xs) + BuildSetTable(rt, ys)
  {
    if xs == [] {
      assert xs + ys == ys;
    } else {
      assert (xs + ys)[0] == xs[0];
      assert (xs + ys)[1..] == xs[1..] + ys;
      TableInRowOrder(rt, xs[1..], ys);
    }
  }

  /** A single row yields an entry exactly when its `mcmId` is finite, and the
      entry's id and code are the row's; an `mcmId` of 0 is kept but is not a key. */
  lemma SingleRowEntry(rt: Runtime, row: SetsRow)
    ensures BuildSetTable(rt, [row]) == if Retained(rt, row) then [Entry(rt, row)] else []
    ensures Retained(rt, row) ==>
      var e := Entry(rt, row);
      && McmNumber(rt, row) == Finite(e.cardmarketId)
      && e.code == row.code
      && (e.cardmarketId == 0.0 ==> |e.matchKeys| <= 6)
  {
    assert [row][1..] == [];
    if Retained(rt, row) && McmNumber(rt, row).value == 0.0 {
      var c := Candidates(row, 0.0);
      assert c == c[..3] + [c[3]] + c[4..];
      PresentKeysAppend(rt, c[..3] + [c[3]], c[4..]);
      PresentKeysAppend(rt, c[..3], [c[3]]);
    }
  }

  /** An empty `mcmId` cell coerces to 0 under JavaScript's `Number("")`, so the
      row is kept with edition id 0 instead of being dropped as id-less. */
  lemma EmptyMcmIdIsKept(rt: Runtime, row: SetsRow)
    requires rt.number("") == Finite(0.0)
    requires row.mcmId == Some("")
    ensures Retained(rt, row)
    ensures Entry(rt, row).cardmarketId == 0.0
  {
  }

  datatype SetMatch = SetMatch(code: string, cardmarketId: real)

  /** Some key of the entry normalises to the same text as `s`. */
  predicate HasKey(rt: Runtime, e: SetEntry, s: string) {
    exists k :: 0 <= k < |e.matchKeys| && Compare(rt, e.matchKeys[k], s)
  }

  /** `matchSetToCardmarketId(set)`: the code and edition id of the first entry
      holding a key equal to `set` up to normalisation, else null. */
  function MatchSet(rt: Runtime, table: seq<SetEntry>, s: string): (r: Option<SetMatch>)
    ensures r.None? <==> forall i :: 0 <= i < |table| ==> !HasKey(rt, table[i], s)
    ensures r.Some? ==>
      exists i :: 0 <= i < |table| && HasKey(rt, table[i], s)
        && r.value == SetMatch(table[i].code, table[i].cardmarketId)
        && forall j :: 0 <= j < i ==> !HasKey(rt, table[j], s)
  {
    if table == [] then None
    else if HasKey(rt, table[0], s) then Some(SetMatch(table[0].code, table[0].cardmarketId))
    else
      assert forall j :: 1 <= j < |table| ==> table[j] == table[1..][j - 1];
      MatchSet(rt, table[1..], s)
  }
}
