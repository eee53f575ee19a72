/** The oldest filler (`injected-button.content/components/utils.ts`): it
    reads the raw records itself, takes the page of 100 records the user chose,
    and for each record writes quantity, foil and price into the page, clicking
    the foil box rather than setting it and writing into an unreset copy when
    the row already holds a quantity. It reports one result per record filled.

    Its string comparison has no guard against `undefined`; when no foil
    column is chosen the foil test reads a missing cell and throws, which this
    module models as a rejected fill (`FillBatchAsWritten`). `FillBatch` is the
    evidently intended behaviour, where a missing cell is simply not foil. */
module BatchFill {
  import opened Js
  import opened Strings
  import opened Page
  import opened Pagination
  import Rows

  /** `BATCH_SIZE`: the marketplace takes at most 100 articles at a time. */
  const BatchSize: nat := 100

  /** The chosen columns; an unchosen optional column is passed as ''. */
  datatype Columns = Columns(name: string, quantity: string, foil: string, price: string)

  /** `Result`: what was written for one record. */
  datatype Result = Result(name: string, quantity: Num, isFoil: bool, price: Num)

  /** The page so far and the results pushed so far. */
  datatype Batch = Batch(groups: seq<Group>, results: seq<Result>)

  /** A finished fill, or a fill whose promise rejected, with the page as the
      exception left it. */
  datatype Outcome = Completed(batch: Batch) | Rejected(groups: seq<Group>)

  /** `compareNormalized(el.textContent, name)` with the unguarded helpers. */
  function FindStrict(rt: Runtime, names: seq<string>, name: string): (r: Option<nat>)
    ensures r.Some? ==> r.value < |names| && CompareStrict(rt, names[r.value], name)
    ensures r.Some? ==> forall j :: 0 <= j < r.value ==> !CompareStrict(rt, names[j], name)
    ensures r.None? <==> forall j :: 0 <= j < |names| ==> !CompareStrict(rt, names[j], name)
  {
    if names == [] then None
    else if CompareStrict(rt, names[0], name) then Some(0)
    else match FindStrict(rt, names[1..], name)
      case Some(i) =>
        assert forall j :: 1 <= j < i + 1 ==> names[j] == names[1..][j - 1];
        Some(i + 1)
      case None =>
        assert forall j :: 1 <= j < |names| ==> names[j] == names[1..][j - 1];
        None
  }

  /** The foil keywords compared to a defined cell. */
  predicate FoilText(rt: Runtime, s: string) {
    exists k :: 0 <= k < |Rows.FoilValues| && CompareStrict(rt, Rows.FoilValues[k], s)
  }

  /** `Number(row[col]) || 0`; a missing cell gives 0. */
  function CellValue(rt: Runtime, rec: Record, column: string): (r: Num)
    ensures NumTruthy(r) ==> r == CellNumber(rt, rec, column)
    ensures !NumTruthy(r) ==> r == Finite(0.0)
    ensures column !in rec ==> r == Finite(0.0)
  {
    OrZero(CellNumber(rt, rec, column))
  }

  /** A record takes part when its name cell is non-empty and some page row
      carries that name. */
  predicate Takes(rt: Runtime, names: seq<string>, rec: Record, cols: Columns) {
    cols.name in rec && rec[cols.name] != "" && FindStrict(rt, names, rec[cols.name]).Some?
  }

  /** The records that take part, in order. */
  function Taking(rt: Runtime, names: seq<string>, recs: seq<Record>, cols: Columns): (r: seq<Record>)
    ensures |r| <= |recs|
    ensures forall i :: 0 <= i < |r| ==> Takes(rt, names, r[i], cols)
  {
    if recs == [] then []
    else if Takes(rt, names, recs[0], cols) then [recs[0]] + Taking(rt, names, recs[1..], cols)
    else Taking(rt, names, recs[1..], cols)
  }

  /** A record is kept exactly when it is one of the records and takes part. */
  lemma {:induction false} TakingMembership(rt: Runtime, names: seq<string>, recs: seq<Record>, cols: Columns, x: Record)
    ensures x in Taking(rt, names, recs, cols) <==> x in recs && Takes(rt, names, x, cols)
  {
    if recs != [] {
      TakingMembership(rt, names, recs[1..], cols, x);
      assert recs == [recs[0]] + recs[1..];
    }
  }

  /** The records kept keep their relative order. */
  lemma {:induction false} TakingAppend(rt: Runtime, names: seq<string>, xs: seq<Record>, ys: seq<Record>, cols: Columns)
    ensures Taking(rt, names, xs + ys, cols) == Taking(rt, names, xs, cols) + Taking(rt, names, ys, cols)
  {
    if xs == [] {
      assert xs + ys == ys;
    } else {
      assert (xs + ys)[0] == xs[0];
      assert (xs + ys)[1..] == xs[1..] + ys;
      TakingAppend(rt, names, xs[1..], ys, cols);
    }
  }

  /** The writes for a record whose foil test gave `isFoil`: the box is
      clicked, so a checked box would be unchecked. */
  function RecordWrite(rt: Runtime, rec: Record, cols: Columns, isFoil: bool): (w: Write)
    ensures w.quantity.Some? <==> NumTruthy(CellValue(rt, rec, cols.quantity))
    ensures w.quantity.Some? ==> w.quantity.value == rt.show(CellValue(rt, rec, cols.quantity))
    ensures w.price.Some? <==> NumTruthy(CellValue(rt, rec, cols.price))
    ensures w.price.Some? ==> w.price.value == rt.fixed2(CellValue(rt, rec, cols.price))
    ensures w.foil == (if isFoil then ClickFoil else LeaveFoil)
  {
    var q := CellValue(rt, rec, cols.quantity);
    var p := CellValue(rt, rec, cols.price);
    Write(if NumTruthy(q) then Some(rt.show(q)) else None,
          if NumTruthy(p) then Some(rt.fixed2(p)) else None,
          if isFoil then ClickFoil else LeaveFoil)
  }

  // ---------------------------------------------------------------------
  // As written

  /** The foil test as written: `None` stands for the TypeError thrown when
      the cell is missing and the unguarded normalisation reads `undefined`. */
  function FoilTestAsWritten(rt: Runtime, rec: Record, column: string): (r: Option<bool>)
    ensures r.None? <==> column !in rec
    ensures r.Some? ==> (r.value <==> FoilText(rt, rec[column]))
  {
    match Cell(rec, column)
    case None => None
    case Some(s) => Some(FoilText(rt, s))
  }

  /** One record as written. The copy and the quantity write happen before
      the foil test, so a throw leaves them on the page. */
  function StepAsWritten(rt: Runtime, names: seq<string>, b: Batch, rec: Record, cols: Columns): (r: Outcome)
    requires |b.groups| == |names|
    ensures r.Completed? ==> |r.batch.groups| == |names|
    ensures !Takes(rt, names, rec, cols) ==> r == Completed(b)
    ensures r.Rejected? <==> Takes(rt, names, rec, cols) && cols.foil !in rec
    ensures r.Completed? ==> r.batch == Step(rt, names, b, rec, cols)
  {
    if !Takes(rt, names, rec, cols) then Completed(b)
    else
      var name := rec[cols.name];
      var k := FindStrict(rt, names, name).value;
      match FoilTestAsWritten(rt, rec, cols.foil)
      case None =>
        var quantityOnly := RecordWrite(rt, rec, cols, false).(price := None);
        Rejected(b.groups[k := FillRow(b.groups[k], KeepCopiedValues, quantityOnly).group])
      case Some(isFoil) =>
        var g := FillRow(b.groups[k], KeepCopiedValues, RecordWrite(rt, rec, cols, isFoil)).group;
        var res := Result(name, CellValue(rt, rec, cols.quantity), isFoil, CellValue(rt, rec, cols.price));
        Completed(Batch(b.groups[k := g], b.results + [res]))
  }

  /** The `forEach` as written: an exception ends the loop and rejects the fill. */
  function FillFromAsWritten(rt: Runtime, names: seq<string>, b: Batch, recs: seq<Record>, cols: Columns): (r: Outcome)
    requires |b.groups| == |names|
    decreases |recs|
  {
    if recs == [] then Completed(b)
    else match StepAsWritten(rt, names, b, recs[0], cols)
      case Rejected(gs) => Rejected(gs)
      case Completed(next) => FillFromAsWritten(rt, names, next, recs[1..], cols)
  }

  /** `fillPage(file, columns, batch)` as written, on the file's records. */
  function FillBatchAsWritten(rt: Runtime, page: seq<Row>, records: seq<Record>, cols: Columns, batch: int): Outcome {
    FillFromAsWritten(rt, Names(page), Batch(Open(page), []), GetPage(records, BatchSize, batch), cols)
  }

  /** As written, a record that takes part but has no foil cell rejects the
      whole fill, whatever came before it; so with no foil column chosen
      (`''`, a header no record carries) every batch that fills anything rejects. */
  lemma {:induction false} UnmappedFoilColumnRejects(rt: Runtime, names: seq<string>, b: Batch, recs: seq<Record>, cols: Columns)
    requires |b.groups| == |names|
    requires forall i :: 0 <= i < |recs| ==> cols.foil !in recs[i]
    requires exists i :: 0 <= i < |recs| && Takes(rt, names, recs[i], cols)
    ensures FillFromAsWritten(rt, names, b, recs, cols).Rejected?
    decreases |recs|
  {
    if !Takes(rt, names, recs[0], cols) {
      var i :| 0 <= i < |recs| && Takes(rt, names, recs[i], cols);
      assert recs[1..][i - 1] == recs[i];
      UnmappedFoilColumnRejects(rt, names, b, recs[1..], cols);
    }
  }

  /** A concrete instance: one page row "Island", one record naming it, and
      no foil column chosen. */
  lemma UnmappedFoilColumnExample(rt: Runtime, row: Row)
    requires row.name == "Island"
    ensures var rec := map["Name" := "Island", "Qty" := "2"];
      FillBatchAsWritten(rt, [row], [rec], Columns("Name", "Qty", "", ""), 1).Rejected?
  {
    var rec := map["Name" := "Island", "Qty" := "2"];
    var cols := Columns("Name", "Qty", "", "");
    assert GetPage([rec], BatchSize, 1) == [rec] by {
      assert PageStart(BatchSize, 1) == 0;
      assert [rec][0..1] == [rec];
    }
    assert Takes(rt, Names([row]), rec, cols) by {
      assert Names([row])[0] == "Island";
      assert CompareStrict(rt, Names([row])[0], rec["Name"]);
    }
    assert [rec][0] == rec;
    UnmappedFoilColumnRejects(rt, Names([row]), Batch(Open([row]), []), [rec], cols);
  }

  /** A rejected step leaves its partial writes on the page: the row, or the
      unreset copy inserted before it when the row already held a quantity,
      has received the quantity, while its price and foil box are untouched. */
  lemma RejectionLeavesPartialWrites(rt: Runtime, names: seq<string>, b: Batch, rec: Record, cols: Columns)
    requires |b.groups| == |names|
    requires Takes(rt, names, rec, cols) && cols.foil !in rec
    ensures var k := FindStrict(rt, names, rec[cols.name]).value;
      var o := b.groups[k].original;
      var q := CellValue(rt, rec, cols.quantity);
      var written := o.(quantity := if NumTruthy(q) then rt.show(q) else o.quantity);
      var gs := StepAsWritten(rt, names, b, rec, cols).groups;
      && |gs| == |names|
      && (forall i :: 0 <= i < |names| && i != k ==> gs[i] == b.groups[i])
      && (HoldsQuantity(o) ==> gs[k] == Group(b.groups[k].clones + [written], o))
      && (!HoldsQuantity(o) ==> gs[k] == Group(b.groups[k].clones, written))
  {
    var k := FindStrict(rt, names, rec[cols.name]).value;
    var w := RecordWrite(rt, rec, cols, false).(price := None);
    var f := FillRow(b.groups[k], KeepCopiedValues, w);
    if HoldsQuantity(b.groups[k].original) {
      assert f.group.clones == f.group.clones[..|b.groups[k].clones|] + [Resolved(f)];
    }
  }

  // ---------------------------------------------------------------------
  // Corrected

  /** The intended foil test: a missing cell is not foil. */
  predicate FoilTest(rt: Runtime, rec: Record, column: string) {
    column in rec && FoilText(rt, rec[column])
  }

  /** The result pushed for a record that takes part. */
  function ResultOf(rt: Runtime, rec: Record, cols: Columns): Result {
    Result(CellText(rec, cols.name), CellValue(rt, rec, cols.quantity), FoilTest(rt, rec, cols.foil), CellValue(rt, rec, cols.price))
  }

  function ResultsOf(rt: Runtime, recs: seq<Record>, cols: Columns): (r: seq<Result>)
    ensures |r| == |recs|
    ensures forall i :: 0 <= i < |r| ==> r[i] == ResultOf(rt, recs[i], cols)
  {
    seq(|recs|, i requires 0 <= i < |recs| => ResultOf(rt, recs[i], cols))
  }

  function Step(rt: Runtime, names: seq<string>, b: Batch, rec: Record, cols: Columns): (r: Batch)
    requires |b.groups| == |names|
    ensures |r.groups| == |names|
    ensures Takes(rt, names, rec, cols) ==> r.results == b.results + [ResultOf(rt, rec, cols)]
    ensures !Takes(rt, names, rec, cols) ==> r == b
    ensures Takes(rt, names, rec, cols) ==>
      var k := FindStrict(rt, names, rec[cols.name]).value;
      r.groups == b.groups[k := FillRow(b.groups[k], KeepCopiedValues,
                                        RecordWrite(rt, rec, cols, FoilTest(rt, rec, cols.foil))).group]
    ensures forall i :: 0 <= i < |names| ==> r.groups[i].original.name == b.groups[i].original.name
  {
    if !Takes(rt, names, rec, cols) then b
    else
      var k := FindStrict(rt, names, rec[cols.name]).value;
      var g := FillRow(b.groups[k], KeepCopiedValues, RecordWrite(rt, rec, cols, FoilTest(rt, rec, cols.foil))).group;
      Batch(b.groups[k := g], b.results + [ResultOf(rt, rec, cols)])
  }

  /** The results of the records that take part, record by record. */
  function TakenResults(rt: Runtime, names: seq<string>, recs: seq<Record>, cols: Columns): seq<Result> {
    if recs == [] then []
    else if Takes(rt, names, recs[0], cols) then [ResultOf(rt, recs[0], cols)] + TakenResults(rt, names, recs[1..], cols)
    else TakenResults(rt, names, recs[1..], cols)
  }

  /** Record by record, the results are those of the records that take part, in order. */
  lemma {:induction false} TakenResultsInOrder(rt: Runtime, names: seq<string>, recs: seq<Record>, cols: Columns)
    ensures TakenResults(rt, names, recs, cols) == ResultsOf(rt, Taking(rt, names, recs, cols), cols)
  {
    if recs != [] {
      TakenResultsInOrder(rt, names, recs[1..], cols);
      if Takes(rt, names, recs[0], cols) {
        ResultsOfCons(rt, recs[0], Taking(rt, names, recs[1..], cols), cols);
      }
    }
  }

  /** The loop: one result per record that takes part, in record order, and
      the page rows keep their names. */
  function FillFrom(rt: Runtime, names: seq<string>, b: Batch, recs: seq<Record>, cols: Columns): (r: Batch)
    requires |b.groups| == |names|
    ensures |r.groups| == |names|
    ensures r.results == b.results + TakenResults(rt, names, recs, cols)
    decreases |recs|
  {
    if recs == [] then b
    else
      var next := Step(rt, names, b, recs[0], cols);
      var r := FillFrom(rt, names, next, recs[1..], cols);
      assert r.results == b.results + TakenResults(rt, names, recs, cols) by {
        var rest := TakenResults(rt, names, recs[1..], cols);
        if Takes(rt, names, recs[0], cols) {
          assert r.results == (b.results + [ResultOf(rt, recs[0], cols)]) + rest;
          assert r.results == b.results + ([ResultOf(rt, recs[0], cols)] + rest);
        }
      }
      r
  }

  /** The loop keeps the page rows' names. */
  lemma {:induction false} FillFromKeepsNames(rt: Runtime, names: seq<string>, b: Batch, recs: seq<Record>, cols: Columns)
    requires |b.groups| == |names|
    ensures var r := FillFrom(rt, names, b, recs, cols);
      forall i :: 0 <= i < |names| ==> r.groups[i].original.name == b.groups[i].original.name
    decreases |recs|
  {
    if recs != [] {
      FillFromKeepsNames(rt, names, Step(rt, names, b, recs[0], cols), recs[1..], cols);
    }
  }

  /** The loop only extends the page: a row that already held a quantity is
      never written, and copies are only ever appended. */
  lemma {:induction false} FillFromExtends(rt: Runtime, names: seq<string>, b: Batch, recs: seq<Record>, cols: Columns)
    requires |b.groups| == |names|
    ensures var r := FillFrom(rt, names, b, recs, cols);
      forall i :: 0 <= i < |names| ==> Extends(b.groups[i], r.groups[i])
    decreases |recs|
  {
    if recs != [] {
      var next := Step(rt, names, b, recs[0], cols);
      var r := FillFrom(rt, names, b, recs, cols);
      FillFromExtends(rt, names, next, recs[1..], cols);
      forall i | 0 <= i < |names|
        ensures Extends(b.groups[i], r.groups[i])
      {
        if Takes(rt, names, recs[0], cols) && i == FindStrict(rt, names, recs[0][cols.name]).value {
          FillRowExtends(b.groups[i], KeepCopiedValues, RecordWrite(rt, recs[0], cols, FoilTest(rt, recs[0], cols.foil)));
        }
        ExtendsTransitive(b.groups[i], next.groups[i], r.groups[i]);
      }
    }
  }

  lemma ResultsOfCons(rt: Runtime, rec: Record, recs: seq<Record>, cols: Columns)
    ensures ResultsOf(rt, [rec] + recs, cols) == [ResultOf(rt, rec, cols)] + ResultsOf(rt, recs, cols)
  {
  }

  /** `fillPage(file, columns, batch)` with the intended foil test: it always
      completes, with one result per record of batch `batch` that takes part,
      in record order, and never more than 100 of them. */
  function FillBatch(rt: Runtime, page: seq<Row>, records: seq<Record>, cols: Columns, batch: int): (r: Batch)
    ensures |r.groups| == |page|
    ensures r.results == ResultsOf(rt, Taking(rt, Names(page), GetPage(records, BatchSize, batch), cols), cols)
    ensures |r.results| <= BatchSize
    ensures forall i :: 0 <= i < |page| ==> r.groups[i].original.name == page[i].name
    ensures forall i :: 0 <= i < |page| && HoldsQuantity(page[i]) ==> r.groups[i].original == page[i]
  {
    FillFromKeepsNames(rt, Names(page), Batch(Open(page), []), GetPage(records, BatchSize, batch), cols);
    FillFromExtends(rt, Names(page), Batch(Open(page), []), GetPage(records, BatchSize, batch), cols);
    TakenResultsInOrder(rt, Names(page), GetPage(records, BatchSize, batch), cols);
    FillFrom(rt, Names(page), Batch(Open(page), []), GetPage(records, BatchSize, batch), cols)
  }

  /** The correction changes nothing when every record carries the foil
      column: the fill as written then completes with the same page and results. */
  lemma {:induction false} CorrectionAgreesWithFoilColumn(rt: Runtime, names: seq<string>, b: Batch, recs: seq<Record>, cols: Columns)
    requires |b.groups| == |names|
    requires forall i :: 0 <= i < |recs| ==> cols.foil in recs[i]
    ensures FillFromAsWritten(rt, names, b, recs, cols) == Completed(FillFrom(rt, names, b, recs, cols))
    decreases |recs|
  {
    if recs != [] {
      assert StepAsWritten(rt, names, b, recs[0], cols) == Completed(Step(rt, names, b, recs[0], cols));
      CorrectionAgreesWithFoilColumn(rt, names, Step(rt, names, b, recs[0], cols), recs[1..], cols);
    }
  }

  /** A foil record aimed at a filled row whose box is checked writes into a
      copy that keeps the checked box, and the click then unchecks it. */
  lemma ClickUnchecksCopiedFoil(rt: Runtime, names: seq<string>, b: Batch, rec: Record, cols: Columns)
    requires |b.groups| == |names|
    requires Takes(rt, names, rec, cols) && FoilTest(rt, rec, cols.foil)
    requires var k := FindStrict(rt, names, rec[cols.name]).value;
      HoldsQuantity(b.groups[k].original) && b.groups[k].original.foil
    ensures var k := FindStrict(rt, names, rec[cols.name]).value;
      var g := Step(rt, names, b, rec, cols).groups[k];
      |g.clones| > 0 && !g.clones[|g.clones| - 1].foil
  {
    var k := FindStrict(rt, names, rec[cols.name]).value;
    var f := FillRow(b.groups[k], KeepCopiedValues, RecordWrite(rt, rec, cols, true));
    assert Resolved(f) == f.group.clones[|f.group.clones| - 1];
  }
}
