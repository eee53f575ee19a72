/** Choosing the game manager from the page's path, and the contract every
    manager's fill keeps. */
module Managers {
  import opened Js
  import opened Page
  import opened Rows
  import opened Fill
  import GenericManager
  import MtgManager

  datatype Manager = Generic | Mtg

  /** The one path served by the Magic manager: the English Magic
      bulk-listing page, `/en/Magic/Stock/ListingMethods/BulkListing`. */
  const BulkListingRest: string := "/Magic/Stock/ListingMethods/BulkListing"
  const MtgBulkListingPath: string := "/" + "en" + BulkListingRest

  /** `getCurrentManager()` on `window.location.pathname`. */
  function CurrentManager(path: string): (m: Manager)
    ensures m == Mtg <==> path == MtgBulkListingPath
    ensures m == Generic <==> path != MtgBulkListingPath
  {
    if path == MtgBulkListingPath then Mtg else Generic
  }

  /** Two paths that differ only in their first segment differ. */
  lemma SegmentDecides(a: string, b: string, rest: string)
    requires a != b
    ensures "/" + a + rest != "/" + b + rest
  {
    if |a| == |b| {
      var i :| 0 <= i < |a| && a[i] != b[i];
      assert ("/" + a + rest)[i + 1] == a[i];
      assert ("/" + b + rest)[i + 1] == b[i];
    }
  }

  /** The match is on the whole path, so the Magic bulk-listing page in any
      other interface language is served by the generic manager. */
  lemma OtherLocalesGetGeneric(locale: string)
    requires locale != "en"
    ensures CurrentManager("/" + locale + BulkListingRest) == Generic
  {
    SegmentDecides(locale, "en", BulkListingRest);
  }

  /** The chosen manager's `fillPage`. */
  function FillPage(m: Manager, rt: Runtime, page: seq<Row>, rows: seq<ParsedRow>): (r: Progress)
    ensures |r.groups| == |page|
    ensures r.count == |Matched(rt, Names(page), rows)| <= |rows|
    ensures forall i :: 0 <= i < |page| && HoldsQuantity(page[i]) ==> r.groups[i].original == page[i]
  {
    match m
    case Generic => GenericManager.FillPage(rt, page, rows)
    case Mtg => MtgManager.FillPage(rt, page, rows)
  }

  /** Whichever manager fills, the count it resolves to is the number of rows
      successfully filled: each matched row adds exactly one, and rows whose
      name is not on the page can be left out without changing anything. */
  lemma FillCountsFilledRows(m: Manager, rt: Runtime, page: seq<Row>, rows: seq<ParsedRow>)
    ensures FillPage(m, rt, page, rows) == FillPage(m, rt, page, Matched(rt, Names(page), rows))
    ensures FillPage(m, rt, page, rows).count == |Matched(rt, Names(page), rows)|
  {
    var rules := if m == Generic then GenericManager.GenericRules else MtgManager.MtgRules;
    UnmatchedRowsChangeNothing(rt, Names(page), Progress(Open(page), 0), rows, rules);
  }
}
