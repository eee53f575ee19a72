/** The bulk-listing form as the filler sees it, and the per-row write
    protocol with its row duplication.

    The page is the snapshot of listing rows taken before a fill, each with the
    copies the page's copy button has since inserted in front of it. Only rows
    of the snapshot are ever looked up, and every copy is inserted immediately
    before the snapshot row it was made from, so grouping each snapshot row with
    its copies loses nothing of the document order (`Flatten` recovers it). */
module Page {
  import opened Js

  /** The values an input control resets to (`defaultValue`, `defaultChecked`). */
  datatype Defaults = Defaults(quantity: string, price: string, foil: bool)

  /** One editable listing row: its product name, the current text of the
      quantity and price inputs and the state of the foil checkbox. */
  datatype Row = Row(name: string, quantity: string, price: string, foil: bool, defaults: Defaults)

  /** A snapshot row and the copies inserted in front of it, oldest first. */
  datatype Group = Group(clones: seq<Row>, original: Row)

  /** The rows in document order. */
  function Flatten(groups: seq<Group>): (r: seq<Row>)
    ensures |groups| > 0 ==> |r| > 0
  {
    if groups == [] then []
    else groups[0].clones + [groups[0].original] + Flatten(groups[1..])
  }

  /** The page before any fill: every row on its own. */
  function Open(page: seq<Row>): (r: seq<Group>)
    ensures |r| == |page|
    ensures forall i :: 0 <= i < |r| ==> r[i].clones == [] && r[i].original == page[i]
  {
    seq(|page|, i requires 0 <= i < |page| => Group([], page[i]))
  }

  /** The product names of the snapshot (`getWebsiteRows()` read before the loop). */
  function Names(page: seq<Row>): (r: seq<string>)
    ensures |r| == |page|
    ensures forall i :: 0 <= i < |r| ==> r[i] == page[i].name
  {
    seq(|page|, i requires 0 <= i < |page| => page[i].name)
  }

  lemma {:induction false} FlattenOpen(page: seq<Row>)
    ensures Flatten(Open(page)) == page
  {
    if page != [] {
      assert Open(page)[1..] == Open(page[1..]);
      FlattenOpen(page[1..]);
    }
  }

  lemma {:induction false} FlattenAppend(xs: seq<Group>, ys: seq<Group>)
    ensures Flatten(xs + ys) == Flatten(xs) + Flatten(ys)
  {
    if xs == [] {
      assert xs + ys == ys;
    } else {
      assert (xs + ys)[0] == xs[0];
      assert (xs + ys)[1..] == xs[1..] + ys;
      FlattenAppend(xs[1..], ys);
    }
  }

  /** Document position of snapshot row `k`. */
  function Position(groups: seq<Group>, k: nat): nat
    requires k < |groups|
  {
    |Flatten(groups[..k])| + |groups[k].clones|
  }

  lemma PositionHoldsOriginal(groups: seq<Group>, k: nat)
    requires k < |groups|
    ensures Position(groups, k) < |Flatten(groups)|
    ensures Flatten(groups)[Position(groups, k)] == groups[k].original
  {
    assert groups == groups[..k] + groups[k..];
    FlattenAppend(groups[..k], groups[k..]);
    assert groups[k..][0] == groups[k];
  }

  /** The quantity input already holds a value (`value && value !== '0'`). */
  predicate HoldsQuantity(r: Row) {
    r.quantity != "" && r.quantity != "0"
  }

  datatype FoilAction = LeaveFoil | CheckFoil | ClickFoil

  /** What one CSV row writes: `None` leaves an input as it is. */
  datatype Write = Write(quantity: Option<string>, price: Option<string>, foil: FoilAction)

  /** What happens to a fresh copy before the writes. */
  datatype Reset = KeepCopiedValues | ResetQuantityPrice | ResetAll

  function ApplyWrite(r: Row, w: Write): (r': Row)
    ensures r'.name == r.name && r'.defaults == r.defaults
    ensures w.quantity.None? ==> r'.quantity == r.quantity
    ensures w.quantity.Some? ==> r'.quantity == w.quantity.value
    ensures w.price.None? ==> r'.price == r.price
    ensures w.price.Some? ==> r'.price == w.price.value
    ensures w.foil == LeaveFoil ==> r'.foil == r.foil
    ensures w.foil == CheckFoil ==> r'.foil
    ensures w.foil == ClickFoil ==> r'.foil == !r.foil
  {
    var q := if w.quantity.Some? then w.quantity.value else r.quantity;
    var p := if w.price.Some? then w.price.value else r.price;
    var f := match w.foil
      case LeaveFoil => r.foil
      case CheckFoil => true
      case ClickFoil => !r.foil;
    Row(r.name, q, p, f, r.defaults)
  }

  /** The copy's controls set back to their defaults, as far as `reset` goes. */
  function ResetCopy(r: Row, reset: Reset): (r': Row)
    ensures r'.name == r.name && r'.defaults == r.defaults
    ensures reset != KeepCopiedValues ==>
      r'.quantity == r.defaults.quantity && r'.price == r.defaults.price
    ensures reset == ResetAll ==> r'.foil == r.defaults.foil
    ensures reset != ResetAll ==> r'.foil == r.foil
    ensures reset == KeepCopiedValues ==> r' == r
  {
    match reset
    case KeepCopiedValues => r
    case ResetQuantityPrice => Row(r.name, r.defaults.quantity, r.defaults.price, r.foil, r.defaults)
    case ResetAll => Row(r.name, r.defaults.quantity, r.defaults.price, r.defaults.foil, r.defaults)
  }

  datatype Filled = Filled(group: Group, onCopy: bool)

  /** The row the writes went to: the new copy, or the snapshot row itself. */
  function Resolved(f: Filled): Row {
    if f.onCopy && |f.group.clones| > 0 then f.group.clones[|f.group.clones| - 1]
    else f.group.original
  }

  /** Filling one snapshot row. A row whose quantity input already holds a
      value is left alone: the copy button inserts a copy of it immediately in
      front, and the (reset) copy receives the writes instead. */
  function FillRow(g: Group, reset: Reset, w: Write): (r: Filled)
    ensures r.onCopy <==> HoldsQuantity(g.original)
    ensures r.onCopy ==>
      && r.group.original == g.original
      && |r.group.clones| == |g.clones| + 1
      && r.group.clones[..|g.clones|] == g.clones
      && Resolved(r) == ApplyWrite(ResetCopy(g.original, reset), w)
    ensures !r.onCopy ==>
      && r.group.clones == g.clones
      && r.group.original == ApplyWrite(g.original, w)
  {
    if HoldsQuantity(g.original) then
      var copy := ApplyWrite(ResetCopy(g.original, reset), w);
      assert (g.clones + [copy])[..|g.clones|] == g.clones;
      Filled(Group(g.clones + [copy], g.original), true)
    else
      Filled(Group(g.clones, ApplyWrite(g.original, w)), false)
  }

  /** What any fill may do to one group: the snapshot row keeps its name and,
      when it already held a quantity, everything else; copies are only
      ever appended. */
  predicate Extends(a: Group, b: Group) {
    && b.original.name == a.original.name
    && (HoldsQuantity(a.original) ==> b.original == a.original)
    && |a.clones| <= |b.clones|
    && b.clones[..|a.clones|] == a.clones
  }

  lemma ExtendsTransitive(a: Group, b: Group, c: Group)
    requires Extends(a, b) && Extends(b, c)
    ensures Extends(a, c)
  {
    assert c.clones[..|a.clones|] == c.clones[..|b.clones|][..|a.clones|];
  }

  /** Filling a row, whatever the reset and the writes, only extends its group. */
  lemma FillRowExtends(g: Group, reset: Reset, w: Write)
    ensures Extends(g, FillRow(g, reset, w).group)
  {
  }

  /** Flattening around one group. */
  lemma FlattenAround(pre: seq<Group>, g: Group, post: seq<Group>)
    ensures Flatten(pre + [g] + post) == Flatten(pre) + g.clones + [g.original] + Flatten(post)
  {
    FlattenAppend(pre + [g], post);
    FlattenAppend(pre, [g]);
    assert [g][1..] == [];
  }

  /** `after` is `before` with `x` inserted at position `p`. */
  predicate InsertedAt(before: seq<Row>, after: seq<Row>, p: nat, x: Row) {
    p <= |before| && after == before[..p] + [x] + before[p..]
  }

  /** Growing group `k` by one trailing copy inserts that copy into the
      document just before the group's snapshot row. */
  lemma AppendCloneInserts(groups: seq<Group>, k: nat, g': Group, c: Row)
    requires k < |groups|
    requires g'.clones == groups[k].clones + [c] && g'.original == groups[k].original
    ensures InsertedAt(Flatten(groups), Flatten(groups[k := g']), Position(groups, k), c)
  {
    var g := groups[k];
    var pre, post := groups[..k], groups[k + 1..];
    assert Flatten(groups) == Flatten(pre) + g.clones + [g.original] + Flatten(post) by {
      assert groups == pre + [g] + post;
      FlattenAround(pre, g, post);
    }
    assert Flatten(groups[k := g']) == Flatten(pre) + (g.clones + [c]) + [g.original] + Flatten(post) by {
      assert groups[k := g'] == pre + [g'] + post;
      FlattenAround(pre, g', post);
    }
    assert Position(groups, k) == |Flatten(pre) + g.clones|;
    InsertBefore(Flatten(pre), g.clones, c, g.original, Flatten(post));
  }

  /** In document terms a duplication inserts exactly one row, the written
      copy, immediately before the snapshot row it copies, and leaves every
      other row in place. */
  lemma CopyInsertedBeforeTarget(groups: seq<Group>, k: nat, reset: Reset, w: Write)
    requires k < |groups|
    requires HoldsQuantity(groups[k].original)
    ensures InsertedAt(Flatten(groups), Flatten(groups[k := FillRow(groups[k], reset, w).group]),
                       Position(groups, k), Resolved(FillRow(groups[k], reset, w)))
  {
    var f := FillRow(groups[k], reset, w);
    AppendCloneInserts(groups, k, f.group, Resolved(f));
  }

  lemma InsertBefore(a: seq<Row>, b: seq<Row>, c: Row, o: Row, d: seq<Row>)
    ensures InsertedAt(a + b + [o] + d, a + (b + [c]) + [o] + d, |a + b|, c)
  {
    var whole := a + b + [o] + d;
    var p := |a + b|;
    assert whole[..p] == a + b;
    assert whole[p..] == [o] + d;
  }
}
