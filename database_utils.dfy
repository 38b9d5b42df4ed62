/**
 * The gallery tables as the data helpers see them: the order values a reorder assigns, the
 * rows a fetch returns (filtered, ordered by display order, limited) and the records an
 * insert sends. A table is a sequence of rows; an update maps over it, a fetch filters, sorts
 * and takes.
 */
module DatabaseUtils {
  import opened Options

  type Id = string

  datatype MediaType = Image | Video

  /** A row of `gallery_images` (which has a media type) or of `home_gallery_images`. */
  datatype Row =
    | GalleryRow(id: Id, url: string, storagePath: string, mediaType: MediaType, alt: string,
                 displayOrder: int, createdAt: int, userId: Option<Id>)
    | HomeRow(id: Id, url: string, storagePath: string, alt: string,
              displayOrder: int, createdAt: int, userId: Option<Id>)

  /** The two tables the helpers read and write. */
  datatype Db = Db(galleryImages: seq<Row>, homeGalleryImages: seq<Row>)

  /** Each table holds rows of its own shape: gallery rows in one, home rows in the other. */
  predicate WellFormed(db: Db) {
    (forall r :: r in db.galleryImages ==> r.GalleryRow?) &&
    (forall r :: r in db.homeGalleryImages ==> r.HomeRow?)
  }

  /** The number of rows the home gallery fetch returns at most. */
  const HomeGalleryLimit: nat := 6

  function Min(a: nat, b: nat): (m: nat)
    ensures m <= a && m <= b && (m == a || m == b)
  {
    if a <= b then a else b
  }

  function RowIds(rows: seq<Row>): (ids: seq<Id>)
    ensures |ids| == |rows| && forall i :: 0 <= i < |rows| ==> ids[i] == rows[i].id
  {
    seq(|rows|, i requires 0 <= i < |rows| => rows[i].id)
  }

  /** Identifiers are unique within a table. */
  predicate DistinctRowIds(rows: seq<Row>) {
    Distinct(RowIds(rows))
  }

  predicate Distinct<T(==)>(s: seq<T>) {
    forall i, j :: 0 <= i < j < |s| ==> s[i] != s[j]
  }

  // ---------------------------------------------------------------------------
  // Fetch: filter, order by display_order desc then created_at desc, limit
  // ---------------------------------------------------------------------------

  /** `a` may come before `b`: a higher display order first, then the more recent row. */
  predicate Precedes(a: Row, b: Row) {
    a.displayOrder > b.displayOrder || (a.displayOrder == b.displayOrder && a.createdAt >= b.createdAt)
  }

  predicate Sorted(s: seq<Row>) {
    forall i, j :: 0 <= i < j < |s| ==> Precedes(s[i], s[j])
  }

  /** A row that may come before every row of a fetch-ordered sequence can be put in front of it. */
  lemma SortedCons(h: Row, t: seq<Row>)
    requires Sorted(t)
    requires forall y :: y in t ==> Precedes(h, y)
    ensures Sorted([h] + t)
  {
    forall i, j | 0 <= i < j < |[h] + t| ensures Precedes(([h] + t)[i], ([h] + t)[j]) {
      assert ([h] + t)[j] == t[j - 1];
      if i > 0 {
        assert ([h] + t)[i] == t[i - 1];
      } else {
        assert t[j - 1] in t;
      }
    }
  }

  function InsertSorted(x: Row, s: seq<Row>): (r: seq<Row>)
    requires Sorted(s)
    ensures Sorted(r) && multiset(r) == multiset(s) + multiset{x}
  {
    if s == [] then [x]
    else if Precedes(x, s[0]) then
      assert forall y :: y in s ==> Precedes(x, y) by {
        forall y | y in s ensures Precedes(x, y) {
          var j :| 0 <= j < |s| && s[j] == y;
          assert j == 0 || Precedes(s[0], s[j]);
        }
      }
      SortedCons(x, s);
      [x] + s
    else
      assert s == [s[0]] + s[1..];
      var rest := InsertSorted(x, s[1..]);
      assert forall y :: y in rest ==> Precedes(s[0], y) by {
        forall y | y in rest ensures Precedes(s[0], y) {
          assert y in multiset(rest);
          if y != x {
            assert y in multiset(s[1..]);
            var j :| 0 <= j < |s[1..]| && s[1..][j] == y;
            assert s[j + 1] == y;
          }
        }
      }
      SortedCons(s[0], rest);
      [s[0]] + rest
  }

  /** The rows of `s` in fetch order; rows tied on both keys keep their table order. */
  function SortByOrder(s: seq<Row>): (r: seq<Row>)
    ensures Sorted(r) && multiset(r) == multiset(s)
  {
    if s == [] then []
    else
      assert s == [s[0]] + s[1..];
      InsertSorted(s[0], SortByOrder(s[1..]))
  }

  predicate HasType(r: Row, t: MediaType) {
    r.GalleryRow? && r.mediaType == t
  }

  /** `.eq('type', t)`: the rows of type `t`, in table order. */
  function OfType(rows: seq<Row>, t: MediaType): (r: seq<Row>)
  {
    if rows == [] then []
    else if HasType(rows[0], t) then [rows[0]] + OfType(rows[1..], t)
    else OfType(rows[1..], t)
  }

  /** The rows of type `t` are exactly those of the table, each as often as the table holds it. */
  lemma {:induction false} OfTypeCounts(rows: seq<Row>, t: MediaType)
    ensures forall x :: multiset(OfType(rows, t))[x] == if HasType(x, t) then multiset(rows)[x] else 0
  {
    if rows != [] {
      assert rows == [rows[0]] + rows[1..];
      OfTypeCounts(rows[1..], t);
    }
  }

  /** `fetchGalleryImages`: every image row of the gallery table and nothing else, in fetch order. */
  function FetchGalleryImages(db: Db): (rows: seq<Row>)
    ensures Sorted(rows)
    ensures forall x :: multiset(rows)[x] == if HasType(x, Image) then multiset(db.galleryImages)[x] else 0
  {
    OfTypeCounts(db.galleryImages, Image);
    SortByOrder(OfType(db.galleryImages, Image))
  }

  /** `fetchGalleryVideos`: every video row of the gallery table and nothing else, in fetch order. */
  function FetchGalleryVideos(db: Db): (rows: seq<Row>)
    ensures Sorted(rows)
    ensures forall x :: multiset(rows)[x] == if HasType(x, Video) then multiset(db.galleryImages)[x] else 0
  {
    OfTypeCounts(db.galleryImages, Video);
    SortByOrder(OfType(db.galleryImages, Video))
  }

  /** The first `k` rows of a fetch-ordered sequence come before every row after them. */
  lemma SortedPrefix(s: seq<Row>, k: nat)
    requires Sorted(s) && k <= |s|
    ensures multiset(s[..k]) <= multiset(s)
    ensures forall x, y :: x in s[..k] && y in multiset(s) - multiset(s[..k]) ==> Precedes(x, y)
  {
    assert s == s[..k] + s[k..];
    assert multiset(s) == multiset(s[..k]) + multiset(s[k..]);
    forall x, y | x in s[..k] && y in multiset(s) - multiset(s[..k]) ensures Precedes(x, y) {
      assert y in multiset(s[k..]);
      var i :| 0 <= i < k && s[..k][i] == x;
      var j :| 0 <= j < |s| - k && s[k..][j] == y;
      assert s[i] == x && s[k + j] == y;
    }
  }

  /**
   * `fetchHomeGalleryImages`: the first six rows of the home gallery in fetch order; every row
   * left out comes after every row returned.
   */
  function FetchHomeGalleryImages(db: Db): (rows: seq<Row>)
    ensures |rows| == Min(HomeGalleryLimit, |db.homeGalleryImages|)
    ensures Sorted(rows) && multiset(rows) <= multiset(db.homeGalleryImages)
    ensures forall x, y :: x in rows && y in multiset(db.homeGalleryImages) - multiset(rows) ==> Precedes(x, y)
  {
    var s := SortByOrder(db.homeGalleryImages);
    var k := Min(HomeGalleryLimit, |s|);
    SortedPrefix(s, k);
    s[..k]
  }

  // ---------------------------------------------------------------------------
  // Reorder: one update per listed item, display_order = n - index
  // ---------------------------------------------------------------------------

  /** An element of the list the reorder helpers receive (its `display_order` is not read). */
  datatype OrderItem = OrderItem(id: Id, displayOrder: int)

  /** `.update({ display_order }).eq('id', id)` */
  datatype OrderUpdate = OrderUpdate(id: Id, displayOrder: int)

  function ItemIds(items: seq<OrderItem>): (ids: seq<Id>)
    ensures |ids| == |items| && forall k :: 0 <= k < |items| ==> ids[k] == items[k].id
  {
    seq(|items|, k requires 0 <= k < |items| => items[k].id)
  }

  /**
   * The updates the reorder helpers issue: one per item, keyed by the item's id, with order
   * values that strictly decrease along the list and lie in `1..n`.
   */
  function OrderUpdates(items: seq<OrderItem>): (us: seq<OrderUpdate>)
    ensures |us| == |items|
    ensures forall i :: 0 <= i < |items| ==> us[i].id == items[i].id
    ensures forall i, j :: 0 <= i < j < |us| ==> us[i].displayOrder > us[j].displayOrder
    ensures forall i :: 0 <= i < |us| ==> 1 <= us[i].displayOrder <= |us|
  {
    seq(|items|, i requires 0 <= i < |items| => OrderUpdate(items[i].id, |items| - i))
  }

  /** Along strictly decreasing order values, two values lie at least as far apart as their positions. */
  lemma {:induction false} OrderGap(us: seq<OrderUpdate>, i: nat, j: nat)
    requires i <= j < |us|
    requires forall a, b :: 0 <= a < b < |us| ==> us[a].displayOrder > us[b].displayOrder
    ensures us[i].displayOrder >= us[j].displayOrder + (j - i)
    decreases j - i
  {
    if i < j {
      OrderGap(us, i + 1, j);
    }
  }

  /**
   * `n` order values that strictly decrease and lie in `1..n` can only be `n, n-1, .., 1`: the
   * contract of `OrderUpdates` alone fixes item `i`'s value to `n - i`.
   */
  lemma OrderValuesForced(us: seq<OrderUpdate>, i: nat)
    requires i < |us|
    requires forall a, b :: 0 <= a < b < |us| ==> us[a].displayOrder > us[b].displayOrder
    requires forall a :: 0 <= a < |us| ==> 1 <= us[a].displayOrder <= |us|
    ensures us[i].displayOrder == |us| - i
  {
    OrderGap(us, 0, i);
    OrderGap(us, i, |us| - 1);
  }

  /** Item `i` of an `n`-item list gets order value `n - i`. */
  lemma OrderUpdateValues(items: seq<OrderItem>, i: nat)
    requires i < |items|
    ensures OrderUpdates(items)[i].displayOrder == |items| - i
  {
    OrderValuesForced(OrderUpdates(items), i);
  }

  function SetOrder(r: Row, u: OrderUpdate): (r': Row) {
    if r.id == u.id then r.(displayOrder := u.displayOrder) else r
  }

  /** One update against a table: every row with the update's id gets its order value. */
  function ApplyUpdate(rows: seq<Row>, u: OrderUpdate): (r: seq<Row>)
    ensures |r| == |rows| && forall i :: 0 <= i < |rows| ==> r[i] == SetOrder(rows[i], u)
  {
    if rows == [] then [] else [SetOrder(rows[0], u)] + ApplyUpdate(rows[1..], u)
  }

  /** The updates applied one after another, in list order. */
  function ApplyUpdates(rows: seq<Row>, us: seq<OrderUpdate>): (r: seq<Row>)
    decreases |us|
  {
    if us == [] then rows else ApplyUpdates(ApplyUpdate(rows, us[0]), us[1..])
  }

  /** The order value the last update for `id` sets, if any update targets `id`. */
  function LastUpdate(us: seq<OrderUpdate>, id: Id): (o: Option<int>)
  {
    if us == [] then None
    else
      var later := LastUpdate(us[1..], id);
      if later.Some? then later
      else if us[0].id == id then Some(us[0].displayOrder)
      else None
  }

  function WithOrder(r: Row, o: Option<int>): (r': Row) {
    match o
    case None => r
    case Some(v) => r.(displayOrder := v)
  }

  /** Applying the updates in sequence: each row ends with the last order value issued for its id. */
  lemma {:induction false} ApplyUpdatesEffect(rows: seq<Row>, us: seq<OrderUpdate>)
    ensures |ApplyUpdates(rows, us)| == |rows|
    ensures forall i :: 0 <= i < |rows| ==>
      ApplyUpdates(rows, us)[i] == WithOrder(rows[i], LastUpdate(us, rows[i].id))
    decreases |us|
  {
    if us != [] {
      var r1 := ApplyUpdate(rows, us[0]);
      ApplyUpdatesEffect(r1, us[1..]);
    }
  }

  /** An id that no update targets gets no order value. */
  lemma {:induction false} LastUpdateAbsent(us: seq<OrderUpdate>, id: Id)
    requires forall j :: 0 <= j < |us| ==> us[j].id != id
    ensures LastUpdate(us, id) == None
  {
    if us != [] {
      LastUpdateAbsent(us[1..], id);
    }
  }

  /** An id that exactly one update targets gets that update's value. */
  lemma {:induction false} LastUpdateUnique(us: seq<OrderUpdate>, k: nat)
    requires k < |us|
    requires forall j :: 0 <= j < |us| && j != k ==> us[j].id != us[k].id
    ensures LastUpdate(us, us[k].id) == Some(us[k].displayOrder)
  {
    if k == 0 {
      LastUpdateAbsent(us[1..], us[0].id);
    } else {
      LastUpdateUnique(us[1..], k - 1);
    }
  }

  /** Every field but the display order is the same. */
  predicate SameButOrder(a: Row, b: Row) {
    a == b.(displayOrder := a.displayOrder)
  }

  /** No item is listed twice. */
  predicate DistinctItemIds(items: seq<OrderItem>) {
    Distinct(ItemIds(items))
  }

  /** Distinct ids, stated on the rows themselves. */
  lemma RowIdsDiffer(rows: seq<Row>)
    ensures DistinctRowIds(rows) <==> forall i, j :: 0 <= i < j < |rows| ==> rows[i].id != rows[j].id
  {
  }

  /** Distinct listed ids, stated on the items themselves. */
  lemma ItemIdsDiffer(items: seq<OrderItem>)
    requires DistinctItemIds(items)
    ensures forall i, j :: 0 <= i < j < |items| ==> items[i].id != items[j].id
  {
  }

  /** A table after the reorder updates for `items` have been applied. */
  function ReorderRows(rows: seq<Row>, items: seq<OrderItem>): (r: seq<Row>) {
    ApplyUpdates(rows, OrderUpdates(items))
  }

  /**
   * What the reorder does to a table: rows keep their place and every field but the display
   * order; a row whose id is not listed is untouched; with distinct listed ids, the row with
   * the id of item `k` gets `n - k`.
   */
  lemma ReorderRowsEffect(rows: seq<Row>, items: seq<OrderItem>)
    ensures |ReorderRows(rows, items)| == |rows|
    ensures forall i :: 0 <= i < |rows| ==> SameButOrder(ReorderRows(rows, items)[i], rows[i])
    ensures forall i :: 0 <= i < |rows| && rows[i].id !in ItemIds(items) ==>
      ReorderRows(rows, items)[i] == rows[i]
    ensures DistinctItemIds(items) ==>
      forall i, k :: 0 <= i < |rows| && 0 <= k < |items| && rows[i].id == items[k].id ==>
        ReorderRows(rows, items)[i].displayOrder == |items| - k
  {
    var us := OrderUpdates(items);
    ApplyUpdatesEffect(rows, us);
    forall i | 0 <= i < |rows| && rows[i].id !in ItemIds(items)
      ensures ReorderRows(rows, items)[i] == rows[i]
    {
      assert forall j :: 0 <= j < |us| ==> us[j].id == ItemIds(items)[j];
      LastUpdateAbsent(us, rows[i].id);
    }
    if DistinctItemIds(items) {
      forall i, k | 0 <= i < |rows| && 0 <= k < |items| && rows[i].id == items[k].id
        ensures ReorderRows(rows, items)[i].displayOrder == |items| - k
      {
        LastUpdateUnique(us, k);
      }
    }
  }

  /** `updateGalleryOrder`: reorders the gallery table and leaves the home gallery alone. */
  function UpdateGalleryOrder(db: Db, items: seq<OrderItem>): (r: Db)
    ensures r.homeGalleryImages == db.homeGalleryImages
    ensures r.galleryImages == ReorderRows(db.galleryImages, items)
  {
    db.(galleryImages := ReorderRows(db.galleryImages, items))
  }

  /** `updateHomeGalleryOrder`: the same rule on the home gallery, leaving the gallery alone. */
  function UpdateHomeGalleryOrder(db: Db, items: seq<OrderItem>): (r: Db)
    ensures r.galleryImages == db.galleryImages
    ensures r.homeGalleryImages == ReorderRows(db.homeGalleryImages, items)
  {
    db.(homeGalleryImages := ReorderRows(db.homeGalleryImages, items))
  }

  /** A reorder only rewrites order values, so each table keeps rows of its own shape. */
  lemma ReorderKeepsWellFormed(db: Db, items: seq<OrderItem>)
    requires WellFormed(db)
    ensures WellFormed(UpdateGalleryOrder(db, items))
    ensures WellFormed(UpdateHomeGalleryOrder(db, items))
  {
    var g, h := db.galleryImages, db.homeGalleryImages;
    ReorderRowsEffect(g, items);
    ReorderRowsEffect(h, items);
    forall r | r in ReorderRows(g, items)
      ensures r.GalleryRow?
    {
      var i :| 0 <= i < |g| && ReorderRows(g, items)[i] == r;
      assert g[i] in g;
    }
    forall r | r in ReorderRows(h, items)
      ensures r.HomeRow?
    {
      var i :| 0 <= i < |h| && ReorderRows(h, items)[i] == r;
      assert h[i] in h;
    }
  }

  // ---------------------------------------------------------------------------
  // Round trip: reorder, then fetch, gives back the chosen order
  // ---------------------------------------------------------------------------

  /** A distinct sequence holds each of its elements once. */
  lemma {:induction false} DistinctCounts<T>(s: seq<T>)
    requires Distinct(s)
    ensures forall x :: multiset(s)[x] == if x in s then 1 else 0
  {
    if s != [] {
      assert s == [s[0]] + s[1..];
      assert Distinct(s[1..]);
      DistinctCounts(s[1..]);
      assert s[0] !in s[1..];
    }
  }

  /** Two distinct sequences with the same elements are permutations of each other. */
  lemma SameElementsSameMultiset<T>(a: seq<T>, b: seq<T>)
    requires Distinct(a) && Distinct(b)
    requires forall x :: x in a <==> x in b
    ensures multiset(a) == multiset(b)
  {
    DistinctCounts(a);
    DistinctCounts(b);
    assert forall x :: multiset(a)[x] == multiset(b)[x];
  }

  /** The display orders strictly decrease along `s`. */
  predicate StrictlyDecreasing(s: seq<Row>) {
    forall i, j :: 0 <= i < j < |s| ==> s[i].displayOrder > s[j].displayOrder
  }

  /**
   * A fetch-ordered sequence is determined by its elements when their display orders are
   * distinct: it is the strictly decreasing arrangement of them.
   */
  lemma {:induction false} SortedUnique(a: seq<Row>, b: seq<Row>)
    requires Sorted(a) && StrictlyDecreasing(b)
    requires multiset(a) == multiset(b)
    ensures a == b
    decreases |a|
  {
    assert |a| == |multiset(a)| == |multiset(b)| == |b|;
    if a != [] {
      SameFirst(a, b);
      DropFirst(a);
      DropFirst(b);
      SortedUnique(a[1..], b[1..]);
    }
  }

  /** Under the conditions of `SortedUnique`, both sequences start with the same row. */
  lemma SameFirst(a: seq<Row>, b: seq<Row>)
    requires Sorted(a) && StrictlyDecreasing(b)
    requires multiset(a) == multiset(b) && a != [] && b != []
    ensures a[0] == b[0]
  {
    assert b[0] in multiset(a) && a[0] in multiset(b);
    var i :| 0 <= i < |a| && a[i] == b[0];
    var j :| 0 <= j < |b| && b[j] == a[0];
    assert i == 0 || Precedes(a[0], a[i]);
    assert j == 0 || b[0].displayOrder > b[j].displayOrder;
  }

  /** Dropping the first element takes it out of the multiset. */
  lemma DropFirst<T>(s: seq<T>)
    requires s != []
    ensures multiset(s[1..]) == multiset(s) - multiset{s[0]}
  {
    assert s == [s[0]] + s[1..];
    assert multiset(s) == multiset{s[0]} + multiset(s[1..]);
  }

  /** A row of `rows` with the given id. */
  function FindRow(rows: seq<Row>, id: Id): (r: Row)
    requires id in RowIds(rows)
    ensures r in rows && r.id == id
  {
    if rows[0].id == id then rows[0] else FindRow(rows[1..], id)
  }

  /** The rows of `rows` with the given ids, in the order of the ids. */
  function Arrange(rows: seq<Row>, ids: seq<Id>): (r: seq<Row>)
    requires forall k :: 0 <= k < |ids| ==> ids[k] in RowIds(rows)
    ensures |r| == |ids|
    ensures forall k :: 0 <= k < |ids| ==> r[k] in rows && r[k].id == ids[k]
  {
    if ids == [] then [] else [FindRow(rows, ids[0])] + Arrange(rows, ids[1..])
  }

  /** The listed ids, as a table carries them after the reorder. */
  predicate OrderedByList(a: seq<Row>, items: seq<OrderItem>) {
    forall i, k :: 0 <= i < |a| && 0 <= k < |items| && a[i].id == items[k].id ==>
      a[i].displayOrder == |items| - k
  }

  /** The table and the list name the same ids. */
  predicate SameIds(a: seq<Row>, items: seq<OrderItem>) {
    (forall i :: 0 <= i < |a| ==> a[i].id in ItemIds(items)) &&
    (forall k :: 0 <= k < |items| ==> items[k].id in RowIds(a))
  }

  /**
   * A table whose rows carry the order values a list assigns is sorted, in fetch order, into
   * the list's order.
   */
  lemma {:induction false} SortFollowsList(a: seq<Row>, items: seq<OrderItem>)
    requires DistinctRowIds(a) && DistinctItemIds(items)
    requires SameIds(a, items) && OrderedByList(a, items)
    ensures forall k :: 0 <= k < |items| ==> ItemIds(items)[k] in RowIds(a)
    ensures SortByOrder(a) == Arrange(a, ItemIds(items))
  {
    RowIdsDiffer(a);
    ItemIdsDiffer(items);
    var n := |items|;
    var x := Arrange(a, ItemIds(items));
    forall k | 0 <= k < n ensures x[k].displayOrder == n - k {
      var i :| 0 <= i < |a| && a[i] == x[k];
    }
    assert StrictlyDecreasing(x);
    assert Distinct(a) && Distinct(x);
    forall y | y in a ensures y in x {
      var i :| 0 <= i < |a| && a[i] == y;
      var k :| 0 <= k < n && ItemIds(items)[k] == a[i].id;
      var j :| 0 <= j < |a| && a[j] == x[k];
    }
    SameElementsSameMultiset(a, x);
    SortedUnique(SortByOrder(a), x);
  }

  /**
   * Reordering a table by a list of exactly its ids, then sorting it in fetch order, gives the
   * rows back in the order of the list.
   */
  lemma ReorderThenSort(rows: seq<Row>, items: seq<OrderItem>)
    requires DistinctRowIds(rows) && DistinctItemIds(items)
    requires SameIds(rows, items)
    ensures RowIds(SortByOrder(ReorderRows(rows, items))) == ItemIds(items)
  {
    var a := ReorderRows(rows, items);
    ReorderRowsEffect(rows, items);
    assert RowIds(a) == RowIds(rows);
    SortFollowsList(a, items);
  }

  /** Filtering by type and reordering commute: a reorder never changes a row's type. */
  lemma {:induction false} OfTypeApplyUpdate(rows: seq<Row>, u: OrderUpdate, t: MediaType)
    ensures OfType(ApplyUpdate(rows, u), t) == ApplyUpdate(OfType(rows, t), u)
  {
    if rows != [] {
      var x := ApplyUpdate(rows, u);
      assert x[0] == SetOrder(rows[0], u) && x[1..] == ApplyUpdate(rows[1..], u);
      assert HasType(x[0], t) == HasType(rows[0], t);
      OfTypeApplyUpdate(rows[1..], u, t);
      if HasType(rows[0], t) {
        var f := OfType(rows[1..], t);
        assert ([rows[0]] + f)[1..] == f;
      }
    }
  }

  lemma {:induction false} OfTypeApplyUpdates(rows: seq<Row>, us: seq<OrderUpdate>, t: MediaType)
    ensures OfType(ApplyUpdates(rows, us), t) == ApplyUpdates(OfType(rows, t), us)
    decreases |us|
  {
    if us != [] {
      OfTypeApplyUpdate(rows, us[0], t);
      OfTypeApplyUpdates(ApplyUpdate(rows, us[0]), us[1..], t);
    }
  }

  /** The rows of a table with distinct ids that have a given type also have distinct ids. */
  lemma {:induction false} OfTypeDistinct(rows: seq<Row>, t: MediaType)
    requires DistinctRowIds(rows)
    ensures DistinctRowIds(OfType(rows, t))
  {
    if rows != [] {
      var f := OfType(rows[1..], t);
      RowIdsDiffer(rows);
      RowIdsDiffer(rows[1..]);
      RowIdsDiffer(f);
      RowIdsDiffer(OfType(rows, t));
      OfTypeDistinct(rows[1..], t);
      OfTypeCounts(rows[1..], t);
      forall y | y in f ensures y.id != rows[0].id {
        assert y in multiset(f);
        assert y in rows[1..];
      }
    }
  }

  /** A row is among those of type `t` exactly when it is in the table and has type `t`. */
  lemma OfTypeMembers(rows: seq<Row>, t: MediaType)
    ensures forall x :: x in OfType(rows, t) <==> x in rows && HasType(x, t)
  {
    OfTypeCounts(rows, t);
    forall x ensures x in OfType(rows, t) <==> x in rows && HasType(x, t) {
      assert x in OfType(rows, t) <==> x in multiset(OfType(rows, t));
      assert x in rows <==> x in multiset(rows);
    }
  }

  /** When the list names exactly the image rows, the image rows and the list share their ids. */
  lemma ImageRowsListed(g: seq<Row>, items: seq<OrderItem>)
    requires forall r :: r in g ==> (HasType(r, Image) <==> r.id in ItemIds(items))
    requires forall k :: 0 <= k < |items| ==> items[k].id in RowIds(g)
    ensures SameIds(OfType(g, Image), items)
  {
    var f := OfType(g, Image);
    OfTypeMembers(g, Image);
    forall k | 0 <= k < |items| ensures items[k].id in RowIds(f) {
      var i :| 0 <= i < |g| && g[i].id == items[k].id;
      assert g[i] in f;
      var j :| 0 <= j < |f| && f[j] == g[i];
    }
    forall i | 0 <= i < |f| ensures f[i].id in ItemIds(items) {
      assert f[i] in f;
    }
  }

  /**
   * The admin's drag-and-drop round trip on the gallery: when the list holds exactly the ids
   * of the image rows, each once, reordering and then fetching the images returns them in the
   * list's order.
   */
  lemma GalleryReorderRoundTrip(db: Db, items: seq<OrderItem>)
    requires DistinctRowIds(db.galleryImages) && DistinctItemIds(items)
    requires forall r :: r in db.galleryImages ==> (HasType(r, Image) <==> r.id in ItemIds(items))
    requires forall k :: 0 <= k < |items| ==> items[k].id in RowIds(db.galleryImages)
    ensures RowIds(FetchGalleryImages(UpdateGalleryOrder(db, items))) == ItemIds(items)
  {
    var g := db.galleryImages;
    var f := OfType(g, Image);
    OfTypeApplyUpdates(g, OrderUpdates(items), Image);
    OfTypeDistinct(g, Image);
    ImageRowsListed(g, items);
    ReorderThenSort(f, items);
  }

  /** Reordering the images leaves the video list as it was. */
  lemma VideosUnaffectedByImageReorder(db: Db, items: seq<OrderItem>)
    requires forall r :: r in db.galleryImages && HasType(r, Video) ==> r.id !in ItemIds(items)
    ensures FetchGalleryVideos(UpdateGalleryOrder(db, items)) == FetchGalleryVideos(db)
  {
    var g := db.galleryImages;
    var v := OfType(g, Video);
    OfTypeApplyUpdates(g, OrderUpdates(items), Video);
    OfTypeMembers(g, Video);
    ReorderRowsEffect(v, items);
    forall i | 0 <= i < |v| ensures ReorderRows(v, items)[i] == v[i] {
      assert v[i] in v;
    }
    assert ReorderRows(v, items) == v;
  }

  /**
   * The same round trip on the home gallery, through its limit: the fetch returns the first
   * six listed ids, in the list's order.
   */
  lemma HomeReorderRoundTrip(db: Db, items: seq<OrderItem>)
    requires DistinctRowIds(db.homeGalleryImages) && DistinctItemIds(items)
    requires SameIds(db.homeGalleryImages, items)
    ensures RowIds(FetchHomeGalleryImages(UpdateHomeGalleryOrder(db, items)))
         == ItemIds(items)[..Min(HomeGalleryLimit, |items|)]
  {
    var s := SortByOrder(ReorderRows(db.homeGalleryImages, items));
    ReorderThenSort(db.homeGalleryImages, items);
    var k := Min(HomeGalleryLimit, |s|);
    assert RowIds(s[..k]) == RowIds(s)[..k];
  }

  // ---------------------------------------------------------------------------
  // Insert records
  // ---------------------------------------------------------------------------

  /** `alt || fallback`: a missing or empty alt text gives way to the fallback. */
  function AltOrDefault(alt: Option<string>, fallback: string): (r: string)
    ensures alt.Some? && alt.value != "" ==> r == alt.value
    ensures alt.None? || alt.value == "" ==> r == fallback
    ensures fallback != "" ==> r != ""
  {
    if alt.Some? && alt.value != "" then alt.value else fallback
  }

  const GalleryAltDefault: string := "Gallery Image"
  const HomeGalleryAltDefault: string := "Home Gallery Image"

  /** The item a gallery upload passes to `addGalleryItem`. */
  datatype GalleryItemData = GalleryItemData(url: string, storagePath: string, mediaType: MediaType, alt: Option<string>)

  /** The item a home gallery upload passes to `addHomeGalleryImage`. */
  datatype HomeImageData = HomeImageData(url: string, storagePath: string, alt: Option<string>)

  /** The record sent to the gallery table's insert. */
  datatype GalleryInsert = GalleryInsert(url: string, storagePath: string, mediaType: MediaType, alt: string, userId: Option<Id>)

  /** The record sent to the home gallery table's insert. */
  datatype HomeInsert = HomeInsert(url: string, storagePath: string, alt: string, userId: Option<Id>)

  /**
   * The record `addGalleryItem` inserts for the signed-in user (`None` when there is none):
   * the item's fields, an alt text that is never empty, the user's id.
   */
  function GalleryInsertRecord(data: GalleryItemData, user: Option<Id>): (rec: GalleryInsert)
    ensures rec.url == data.url && rec.storagePath == data.storagePath && rec.mediaType == data.mediaType
    ensures rec.alt != ""
    ensures data.alt.Some? && data.alt.value != "" ==> rec.alt == data.alt.value
    ensures data.alt.None? || data.alt.value == "" ==> rec.alt == GalleryAltDefault
    ensures rec.userId == user
  {
    GalleryInsert(data.url, data.storagePath, data.mediaType, AltOrDefault(data.alt, GalleryAltDefault), user)
  }

  /** The record `addHomeGalleryImage` inserts: as for the gallery, with its own default alt text. */
  function HomeInsertRecord(data: HomeImageData, user: Option<Id>): (rec: HomeInsert)
    ensures rec.url == data.url && rec.storagePath == data.storagePath
    ensures rec.alt != ""
    ensures data.alt.Some? && data.alt.value != "" ==> rec.alt == data.alt.value
    ensures data.alt.None? || data.alt.value == "" ==> rec.alt == HomeGalleryAltDefault
    ensures rec.userId == user
  {
    HomeInsert(data.url, data.storagePath, AltOrDefault(data.alt, HomeGalleryAltDefault), user)
  }
}
