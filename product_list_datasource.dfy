/**
 * The product table's data source: it holds the loaded product list and a
 * loading flag, and projects the list into the rows shown on screen by
 * sorting a copy and slicing out the current page.
 */
module ProductListDataSource {
  import opened Wrappers
  import opened ProductSort

  /** `MatSort.direction`: 'asc', 'desc' or '' (no direction). */
  datatype SortDirection = Asc | Desc | NoDirection

  /** The attached sort control: the active column id and the direction. */
  datatype SortState = SortState(active: string, direction: SortDirection)

  /** The attached paginator: page index and page size. */
  datatype PageState = PageState(pageIndex: nat, pageSize: nat)

  const ConnectError := "Please set the paginator and sort on the data source before connecting."

  /** The early return of `getSortedData`: no sort, no active column, or direction ''. */
  predicate SortIsOff(sort: Option<SortState>)
  {
    sort.None? || sort.value.active == "" || sort.value.direction == NoDirection
  }

  /** What `getSortedData` leaves in its argument array. */
  function SortedData(sort: Option<SortState>, s: seq<Product>): (r: seq<Product>)
    ensures |r| == |s|
    ensures SortIsOff(sort) ==> r == s
  {
    if SortIsOff(sort) then s
    else SortBy(ComparatorFor(sort.value.active, sort.value.direction == Asc), s)
  }

  /**
   * `getSortedData` returns its input unchanged when the sort is off and
   * otherwise a permutation of it, in input order for an unrecognised
   * column and ordered by the column's key for a recognised one.
   */
  lemma SortedDataSpec(sort: Option<SortState>, s: seq<Product>)
    ensures multiset(SortedData(sort, s)) == multiset(s)
    ensures SortIsOff(sort) ==> SortedData(sort, s) == s
    ensures !SortIsOff(sort) && ColumnOf(sort.value.active).None? ==> SortedData(sort, s) == s
    ensures !SortIsOff(sort) && ColumnOf(sort.value.active).Some? ==>
      OrderedBy(ColumnOf(sort.value.active).value, sort.value.direction == Asc, SortedData(sort, s))
  {
    if !SortIsOff(sort) {
      var active, isAsc := sort.value.active, sort.value.direction == Asc;
      SortPermutation(ComparatorFor(active, isAsc), s);
      match ColumnOf(active)
      case None => SortUnknownColumnKeepsOrder(active, isAsc, s);
      case Some(c) =>
        assert ColumnName(c) == active;
        SortOrdered(c, isAsc, s);
    }
  }

  function Min(a: int, b: int): (m: int)
    ensures m <= a && m <= b && (m == a || m == b)
  {
    if a <= b then a else b
  }

  /** `Array.prototype.slice(begin, end)` for non-negative bounds: both are clamped to the length. */
  function Slice<T>(s: seq<T>, begin: nat, end: nat): (r: seq<T>)
    ensures |r| == if Min(end, |s|) <= begin then 0 else Min(end, |s|) - begin
    ensures forall k :: 0 <= k < |r| ==> r[k] == s[begin + k]
  {
    if Min(end, |s|) <= begin then [] else s[begin..Min(end, |s|)]
  }

  /**
   * `getPagedData`: the run `[pageIndex * pageSize, pageIndex * pageSize + pageSize)`
   * of the input, cut short at its end; the input itself when there is no paginator.
   */
  function GetPagedData(data: seq<Product>, paginator: Option<PageState>): (r: seq<Product>)
    ensures paginator.None? ==> r == data
    ensures paginator.Some? ==>
      var start, size := paginator.value.pageIndex * paginator.value.pageSize, paginator.value.pageSize;
      && |r| <= size
      && (start >= |data| ==> r == [])
      && (start < |data| ==> |r| == Min(size, |data| - start))
      && (forall k :: 0 <= k < |r| ==> r[k] == data[start + k])
  {
    match paginator
    case None => data
    case Some(p) =>
      var startIndex := p.pageIndex * p.pageSize;
      Slice(data, startIndex, startIndex + p.pageSize)
  }

  /** The first page of a page size that holds the whole list is the whole list. */
  lemma FirstPageHoldsAll(data: seq<Product>, size: nat)
    requires |data| <= size
    ensures GetPagedData(data, Some(PageState(0, size))) == data
  {
    var r := GetPagedData(data, Some(PageState(0, size)));
    assert |r| == |data|;
  }

  class DataSource {
    /** The last successfully loaded list (`data`). */
    var data: seq<Product>
    /** The value held by `productsSubject`, the list the projection reads. */
    var products: seq<Product>
    /** The value held by `loadingSubject`. */
    var loading: bool
    var paginator: Option<PageState>
    var sort: Option<SortState>

    constructor ()
      ensures data == [] && products == [] && !loading
      ensures paginator.None? && sort.None?
    {
      data, products, loading := [], [], false;
      paginator, sort := None, None;
    }

    /** `setLoading`: publishes a new loading flag. */
    method SetLoading(isLoading: bool)
      modifies this`loading
      ensures loading == isLoading
    {
      loading := isLoading;
    }

    /**
     * `loadProducts`, first step: the loading flag goes up as soon as the
     * request stream is built.
     */
    method LoadProducts()
      modifies this`loading
      ensures loading
    {
      loading := true;
    }

    /**
     * `loadProducts`, second step: the outcome of `getProducts()` arrives.
     * On success the list becomes both `data` and the projected list; on
     * error both are kept and the error is passed on. Either way the
     * loading flag ends down.
     */
    method ReceiveProducts(response: Result<seq<Product>, string>) returns (error: Option<string>)
      modifies this`data, this`products, this`loading
      ensures !loading
      ensures response.Success? ==> data == response.value && products == response.value && error.None?
      ensures response.Failure? ==> data == old(data) && products == old(products) && error == Some(response.error)
    {
      if response.Success? {
        data := response.value;
        products := response.value;
        error := None;
      } else {
        error := Some(response.error);
      }
      loading := false;
    }

    /** `getSortedData`: sorts the array in place unless the sort is off. */
    method GetSortedData(a: array<Product>)
      modifies a
      ensures a[..] == SortedData(sort, old(a[..]))
    {
      if SortIsOff(sort) {
        return;
      }
      SortInPlace(a, ComparatorFor(sort.value.active, sort.value.direction == Asc));
    }

    /**
     * `connect`: fails unless both the paginator and the sort are attached;
     * otherwise yields the rows on screen, the current page of a sorted copy
     * of the product list. The list itself is left as it is.
     */
    method Connect() returns (rows: Result<seq<Product>, string>)
      ensures rows.Failure? <==> paginator.None? || sort.None?
      ensures rows.Failure? ==> rows.error == ConnectError
      ensures rows.Success? ==> rows.value == GetPagedData(SortedData(sort, products), paginator)
    {
      if paginator.None? || sort.None? {
        return Failure(ConnectError);
      }
      var list := products;
      var copy := new Product[|list|](i requires 0 <= i < |list| => list[i]);
      assert copy[..] == list;
      GetSortedData(copy);
      rows := Success(GetPagedData(copy[..], paginator));
    }
  }

  /** The rows on screen are a sub-run of a permutation of the loaded list, never more than a page. */
  lemma RowsComeFromProducts(sort: Option<SortState>, page: PageState, s: seq<Product>)
    ensures var rows := GetPagedData(SortedData(sort, s), Some(page));
      |rows| <= page.pageSize && forall p :: p in rows ==> p in s
  {
    var sorted := SortedData(sort, s);
    SortedDataSpec(sort, s);
    var rows := GetPagedData(sorted, Some(page));
    forall p | p in rows
      ensures p in s
    {
      var k :| 0 <= k < |rows| && rows[k] == p;
      assert p in multiset(sorted);
    }
  }
}
