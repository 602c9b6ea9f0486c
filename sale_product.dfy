/** The sale-product list view: the component's state hooks as fields of one object, and one
    method per event handler and per effect. The effects are methods the caller runs when their
    dependencies change; the network call is replaced by the reply it produces, given as an
    argument. */
module SaleProductView {
  import opened Paging
  import opened ProductList

  datatype Option<T> = None | Some(value: T)

  /** The `{ products, totalCount }` object the view holds. */
  datatype Catalog = Catalog(products: seq<Product>, totalCount: int)

  /** A reply of the product endpoint as far as the view inspects it; `products` may be missing. */
  datatype Reply = Reply(products: Option<seq<Product>>, totalCount: int)

  /** The query the view sends to the product endpoint. */
  datatype Query = Query(sort: string, keyword: string, page: int, pageSize: int)

  /** The label of the only sort option, "newest first". */
  const NewestOption: string := "최신순"
  /** The sort key that option selects. */
  const CreatedAtOrder: string := "createdAt"

  class SaleProduct {
    var saleProduct: Catalog
    var order: string
    var searchProduct: string
    var open: bool
    var selectedOption: string
    var page: int
    var totalPages: int
    var visibleProduct: int

    /** The page size is always one the responsive policy produces. */
    ghost predicate Valid()
      reads this
    {
      IsPageSize(visibleProduct)
    }

    /** The page count agrees with the held total count and the current page size. */
    ghost predicate PagesInSync()
      reads this
      requires Valid()
    {
      totalPages == CeilDiv(saleProduct.totalCount, visibleProduct)
    }

    /** The initial state: no products, newest-first order, empty search, menu closed,
        page 1, a page count of 1 and ten products per page. The page count does not yet agree
        with the empty catalog (it would be 0) until the page-count effect has run. */
    constructor ()
      ensures Valid()
      ensures saleProduct == Catalog([], 0)
      ensures order == CreatedAtOrder && searchProduct == "" && !open
      ensures selectedOption == NewestOption
      ensures page == 1 && totalPages == 1 && visibleProduct == InitialPageSize
      ensures !PagesInSync()
    {
      saleProduct := Catalog([], 0);
      order := CreatedAtOrder;
      searchProduct := "";
      open := false;
      selectedOption := NewestOption;
      page := 1;
      totalPages := 1;
      visibleProduct := InitialPageSize;
      new;
      TotalPagesOfCount(0, InitialPageSize);
    }

    /** The page-size effect. The first flag set, in the order mobile, tablet, desktop, decides
        the size (4, 6 or 10); with no flag set the size is kept. The current page is not reset,
        and the page count is left to the page-count effect. */
    method ApplyViewport(v: Viewport)
      requires Valid()
      modifies this`visibleProduct
      ensures Valid()
      ensures visibleProduct == NextPageSize(old(visibleProduct), v)
      ensures v.isMobile ==> visibleProduct == MobilePageSize
      ensures !v.isMobile && v.isTablet ==> visibleProduct == TabletPageSize
      ensures !v.isMobile && !v.isTablet && v.isDesktop ==> visibleProduct == DesktopPageSize
      ensures !Reports(v) ==> visibleProduct == old(visibleProduct)
      ensures visibleProduct == old(visibleProduct) ==> PagesInSync() == old(PagesInSync())
    {
      if v.isMobile {
        visibleProduct := MobilePageSize;
      } else if v.isTablet {
        visibleProduct := TabletPageSize;
      } else if v.isDesktop {
        visibleProduct := DesktopPageSize;
      }
    }

    /** The page-count effect: the page count becomes the least number of pages of the current
        size that holds the held total count. */
    method RecomputeTotalPages()
      requires Valid()
      modifies this`totalPages
      ensures Valid() && PagesInSync()
      ensures (totalPages - 1) * visibleProduct < saleProduct.totalCount <= totalPages * visibleProduct
    {
      totalPages := CeilDiv(saleProduct.totalCount, visibleProduct);
    }

    /** The query the fetch sends: the sort key, the search term, the page and the page size. */
    function CurrentQuery(): (q: Query)
      reads this
      requires Valid()
      ensures IsPageSize(q.pageSize) && q.pageSize == visibleProduct
      ensures q.sort == order && q.keyword == searchProduct && q.page == page
    {
      Query(order, searchProduct, page, visibleProduct)
    }

    /** The fetch, given the endpoint's reply to `CurrentQuery()`. A missing reply or one
        without `products` changes nothing. Otherwise the reply replaces the held catalog as a
        whole and the page count becomes the least number of pages that holds its total. */
    method FetchSaleProduct(reply: Option<Reply>) returns (sent: Query)
      requires Valid()
      modifies this`saleProduct, this`totalPages
      ensures Valid()
      ensures sent == CurrentQuery()
      ensures reply.None? || reply.value.products.None? ==>
                saleProduct == old(saleProduct) && totalPages == old(totalPages)
      ensures reply.Some? && reply.value.products.Some? ==>
                saleProduct == Catalog(reply.value.products.value, reply.value.totalCount) &&
                PagesInSync()
      ensures old(PagesInSync()) ==> PagesInSync()
    {
      sent := CurrentQuery();
      if reply.Some? && reply.value.products.Some? {
        saleProduct := Catalog(reply.value.products.value, reply.value.totalCount);
        totalPages := CeilDiv(reply.value.totalCount, visibleProduct);
      }
    }

    /** The search box: the term becomes the typed text, and nothing else changes. */
    method HandleSearch(text: string)
      requires Valid()
      modifies this`searchProduct
      ensures Valid() && searchProduct == text
      ensures PagesInSync() == old(PagesInSync())
    {
      searchProduct := text;
    }

    /** The sort menu button: opens a closed menu and closes an open one. */
    method ToggleOption()
      requires Valid()
      modifies this`open
      ensures Valid() && open == !old(open)
    {
      open := !open;
    }

    /** Choosing a sort option: it becomes the selected label and the menu closes; only the
        newest-first option changes the sort key, and any other label leaves it as it was. */
    method HandleOptionClick(option: string)
      requires Valid()
      modifies this`selectedOption, this`open, this`order
      ensures Valid() && selectedOption == option && !open
      ensures order == if option == NewestOption then CreatedAtOrder else old(order)
      ensures PagesInSync() == old(PagesInSync())
    {
      selectedOption := option;
      open := false;
      if option == NewestOption {
        order := CreatedAtOrder;
      }
    }

    /** The pager: the page becomes the requested number as it is, without clamping to the
        page count. */
    method HandlePageChange(newPage: int)
      requires Valid()
      modifies this`page
      ensures Valid() && page == newPage
      ensures PagesInSync() == old(PagesInSync())
    {
      page := newPage;
    }

    /** The products rendered: at most a page of them, newest first, each a held product whose
        name contains the search term, ignoring case. */
    function PaginatedProducts(): (r: seq<Product>)
      reads this
      requires Valid()
      ensures |r| <= visibleProduct
      ensures NewestFirst(r)
      ensures forall p :: p in r ==> p in saleProduct.products && Matches(p, searchProduct)
    {
      VisibleProductsSpec(saleProduct.products, searchProduct, page, visibleProduct);
      VisibleProducts(saleProduct.products, searchProduct, page, visibleProduct)
    }
  }

  /** A viewport change in the middle of a session: the page size follows the viewport while
      the page stays where it was, so the page count needs the page-count effect again. */
  method ViewportChangeKeepsPage()
  {
    var view := new SaleProduct();
    view.HandlePageChange(3);
    view.ApplyViewport(Viewport(true, false, false));
    assert view.visibleProduct == 4 && view.page == 3;
    view.ApplyViewport(Viewport(false, false, true));
    assert view.visibleProduct == 10 && view.page == 3;
    view.ApplyViewport(Viewport(false, false, false));
    assert view.visibleProduct == 10;
    view.RecomputeTotalPages();
    TotalPagesOfCount(0, 10);
    assert view.totalPages == 0;
  }
}
