/**
 * Page refresh as both copies of gatsby-node.js perform it: a page is
 * deleted and recreated with new context data, or left alone when the
 * refresh throws; on a file change every page of the changed component is
 * refreshed.  The refresh of one page is a parameter, since the two copies
 * compute the new data differently.
 */
module Pages {
  import opened Core

  type PageMap = map<string, Page>

  /** Every page is stored under its own path. */
  predicate KeyedByPath(pages: PageMap) {
    forall path | path in pages :: pages[path].path == path
  }

  /** The registry after `deletePage(page)` and `createPage` of the refreshed page, or unchanged. */
  function AfterRefresh(pages: PageMap, page: Page, refreshed: Option<Page>): PageMap {
    match refreshed
    case Some(p) => pages[page.path := p]
    case None => pages
  }

  /** Every page of `component` replaced by its refresh when that succeeds; others kept. */
  function RefreshAll(pages: PageMap, component: string, refresh: Page -> Option<Page>): PageMap {
    map path | path in pages ::
      if pages[path].component == component && refresh(pages[path]).Some? then refresh(pages[path]).value
      else pages[path]
  }

  /** A refresh that recomputes only `data`, from the page's other fields. */
  ghost predicate DataOnly(refresh: Page -> Option<Page>) {
    forall page: Page {:trigger refresh(page)} ::
      refresh(page).Some? ==>
        (refresh(page).value == page.(data := refresh(page).value.data)
         && refresh(page.(data := refresh(page).value.data)) == refresh(page))
  }

  /**
   * A change refreshes exactly the pages of the changed component: no page
   * appears or disappears, no page of another component changes, and a
   * refreshed page keeps its path, component and context.
   */
  lemma RefreshAllFrames(pages: PageMap, component: string, refresh: Page -> Option<Page>)
    requires DataOnly(refresh)
    ensures RefreshAll(pages, component, refresh).Keys == pages.Keys
    ensures forall path | path in pages && pages[path].component != component ::
      RefreshAll(pages, component, refresh)[path] == pages[path]
    ensures forall path | path in pages ::
      RefreshAll(pages, component, refresh)[path] == pages[path].(data := RefreshAll(pages, component, refresh)[path].data)
  {
    var r := RefreshAll(pages, component, refresh);
    forall path | path in pages
      ensures r[path] == pages[path].(data := r[path].data)
    {
      var page := pages[path];
      if page.component == component && refresh(page).Some? {
        assert refresh(page).value == page.(data := refresh(page).value.data);
      }
    }
  }

  /** Refreshing twice for the same component gives what refreshing once gives. */
  lemma RefreshAllIdempotent(pages: PageMap, component: string, refresh: Page -> Option<Page>)
    requires DataOnly(refresh)
    ensures RefreshAll(RefreshAll(pages, component, refresh), component, refresh) == RefreshAll(pages, component, refresh)
  {
    var once := RefreshAll(pages, component, refresh);
    var twice := RefreshAll(once, component, refresh);
    forall path | path in once
      ensures twice[path] == once[path]
    {
      var page := pages[path];
      if page.component == component && refresh(page).Some? {
        var d := refresh(page).value.data;
        assert once[path] == page.(data := d);
        assert refresh(once[path]) == refresh(page);
      }
    }
    assert twice.Keys == once.Keys;
  }
}
