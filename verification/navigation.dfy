/** The navigation and mobile-menu controllers (Terry/script.js:12-51 and
    217-231). Nav links and page sections keep the `active` class as a flag
    per element, in document order; the menu's `active` class is `menuOpen`. */
module Navigation {
  import opened Seqs

  /** `forEach(x => x.classList.remove('active'))` followed by
      `classList.add('active')` on element `k`. */
  method ActivateOnly(flags: array<bool>, k: nat)
    requires k < flags.Length
    modifies flags
    ensures flags[..] == OnlyAt(flags.Length, k)
  {
    var i := 0;
    while i < flags.Length
      invariant 0 <= i <= flags.Length
      invariant forall j :: 0 <= j < i ==> !flags[j]
    {
      flags[i] := false;
      i := i + 1;
    }
    flags[k] := true;
  }

  class Site {
    const linkPage: seq<string>    // the `data-page` attribute of each nav link
    const pageId: seq<string>      // the `id` of each page section
    const linkActive: array<bool>  // whether each nav link carries `active`
    const pageActive: array<bool>  // whether each page section carries `active`
    var menuOpen: bool             // whether the nav menu carries `active`

    ghost predicate Valid()
      reads this
    {
      linkActive.Length == |linkPage| && pageActive.Length == |pageId| && linkActive != pageActive
    }

    /** The elements the page's markup provides, with their initial classes. */
    constructor (linkPage: seq<string>, pageId: seq<string>, links: seq<bool>, pages: seq<bool>, menuOpen: bool)
      requires |links| == |linkPage| && |pages| == |pageId|
      ensures Valid() && fresh(linkActive) && fresh(pageActive)
      ensures this.linkPage == linkPage && this.pageId == pageId && this.menuOpen == menuOpen
      ensures linkActive[..] == links && pageActive[..] == pages
    {
      this.linkPage := linkPage;
      this.pageId := pageId;
      this.menuOpen := menuOpen;
      linkActive := new bool[|links|](i requires 0 <= i < |links| => links[i]);
      pageActive := new bool[|pages|](i requires 0 <= i < |pages| => pages[i]);
    }

    /** Click on nav link `k`: only that link and the first page whose id is
        its `data-page` are active, and the menu is closed. A `data-page` that
        names no page is excluded (getElementById returns null there). */
    method ClickNavLink(k: nat)
      requires Valid() && k < |linkPage| && linkPage[k] in pageId
      modifies linkActive, pageActive, this`menuOpen
      ensures Valid()
      ensures linkActive[..] == OnlyAt(|linkPage|, k)
      ensures pageActive[..] == OnlyAt(|pageId|, IndexOf(pageId, linkPage[k]))
      ensures Count(linkActive[..], true) == 1 && Count(pageActive[..], true) == 1
      ensures !menuOpen
    {
      var target := linkPage[k];
      ActivateOnly(linkActive, k);
      var page := IndexOf(pageId, target);
      ActivateOnly(pageActive, page);
      menuOpen := false;
      OnlyAtExactlyOne(linkActive[..], k);
      OnlyAtExactlyOne(pageActive[..], page);
    }

    /** Click on a call-to-action button whose `data-page` is `target`: the
        first nav link with that `data-page` and the first page with that id
        become the only active ones. The menu flag is not touched. A target
        without such a link or page is excluded (querySelector and
        getElementById return null there). */
    method ClickCallToAction(target: string)
      requires Valid() && target in linkPage && target in pageId
      modifies linkActive, pageActive
      ensures Valid()
      ensures linkActive[..] == OnlyAt(|linkPage|, IndexOf(linkPage, target))
      ensures pageActive[..] == OnlyAt(|pageId|, IndexOf(pageId, target))
      ensures linkPage[IndexOf(linkPage, target)] == target
      ensures Count(linkActive[..], true) == 1 && Count(pageActive[..], true) == 1
      ensures menuOpen == old(menuOpen)
    {
      var link := IndexOf(linkPage, target);
      ActivateOnly(linkActive, link);
      var page := IndexOf(pageId, target);
      ActivateOnly(pageActive, page);
      OnlyAtExactlyOne(linkActive[..], link);
      OnlyAtExactlyOne(pageActive[..], page);
    }

    /** Click on the hamburger: toggle the menu. */
    method ClickHamburger()
      requires Valid()
      modifies this`menuOpen
      ensures Valid()
      ensures menuOpen == !old(menuOpen)
    {
      menuOpen := !menuOpen;
    }

    /** Any click in the document: the menu closes unless the click landed
        inside the hamburger or inside the menu. */
    method ClickDocument(inHamburger: bool, inMenu: bool)
      requires Valid()
      modifies this`menuOpen
      ensures Valid()
      ensures menuOpen == (old(menuOpen) && (inHamburger || inMenu))
    {
      if !inHamburger && !inMenu {
        menuOpen := false;
      }
    }
  }

  /** The page "contact" scenario: after clicking the link for "contact",
      exactly the "contact" section and that link are active. */
  method NavigateToContact(site: Site, k: nat)
    requires site.Valid() && k < |site.linkPage| && site.linkPage[k] == "contact" && "contact" in site.pageId
    modifies site.linkActive, site.pageActive, site
    ensures forall j :: 0 <= j < site.linkActive.Length ==> (site.linkActive[j] <==> j == k)
    ensures forall j :: 0 <= j < site.pageActive.Length ==>
      (site.pageActive[j] <==> j == IndexOf(site.pageId, "contact"))
    ensures site.pageId[IndexOf(site.pageId, "contact")] == "contact"
  {
    site.ClickNavLink(k);
    assert site.linkActive[..] == OnlyAt(|site.linkPage|, k);
    forall j | 0 <= j < site.linkActive.Length ensures site.linkActive[j] <==> j == k {
      assert site.linkActive[j] == site.linkActive[..][j];
    }
    forall j | 0 <= j < site.pageActive.Length ensures site.pageActive[j] <==> j == IndexOf(site.pageId, "contact") {
      assert site.pageActive[j] == site.pageActive[..][j];
    }
  }
}
