/** The admin sidebar's active-link rule (components/admin/admin-sidebar.tsx:
    17-22, 46-47). */
module Sidebar {
  import opened Strings

  const DashboardHref := "/admin"

  /** The sidebar's links, in display order. */
  const Links: seq<string> := ["/admin", "/admin/books", "/admin/formats", "/admin/pages"]

  /** Whether the link to `href` is highlighted on `pathname`. */
  predicate IsActive(pathname: string, href: string)
  {
    pathname == href || (href != DashboardHref && StartsWith(pathname, href))
  }

  /** The Dashboard link is active only on exactly "/admin". */
  lemma DashboardActive(pathname: string)
    ensures IsActive(pathname, DashboardHref) <==> pathname == DashboardHref
  {
  }

  /** Any other link is active exactly when the pathname starts with its
      href, which includes being equal to it: "/admin/books/42" activates
      Books. */
  lemma OtherLinkActive(pathname: string, href: string)
    requires href != DashboardHref
    ensures IsActive(pathname, href) <==> StartsWith(pathname, href)
  {
    if pathname == href {
      assert pathname[..|href|] == href;
    }
  }

  /** On any page under "/admin/books", Books is the one active link. */
  lemma BooksPages(pathname: string)
    requires StartsWith(pathname, "/admin/books")
    ensures IsActive(pathname, "/admin/books")
    ensures !IsActive(pathname, DashboardHref)
    ensures !IsActive(pathname, "/admin/formats") && !IsActive(pathname, "/admin/pages")
  {
    assert pathname[7] == 'b';
    assert "/admin/formats"[7] == 'f' && "/admin/pages"[7] == 'p';
    if |pathname| >= 14 {
      assert pathname[..14][7] == 'b';
    }
  }

  /** At most one sidebar link is active on any page. */
  lemma AtMostOneActive(pathname: string, i: nat, j: nat)
    requires i < |Links| && j < |Links|
    requires IsActive(pathname, Links[i]) && IsActive(pathname, Links[j])
    ensures i == j
  {
    PrefixDiffers(pathname);
  }

  /** The three sub-section hrefs differ in their eighth character, and the
      Dashboard href is too short to carry one. */
  lemma PrefixDiffers(pathname: string)
    ensures StartsWith(pathname, "/admin/books") ==> pathname[7] == 'b'
    ensures StartsWith(pathname, "/admin/formats") ==> pathname[7] == 'f'
    ensures StartsWith(pathname, "/admin/pages") ==> pathname[7] == 'p'
    ensures pathname == DashboardHref ==> |pathname| == 6
  {
    if StartsWith(pathname, "/admin/books") { assert pathname[..12][7] == 'b'; }
    if StartsWith(pathname, "/admin/formats") { assert pathname[..14][7] == 'f'; }
    if StartsWith(pathname, "/admin/pages") { assert pathname[..12][7] == 'p'; }
  }
}
