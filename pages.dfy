/** The public URL of an editable page (`getPageUrl`,
    components/admin/pages-manager.tsx:63-76). */
module Pages {
  import opened Strings

  /** The switch over the slug: "home" is the site root, the other named
      pages and every other slug live at "/" followed by the slug. */
  function PageUrl(slug: string): (url: string)
    ensures StartsWith(url, "/")
    ensures slug == "home" ==> url == "/"
    ensures slug != "home" ==> url == "/" + slug
  {
    match slug
    case "home" => "/"
    case "about" => "/about"
    case "catalog" => "/catalog"
    case "formats" => "/formats"
    case _ => "/" + slug
  }

  /** Two slugs share a URL only when they are equal or are "home" and the
      empty slug, which both map to "/". */
  lemma PageUrlCollisions(a: string, b: string)
    requires PageUrl(a) == PageUrl(b)
    ensures a == b || (a == "home" && b == "") || (a == "" && b == "home")
  {
    if a != "home" && b != "home" {
      assert ("/" + a)[1..] == a && ("/" + b)[1..] == b;
    } else if a == "home" && b != "home" {
      assert |"/" + b| == 1 + |b|;
    } else if a != "home" && b == "home" {
      assert |"/" + a| == 1 + |a|;
    }
  }
}
