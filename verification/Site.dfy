/** Static pages, links and posts in one namespace: loading them, and rendering every page they own. */
module Site {
  import opened Text
  import opened Slug

  datatype Post = Post(title: string, slug: string, body: string)

  /** A file of the pages directory, by its stem; None when it cannot be read or parsed. */
  datatype PageFile = PageFile(name: string, page: Option<Post>)

  datatype LinkSpec = LinkSpec(name: string, url: string)
  datatype SitePage = SitePage(name: string, page: Post)
  datatype SiteLink = SiteLink(name: string, url: string, page: Option<Post>)
  datatype Site = Site(landing: Option<Post>, pages: seq<SitePage>, links: seq<SiteLink>)

  datatype SiteError =
    | PageCollision(name: string) | PageName(name: string) | PageUnreadable(name: string)
    | LinkCollision(name: string) | LinkName(name: string) | LinkUrl(name: string)

  datatype Loaded = Success(site: Site) | Failure(error: SiteError)

  const LANDING_NAME: string := "index"
  const BLOG_NAME: string := "blog"
  const ABOUT_NAME: string := "about"
  const RESERVED: set<string> := {BLOG_NAME, "posts", "files", "feed.xml"}

  /** What else answers in the namespace. */
  datatype Reservations = Reservations(posts: seq<Post>, hasAbout: bool) {
    predicate Taken(name: string) {
      || name in RESERVED
      || (hasAbout && name == ABOUT_NAME)
      || exists i :: 0 <= i < |posts| && posts[i].slug == name
    }
  }

  predicate IsAbsoluteHttpUrl(url: string) {
    ("https://" <= url && |url| > 8) || ("http://" <= url && |url| > 7)
  }

  // ----- Sorting by name

  predicate Less(a: string, b: string) {
    if b == "" then false
    else if a == "" then true
    else a[0] < b[0] || (a[0] == b[0] && Less(a[1..], b[1..]))
  }

  lemma {:induction false} LessTotal(a: string, b: string)
    ensures Less(a, b) || a == b || Less(b, a)
    ensures !(Less(a, b) && Less(b, a)) && !Less(a, a)
  {
    if a != "" {
      LessTotal(a[1..], if b == "" then "" else b[1..]);
      LessTotal(a[1..], a[1..]);
      if b != "" {
        assert a == [a[0]] + a[1..] && b == [b[0]] + b[1..];
      }
    }
  }

  lemma {:induction false} LessTransitive(a: string, b: string, c: string)
    requires Less(a, b) && Less(b, c)
    ensures Less(a, c)
  {
    if a != "" && a[0] == b[0] == c[0] {
      LessTransitive(a[1..], b[1..], c[1..]);
    }
  }

  /** Names are ordered by the first character in which they differ, and a name before its continuations. */
  lemma {:induction false} LessIs(a: string, b: string)
    ensures Less(a, b) <==>
            exists n :: 0 <= n <= |a| && n < |b| && a[..n] == b[..n] && (n == |a| || a[n] < b[n])
  {
    if a != "" && b != "" {
      var (c, d) := (a[1..], b[1..]);
      LessIs(c, d);
      if a[0] == b[0] && Less(c, d) {
        var n :| 0 <= n <= |c| && n < |d| && c[..n] == d[..n] && (n == |c| || c[n] < d[n]);
        assert a[..n + 1] == [a[0]] + c[..n] && b[..n + 1] == [b[0]] + d[..n];
      }
      if n :| 0 <= n <= |a| && n < |b| && a[..n] == b[..n] && (n == |a| || a[n] < b[n]) {
        if n > 0 {
          assert a[0] == a[..n][0] == b[..n][0] == b[0];
          assert c[..n - 1] == a[..n][1..] == b[..n][1..] == d[..n - 1];
        }
      }
      assert a[0] < b[0] ==> a[..0] == b[..0];
    } else if a == "" && b != "" {
      assert a[..0] == b[..0];
    }
  }

  predicate SortedByName(ps: seq<SitePage>) {
    forall i, j :: 0 <= i < j < |ps| ==> Less(ps[i].name, ps[j].name)
  }

  function InsertPage(ps: seq<SitePage>, p: SitePage): seq<SitePage> {
    if ps == [] || Less(p.name, ps[0].name) then [p] + ps else [ps[0]] + InsertPage(ps[1..], p)
  }

  function SortPages(ps: seq<SitePage>): seq<SitePage> {
    if ps == [] then [] else InsertPage(SortPages(ps[..|ps| - 1]), ps[|ps| - 1])
  }

  lemma {:induction false} InsertPageKeeps(ps: seq<SitePage>, p: SitePage)
    requires SortedByName(ps) && forall q :: q in ps ==> q.name != p.name
    ensures SortedByName(InsertPage(ps, p))
    ensures forall q :: q in InsertPage(ps, p) <==> q in ps || q == p
  {
    hide Less;
    if ps != [] {
      LessTotal(p.name, ps[0].name);
      assert ps[0] in ps;
      if Less(p.name, ps[0].name) {
        forall i | 0 <= i < |ps| ensures Less(p.name, ps[i].name) {
          if i > 0 {
            LessTransitive(p.name, ps[0].name, ps[i].name);
          }
        }
      } else {
        InsertPageKeeps(ps[1..], p);
        assert forall q :: q in ps <==> q == ps[0] || q in ps[1..];
        var rest := InsertPage(ps[1..], p);
        forall i | 0 <= i < |rest| ensures Less(ps[0].name, rest[i].name) {
          assert rest[i] in rest;
        }
      }
    }
  }

  predicate DistinctNames(ps: seq<SitePage>) {
    forall i, j :: 0 <= i < j < |ps| ==> ps[i].name != ps[j].name
  }

  lemma {:induction false} SortPagesSorts(ps: seq<SitePage>)
    requires DistinctNames(ps)
    ensures SortedByName(SortPages(ps))
    ensures forall q :: q in SortPages(ps) <==> q in ps
  {
    if ps != [] {
      var n := |ps| - 1;
      SortPagesSorts(ps[..n]);
      InsertPageKeeps(SortPages(ps[..n]), ps[n]);
      assert forall q :: q in ps <==> q in ps[..n] || q == ps[n];
    }
  }

  // ----- Loading

  function PageError(taken: Reservations, f: PageFile): Option<SiteError> {
    if f.name != LANDING_NAME && taken.Taken(f.name) then Some(PageCollision(f.name))
    else if !IsUsableName(f.name) then Some(PageName(f.name))
    else if f.page.None? then Some(PageUnreadable(f.name))
    else None
  }

  function LinkError(taken: Reservations, l: LinkSpec): Option<SiteError> {
    if taken.Taken(l.name) || l.name == LANDING_NAME then Some(LinkCollision(l.name))
    else if !IsUsableName(l.name) then Some(LinkName(l.name))
    else if !IsAbsoluteHttpUrl(l.url) then Some(LinkUrl(l.name))
    else None
  }

  predicate DistinctFiles(files: seq<PageFile>) {
    forall i, j :: 0 <= i < j < |files| ==> files[i].name != files[j].name
  }

  predicate DistinctLinks(links: seq<LinkSpec>) {
    forall i, j :: 0 <= i < j < |links| ==> links[i].name != links[j].name
  }

  /** The page a file of that name holds. */
  function FilePage(files: seq<PageFile>, name: string): Option<Post> {
    if files == [] then None
    else if files[|files| - 1].name == name then files[|files| - 1].page
    else FilePage(files[..|files| - 1], name)
  }

  predicate LinkNamed(links: seq<LinkSpec>, name: string) {
    exists i :: 0 <= i < |links| && links[i].name == name
  }

  /** The page link `i` takes: the one of its name, unless an earlier link has taken it. */
  function LinkedPage(files: seq<PageFile>, links: seq<LinkSpec>, i: nat): Option<Post>
    requires i < |links|
  {
    if LinkNamed(links[..i], links[i].name) then None else FilePage(files, links[i].name)
  }

  /** Every page file is in exactly one place: the landing page, under the first link of its name, or, once and
      in name order, among the pages; and nothing else is anywhere. */
  ghost predicate Placed(site: Site, files: seq<PageFile>, links: seq<LinkSpec>) {
    && site.landing == FilePage(files, LANDING_NAME)
    && |site.links| == |links|
    && (forall i :: 0 <= i < |links| ==>
          site.links[i] == SiteLink(links[i].name, links[i].url, LinkedPage(files, links, i)))
    && SortedByName(site.pages)
    && (forall p :: p in site.pages <==>
          p.name != LANDING_NAME && !LinkNamed(links, p.name) && FilePage(files, p.name) == Some(p.page))
  }

  /** The pages left once the first links have taken theirs. */
  ghost predicate PagesLeft(pages: seq<SitePage>, files: seq<PageFile>, links: seq<LinkSpec>) {
    && SortedByName(pages)
    && (forall p :: p in pages <==>
          p.name != LANDING_NAME && !LinkNamed(links, p.name) && FilePage(files, p.name) == Some(p.page))
  }

  lemma FilePageSnoc(files: seq<PageFile>, i: nat, name: string)
    requires i < |files|
    ensures FilePage(files[..i + 1], name) ==
            if files[i].name == name then files[i].page else FilePage(files[..i], name)
  {
    assert files[..i + 1][..i] == files[..i];
  }

  lemma {:induction false} FilePageAbsent(files: seq<PageFile>, name: string)
    requires forall i :: 0 <= i < |files| ==> files[i].name != name
    ensures FilePage(files, name) == None
  {
    if files != [] {
      FilePageAbsent(files[..|files| - 1], name);
    }
  }

  /** Pages read so far: the files but for the landing page, in the order read. */
  ghost predicate PagesRead(pages: seq<SitePage>, files: seq<PageFile>) {
    && DistinctNames(pages)
    && (forall p :: p in pages <==> p.name != LANDING_NAME && FilePage(files, p.name) == Some(p.page))
  }

  lemma PagesReadStep(pages: seq<SitePage>, files: seq<PageFile>, i: nat)
    requires i < |files| && DistinctFiles(files) && files[i].page.Some? && PagesRead(pages, files[..i])
    ensures PagesRead(if files[i].name == LANDING_NAME then pages
                      else pages + [SitePage(files[i].name, files[i].page.value)],
                      files[..i + 1])
  {
    var f := files[i];
    FilePageAbsent(files[..i], f.name);
    forall name
      ensures FilePage(files[..i + 1], name) == if f.name == name then f.page else FilePage(files[..i], name)
    {
      FilePageSnoc(files, i, name);
    }
    if f.name != LANDING_NAME {
      var next := pages + [SitePage(f.name, f.page.value)];
      assert forall p :: p in next <==> p in pages || p == SitePage(f.name, f.page.value);
      forall k | 0 <= k < |pages| ensures pages[k].name != f.name {
        assert pages[k] in pages;
      }
    }
  }

  function Position(pages: seq<SitePage>, name: string): (k: nat)
    ensures k <= |pages| && (k < |pages| ==> pages[k].name == name)
    ensures forall i :: 0 <= i < k ==> pages[i].name != name
  {
    if pages == [] || pages[0].name == name then 0
    else
      var k := Position(pages[1..], name) + 1;
      assert forall i :: 1 <= i < k ==> pages[i] == pages[1..][i - 1];
      k
  }

  lemma LinkNamedSnoc(links: seq<LinkSpec>, i: nat, name: string)
    requires i < |links|
    ensures LinkNamed(links[..i + 1], name) <==> LinkNamed(links[..i], name) || name == links[i].name
  {
    if LinkNamed(links[..i], name) {
      var j :| 0 <= j < i && links[..i][j].name == name;
      assert links[..i + 1][j].name == name;
    }
    if LinkNamed(links[..i + 1], name) {
      var j :| 0 <= j < i + 1 && links[..i + 1][j].name == name;
      if j < i { assert links[..i][j].name == name; }
    }
    assert links[..i + 1][i].name == links[i].name;
  }

  lemma RemovePage(pages: seq<SitePage>, k: nat)
    requires SortedByName(pages) && k < |pages|
    ensures SortedByName(pages[..k] + pages[k + 1..])
    ensures forall p :: p in pages[..k] + pages[k + 1..] <==> p in pages && p.name != pages[k].name
  {
    hide Less;
    var rest := pages[..k] + pages[k + 1..];
    forall j | 0 <= j < |pages| && j != k ensures pages[j].name != pages[k].name && pages[j] in rest {
      LessTotal(pages[j].name, pages[k].name);
      assert pages[j] == rest[if j < k then j else j - 1];
    }
    forall p | p in rest ensures p in pages && p.name != pages[k].name {
      var m :| 0 <= m < |rest| && rest[m] == p;
      assert p == pages[if m < k then m else m + 1];
    }
  }

  lemma TakePage(pages: seq<SitePage>, files: seq<PageFile>, links: seq<LinkSpec>, i: nat)
    requires i < |links| && PagesLeft(pages, files, links[..i])
    requires links[i].name != LANDING_NAME
    ensures var k := Position(pages, links[i].name);
            && LinkedPage(files, links, i) == (if k < |pages| then Some(pages[k].page) else None)
            && PagesLeft(if k < |pages| then pages[..k] + pages[k + 1..] else pages, files, links[..i + 1])
  {
    hide SortedByName, FilePage;
    var name := links[i].name;
    var k := Position(pages, name);
    hide LinkNamed;
    forall x ensures LinkNamed(links[..i + 1], x) <==> LinkNamed(links[..i], x) || x == name {
      LinkNamedSnoc(links, i, x);
    }
    var page := LinkedPage(files, links, i);
    assert page.Some? ==> SitePage(name, page.value) in pages;
    if k < |pages| {
      assert pages[k] in pages;
      RemovePage(pages, k);
    }
  }

  /** The first complaint, files before links, in order. */
  function FirstPageError(taken: Reservations, files: seq<PageFile>): Option<SiteError> {
    if files == [] then None
    else if PageError(taken, files[0]).Some? then PageError(taken, files[0])
    else FirstPageError(taken, files[1..])
  }

  function FirstLinkError(taken: Reservations, links: seq<LinkSpec>): Option<SiteError> {
    if links == [] then None
    else if LinkError(taken, links[0]).Some? then LinkError(taken, links[0])
    else FirstLinkError(taken, links[1..])
  }

  function FirstError(taken: Reservations, files: seq<PageFile>, links: seq<LinkSpec>): Option<SiteError> {
    if FirstPageError(taken, files).Some? then FirstPageError(taken, files) else FirstLinkError(taken, links)
  }

  method LoadSite(files: seq<PageFile>, links: seq<LinkSpec>, posts: seq<Post>, hasAbout: bool) returns (r: Loaded)
    requires DistinctFiles(files)
    ensures match FirstError(Reservations(posts, hasAbout), files, links)
            case Some(e) => r == Failure(e)
            case None => r.Success? && Placed(r.site, files, links)
  {
    hide IsUsableName, SortedByName, Less, PagesLeft, PagesRead, Position, SortPages;
    hide FilePage, LinkedPage, IsAbsoluteHttpUrl;
    var taken := Reservations(posts, hasAbout);
    var landing := None;
    var pages: seq<SitePage> := [];
    NothingRead(files);
    for i := 0 to |files|
      invariant FirstPageError(taken, files) == FirstPageError(taken, files[i..])
      invariant landing == FilePage(files[..i], LANDING_NAME)
      invariant PagesRead(pages, files[..i])
    {
      var f := files[i];
      assert files[i..][0] == f && files[i..][1..] == files[i + 1..];
      if f.name != LANDING_NAME && taken.Taken(f.name) {
        return Failure(PageCollision(f.name));
      }
      if !IsUsableName(f.name) {
        return Failure(PageName(f.name));
      }
      if f.page.None? {
        return Failure(PageUnreadable(f.name));
      }
      PagesReadStep(pages, files, i);
      FilePageSnoc(files, i, LANDING_NAME);
      if f.name == LANDING_NAME {
        landing := f.page;
      } else {
        pages := pages + [SitePage(f.name, f.page.value)];
      }
    }
    assert files[..|files|] == files && files[|files|..] == [];
    SortedPagesLeft(pages, files, links);
    pages := SortPages(pages);
    var siteLinks: seq<SiteLink> := [];
    for i := 0 to |links|
      invariant FirstLinkError(taken, links) == FirstLinkError(taken, links[i..])
      invariant PagesLeft(pages, files, links[..i])
      invariant |siteLinks| == i
      invariant forall j :: 0 <= j < i ==>
                  siteLinks[j] == SiteLink(links[j].name, links[j].url, LinkedPage(files, links, j))
    {
      var spec := links[i];
      assert links[i..][0] == spec && links[i..][1..] == links[i + 1..];
      if taken.Taken(spec.name) || spec.name == LANDING_NAME {
        return Failure(LinkCollision(spec.name));
      }
      if !IsUsableName(spec.name) {
        return Failure(LinkName(spec.name));
      }
      if !IsAbsoluteHttpUrl(spec.url) {
        return Failure(LinkUrl(spec.name));
      }
      TakePage(pages, files, links, i);
      var k := Position(pages, spec.name);
      var page := None;
      if k < |pages| {
        page := Some(pages[k].page);
        pages := pages[..k] + pages[k + 1..];
      }
      siteLinks := siteLinks + [SiteLink(spec.name, spec.url, page)];
    }
    assert links[..|links|] == links && links[|links|..] == [];
    AllPlaced(Site(landing, pages, siteLinks), files, links);
    r := Success(Site(landing, pages, siteLinks));
  }

  lemma NothingRead(files: seq<PageFile>)
    ensures PagesRead([], files[..0]) && FilePage(files[..0], LANDING_NAME) == None && files[0..] == files
  {
  }

  lemma SortedPagesLeft(pages: seq<SitePage>, files: seq<PageFile>, links: seq<LinkSpec>)
    requires PagesRead(pages, files)
    ensures PagesLeft(SortPages(pages), files, links[..0]) && links[0..] == links
  {
    hide Less;
    SortPagesSorts(pages);
  }

  lemma AllPlaced(site: Site, files: seq<PageFile>, links: seq<LinkSpec>)
    requires site.landing == FilePage(files, LANDING_NAME) && PagesLeft(site.pages, files, links)
    requires |site.links| == |links|
    requires forall j :: 0 <= j < |links| ==>
               site.links[j] == SiteLink(links[j].name, links[j].url, LinkedPage(files, links, j))
    ensures Placed(site, files, links)
  {
  }

  // ----- One namespace

  lemma {:induction false} NoPageError(taken: Reservations, files: seq<PageFile>)
    requires FirstPageError(taken, files) == None
    ensures forall i :: 0 <= i < |files| ==> PageError(taken, files[i]) == None
  {
    hide PageError;
    if files != [] {
      NoPageError(taken, files[1..]);
      assert forall i :: 1 <= i < |files| ==> files[i] == files[1..][i - 1];
    }
  }

  lemma {:induction false} NoLinkError(taken: Reservations, links: seq<LinkSpec>)
    requires FirstLinkError(taken, links) == None
    ensures forall i :: 0 <= i < |links| ==> LinkError(taken, links[i]) == None
  {
    hide LinkError;
    if links != [] {
      NoLinkError(taken, links[1..]);
      assert forall i :: 1 <= i < |links| ==> links[i] == links[1..][i - 1];
    }
  }

  lemma {:induction false} FilePageFound(files: seq<PageFile>, name: string)
    requires FilePage(files, name).Some?
    ensures exists i :: 0 <= i < |files| && files[i].name == name
  {
    if files[|files| - 1].name != name {
      FilePageFound(files[..|files| - 1], name);
      var i :| 0 <= i < |files| - 1 && files[..|files| - 1][i].name == name;
      assert files[i].name == name;
    }
  }

  /** Page names and link names are all different, and none is reserved, the landing page's, a configured
      about page's or a post's. */
  ghost predicate NamesApart(site: Site, taken: Reservations) {
    && (forall p :: p in site.pages ==> p.name != LANDING_NAME && !taken.Taken(p.name))
    && (forall i :: 0 <= i < |site.links| ==> site.links[i].name != LANDING_NAME && !taken.Taken(site.links[i].name))
    && (forall p, i :: p in site.pages && 0 <= i < |site.links| ==> p.name != site.links[i].name)
    && (forall i, j :: 0 <= i < j < |site.pages| ==> site.pages[i].name != site.pages[j].name)
    && (forall i, j :: 0 <= i < j < |site.links| ==> site.links[i].name != site.links[j].name)
  }

  /** A site that loads keeps every name apart, exactly when no two links share one. */
  lemma LoadedNamesApart(site: Site, files: seq<PageFile>, links: seq<LinkSpec>, taken: Reservations)
    requires FirstError(taken, files, links) == None && Placed(site, files, links)
    ensures NamesApart(site, taken) <==> DistinctLinks(links)
  {
    hide Less, FilePage, LinkedPage, IsUsableName;
    NoPageError(taken, files);
    NoLinkError(taken, links);
    forall p | p in site.pages ensures !taken.Taken(p.name) {
      FilePageFound(files, p.name);
      var i :| 0 <= i < |files| && files[i].name == p.name;
      assert PageError(taken, files[i]) == None;
    }
    forall i | 0 <= i < |links| ensures links[i].name != LANDING_NAME && !taken.Taken(links[i].name) {
      assert LinkError(taken, links[i]) == None;
    }
    forall i, j | 0 <= i < j < |site.pages| ensures site.pages[i].name != site.pages[j].name {
      LessTotal(site.pages[i].name, site.pages[j].name);
    }
    forall p, i | p in site.pages && 0 <= i < |site.links| ensures p.name != site.links[i].name {
      assert !LinkNamed(links, p.name);
    }
    assert forall i :: 0 <= i < |links| ==> site.links[i].name == links[i].name;
  }

  // ----- What a complaint is about

  /** A link may point to anything after `http://` or `https://`, and to nothing else. */
  lemma LinkUrls(url: string)
    ensures IsAbsoluteHttpUrl(url) <==>
            exists rest :: rest != "" && (url == "http://" + rest || url == "https://" + rest)
  {
    if "https://" <= url && |url| > 8 {
      assert url == "https://" + url[8..];
    } else if "http://" <= url && |url| > 7 {
      assert url == "http://" + url[7..];
    }
  }

  /** The names no page or link may have, by what has them. */
  lemma NamesTaken(posts: seq<Post>, hasAbout: bool, name: string)
    ensures Reservations(posts, hasAbout).Taken(name) <==>
            || name == "blog" || name == "posts" || name == "files" || name == "feed.xml"
            || (name == "about" && hasAbout)
            || exists p :: p in posts && p.slug == name
  {
    if i :| 0 <= i < |posts| && posts[i].slug == name {
      assert posts[i] in posts;
    }
  }

  /** A page file loads exactly when its name is a slug that is free, or `index`, and it can be read; a name
      that is taken is the first complaint, a name that is no slug the second. */
  lemma PageComplaints(posts: seq<Post>, hasAbout: bool, f: PageFile)
    ensures var free := f.name == "index" || !Reservations(posts, hasAbout).Taken(f.name);
            PageError(Reservations(posts, hasAbout), f) ==
            if !free then Some(PageCollision(f.name))
            else if f.name == "" || !IsSlug(f.name) then Some(PageName(f.name))
            else if f.page.None? then Some(PageUnreadable(f.name)) else None
  {
    UsableNamesAreSlugs(f.name);
  }

  /** The same for a link, to which `index` is not free and whose target must be one that `LinkUrls` describes. */
  lemma LinkComplaints(posts: seq<Post>, hasAbout: bool, l: LinkSpec)
    ensures var free := l.name != "index" && !Reservations(posts, hasAbout).Taken(l.name);
            LinkError(Reservations(posts, hasAbout), l) ==
            if !free then Some(LinkCollision(l.name))
            else if l.name == "" || !IsSlug(l.name) then Some(LinkName(l.name))
            else if !IsAbsoluteHttpUrl(l.url) then Some(LinkUrl(l.name)) else None
  {
    UsableNamesAreSlugs(l.name);
  }
}
