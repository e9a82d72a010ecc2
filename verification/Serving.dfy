/** From a loaded site to the request paths a node answers, across every reload. */
module Serving {
  import opened Text
  import opened Site

  /** Which content a rendered page came from. */
  datatype Render =
    | PostIndex | Landing(page: Post) | StaticPage(page: Post) | LinkPage(link: SiteLink) | About | PostPage(post: Post)

  function PagePath(name: string): string {
    "/page/" + name + ".mu"
  }

  lemma PagePathInjective(a: string, b: string)
    ensures PagePath(a) == PagePath(b) <==> a == b
  {
    assert |PagePath(a)| == |a| + 9 && |PagePath(b)| == |b| + 9;
    if PagePath(a) == PagePath(b) {
      assert a == PagePath(a)[6..6 + |a|] && b == PagePath(b)[6..6 + |b|];
    }
  }

  /** The name the post index is served under: it moves once a landing page has taken the root. */
  function IndexName(site: Site): string {
    if site.landing.Some? then BLOG_NAME else LANDING_NAME
  }

  // ----- build_pages

  datatype Write = Write(name: string, render: Render)

  function PageWrites(ps: seq<SitePage>): (ws: seq<Write>)
    ensures |ws| == |ps| && forall i :: 0 <= i < |ps| ==> ws[i] == Write(ps[i].name, StaticPage(ps[i].page))
  {
    seq(|ps|, i requires 0 <= i < |ps| => Write(ps[i].name, StaticPage(ps[i].page)))
  }

  function LinkWrites(ps: seq<SiteLink>): (ws: seq<Write>)
    ensures |ws| == |ps| && forall i :: 0 <= i < |ps| ==> ws[i] == Write(ps[i].name, LinkPage(ps[i]))
  {
    seq(|ps|, i requires 0 <= i < |ps| => Write(ps[i].name, LinkPage(ps[i])))
  }

  function PostWrites(ps: seq<Post>): (ws: seq<Write>)
    ensures |ws| == |ps| && forall i :: 0 <= i < |ps| ==> ws[i] == Write(ps[i].slug, PostPage(ps[i]))
  {
    seq(|ps|, i requires 0 <= i < |ps| => Write(ps[i].slug, PostPage(ps[i])))
  }

  /** Every page rendered, in the order the map is filled. */
  function Writes(posts: seq<Post>, hasAbout: bool, site: Site): seq<Write> {
    [Write(IndexName(site), PostIndex)]
    + (if site.landing.Some? then [Write(LANDING_NAME, Landing(site.landing.value))] else [])
    + PageWrites(site.pages) + LinkWrites(site.links)
    + (if hasAbout then [Write(ABOUT_NAME, About)] else [])
    + PostWrites(posts)
  }

  function Filled(ws: seq<Write>): map<string, Render> {
    if ws == [] then map[] else Filled(ws[..|ws| - 1])[PagePath(ws[|ws| - 1].name) := ws[|ws| - 1].render]
  }

  lemma FilledConcat(a: seq<Write>, w: Write)
    ensures Filled(a + [w]) == Filled(a)[PagePath(w.name) := w.render]
  {
    assert (a + [w])[..|a|] == a;
  }

  /** One `insert` per write, from a map already filled by `before`. */
  method Fill(pages0: map<string, Render>, ws: seq<Write>, ghost before: seq<Write>)
    returns (pages: map<string, Render>)
    requires pages0 == Filled(before)
    ensures pages == Filled(before + ws)
  {
    hide Filled, PagePath;
    pages := pages0;
    assert before + ws[..0] == before;
    for i := 0 to |ws|
      invariant pages == Filled(before + ws[..i])
    {
      FilledConcat(before + ws[..i], ws[i]);
      assert before + ws[..i + 1] == before + ws[..i] + [ws[i]];
      pages := pages[PagePath(ws[i].name) := ws[i].render];
    }
    assert ws[..|ws|] == ws;
  }

  method BuildPages(posts: seq<Post>, hasAbout: bool, site: Site) returns (pages: map<string, Render>)
    ensures pages == Filled(Writes(posts, hasAbout, site))
  {
    hide Filled, PageWrites, LinkWrites, PostWrites, IndexName;
    FilledNothing();
    ghost var ws: seq<Write> := [];
    var root := [Write(IndexName(site), PostIndex)]
                + (if site.landing.Some? then [Write(LANDING_NAME, Landing(site.landing.value))] else []);
    pages := Fill(map[], root, ws);
    ws := ws + root;
    pages := Fill(pages, PageWrites(site.pages), ws);
    ws := ws + PageWrites(site.pages);
    pages := Fill(pages, LinkWrites(site.links), ws);
    ws := ws + LinkWrites(site.links);
    var about := if hasAbout then [Write(ABOUT_NAME, About)] else [];
    pages := Fill(pages, about, ws);
    ws := ws + about;
    pages := Fill(pages, PostWrites(posts), ws);
    assert ws + PostWrites(posts) == Writes(posts, hasAbout, site);
  }

  lemma FilledNothing()
    ensures Filled([]) == map[]
  {
  }

  /** The render under a name is the last one written there. */
  lemma {:induction false} LastWriteWins(ws: seq<Write>, k: nat)
    requires k < |ws| && forall j :: k < j < |ws| ==> ws[j].name != ws[k].name
    ensures PagePath(ws[k].name) in Filled(ws) && Filled(ws)[PagePath(ws[k].name)] == ws[k].render
  {
    hide PagePath;
    var n := |ws| - 1;
    if k < n {
      LastWriteWins(ws[..n], k);
      PagePathInjective(ws[k].name, ws[n].name);
    }
  }

  lemma {:induction false} OverwrittenLater(ws: seq<Write>, k: nat, j: nat)
    requires k < j < |ws| && ws[j].name == ws[k].name
    requires forall m :: j <= m < |ws| && ws[m].name == ws[k].name ==> ws[m].render != ws[k].render
    ensures PagePath(ws[k].name) in Filled(ws) && Filled(ws)[PagePath(ws[k].name)] != ws[k].render
  {
    hide PagePath;
    var n := |ws| - 1;
    PagePathInjective(ws[k].name, ws[n].name);
    if ws[n].name != ws[k].name {
      OverwrittenLater(ws[..n], k, j);
    }
  }

  /** Where the parts of `Writes` begin. */
  function PagesAt(site: Site): nat { if site.landing.Some? then 2 else 1 }

  function LinksAt(site: Site): nat { PagesAt(site) + |site.pages| }

  function AboutAt(site: Site): nat { LinksAt(site) + |site.links| }

  function PostsAt(site: Site, hasAbout: bool): nat { AboutAt(site) + (if hasAbout then 1 else 0) }

  lemma WriteAt(posts: seq<Post>, hasAbout: bool, site: Site, j: nat)
    requires j < |Writes(posts, hasAbout, site)|
    ensures |Writes(posts, hasAbout, site)| == PostsAt(site, hasAbout) + |posts|
    ensures Writes(posts, hasAbout, site)[j] ==
            if j == 0 then Write(IndexName(site), PostIndex)
            else if j < PagesAt(site) then Write(LANDING_NAME, Landing(site.landing.value))
            else if j < LinksAt(site) then
              var p := site.pages[j - PagesAt(site)]; Write(p.name, StaticPage(p.page))
            else if j < AboutAt(site) then
              var l := site.links[j - LinksAt(site)]; Write(l.name, LinkPage(l))
            else if j < PostsAt(site, hasAbout) then Write(ABOUT_NAME, About)
            else Write(posts[j - PostsAt(site, hasAbout)].slug, PostPage(posts[j - PostsAt(site, hasAbout)]))
  {
    hide IndexName;
  }

  /** With names apart, a write outside the posts is followed by one of the same name only if a post has it. */
  lemma OnlyPostsOverwrite(posts: seq<Post>, hasAbout: bool, site: Site, k: nat, j: nat)
    requires NamesApart(site, Reservations(posts, hasAbout))
    requires k < j < |Writes(posts, hasAbout, site)| && k < PostsAt(site, hasAbout)
    requires Writes(posts, hasAbout, site)[j].name == Writes(posts, hasAbout, site)[k].name
    ensures j >= PostsAt(site, hasAbout)
  {
    hide Writes;
    WriteAt(posts, hasAbout, site, k);
    WriteAt(posts, hasAbout, site, j);
    var taken := Reservations(posts, hasAbout);
    assert taken.Taken(BLOG_NAME) && (hasAbout ==> taken.Taken(ABOUT_NAME));
    assert forall i :: 0 <= i < |site.pages| ==> site.pages[i] in site.pages;
    assert LANDING_NAME != ABOUT_NAME && BLOG_NAME != ABOUT_NAME && LANDING_NAME != BLOG_NAME;
  }

  ghost predicate HasSlug(posts: seq<Post>, name: string) {
    exists i :: 0 <= i < |posts| && posts[i].slug == name
  }

  /** Whatever `build_pages` renders besides the posts keeps its place exactly when no post has its name. */
  lemma RenderSurvives(posts: seq<Post>, hasAbout: bool, site: Site, k: nat)
    requires NamesApart(site, Reservations(posts, hasAbout)) && k < PostsAt(site, hasAbout)
    ensures k < |Writes(posts, hasAbout, site)|
    ensures var w := Writes(posts, hasAbout, site)[k];
            var pages := Filled(Writes(posts, hasAbout, site));
            PagePath(w.name) in pages && (pages[PagePath(w.name)] == w.render <==> !HasSlug(posts, w.name))
  {
    hide Filled, PagePath, NamesApart, Writes;
    var ws := Writes(posts, hasAbout, site);
    assert |ws| > 0 by { SomeWrites(posts, hasAbout, site); }
    WriteAt(posts, hasAbout, site, 0);
    WriteAt(posts, hasAbout, site, k);
    var at := PostsAt(site, hasAbout);
    forall j | k < j < |ws| && ws[j].name == ws[k].name ensures j >= at {
      OnlyPostsOverwrite(posts, hasAbout, site, k, j);
    }
    forall j | at <= j < |ws| ensures ws[j].name == posts[j - at].slug && ws[j].render.PostPage? {
      WriteAt(posts, hasAbout, site, j);
    }
    if HasSlug(posts, ws[k].name) {
      var i :| 0 <= i < |posts| && posts[i].slug == ws[k].name;
      assert ws[at + i].name == ws[k].name;
      OverwrittenLater(ws, k, at + i);
    } else {
      LastWriteWins(ws, k);
    }
  }

  /** The last post of a name, or the number of posts when no post has it. */
  function LastOfSlug(posts: seq<Post>, name: string): (k: nat)
    ensures k <= |posts| && (k < |posts| ==> posts[k].slug == name)
    ensures forall i :: k < i < |posts| ==> posts[i].slug != name
    ensures k == |posts| ==> forall i :: 0 <= i < |posts| ==> posts[i].slug != name
  {
    if posts == [] then 0
    else
      var n := |posts| - 1;
      if posts[n].slug == name then n
      else
        var k := LastOfSlug(posts[..n], name);
        assert forall i :: 0 <= i < n ==> posts[i] == posts[..n][i];
        if k == n then |posts| else k
  }

  /** What is served under a post's slug is the last post of that slug, whatever else has the name; so a post
      keeps its page exactly when the last post of its slug is the same post. */
  lemma PostSurvives(posts: seq<Post>, hasAbout: bool, site: Site, i: nat)
    requires i < |posts|
    ensures var slug := posts[i].slug;
            var last := LastOfSlug(posts, slug);
            var pages := Filled(Writes(posts, hasAbout, site));
            && last < |posts|
            && PagePath(slug) in pages && pages[PagePath(slug)] == PostPage(posts[last])
            && (pages[PagePath(slug)] == PostPage(posts[i]) <==> posts[last] == posts[i])
  {
    hide Filled, PagePath, Writes, PostsAt, LastOfSlug;
    var ws := Writes(posts, hasAbout, site);
    var last := LastOfSlug(posts, posts[i].slug);
    var at := PostsAt(site, hasAbout);
    PostWriteAt(posts, hasAbout, site, i);
    PostWriteAt(posts, hasAbout, site, last);
    forall k | at + last < k < |ws| ensures ws[k].name != ws[at + last].name {
      PostWriteAt(posts, hasAbout, site, k - at);
    }
    LastWriteWins(ws, at + last);
  }

  lemma PostWriteAt(posts: seq<Post>, hasAbout: bool, site: Site, j: nat)
    requires j < |posts|
    ensures |Writes(posts, hasAbout, site)| == PostsAt(site, hasAbout) + |posts|
    ensures Writes(posts, hasAbout, site)[PostsAt(site, hasAbout) + j] == Write(posts[j].slug, PostPage(posts[j]))
  {
    hide IndexName, PageWrites, LinkWrites;
  }

  /** A site that loads and loses its post index: one post called `index`, no pages and no links. With an
      about page configured, a post called `about` takes that too. */
  lemma PostTakesIndex(post: Post)
    requires post.slug == LANDING_NAME || post.slug == ABOUT_NAME
    ensures var site := Site(None, [], []);
            var posts := [post];
            && FirstError(Reservations(posts, true), [], []) == None && Placed(site, [], [])
            && NamesApart(site, Reservations(posts, true))
            && PagePath(post.slug) in Filled(Writes(posts, true, site))
            && Filled(Writes(posts, true, site))[PagePath(post.slug)] == PostPage(post)
            && (post.slug == LANDING_NAME ==> Write(post.slug, PostIndex) in Writes(posts, true, site))
            && (post.slug == ABOUT_NAME ==> Write(post.slug, About) in Writes(posts, true, site))
  {
    hide Filled, PagePath;
    PostSurvives([post], true, Site(None, [], []), 0);
  }

  lemma SomeWrites(posts: seq<Post>, hasAbout: bool, site: Site)
    ensures |Writes(posts, hasAbout, site)| > 0
  {
  }

  /** With names apart, every static page and every link keeps its own render. */
  lemma PagesAndLinksSurvive(posts: seq<Post>, hasAbout: bool, site: Site)
    requires NamesApart(site, Reservations(posts, hasAbout))
    ensures var pages := Filled(Writes(posts, hasAbout, site));
            && (forall i :: 0 <= i < |site.pages| ==>
                  PagePath(site.pages[i].name) in pages
                  && pages[PagePath(site.pages[i].name)] == StaticPage(site.pages[i].page))
            && (forall i :: 0 <= i < |site.links| ==>
                  PagePath(site.links[i].name) in pages
                  && pages[PagePath(site.links[i].name)] == LinkPage(site.links[i]))
  {
    hide PagePath, Filled, Writes;
    var ws := Writes(posts, hasAbout, site);
    var taken := Reservations(posts, hasAbout);
    forall i | 0 <= i < |site.pages|
      ensures PagePath(site.pages[i].name) in Filled(ws)
              && Filled(ws)[PagePath(site.pages[i].name)] == StaticPage(site.pages[i].page)
    {
      RenderSurvives(posts, hasAbout, site, PagesAt(site) + i);
      WriteAt(posts, hasAbout, site, PagesAt(site) + i);
      assert site.pages[i] in site.pages && !taken.Taken(site.pages[i].name);
    }
    forall i | 0 <= i < |site.links|
      ensures PagePath(site.links[i].name) in Filled(ws)
              && Filled(ws)[PagePath(site.links[i].name)] == LinkPage(site.links[i])
    {
      RenderSurvives(posts, hasAbout, site, LinksAt(site) + i);
      WriteAt(posts, hasAbout, site, LinksAt(site) + i);
      assert !taken.Taken(site.links[i].name);
    }
  }

  // ----- The file area

  predicate IsControl(c: char) {
    c <= '\U{001F}' || '\U{007F}' <= c <= '\U{009F}'
  }

  /** Length in UTF-8 bytes. */
  function ByteLength(s: string): nat {
    if s == "" then 0
    else ByteLength(s[..|s| - 1]) +
         (var c := s[|s| - 1];
          if c < '\U{0080}' then 1 else if c < '\U{0800}' then 2 else if c < '\U{10000}' then 3 else 4)
  }

  function SanitizeName(raw: string): Option<string> {
    if raw == "" || ByteLength(raw) > 255 then None
    else if raw[0] == '.' then None
    else if exists i :: 0 <= i < |raw| && (raw[i] == '/' || raw[i] == '\\' || IsControl(raw[i])) then None
    else Some(raw)
  }

  const NODE_PREFIX: string := "/file/"

  function NodePath(name: string): string {
    NODE_PREFIX + name
  }

  // ----- Snapshots and the handlers registered for them

  /** Rendered pages by request path, and servable files by name. */
  datatype Snapshot = Snapshot(pages: map<string, Render>, files: map<string, nat>)

  /** Only names `sanitize_name` lets through become entries of the file area. */
  predicate Servable(s: Snapshot) {
    forall name :: name in s.files ==> SanitizeName(name) == Some(name)
  }

  function ServedPaths(s: Snapshot): set<string> {
    s.pages.Keys + set name | name in s.files :: NodePath(name)
  }

  function FileFor(s: Snapshot, path: string): Option<nat> {
    if !(NODE_PREFIX <= path) then None
    else
      match SanitizeName(path[|NODE_PREFIX|..])
      case None => None
      case Some(name) => if name in s.files then Some(s.files[name]) else None
  }

  /** Whether a request for `path` finds a page or a file; otherwise it is dropped. */
  predicate Answers(s: Snapshot, path: string) {
    path in s.pages || FileFor(s, path).Some?
  }

  /** The requests that are answered are exactly those for served paths. */
  lemma ServedIsAnswered(s: Snapshot, path: string)
    requires Servable(s)
    ensures Answers(s, path) <==> path in ServedPaths(s)
  {
    hide SanitizeName;
    if path in ServedPaths(s) && path !in s.pages {
      var name :| name in s.files && NodePath(name) == path;
      assert path[|NODE_PREFIX|..] == name;
    }
    if FileFor(s, path).Some? {
      SanitizeKeeps(path[|NODE_PREFIX|..]);
      assert path == NodePath(path[|NODE_PREFIX|..]);
    }
  }

  lemma SanitizeKeeps(raw: string)
    ensures SanitizeName(raw).Some? ==> SanitizeName(raw).value == raw
  {
  }

  /** `load_files_dir`: of the directory's files, those with a usable name and within the size limit. */
  method LoadFiles(dir: map<string, nat>, maxBytes: nat) returns (files: map<string, nat>)
    ensures forall raw :: raw in files <==> raw in dir && SanitizeName(raw).Some? && dir[raw] <= maxBytes
    ensures forall raw :: raw in files ==> files[raw] == dir[raw] && SanitizeName(raw) == Some(raw)
  {
    hide SanitizeName;
    files := map[];
    var left := dir.Keys;
    while left != {}
      invariant left <= dir.Keys
      invariant forall raw :: raw in files <==>
                  raw in dir && raw !in left && SanitizeName(raw).Some? && dir[raw] <= maxBytes
      invariant forall raw :: raw in files ==> files[raw] == dir[raw] && SanitizeName(raw) == Some(raw)
      decreases |left|
    {
      var raw :| raw in left;
      left := left - {raw};
      SanitizeKeeps(raw);
      if SanitizeName(raw).Some? && dir[raw] <= maxBytes {
        files := files[SanitizeName(raw).value := dir[raw]];
      }
    }
  }

  /** The handlers after a swap: paths that vanished go, paths that are new come. */
  function Reconciled(handlers: set<string>, before: Snapshot, after: Snapshot): set<string> {
    handlers - (ServedPaths(before) - ServedPaths(after)) + (ServedPaths(after) - ServedPaths(before))
  }

  class BlogNode {
    var snapshot: Snapshot
    var handlers: set<string>

    constructor Start(content: Snapshot)
      ensures snapshot == content && handlers == ServedPaths(content)
    {
      snapshot := content;
      handlers := {};
      new;
      Register(ServedPaths(content));
    }

    method Deregister(paths: set<string>)
      modifies this`handlers
      ensures handlers == old(handlers) - paths
    {
      var left := paths;
      while left != {}
        invariant left <= paths && handlers == old(handlers) - (paths - left)
        decreases |left|
      {
        var path :| path in left;
        handlers := handlers - {path};
        left := left - {path};
      }
    }

    method Register(paths: set<string>)
      modifies this`handlers
      ensures handlers == old(handlers) + paths
    {
      var left := paths;
      while left != {}
        invariant left <= paths && handlers == old(handlers) + (paths - left)
        decreases |left|
      {
        var path :| path in left;
        handlers := handlers + {path};
        left := left - {path};
      }
    }

    method ApplySnapshot(next: Snapshot)
      modifies this
      ensures snapshot == next && handlers == Reconciled(old(handlers), old(snapshot), next)
    {
      hide ServedPaths;
      var gone, added := ServedPaths(snapshot) - ServedPaths(next), ServedPaths(next) - ServedPaths(snapshot);
      Deregister(gone);
      Register(added);
      snapshot := next;
    }
  }

  function AfterReloads(handlers: set<string>, current: Snapshot, reloads: seq<Snapshot>): (set<string>, Snapshot)
    decreases |reloads|
  {
    if reloads == [] then (handlers, current)
    else AfterReloads(Reconciled(handlers, current, reloads[0]), reloads[0], reloads[1..])
  }

  /** From a start, over every sequence of reloads: a handler is registered exactly for each path the current
      snapshot answers. */
  lemma {:induction false} HandlersFollowContent(content: Snapshot, reloads: seq<Snapshot>, path: string)
    requires Servable(content) && forall s :: s in reloads ==> Servable(s)
    ensures var (handlers, current) := AfterReloads(ServedPaths(content), content, reloads);
            path in handlers <==> Answers(current, path)
    decreases |reloads|
  {
    hide ServedPaths, Answers, Servable;
    if reloads == [] {
      ServedIsAnswered(content, path);
    } else {
      assert reloads[0] in reloads && forall s :: s in reloads[1..] ==> s in reloads;
      assert Reconciled(ServedPaths(content), content, reloads[0]) == ServedPaths(reloads[0]);
      HandlersFollowContent(reloads[0], reloads[1..], path);
    }
  }

  // ----- Names and paths as text

  /** Where the index and the landing page are served, as long as no post has their name. */
  lemma RootPages(posts: seq<Post>, hasAbout: bool, site: Site)
    requires NamesApart(site, Reservations(posts, hasAbout))
    requires !HasSlug(posts, "index") && !HasSlug(posts, "blog") && !HasSlug(posts, "about")
    ensures var pages := Filled(Writes(posts, hasAbout, site));
            if site.landing.None? then "/page/index.mu" in pages && pages["/page/index.mu"] == PostIndex
            else && "/page/index.mu" in pages && pages["/page/index.mu"] == Landing(site.landing.value)
                 && "/page/blog.mu" in pages && pages["/page/blog.mu"] == PostIndex
    ensures var pages := Filled(Writes(posts, hasAbout, site));
            hasAbout ==> "/page/about.mu" in pages && pages["/page/about.mu"] == About
  {
    hide Filled, NamesApart, Writes, HasSlug;
    SomeWrites(posts, hasAbout, site);
    assert PagePath("index") == "/page/index.mu" && PagePath("blog") == "/page/blog.mu";
    WriteAt(posts, hasAbout, site, 0);
    RenderSurvives(posts, hasAbout, site, 0);
    if site.landing.Some? {
      WriteAt(posts, hasAbout, site, 1);
      RenderSurvives(posts, hasAbout, site, 1);
    }
    if hasAbout {
      assert PagePath("about") == "/page/about.mu";
      WriteAt(posts, hasAbout, site, AboutAt(site));
      RenderSurvives(posts, hasAbout, site, AboutAt(site));
    }
  }

  /** Length in bytes is a sum over characters, each as long as its code point needs. */
  lemma {:induction false} ByteLengthIs(a: string, b: string, c: char)
    ensures ByteLength(a + b) == ByteLength(a) + ByteLength(b)
    ensures ByteLength([c]) ==
            if c as int < 0x80 then 1 else if c as int < 0x800 then 2 else if c as int < 0x1_0000 then 3 else 4
    decreases |b|
  {
    assert [c][..0] == "" && ByteLength("") == 0;
    if b == "" {
      assert a + b == a;
    } else {
      ByteLengthIs(a, b[..|b| - 1], c);
      assert (a + b)[..|a + b| - 1] == a + b[..|b| - 1];
    }
  }

  /** Which names may be served: at least one byte and at most 255, no leading dot, no separator, no control. */
  lemma ServableNames(raw: string)
    ensures SanitizeName(raw) ==
            if && 1 <= ByteLength(raw) <= 255 && raw != "" && raw[0] != '.'
               && '/' !in raw && '\\' !in raw
               && (forall c :: c in raw ==> 32 <= c as int < 127 || c as int >= 160)
            then Some(raw) else None
  {
    if raw != "" {
      assert ByteLength(raw) >= 1;
      assert forall i :: 0 <= i < |raw| ==> raw[i] in raw;
      assert forall c :: IsControl(c) <==> c as int <= 31 || 127 <= c as int <= 159;
    }
  }

  /** A file is asked for, and answered, under `/file/` and its name. */
  lemma FilePaths(s: Snapshot, name: string)
    requires Servable(s) && name in s.files
    ensures "/file/" + name in ServedPaths(s) && FileFor(s, "/file/" + name) == Some(s.files[name])
  {
    hide SanitizeName;
    assert NodePath(name) == "/file/" + name && ("/file/" + name)[6..] == name;
  }
}
