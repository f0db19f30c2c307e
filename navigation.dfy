/**
 * `updateActiveNav` and the section observer's callback: which navigation link is marked
 * from the page's path and hash, and, on a page with sections, from the section that is
 * most visible. The page's state is a controller holding the menu and whether the section
 * observer has been created yet (the script's `sectionObserver` variable).
 */
module Navigation {
  import opened Wrappers
  import opened Text
  import opened NavLinks

  /** `pathname.split('/').pop() || 'index.html'`: the last path segment, or the index page. */
  function PageName(path: string): string {
    var parts := Split(path, '/');
    var last := parts[|parts| - 1];
    if last == [] then "index.html" else last
  }

  /**
   * The page name is the longest `/`-free suffix of the path, or `index.html` when the path
   * is empty or ends in `/`. It is never empty, so the script's test for an empty page name
   * can never succeed.
   */
  lemma PageNameSpec(path: string)
    ensures PageName(path) != [] && '/' !in PageName(path)
    ensures (path == [] || path[|path| - 1] == '/') ==> PageName(path) == "index.html"
    ensures path != [] && path[|path| - 1] != '/' ==>
              EndsWith(path, PageName(path))
              && (|PageName(path)| == |path| || path[|path| - |PageName(path)| - 1] == '/')
  {
    var parts := Split(path, '/');
    var n := |parts|;
    var last := parts[n - 1];
    JoinSplit(path, '/');
    if n == 1 {
      assert path == last;
    } else {
      JoinLast(parts, '/');
      var init := Join(parts[..n - 1], '/');
      assert path == init + ['/'] + last;
      assert path[..|init| + 1] == init + ['/'];
      assert path[|init| + 1..] == last;
    }
    if last == [] {
      assert "index.html"[5] == '.';
      assert forall k :: 0 <= k < 10 ==> "index.html"[k] != '/';
    }
  }

  /** `hash.replace('#', '')`: only the first `#` is dropped. */
  function HashKey(hash: string): string {
    RemoveFirst(hash, '#')
  }

  /** The browser's `#id` hash gives back the id; a hash without `#` is kept as it is. */
  lemma HashKeySpec(hash: string)
    ensures '#' !in hash ==> HashKey(hash) == hash
    ensures hash != [] && hash[0] == '#' ==> HashKey(hash) == hash[1..]
  {
    if '#' !in hash {
      RemoveFirstAbsent(hash, '#');
    }
  }

  /** Where `updateActiveNav` goes for a page: a page's own link, or tracking of sections. */
  datatype Route = PageLink(key: string) | TrackSections

  /** The fixed order of the page tests. */
  function Dispatch(page: string): Route {
    if page == "rules.html" || Contains(page, "rules.html") then PageLink("rules.html")
    else if page == "staff.html" || Contains(page, "staff.html") then PageLink("staff.html")
    else if page == "index.html" || page == "" then PageLink("index.html")
    else TrackSections
  }

  /**
   * The order decides: a name containing `rules.html` wins over `staff.html`, and only a name
   * containing neither reaches the index test, which needs the exact name.
   */
  lemma DispatchSpec(page: string)
    ensures Dispatch(page) == PageLink("rules.html") <==> Contains(page, "rules.html")
    ensures Dispatch(page) == PageLink("staff.html") <==>
              !Contains(page, "rules.html") && Contains(page, "staff.html")
    ensures Dispatch(page) == PageLink("index.html") <==>
              !Contains(page, "rules.html") && !Contains(page, "staff.html")
              && (page == "index.html" || page == "")
    ensures Dispatch(page) == TrackSections <==>
              !Contains(page, "rules.html") && !Contains(page, "staff.html")
              && page != "index.html" && page != ""
  {
    if page == "rules.html" { ContainsSelf(page); }
    if page == "staff.html" { ContainsSelf(page); }
  }

  /** A path to a directory (empty or ending in `/`) always marks the index link. */
  lemma DirectoryPathsRouteToIndex(path: string)
    requires path == [] || path[|path| - 1] == '/'
    ensures Dispatch(PageName(path)) == PageLink("index.html")
  {
    PageNameSpec(path);
    ContainsSameLength("index.html", "rules.html");
    ContainsSameLength("index.html", "staff.html");
  }

  /**
   * The key `updateActiveNav` passes to `setActiveNavLink`, or `None` when it marks nothing
   * itself. `sectionCount` is how many `section[id]` elements the document has;
   * `hashTargetExists` is whether `querySelector('#' + key)` found an element.
   */
  function NavKey(path: string, hash: string, sectionCount: nat, hashTargetExists: bool): Option<string> {
    var page := PageName(path);
    match Dispatch(page)
    case PageLink(k) => Some(k)
    case TrackSections =>
      var key := HashKey(hash);
      if (page == "home.html" || sectionCount > 0) && key != [] && hashTargetExists then Some(key)
      else None
  }

  /**
   * Page links are marked from the path alone, whatever the hash and the sections; on a
   * sectioned page an empty hash marks nothing.
   */
  lemma NavKeySpec(path: string, hash1: string, hash2: string, count1: nat, count2: nat, exists1: bool, exists2: bool)
    ensures Dispatch(PageName(path)).PageLink? ==>
              NavKey(path, hash1, count1, exists1) == NavKey(path, hash2, count2, exists2)
              == Some(Dispatch(PageName(path)).key)
    ensures Dispatch(PageName(path)) == TrackSections && HashKey(hash1) == [] ==>
              NavKey(path, hash1, count1, exists1) == None
  {
  }

  /**
   * On a sectioned page, the hash `#id` of an existing section marks every link whose href
   * ends with `#id`, such as `#id` itself or `home.html#id`; an id with a dot is read as a
   * page name, and such a link contains it.
   */
  lemma HashMarksSectionLink(path: string, id: string, sectionCount: nat, links: seq<NavLink>, k: nat)
    requires Dispatch(PageName(path)) == TrackSections
    requires PageName(path) == "home.html" || sectionCount > 0
    requires id != []
    requires k < |links| && EndsWith(links[k].href, "#" + id)
    ensures NavKey(path, "#" + id, sectionCount, true) == Some(id)
    ensures |Activated(links, id)| == |links| && Activated(links, id)[k].active
  {
    HashKeySpec("#" + id);
    assert ("#" + id)[1..] == id;
    ActivatedAt(links, id, k);
    AnchorMatches(links[k].href, id);
  }

  /**
   * The exact value of the double that the literal `0.1` denotes in the callback's gate; it is
   * slightly above one tenth, so a ratio equal to that double does not pass the gate.
   */
  const VisibilityGate: real := 0.1000000000000000055511151231257827021181583404541015625

  /** One record handed to the section observer's callback. */
  datatype Entry = Entry(id: string, isIntersecting: bool, ratio: real)

  /**
   * Entry `k` is the one the callback picks: intersecting with a positive ratio, strictly
   * above every earlier intersecting entry and at least every later one, so the first of
   * several tied entries is the one picked.
   */
  ghost predicate IsMostVisible(entries: seq<Entry>, k: int) {
    0 <= k < |entries| && entries[k].isIntersecting && entries[k].ratio > 0.0
    && (forall j :: 0 <= j < k && entries[j].isIntersecting ==> entries[j].ratio < entries[k].ratio)
    && (forall j :: k < j < |entries| && entries[j].isIntersecting ==> entries[j].ratio <= entries[k].ratio)
  }

  /** At most one entry is the most visible. */
  lemma MostVisibleUnique(entries: seq<Entry>, a: int, b: int)
    requires IsMostVisible(entries, a) && IsMostVisible(entries, b)
    ensures a == b
  {
  }

  /**
   * The callback's loop: `mostVisible` and `maxRatio` start at `null` and 0 and move to an
   * intersecting entry only when its ratio is strictly greater.
   */
  method MostVisible(entries: seq<Entry>) returns (winner: Option<nat>, maxRatio: real)
    ensures winner.None? <==>
              forall j :: 0 <= j < |entries| && entries[j].isIntersecting ==> entries[j].ratio <= 0.0
    ensures winner.None? ==> maxRatio == 0.0
    ensures winner.Some? ==> IsMostVisible(entries, winner.value) && maxRatio == entries[winner.value].ratio
  {
    winner, maxRatio := None, 0.0;
    for i := 0 to |entries|
      invariant winner.None? ==> maxRatio == 0.0
      invariant winner.None? <==>
                  forall j :: 0 <= j < i && entries[j].isIntersecting ==> entries[j].ratio <= 0.0
      invariant winner.Some? ==>
                  winner.value < i && IsMostVisible(entries[..i], winner.value)
                  && maxRatio == entries[winner.value].ratio
    {
      if entries[i].isIntersecting && entries[i].ratio > maxRatio {
        maxRatio := entries[i].ratio;
        winner := Some(i);
      }
    }
    assert entries[..|entries|] == entries;
  }

  /** Two sections equally visible: the first one reported is picked. */
  lemma TieGoesToFirst(a: string, b: string, r: real)
    requires r > 0.0
    ensures IsMostVisible([Entry(a, true, r), Entry(b, true, r)], 0)
    ensures !IsMostVisible([Entry(a, true, r), Entry(b, true, r)], 1)
  {
  }

  /** The page-behaviour state the navigation code keeps. */
  class PageController {
    /** The `.nav-menu a` links, in document order. */
    var links: array<NavLink>
    /** Whether the section observer has been created (`sectionObserver !== null`). */
    var observing: bool

    constructor (links: array<NavLink>)
      ensures this.links == links && !observing
    {
      this.links := links;
      observing := false;
    }

    /**
     * `updateActiveNav`, run on load and on every hash change. The section observer is created
     * once, on the first call that reaches section tracking with sections in the document.
     */
    method UpdateActiveNav(path: string, hash: string, sectionCount: nat, hashTargetExists: bool)
      modifies this, links
      ensures links == old(links)
      ensures links[..] == match NavKey(path, hash, sectionCount, hashTargetExists)
                           case Some(k) => Activated(old(links[..]), k)
                           case None => old(links[..])
      ensures observing == (old(observing) || (Dispatch(PageName(path)) == TrackSections && sectionCount > 0))
    {
      var currentHash := HashKey(hash);
      var currentPage := PageName(path);
      if currentPage == "rules.html" || Contains(currentPage, "rules.html") {
        SetActiveNavLink(links, "rules.html");
        return;
      }
      if currentPage == "staff.html" || Contains(currentPage, "staff.html") {
        SetActiveNavLink(links, "staff.html");
        return;
      }
      if currentPage == "index.html" || currentPage == "" {
        SetActiveNavLink(links, "index.html");
        return;
      }
      if currentPage == "home.html" || sectionCount > 0 {
        if sectionCount > 0 && !observing {
          observing := true;
        }
        if currentHash != [] && hashTargetExists {
          SetActiveNavLink(links, currentHash);
        }
      }
    }

    /**
     * The section observer's callback: the most visible section's link is marked when its
     * ratio exceeds the double `0.1`; otherwise the menu is left alone. The callback exists only once the
     * observer has been created.
     */
    method OnSectionsIntersect(entries: seq<Entry>)
      requires observing
      modifies links
      ensures forall k :: IsMostVisible(entries, k) ==>
                links[..] == if entries[k].ratio > VisibilityGate then Activated(old(links[..]), entries[k].id)
                             else old(links[..])
      ensures (forall k :: !IsMostVisible(entries, k)) ==> links[..] == old(links[..])
    {
      var winner, maxRatio := MostVisible(entries);
      if winner.Some? && maxRatio > VisibilityGate {
        SetActiveNavLink(links, entries[winner.value].id);
      }
      forall k | IsMostVisible(entries, k)
        ensures winner == Some(k)
      {
        if winner.Some? {
          MostVisibleUnique(entries, k, winner.value);
        }
      }
    }
  }
}
