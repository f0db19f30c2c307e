/**
 * `setActiveNavLink(linkHref)`: every link of the navigation menu loses its `active` class
 * and then gets it back when its `href` matches the key. A link is a record of its `href`
 * attribute and whether its class list holds `active`; the menu is an array of them.
 */
module NavLinks {
  import opened Text

  datatype NavLink = NavLink(href: string, active: bool)

  /**
   * The three clauses under which a link with this `href` is marked for `key`: the exact
   * match; a key without a dot (a section id) and an href that is `#key` or ends with it;
   * a key with a dot (a page name) and an href equal to it or containing it.
   * JavaScript's `linkHref && …` is false for the empty key.
   */
  predicate Matches(href: string, key: string) {
    href == key
    || (key != [] && '.' !in key && (href == "#" + key || EndsWith(href, "#" + key)))
    || (key != [] && '.' in key && (href == key || Contains(href, key)))
  }

  /** The menu after `setActiveNavLink(key)`: hrefs kept, each flag recomputed from its href. */
  function Activated(links: seq<NavLink>, key: string): seq<NavLink>
    decreases |links|
  {
    if links == [] then []
    else [NavLink(links[0].href, Matches(links[0].href, key))] + Activated(links[1..], key)
  }

  /** The hrefs of a menu, in order. */
  function Hrefs(links: seq<NavLink>): (hrefs: seq<string>)
    ensures |hrefs| == |links|
    ensures forall k :: 0 <= k < |links| ==> hrefs[k] == links[k].href
    decreases |links|
  {
    if links == [] then [] else [links[0].href] + Hrefs(links[1..])
  }

  /** Link `k` of the updated menu keeps its href and is active exactly when it matches. */
  lemma {:induction false} ActivatedAt(links: seq<NavLink>, key: string, k: nat)
    requires k < |links|
    ensures |Activated(links, key)| == |links|
    ensures Activated(links, key)[k] == NavLink(links[k].href, Matches(links[k].href, key))
    decreases |links|
  {
    if k > 0 {
      ActivatedAt(links[1..], key, k - 1);
    } else if |links| > 1 {
      ActivatedAt(links[1..], key, 0);
    }
  }

  /**
   * The matching rule without its redundant disjuncts: the empty key matches only the
   * empty href; a page name matches every href containing it; a section id matches itself
   * and every href ending in `#id`.
   */
  lemma MatchesIff(href: string, key: string)
    ensures Matches(href, key) <==>
              (key == [] && href == [])
              || (key != [] && '.' in key && Contains(href, key))
              || (key != [] && '.' !in key && (href == key || EndsWith(href, "#" + key)))
  {
    if href == key {
      ContainsSelf(key);
    }
    if href == "#" + key {
      assert EndsWith(href, "#" + key);
    }
  }

  /**
   * A link into the section `key` (an href ending in `#key`) matches every non-empty key: by
   * the section clause when the key has no dot, by the page clause when it has one.
   */
  lemma AnchorMatches(href: string, key: string)
    requires key != [] && EndsWith(href, "#" + key)
    ensures Matches(href, key)
  {
    if '.' in key {
      var head := href[..|href| - |key|];
      assert head + key + "" == href;
      ContainsInfix(head, key, "");
    }
  }

  /**
   * `setActiveNavLink` itself: the `forEach` callback clears the flag and sets it again on a
   * match. The `return` after an exact match leaves only that link's callback, so every
   * link is visited.
   */
  method SetActiveNavLink(links: array<NavLink>, key: string)
    modifies links
    ensures links[..] == Activated(old(links[..]), key)
  {
    for i := 0 to links.Length
      invariant forall k :: 0 <= k < i ==>
                  links[k] == NavLink(old(links[k]).href, Matches(old(links[k]).href, key))
      invariant forall k :: i <= k < links.Length ==> links[k] == old(links[k])
    {
      var href := links[i].href;
      links[i] := NavLink(href, false);
      if href == key {
        links[i] := links[i].(active := true);
        continue;
      }
      if key != [] && '.' !in key {
        if href == "#" + key || EndsWith(href, "#" + key) {
          links[i] := links[i].(active := true);
        }
      }
      if key != [] && '.' in key {
        if href == key || Contains(href, key) {
          links[i] := links[i].(active := true);
        }
      }
    }
    ghost var before := old(links[..]);
    if links.Length == 0 {
      assert Activated(before, key) == [];
    } else {
      ActivatedAt(before, key, 0);
      forall k | 0 <= k < links.Length
        ensures links[..][k] == Activated(before, key)[k]
      {
        ActivatedAt(before, key, k);
      }
    }
  }

  /** The hrefs are never changed. */
  lemma {:induction false} ActivatedKeepsHrefs(links: seq<NavLink>, key: string)
    ensures Hrefs(Activated(links, key)) == Hrefs(links)
    decreases |links|
  {
    if links != [] {
      ActivatedKeepsHrefs(links[1..], key);
      assert Activated(links, key)[1..] == Activated(links[1..], key);
    }
  }

  /** The result depends on the hrefs alone, never on the flags the links had before. */
  lemma {:induction false} ActivatedIgnoresFlags(a: seq<NavLink>, b: seq<NavLink>, key: string)
    requires Hrefs(a) == Hrefs(b)
    ensures Activated(a, key) == Activated(b, key)
    decreases |a|
  {
    if a != [] {
      assert Hrefs(a)[0] == a[0].href && Hrefs(b)[0] == b[0].href;
      assert Hrefs(a[1..]) == Hrefs(a)[1..] && Hrefs(b[1..]) == Hrefs(b)[1..];
      ActivatedIgnoresFlags(a[1..], b[1..], key);
    }
  }

  /** Calling `setActiveNavLink` twice with one key leaves the menu as one call does. */
  lemma SetActiveIdempotent(links: seq<NavLink>, key: string)
    ensures Activated(Activated(links, key), key) == Activated(links, key)
  {
    ActivatedKeepsHrefs(links, key);
    ActivatedIgnoresFlags(Activated(links, key), links, key);
  }

  /**
   * Nothing stops at the first match: the page key `rules.html` marks both a link to the
   * page and a link into one of its sections.
   */
  lemma SeveralLinksActive()
    ensures Activated([NavLink("rules.html", false), NavLink("rules.html#x", false)], "rules.html")
            == [NavLink("rules.html", true), NavLink("rules.html#x", true)]
  {
    assert '.' in "rules.html" by { assert "rules.html"[5] == '.'; }
    ContainsInfix("", "rules.html", "#x");
    assert "" + "rules.html" + "#x" == "rules.html#x";
  }

  /**
   * A section id marks the in-page anchor and an anchor into another page, but not a page
   * whose name merely contains the id.
   */
  lemma SectionKeyMatches()
    ensures Matches("#features", "features")
    ensures Matches("home.html#features", "features")
    ensures !Matches("features.html", "features")
  {
    var key, anchor := "features", "#features";
    assert '.' !in key by {
      assert forall k :: 0 <= k < |key| ==> key[k] != '.';
    }
    assert "#" + key == anchor;
    var other := "home.html#features";
    assert other[|other| - |anchor|..] == anchor;
    var page := "features.html";
    assert page[|page| - |anchor|] != '#';
    assert !EndsWith(page, anchor) && page != anchor && page != key;
  }
}
