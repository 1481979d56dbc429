/**
 The part of the site configuration that computes something: the navbar
 items kept for the sidebars that exist, and the docs directory handed to
 the docs preset.
 */
module SiteConfig {

  /** A navbar entry: a link to one of the doc sidebars, or an external link.
      `title` is the item's `label` (a reserved word in Dafny); the fields keep
      the order they are written in the navbar. */
  datatype NavbarItem =
    | DocSidebar(sidebarId: string, position: string, title: string)
    | Href(href: string, title: string, position: string)

  const GitHubItem := Href("https://github.com/procube-open/docusaurus-template", "GitHub", "right")

  /** The navbar as written, before filtering. */
  const OriginalItems: seq<NavbarItem> := [
    DocSidebar("reference", "left", "リファレンス"),
    DocSidebar("release", "left", "リリース"),
    GitHubItem
  ]

  /** The filter callback: a sidebar link survives only if its sidebar is defined. */
  predicate Keep(item: NavbarItem, sidebarIds: set<string>) {
    item.DocSidebar? ==> item.sidebarId in sidebarIds
  }

  /** `items.filter(Keep)`, where `sidebarIds` are the keys of the sidebars module. */
  function FilterItems(items: seq<NavbarItem>, sidebarIds: set<string>): (r: seq<NavbarItem>)
    ensures |r| <= |items|
    ensures forall x :: x in r ==> x in items && Keep(x, sidebarIds)
  {
    if items == [] then []
    else if Keep(items[0], sidebarIds) then [items[0]] + FilterItems(items[1..], sidebarIds)
    else FilterItems(items[1..], sidebarIds)
  }

  /** `a` is `b` with some elements taken out and none reordered. */
  predicate IsSubsequence<T(==)>(a: seq<T>, b: seq<T>)
    decreases |b|
  {
    if a == [] then true
    else if b == [] then false
    else (a[0] == b[0] && IsSubsequence(a[1..], b[1..])) || IsSubsequence(a, b[1..])
  }

  /** An item is in the result exactly when it is in the input and the callback keeps it. */
  lemma {:induction false} FilterMembership(items: seq<NavbarItem>, sidebarIds: set<string>, x: NavbarItem)
    ensures x in FilterItems(items, sidebarIds) <==> x in items && Keep(x, sidebarIds)
  {
    if items != [] {
      FilterMembership(items[1..], sidebarIds, x);
      assert x in items <==> x == items[0] || x in items[1..];
    }
  }

  /** Filtering a concatenation filters each part: the filter looks at one item at a time. */
  lemma {:induction false} FilterAppend(a: seq<NavbarItem>, b: seq<NavbarItem>, sidebarIds: set<string>)
    ensures FilterItems(a + b, sidebarIds) == FilterItems(a, sidebarIds) + FilterItems(b, sidebarIds)
  {
    if a != [] {
      assert (a + b)[0] == a[0] && (a + b)[1..] == a[1..] + b;
      FilterAppend(a[1..], b, sidebarIds);
    } else {
      assert a + b == b;
    }
  }

  /** No deduplication: every copy of a kept item survives, and no copy of a dropped one. */
  lemma {:induction false} FilterCounts(items: seq<NavbarItem>, sidebarIds: set<string>, x: NavbarItem)
    ensures multiset(FilterItems(items, sidebarIds))[x] == if Keep(x, sidebarIds) then multiset(items)[x] else 0
  {
    if items != [] {
      FilterCounts(items[1..], sidebarIds, x);
      assert items == [items[0]] + items[1..];
      assert multiset(items) == multiset([items[0]]) + multiset(items[1..]);
    }
  }

  /** The filter keeps the input order and adds or duplicates nothing. */
  lemma {:induction false} FilterIsSubsequence(items: seq<NavbarItem>, sidebarIds: set<string>)
    ensures IsSubsequence(FilterItems(items, sidebarIds), items)
  {
    if items != [] {
      FilterIsSubsequence(items[1..], sidebarIds);
      var r := FilterItems(items, sidebarIds);
      if Keep(items[0], sidebarIds) {
        assert r[0] == items[0] && r[1..] == FilterItems(items[1..], sidebarIds);
      } else if r != [] {
        assert IsSubsequence(r, items[1..]);
      }
    }
  }

  /** Filtering a second time with the same sidebars changes nothing. */
  lemma {:induction false} FilterIdempotent(items: seq<NavbarItem>, sidebarIds: set<string>)
    ensures FilterItems(FilterItems(items, sidebarIds), sidebarIds) == FilterItems(items, sidebarIds)
  {
    if items != [] {
      FilterIdempotent(items[1..], sidebarIds);
      var rest := FilterItems(items[1..], sidebarIds);
      if Keep(items[0], sidebarIds) {
        assert ([items[0]] + rest)[1..] == rest;
      }
    }
  }

  /** Nothing is dropped exactly when every item passes the callback. */
  lemma {:induction false} FilterKeepsAllIff(items: seq<NavbarItem>, sidebarIds: set<string>)
    ensures |FilterItems(items, sidebarIds)| == |items| <==> forall i :: 0 <= i < |items| ==> Keep(items[i], sidebarIds)
  {
    if items != [] {
      FilterKeepsAllIff(items[1..], sidebarIds);
      assert forall i :: 1 <= i < |items| ==> items[i] == items[1..][i - 1];
    }
  }

  /** The configured navbar loses an item unless both the "reference" and the
      "release" sidebars are defined. */
  lemma NavbarCompleteIff(sidebarIds: set<string>)
    ensures |FilterItems(OriginalItems, sidebarIds)| <= |OriginalItems|
    ensures |FilterItems(OriginalItems, sidebarIds)| == |OriginalItems|
            <==> "reference" in sidebarIds && "release" in sidebarIds
  {
    FilterKeepsAllIff(OriginalItems, sidebarIds);
    assert OriginalItems[0].sidebarId == "reference" && OriginalItems[1].sidebarId == "release";
  }

  /** With no sidebars at all, only the GitHub link remains. */
  lemma NavbarWithoutSidebars()
    ensures FilterItems(OriginalItems, {}) == [GitHubItem]
  {
    var items := OriginalItems;
    assert items[1..][1..] == [GitHubItem] && [GitHubItem][1..] == [];
    assert FilterItems(items[1..][1..], {}) == [GitHubItem];
    assert FilterItems(items[1..], {}) == [GitHubItem];
  }

  /** The variable that overrides the docs directory. */
  const DocsPathVar := "OPS_FRONTIER_DOCS_PATH"

  /** JavaScript `env[key] || fallback` for a string-valued environment:
      an unset or empty variable yields the fallback. */
  function EnvOr(env: map<string, string>, key: string, fallback: string): (r: string)
    ensures r == fallback || (key in env && r == env[key])
    ensures r == fallback <==> key !in env || env[key] == "" || env[key] == fallback
    ensures fallback != "" ==> r != ""
  {
    if key in env && env[key] != "" then env[key] else fallback
  }

  /** The docs directory the docs preset reads. */
  function DocsPath(env: map<string, string>): (r: string)
    ensures r != ""
    ensures DocsPathVar in env && env[DocsPathVar] != "" ==> r == env[DocsPathVar]
    ensures DocsPathVar !in env || env[DocsPathVar] == "" ==> r == "docs"
  {
    EnvOr(env, DocsPathVar, "docs")
  }
}
