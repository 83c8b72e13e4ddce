/** The sidebar of the API-backed client: which navigation item is
    highlighted for the current location. */
module Sidebar {

  /** The navigation items' paths, in menu order. */
  const NavPaths: seq<string> := ["/dashboard", "/questions", "/passages", "/analytics", "/categories"]

  /** The root path is highlighted only at the root; any other path whenever
      the location starts with it. */
  predicate IsActive(path: string, location: string) {
    (path == "/" && location == "/") || (path != "/" && path <= location)
  }

  /** The root rule and the prefix rule, and the prefix rule's reach: a
      location that merely begins with a path's letters also highlights it. */
  lemma ActiveRules(path: string, location: string)
    ensures IsActive("/", location) <==> location == "/"
    ensures path != "/" && path <= location ==> IsActive(path, location)
    ensures IsActive("/questions", "/questions/5") && IsActive("/questions", "/questionsX")
  {
    assert "/questions" <= "/questions/5";
    assert "/questions" <= "/questionsX";
  }

  /** At the root no navigation item is highlighted, since none of them is the root. */
  lemma NothingActiveAtRoot()
    ensures forall i :: 0 <= i < |NavPaths| ==> !IsActive(NavPaths[i], "/")
  {
    forall i | 0 <= i < |NavPaths|
      ensures !IsActive(NavPaths[i], "/")
    {
      assert |NavPaths[i]| > 1;
    }
  }

  /** Two prefixes of one string are prefixes of each other. */
  lemma PrefixesNest(a: string, b: string, s: string)
    requires a <= s && b <= s
    ensures a <= b || b <= a
  {
    if |a| <= |b| {
      assert a == s[..|a|] == b[..|a|];
    } else {
      assert b == s[..|b|] == a[..|b|];
    }
  }

  /** The menu's paths differ in their second character, so none is a prefix of another. */
  lemma NoPathPrefixOfAnother(i: int, j: int)
    requires 0 <= i < |NavPaths| && 0 <= j < |NavPaths| && i != j
    ensures !(NavPaths[i] <= NavPaths[j])
  {
    assert NavPaths[i][1] != NavPaths[j][1];
  }

  /** Wherever the user is, at most one navigation item is highlighted. */
  lemma AtMostOneActive(location: string, i: int, j: int)
    requires 0 <= i < |NavPaths| && 0 <= j < |NavPaths| && i != j
    ensures !(IsActive(NavPaths[i], location) && IsActive(NavPaths[j], location))
  {
    if IsActive(NavPaths[i], location) && IsActive(NavPaths[j], location) {
      assert NavPaths[i] != "/" && NavPaths[j] != "/";
      PrefixesNest(NavPaths[i], NavPaths[j], location);
      NoPathPrefixOfAnother(i, j);
      NoPathPrefixOfAnother(j, i);
      assert false;
    }
  }
}
