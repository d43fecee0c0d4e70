/**
 The textual path tests of the sandbox: is a resolved path inside an allowed directory,
 or a dotfile of the user's home?  Both compare strings; both are meant to compare path
 components.
 */
module SandboxPaths {
  import opened Options
  import opened ClosureHash
  import opened ClosureTable

  const DOT: Byte := 46

  /** A path component. */
  predicate IsName(name: CString) {
    name != [] && SLASH !in name
  }

  predicate AreNames(names: seq<CString>) {
    forall n :: n in names ==> IsName(n)
  }

  function Joined(names: seq<CString>): CString {
    if names == [] then [] else [SLASH] + names[0] + Joined(names[1..])
  }

  /** The canonical absolute path with these components, as `realpath` writes it. */
  function Rendered(names: seq<CString>): CString {
    if names == [] then [SLASH] else Joined(names)
  }

  ghost predicate Canonical(path: CString) {
    exists names :: AreNames(names) && path == Rendered(names)
  }

  /** The components of a canonical path. */
  ghost function Components(path: CString): (names: seq<CString>)
    requires Canonical(path)
    ensures AreNames(names) && path == Rendered(names)
  {
    var names :| AreNames(names) && path == Rendered(names);
    names
  }

  // ---------------------------------------------------------------------------
  // The tests, as written
  // ---------------------------------------------------------------------------

  /** `strncmp(path, dir, strlen(dir)) == 0`, and the match ends on a component boundary. */
  predicate Within(path: CString, dir: CString) {
    dir <= path && (|path| == |dir| || path[|dir|] == SLASH)
  }

  predicate HomeDotfile(path: CString, home: CString) {
    home <= path && |path| > |home| && path[|home|] == SLASH && |path| > |home| + 1 && path[|home| + 1] == DOT
  }

  // ---------------------------------------------------------------------------
  // They are component tests
  // ---------------------------------------------------------------------------

  lemma JoinedStart(names: seq<CString>)
    requires AreNames(names)
    ensures Joined(names) == [] <==> names == []
    ensures names != [] ==> Joined(names)[0] == SLASH
  {
  }

  /** The first name of a joined path ends where the next slash, or the path, does. */
  lemma FirstName(names: seq<CString>)
    requires AreNames(names) && names != []
    ensures var s := Joined(names);
            var n := |names[0]|;
            && |s| >= n + 1 && s[1..n + 1] == names[0]
            && s[n + 1..] == Joined(names[1..])
            && (forall i :: 1 <= i < n + 1 ==> s[i] != SLASH)
            && (|s| == n + 1 || s[n + 1] == SLASH)
  {
    var s := Joined(names);
    var n := |names[0]|;
    assert IsName(names[0]);
    assert s[1..n + 1] == names[0];
    assert s[n + 1..] == Joined(names[1..]);
    forall i | 1 <= i < n + 1 ensures s[i] != SLASH {
      assert s[i] == names[0][i - 1];
      assert names[0][i - 1] in names[0];
    }
    if names[1..] != [] {
      JoinedStart(names[1..]);
      assert s[n + 1] == s[n + 1..][0];
    }
  }

  lemma {:induction false} WithinJoined(path: seq<CString>, dir: seq<CString>)
    requires AreNames(path) && AreNames(dir)
    ensures Within(Joined(path), Joined(dir)) <==> dir <= path
    decreases |dir|
  {
    var p, d := Joined(path), Joined(dir);
    if dir == [] {
      JoinedStart(path);
    } else if path == [] {
      JoinedStart(dir);
    } else {
      FirstName(path);
      FirstName(dir);
      WithinJoined(path[1..], dir[1..]);
      var n, m := |path[0]|, |dir[0]|;
      assert path == [path[0]] + path[1..] && dir == [dir[0]] + dir[1..];
      if path[0] == dir[0] {
        SamePrefix(p[..n + 1], p[n + 1..], d[n + 1..]);
        assert p == p[..n + 1] + p[n + 1..];
        assert d == p[..n + 1] + d[n + 1..];
        assert dir <= path <==> dir[1..] <= path[1..];
      } else if Within(p, d) {
        WithinSameFirstName(p, d, n, m);
      }
    }
  }

  lemma SamePrefix(head: CString, p: CString, d: CString)
    ensures Within(head + p, head + d) <==> Within(p, d)
  {
    assert (head + p)[|head|..] == p && (head + d)[|head|..] == d;
    if head + d <= head + p {
      assert (head + p)[..|head + d|][|head|..] == p[..|d|];
      assert d <= p;
    }
  }

  /** A string within another has the same first name. */
  lemma WithinSameFirstName(p: CString, d: CString, n: nat, m: nat)
    requires n + 1 <= |p| && m + 1 <= |d| && Within(p, d)
    requires forall i :: 1 <= i < n + 1 ==> p[i] != SLASH
    requires forall i :: 1 <= i < m + 1 ==> d[i] != SLASH
    requires (|p| == n + 1 || p[n + 1] == SLASH) && (|d| == m + 1 || d[m + 1] == SLASH)
    ensures n == m && p[1..n + 1] == d[1..m + 1]
  {
    assert forall i :: 0 <= i < |d| ==> p[i] == d[i];
  }

  /**
   Inside an allowed directory other than the root, the string test is exactly the
   component test; the root directory admits only itself.
   */
  lemma WithinIsComponentPrefix(path: seq<CString>, dir: seq<CString>)
    requires AreNames(path) && AreNames(dir)
    ensures Within(Rendered(path), Rendered(dir)) <==> if dir == [] then path == [] else dir <= path
  {
    WithinJoined(path, dir);
    if dir == [] {
      if path != [] {
        FirstName(path);
        assert IsName(path[0]);
      }
    } else if path == [] {
      FirstName(dir);
      assert IsName(dir[0]);
    }
  }

  /** Distinct component lists are rendered differently. */
  lemma RenderedInjective(a: seq<CString>, b: seq<CString>)
    requires AreNames(a) && AreNames(b) && Rendered(a) == Rendered(b)
    ensures a == b
  {
    WithinIsComponentPrefix(a, b);
    WithinIsComponentPrefix(b, a);
    assert Within(Rendered(a), Rendered(b));
  }

  /** Components are well determined: they are what the path was rendered from. */
  lemma ComponentsOfRendered(names: seq<CString>)
    requires AreNames(names)
    ensures Canonical(Rendered(names)) && Components(Rendered(names)) == names
  {
    assert Canonical(Rendered(names));
    RenderedInjective(Components(Rendered(names)), names);
  }

  /** A path component that starts with a dot. */
  predicate Hidden(name: CString) {
    name != [] && name[0] == DOT
  }

  /** What follows the home in a path beneath it. */
  lemma BeneathHome(path: seq<CString>, home: seq<CString>)
    requires AreNames(path) && AreNames(home) && home != [] && home < path
    ensures var p, h := Rendered(path), Rendered(home);
            && h <= p && |p| > |h| + 1 && p[|h|] == SLASH
            && (p[|h| + 1] == DOT <==> Hidden(path[|home|]))
  {
    var p, h := Rendered(path), Rendered(home);
    var rest := path[|home|..];
    assert path == home + rest;
    JoinedAppend(home, rest);
    FirstName(rest);
    assert IsName(rest[0]);
    assert p[|h|..] == Joined(rest);
    assert p[|h| + 1] == Joined(rest)[1] == Joined(rest)[1..|rest[0]| + 1][0];
  }

  /** A home dotfile is a path whose first component beneath the home starts with a dot. */
  lemma HomeDotfileIsHiddenEntry(path: seq<CString>, home: seq<CString>)
    requires AreNames(path) && AreNames(home)
    ensures HomeDotfile(Rendered(path), Rendered(home))
            <==> home != [] && home < path && Hidden(path[|home|])
  {
    var p, h := Rendered(path), Rendered(home);
    WithinIsComponentPrefix(path, home);
    assert HomeDotfile(p, h) ==> Within(p, h) && p != h;
    assert home <= path ==> home == path || home < path;
    if home != [] && home < path {
      BeneathHome(path, home);
    }
  }

  lemma {:induction false} JoinedAppend(a: seq<CString>, b: seq<CString>)
    ensures Joined(a + b) == Joined(a) + Joined(b)
  {
    if a == [] {
      assert a + b == b;
    } else {
      assert (a + b)[1..] == a[1..] + b;
      JoinedAppend(a[1..], b);
    }
  }

  // ---------------------------------------------------------------------------
  // The scan of the allow-list
  // ---------------------------------------------------------------------------

  /** Some allowed directory contains `path`, component-wise. */
  ghost predicate AllowedBy(path: CString, dir: Option<CString>)
    requires Canonical(path) && (dir.Some? ==> Canonical(dir.value))
  {
    dir.Some? && (if Components(dir.value) == [] then Components(path) == []
                  else Components(dir.value) <= Components(path))
  }

  /**
   `check_allowed_basenames`, given what each allowed directory resolves to, `None`
   standing for one that does not exist.
   */
  method CheckAllowedBasenames(path: CString, resolved: seq<Option<CString>>) returns (allowed: bool)
    requires Canonical(path)
    requires forall i :: 0 <= i < |resolved| && resolved[i].Some? ==> Canonical(resolved[i].value)
    ensures allowed <==> exists i :: 0 <= i < |resolved| && AllowedBy(path, resolved[i])
  {
    for i := 0 to |resolved|
      invariant forall j :: 0 <= j < i ==> !AllowedBy(path, resolved[j])
    {
      match resolved[i]
      case None =>
      case Some(dir) =>
        WithinIsComponentPrefix(Components(path), Components(dir));
        if Within(path, dir) {
          assert AllowedBy(path, resolved[i]);
          return true;
        }
    }
    return false;
  }
}
