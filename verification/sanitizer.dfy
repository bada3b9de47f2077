/**
 The zip-slip guard `sanitizeArchivePath` (recommend/imageHandler.go:107-114).

 The entry name is joined to the extraction root with `filepath.Join`, which
 also cleans the result, and the join is accepted when the cleaned root is a
 prefix of it as a plain string. The test is on characters, not on path
 elements, so a sibling directory whose name extends the root's last element
 passes (`/tmp/a` guards `/tmp/ab/x`); the lemmas below show both the intended
 protection and that gap.
 */
module Sanitizer {
  import opened Results
  import opened Paths

  function SanitizeArchivePath(d: string, t: string): (r: Result<string>)
    ensures r.Success? <==> HasPrefix(Join(d, t), Clean(d))
    ensures r.Success? ==> r.value == Join(d, t)
    ensures r.Success? ==> Clean(r.value) == r.value
    ensures r.Failure? ==> r.error == Tainted(t)
  {
    var v := Join(d, t);
    if HasPrefix(v, Clean(d)) then
      JoinIsClean(d, t);
      Success(v)
    else
      Failure(Tainted(t))
  }

  /** Any entry name without ".." elements is accepted under a rooted root, and
      lands on the root or strictly below it. */
  lemma AcceptsDescendants(d: string, t: string)
    requires Rooted(d)
    requires Descends(t)
    ensures SanitizeArchivePath(d, t).Success?
    ensures var v := SanitizeArchivePath(d, t).value;
      v == Clean(d) || Clean(d) == "/" || HasPrefix(v, Clean(d) + "/")
  {
    JoinDescends(d, t);
  }

  /** The guard gives the same verdict for a root and for its cleaned form, so
      the lemmas below, stated for clean roots, cover every non-empty root. */
  lemma CleanRootSuffices(d: string, t: string)
    requires d != []
    ensures SanitizeArchivePath(d, t) == SanitizeArchivePath(Clean(d), t)
    ensures Rooted(d) ==> exists s :: AllNames(s) && Clean(d) == Absolute(s)
  {
    JoinCleanDir(d, t);
    CleanIdempotent(d);
    if Rooted(d) {
      RootedCleansToAbsolute(d);
    }
  }

  /** Under a clean rooted root, a name that steps into a directory and straight back
      out before descending is accepted: it lands where the names alone lead. */
  lemma AcceptsDetour(s: seq<string>, a: string, names: seq<string>)
    requires AllNames(s) && IsName(a) && AllNames(names)
    ensures SanitizeArchivePath(Absolute(s), JoinElems([a, ".."] + names)) == Success(Absolute(s + names))
  {
    var d := Absolute(s);
    var t := JoinElems([a, ".."] + names);
    assert Join(d, t) == Absolute(s + names) by {
      DetourResolves(s, a, names);
    }
    assert Clean(d) == d by {
      AbsoluteResolves(s);
    }
    AbsoluteGrows(s, names);
  }

  /** Cleaning the root's elements followed by a detour and names. */
  lemma DetourResolves(s: seq<string>, a: string, names: seq<string>)
    requires AllNames(s) && IsName(a) && AllNames(names)
    ensures Join(Absolute(s), JoinElems([a, ".."] + names)) == Absolute(s + names)
  {
    var d := Absolute(s);
    var elems := [a, ".."] + names;
    var t := JoinElems(elems);
    forall i | 0 <= i < |elems|
      ensures Separator !in elems[i]
    {
      if i >= 2 {
        assert elems[i] == names[i - 2];
      }
    }
    SplitJoin(elems);
    SplitAround(d, t);
    AbsoluteResolves(s);
    ResolveFromAppend([], Split(d), elems, true);
    assert ResolveFrom(s, elems, true) == s + names by {
      DetourStack(s, a, names);
    }
    var path := d + [Separator] + t;
    assert path[0] == Separator;
    assert ResolveFrom([], Split(path), true) == s + names;
  }

  /** The cleaning pass: entering `a` and leaving it again returns to `s`. */
  lemma DetourStack(s: seq<string>, a: string, names: seq<string>)
    requires AllNames(s) && IsName(a) && AllNames(names)
    ensures ResolveFrom(s, [a, ".."] + names, true) == s + names
  {
    var up := Ups(1) + names;
    assert [a, ".."] + names == [a] + up by {
      assert Ups(1) == [".."];
    }
    ResolveFromAppend(s, [a], up, true);
    assert ResolveFrom(s, [a], true) == s + [a];
    AllNamesAppend(s, [a]);
    ResolveFromClimb(s + [a], 1, names);
    assert Climb(s + [a], 1) == s;
  }

  /** An absolute path is a string prefix of any path that extends its elements. */
  lemma AbsoluteGrows(s: seq<string>, names: seq<string>)
    ensures HasPrefix(Absolute(s + names), Absolute(s))
  {
    if s == [] {
      assert Absolute(s) == "/";
    } else if names == [] {
      assert s + names == s;
    } else {
      JoinElemsAppend(s, names);
    }
  }

  /** An entry name that climbs to the filesystem root and descends into a
      different top-level directory is refused, provided that directory's name
      does not merely extend the root's only element. */
  lemma RejectsClimbToOtherTop(s: seq<string>, m: nat, names: seq<string>)
    requires |s| > 0 && AllNames(s)
    requires |names| > 0 && AllNames(names)
    requires m >= |s|
    requires names[0] != s[0]
    requires |s| >= 2 || !HasPrefix(names[0], s[0])
    ensures SanitizeArchivePath(Absolute(s), JoinElems(Ups(m) + names)).Failure?
  {
    var d := Absolute(s);
    var t := JoinElems(Ups(m) + names);
    assert Join(d, t) == Absolute(names) by {
      JoinAbsoluteClimbs(s, m, names);
      assert Climb(s, m) + names == names;
    }
    assert Clean(d) == d by {
      AbsoluteResolves(s);
    }
    OtherTopNotPrefix(s, names);
  }

  /** Two absolute paths whose first elements differ are not string prefixes of
      one another, unless the first element of the longer one merely extends
      the other's only element. */
  lemma OtherTopNotPrefix(s: seq<string>, names: seq<string>)
    requires |s| > 0 && AllNames(s)
    requires |names| > 0 && AllNames(names)
    requires names[0] != s[0]
    requires |s| >= 2 || !HasPrefix(names[0], s[0])
    ensures !HasPrefix(Absolute(names), Absolute(s))
  {
    var d, v := Absolute(s), Absolute(names);
    var a, c := s[0], names[0];
    assert IsName(a) && IsName(c);
    JoinElemsHead(s);
    JoinElemsHead(names);
    assert d[1..1 + |a|] == a;
    assert |c| + 1 <= |v| && v[1..1 + |c|] == c;
    if |a| == |c| {
      var k :| 0 <= k < |a| && a[k] != c[k];
      assert v[1 + k] == c[k] && d[1 + k] == a[k];
      Mismatch(v, d, 1 + k);
    } else if |a| < |c| {
      if |s| >= 2 {
        assert d[1 + |a|] == Separator;
        assert v[1 + |a|] == c[|a|];
        Mismatch(v, d, 1 + |a|);
      } else {
        assert c[..|a|] != a;
        var k :| 0 <= k < |a| && a[k] != c[k];
        assert v[1 + k] == c[k] && d[1 + k] == a[k];
        Mismatch(v, d, 1 + k);
      }
    } else {
      assert d[1 + |c|] == a[|c|];
      if |names| == 1 {
        assert |v| < |d|;
      } else {
        assert v[1 + |c|] == Separator;
        Mismatch(v, d, 1 + |c|);
      }
    }
  }

  /** One differing character within the prefix's length rules the prefix out. */
  lemma Mismatch(v: string, d: string, k: nat)
    requires k < |d| && k < |v| && v[k] != d[k]
    ensures !HasPrefix(v, d)
  {
    if |d| <= |v| {
      assert v[..|d|][k] != d[k];
    }
  }

  /** An entry name that steps up once and into a sibling whose name extends
      the root's last element is accepted, although the target is neither the
      root nor below it. */
  lemma AcceptsSiblingExtension(front: seq<string>, last: string, ext: string, names: seq<string>)
    requires AllNames(front)
    requires IsName(last) && ext != [] && IsName(last + ext)
    requires AllNames(names)
    ensures SanitizeArchivePath(Absolute(front + [last]), JoinElems([".."] + [last + ext] + names))
      == Success(Absolute(front + [last + ext] + names))
    ensures var v := Absolute(front + [last + ext] + names);
      v != Absolute(front + [last]) && !HasPrefix(v, Absolute(front + [last]) + [Separator])
  {
    var d := Absolute(front + [last]);
    var v := Absolute(front + [last + ext] + names);
    var rest := if names == [] then [] else [Separator] + JoinElems(names);
    assert Join(d, JoinElems([".."] + [last + ext] + names)) == v && v == d + ext + rest by {
      JoinSibling(front, last, ext, names);
    }
    assert Clean(d) == d by {
      AllNamesAppend(front, [last]);
      AbsoluteResolves(front + [last]);
    }
    assert ext[0] != Separator by {
      assert ext[0] == (last + ext)[|last|];
    }
    ExtensionOnly(d, ext, rest);
  }

  /** Appending text that does not start with a separator keeps the string
      prefix but leaves the directory. */
  lemma ExtensionOnly(d: string, ext: string, rest: string)
    requires ext != [] && ext[0] != Separator
    ensures HasPrefix(d + ext + rest, d)
    ensures d + ext + rest != d
    ensures !HasPrefix(d + ext + rest, d + [Separator])
  {
    var v := d + ext + rest;
    assert v[..|d|] == d;
    assert v[|d|] == ext[0];
    if |d| + 1 <= |v| {
      assert v[..|d| + 1][|d|] == ext[0];
      assert (d + [Separator])[|d|] == Separator;
    }
  }

  /** The classic traversal name is refused: it climbs out of `/tmp/x` to `/etc/passwd`. */
  lemma RejectsTraversal()
    ensures SanitizeArchivePath("/tmp/x", "../../etc/passwd") == Failure(Tainted("../../etc/passwd"))
  {
    var s, names := ["tmp", "x"], ["etc", "passwd"];
    assert Absolute(s) == "/tmp/x" by {
      JoinElemsHead(s);
    }
    assert JoinElems(Ups(2) + names) == "../../etc/passwd" by {
      TraversalName();
    }
    assert AllNames(s) && AllNames(names);
    RejectsClimbToOtherTop(s, 2, names);
  }

  lemma TraversalName()
    ensures JoinElems(Ups(2) + ["etc", "passwd"]) == "../../etc/passwd"
  {
    assert Ups(1) == [".."];
    assert Ups(2) == ["..", ".."];
    var elems := ["..", "..", "etc", "passwd"];
    assert Ups(2) + ["etc", "passwd"] == elems;
    assert elems[1..] == ["..", "etc", "passwd"];
    assert elems[1..][1..] == ["etc", "passwd"];
    assert elems[1..][1..][1..] == ["passwd"];
  }

  /** The string-prefix test lets `/tmp/ab/x` through under the root `/tmp/a`. */
  lemma AcceptsSiblingPrefix()
    ensures SanitizeArchivePath("/tmp/a", "../ab/x") == Success("/tmp/ab/x")
  {
    assert "a" + "b" == "ab";
    assert IsName("ab");
    assert AllNames(["tmp"]) && AllNames(["x"]);
    assert Absolute(["tmp"] + ["a"]) == "/tmp/a" by {
      assert ["tmp"] + ["a"] == ["tmp", "a"];
      JoinElemsHead(["tmp", "a"]);
    }
    assert JoinElems([".."] + ["ab"] + ["x"]) == "../ab/x" by {
      SiblingName();
    }
    assert Absolute(["tmp"] + ["ab"] + ["x"]) == "/tmp/ab/x" by {
      SiblingTarget();
    }
    AcceptsSiblingExtension(["tmp"], "a", "b", ["x"]);
  }

  lemma SiblingName()
    ensures JoinElems([".."] + ["ab"] + ["x"]) == "../ab/x"
  {
    var elems := ["..", "ab", "x"];
    assert [".."] + ["ab"] + ["x"] == elems;
    assert elems[1..] == ["ab", "x"];
    assert elems[1..][1..] == ["x"];
  }

  lemma SiblingTarget()
    ensures Absolute(["tmp"] + ["ab"] + ["x"]) == "/tmp/ab/x"
  {
    var elems := ["tmp", "ab", "x"];
    assert ["tmp"] + ["ab"] + ["x"] == elems;
    assert elems[1..] == ["ab", "x"];
    assert elems[1..][1..] == ["x"];
  }

  /** With the relative root "." every ordinary name is refused: the join drops
      the leading "./" and no longer starts with ".". */
  lemma RejectsUnderDotRoot()
    ensures SanitizeArchivePath(".", "a") == Failure(Tainted("a"))
  {
    SplitJoin([".", "a"]);
    assert JoinElems([".", "a"]) == "./a";
    assert ResolveFrom([], [".", "a"], false) == ["a"];
    SplitNoSeparator(".");
    assert ResolveFrom([], ["."], false) == [];
  }
}
