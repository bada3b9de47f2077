/**
 The lexical path operations of Go's `path/filepath` on Unix (`Clean`, `Join`)
 and the two string tests of the `strings` package the extractor relies on
 (`HasPrefix`, `HasSuffix`), written out on `seq<char>`.

 `Clean` is stated as Go documents it: split the path at '/', drop empty and
 "." elements, let ".." cancel the element before it (or vanish right after
 the root), keep unmatched leading ".." in a relative path, and render the
 result with a leading '/' for a rooted path and as "." when nothing is left.
 */
module Paths {

  const Separator: char := '/'

  predicate HasPrefix(s: string, prefix: string) {
    |prefix| <= |s| && s[..|prefix|] == prefix
  }

  predicate HasSuffix(s: string, suffix: string) {
    |suffix| <= |s| && s[|s| - |suffix|..] == suffix
  }

  predicate Rooted(p: string) {
    |p| > 0 && p[0] == Separator
  }

  /** `strings.Split(p, "/")`: the pieces between separators, empty ones included. */
  function Split(p: string): (parts: seq<string>)
    ensures |parts| >= 1
    ensures forall i :: 0 <= i < |parts| ==> Separator !in parts[i]
  {
    if p == [] then [[]]
    else
      var rest := Split(p[1..]);
      if p[0] == Separator then [[]] + rest
      else [[p[0]] + rest[0]] + rest[1..]
  }

  /** `strings.Join(parts, "/")`. */
  function JoinElems(parts: seq<string>): string
  {
    if parts == [] then []
    else if |parts| == 1 then parts[0]
    else parts[0] + [Separator] + JoinElems(parts[1..])
  }

  /** An element that survives cleaning as itself. */
  predicate IsName(e: string) {
    e != [] && e != "." && e != ".." && Separator !in e
  }

  predicate AllNames(elems: seq<string>) {
    forall i :: 0 <= i < |elems| ==> IsName(elems[i])
  }

  lemma AllNamesAppend(a: seq<string>, b: seq<string>)
    requires AllNames(a) && AllNames(b)
    ensures AllNames(a + b)
  {
    assert forall i :: |a| <= i < |a + b| ==> (a + b)[i] == b[i - |a|];
  }

  /** A stack of elements `Clean` can produce: a run of ".." followed by names,
      and no ".." at all below the root. */
  predicate Resolved(stack: seq<string>, rooted: bool) {
    && (forall i :: 0 <= i < |stack| ==> IsName(stack[i]) || stack[i] == "..")
    && (forall i, j :: 0 <= i < j < |stack| && stack[j] == ".." ==> stack[i] == "..")
    && (rooted ==> forall i :: 0 <= i < |stack| ==> stack[i] != "..")
  }

  /** One element of the cleaning pass. */
  function Push(stack: seq<string>, e: string, rooted: bool): seq<string>
  {
    if e == [] || e == "." then stack
    else if e == ".." then
      if |stack| > 0 && stack[|stack| - 1] != ".." then stack[..|stack| - 1]
      else if rooted then stack
      else stack + [".."]
    else stack + [e]
  }

  /** The cleaning pass over `elems`, left to right, starting from `stack`. */
  function ResolveFrom(stack: seq<string>, elems: seq<string>, rooted: bool): seq<string>
    decreases |elems|
  {
    if elems == [] then stack
    else ResolveFrom(Push(stack, elems[0], rooted), elems[1..], rooted)
  }

  /** `filepath.Clean(p)`. */
  function Clean(p: string): (c: string)
    ensures |c| > 0
    ensures Rooted(c) <==> Rooted(p)
  {
    if p == [] then "."
    else
      var rooted := p[0] == Separator;
      var stack := ResolveFrom([], Split(p), rooted);
      var body := JoinElems(stack);
      ResolveFromKeepsResolved([], Split(p), rooted);
      JoinElemsFirst(stack);
      if rooted then [Separator] + body
      else if body == [] then "."
      else body
  }

  /** `filepath.Join(d, t)`: empty leading arguments are skipped, the rest are
      joined with '/' and the result is cleaned; all-empty gives "". */
  function Join(d: string, t: string): (j: string)
    ensures j == [] <==> d == [] && t == []
    ensures d != [] ==> j == Clean(d + [Separator] + t)
    ensures d == [] && t != [] ==> j == Clean(t)
  {
    if d != [] then Clean(d + [Separator] + t)
    else if t != [] then Clean(t)
    else []
  }

  // ---------------------------------------------------------------------------
  // Split and JoinElems are inverse to each other.

  lemma {:induction false} JoinElemsFirst(parts: seq<string>)
    requires forall i :: 0 <= i < |parts| ==> IsName(parts[i]) || parts[i] == ".."
    ensures parts == [] <==> JoinElems(parts) == []
    ensures parts != [] ==> JoinElems(parts)[0] != Separator
  {
    if |parts| > 1 {
      JoinElemsFirst(parts[1..]);
    }
  }

  /** Joining the pieces of a split gives the path back. */
  lemma {:induction false} JoinSplit(p: string)
    ensures JoinElems(Split(p)) == p
  {
    if p != [] {
      JoinSplit(p[1..]);
      var rest := Split(p[1..]);
      if p[0] == Separator {
        assert ([[]] + rest)[1..] == rest;
      } else {
        var parts := [[p[0]] + rest[0]] + rest[1..];
        if |rest| == 1 {
          assert parts == [[p[0]] + rest[0]];
        } else {
          assert parts[1..] == rest[1..];
          assert JoinElems(rest) == rest[0] + [Separator] + JoinElems(rest[1..]);
        }
      }
    }
  }

  /** How Split takes the first character off. */
  lemma SplitCons(c: char, p: string)
    ensures c == Separator ==> Split([c] + p) == [[]] + Split(p)
    ensures c != Separator ==> Split([c] + p) == [[c] + Split(p)[0]] + Split(p)[1..]
  {
    assert ([c] + p)[1..] == p;
  }

  /** A separator in the middle splits into the pieces of either side. */
  lemma {:induction false} SplitAround(a: string, b: string)
    ensures Split(a + [Separator] + b) == Split(a) + Split(b)
  {
    if a == [] {
      assert a + [Separator] + b == [Separator] + b;
      SplitCons(Separator, b);
    } else {
      var c, tail := a[0], a[1..];
      assert a == [c] + tail;
      assert a + [Separator] + b == [c] + (tail + [Separator] + b);
      SplitAround(tail, b);
      SplitCons(c, tail + [Separator] + b);
      SplitCons(c, tail);
      if c != Separator {
        HeadMerge([c], Split(tail), Split(b));
      }
    }
  }

  /** Prefixing the first piece of a concatenation prefixes the first piece of its left part. */
  lemma HeadMerge(x: string, left: seq<string>, right: seq<string>)
    requires |left| >= 1
    ensures [x + (left + right)[0]] + (left + right)[1..] == [x + left[0]] + left[1..] + right
  {
    assert (left + right)[0] == left[0];
    assert (left + right)[1..] == left[1..] + right;
  }

  lemma {:induction false} SplitNoSeparator(p: string)
    requires Separator !in p
    ensures Split(p) == [p]
  {
    if p != [] {
      SplitNoSeparator(p[1..]);
      assert [p[0]] + p[1..] == p;
    }
  }

  /** Splitting a join of separator-free pieces gives the pieces back. */
  lemma {:induction false} SplitJoin(parts: seq<string>)
    requires |parts| >= 1
    requires forall i :: 0 <= i < |parts| ==> Separator !in parts[i]
    ensures Split(JoinElems(parts)) == parts
  {
    if |parts| == 1 {
      SplitNoSeparator(parts[0]);
    } else {
      SplitJoin(parts[1..]);
      SplitAround(parts[0], JoinElems(parts[1..]));
      SplitNoSeparator(parts[0]);
      assert [parts[0]] + parts[1..] == parts;
    }
  }

  lemma {:induction false} JoinElemsAppend(s: seq<string>, n: seq<string>)
    requires |s| > 0 && |n| > 0
    ensures JoinElems(s + n) == JoinElems(s) + [Separator] + JoinElems(n)
  {
    if |s| == 1 {
      assert (s + n)[1..] == n;
    } else {
      JoinElemsAppend(s[1..], n);
      assert (s + n)[1..] == s[1..] + n;
    }
  }

  // ---------------------------------------------------------------------------
  // The cleaning pass.

  lemma PushKeepsResolved(stack: seq<string>, e: string, rooted: bool)
    requires Resolved(stack, rooted)
    requires Separator !in e
    ensures Resolved(Push(stack, e, rooted), rooted)
  {
  }

  /** Cleaning only ever produces stacks of the resolved shape. */
  lemma {:induction false} ResolveFromKeepsResolved(stack: seq<string>, elems: seq<string>, rooted: bool)
    requires Resolved(stack, rooted)
    requires forall i :: 0 <= i < |elems| ==> Separator !in elems[i]
    ensures Resolved(ResolveFrom(stack, elems, rooted), rooted)
    decreases |elems|
  {
    if elems != [] {
      PushKeepsResolved(stack, elems[0], rooted);
      ResolveFromKeepsResolved(Push(stack, elems[0], rooted), elems[1..], rooted);
    }
  }

  /** Cleaning `a + b` is cleaning `b` from where cleaning `a` stopped. */
  lemma {:induction false} ResolveFromAppend(stack: seq<string>, a: seq<string>, b: seq<string>, rooted: bool)
    ensures ResolveFrom(stack, a + b, rooted) == ResolveFrom(ResolveFrom(stack, a, rooted), b, rooted)
    decreases |a|
  {
    if a != [] {
      assert (a + b)[0] == a[0];
      assert (a + b)[1..] == a[1..] + b;
      var next := Push(stack, a[0], rooted);
      ResolveFromAppend(next, a[1..], b, rooted);
      assert ResolveFrom(stack, a + b, rooted) == ResolveFrom(next, a[1..] + b, rooted);
      assert ResolveFrom(stack, a, rooted) == ResolveFrom(next, a[1..], rooted);
    } else {
      assert a + b == b;
    }
  }

  /** The names among `elems`, in order: what survives of elements without "..". */
  function Names(elems: seq<string>): (r: seq<string>)
  {
    if elems == [] then []
    else if elems[0] == [] || elems[0] == "." then Names(elems[1..])
    else [elems[0]] + Names(elems[1..])
  }

  /** Without "..", cleaning only appends the names, in order. */
  lemma {:induction false} ResolveFromNoDotDot(stack: seq<string>, elems: seq<string>, rooted: bool)
    requires forall i :: 0 <= i < |elems| ==> elems[i] != ".."
    ensures ResolveFrom(stack, elems, rooted) == stack + Names(elems)
    decreases |elems|
  {
    if elems != [] {
      var e, tail := elems[0], elems[1..];
      var next := Push(stack, e, rooted);
      assert forall i :: 0 <= i < |tail| ==> tail[i] == elems[i + 1];
      ResolveFromNoDotDot(next, tail, rooted);
      if e == [] || e == "." {
        assert next == stack;
      } else {
        assert next == stack + [e] by {
          assert e != "..";
        }
        assert Names(elems) == [e] + Names(tail);
        assert stack + [e] + Names(tail) == stack + ([e] + Names(tail));
      }
    }
  }

  /** A stack that is already resolved is left as it is. */
  lemma {:induction false} ResolveFromResolved(stack: seq<string>, rooted: bool)
    requires Resolved(stack, rooted)
    ensures ResolveFrom([], stack, rooted) == stack
  {
    ResolveSnoc(stack, rooted);
  }

  lemma {:induction false} ResolveSnoc(stack: seq<string>, rooted: bool)
    requires Resolved(stack, rooted)
    ensures ResolveFrom([], stack, rooted) == stack
    decreases |stack|
  {
    if stack != [] {
      var n := |stack| - 1;
      var front := stack[..n];
      assert Resolved(front, rooted);
      ResolveSnoc(front, rooted);
      assert stack == front + [stack[n]];
      ResolveFromAppend([], front, [stack[n]], rooted);
      assert [stack[n]][1..] == [];
      if stack[n] == ".." {
        assert !rooted;
        assert forall i :: 0 <= i < n ==> front[i] == "..";
        assert n == 0 || front[n - 1] == "..";
      }
    }
  }

  // ---------------------------------------------------------------------------
  // Properties of Clean and Join.

  /** Cleaning a cleaned path changes nothing. */
  lemma CleanIdempotent(p: string)
    ensures Clean(Clean(p)) == Clean(p)
  {
    if p != [] {
      var rooted := p[0] == Separator;
      var stack := ResolveFrom([], Split(p), rooted);
      var body := JoinElems(stack);
      ResolveFromKeepsResolved([], Split(p), rooted);
      JoinElemsFirst(stack);
      if stack == [] {
        if rooted {
          assert Clean(p) == "/";
          assert Split("/") == [[], []];
        } else {
          assert Clean(p) == ".";
          SplitNoSeparator(".");
        }
      } else {
        SplitJoin(stack);
        ResolveFromResolved(stack, rooted);
        if rooted {
          var c := [Separator] + body;
          assert c[1..] == body;
          assert Split(c) == [[]] + stack;
          assert ResolveFrom([], [[]] + stack, rooted) == ResolveFrom([], stack, rooted);
        } else {
          assert Clean(p) == body;
        }
      }
    }
  }

  /** Cleaning a path does not change the elements the cleaning pass ends with. */
  lemma CleanKeepsStack(p: string)
    requires p != []
    ensures ResolveFrom([], Split(Clean(p)), p[0] == Separator) == ResolveFrom([], Split(p), p[0] == Separator)
  {
    var rooted := p[0] == Separator;
    var stack := ResolveFrom([], Split(p), rooted);
    ResolveFromKeepsResolved([], Split(p), rooted);
    JoinElemsFirst(stack);
    if stack == [] {
      if rooted {
        assert Split("/") == [[], []];
      } else {
        SplitNoSeparator(".");
      }
    } else {
      SplitJoin(stack);
      ResolveFromResolved(stack, rooted);
      if rooted {
        var c := [Separator] + JoinElems(stack);
        assert c[1..] == JoinElems(stack);
        assert Split(c) == [[]] + stack;
        assert ResolveFrom([], [[]] + stack, rooted) == ResolveFrom([], stack, rooted);
      }
    }
  }

  /** Joining to a directory or to its cleaned form gives the same path. */
  lemma JoinCleanDir(d: string, t: string)
    requires d != []
    ensures Join(Clean(d), t) == Join(d, t)
  {
    var c := Clean(d);
    var rooted := d[0] == Separator;
    assert c[0] == Separator <==> rooted;
    SplitAround(d, t);
    SplitAround(c, t);
    ResolveFromAppend([], Split(d), Split(t), rooted);
    ResolveFromAppend([], Split(c), Split(t), rooted);
    CleanKeepsStack(d);
    var p1, p2 := d + [Separator] + t, c + [Separator] + t;
    assert p1[0] == d[0] && p2[0] == c[0];
    assert ResolveFrom([], Split(p1), rooted) == ResolveFrom([], Split(p2), rooted);
  }

  /** A rooted path cleans to the absolute path of the names it resolves to. */
  lemma RootedCleansToAbsolute(d: string)
    requires Rooted(d)
    ensures AllNames(ResolveFrom([], Split(d), true))
    ensures Clean(d) == Absolute(ResolveFrom([], Split(d), true))
  {
    ResolveFromKeepsResolved([], Split(d), true);
  }

  /** A non-empty join is already clean. */
  lemma JoinIsClean(d: string, t: string)
    requires d != [] || t != []
    ensures Clean(Join(d, t)) == Join(d, t)
  {
    if d != [] {
      CleanIdempotent(d + [Separator] + t);
    } else {
      CleanIdempotent(t);
    }
  }

  /** The path elements of `t`, as the cleaning pass sees them, hold no "..". */
  predicate Descends(t: string) {
    forall i :: 0 <= i < |Split(t)| ==> Split(t)[i] != ".."
  }

  /** Joining a rooted directory with a name free of ".." lands on the cleaned
      directory itself or below it: the cleaned directory is a string prefix of
      the join, followed by nothing or by a separator. */
  lemma JoinDescends(d: string, t: string)
    requires Rooted(d)
    requires Descends(t)
    ensures HasPrefix(Join(d, t), Clean(d))
    ensures Join(d, t) == Clean(d) || Clean(d) == "/" || HasPrefix(Join(d, t), Clean(d) + [Separator])
  {
    var sd := Split(d);
    var st := Split(t);
    var path := d + [Separator] + t;
    SplitAround(d, t);
    assert path[0] == Separator;
    ResolveFromAppend([], sd, st, true);
    var s := ResolveFrom([], sd, true);
    ResolveFromNoDotDot(s, st, true);
    var n := Names(st);
    var whole := ResolveFrom([], Split(path), true);
    assert whole == s + n;
    assert Join(d, t) == [Separator] + JoinElems(s + n);
    assert Clean(d) == [Separator] + JoinElems(s);
    if n == [] {
      assert s + n == s;
    } else if s == [] {
      assert s + n == n;
      assert Clean(d) == "/";
    } else {
      JoinElemsAppend(s, n);
      assert Join(d, t) == Clean(d) + [Separator] + JoinElems(n);
    }
  }

  /** `m` parent references in a row. */
  function Ups(m: nat): (r: seq<string>)
    ensures |r| == m
    ensures forall i :: 0 <= i < m ==> r[i] == ".."
  {
    if m == 0 then [] else [".."] + Ups(m - 1)
  }

  /** The stack `m` levels up, stopping at the root. */
  function Climb(stack: seq<string>, m: nat): (r: seq<string>)
    ensures |r| == if m <= |stack| then |stack| - m else 0
    ensures forall i :: 0 <= i < |r| ==> r[i] == stack[i]
  {
    if m <= |stack| then stack[..|stack| - m] else []
  }

  /** Under the root, each ".." removes one element until none is left. */
  lemma {:induction false} ResolveFromUps(stack: seq<string>, m: nat)
    requires Resolved(stack, true)
    ensures ResolveFrom(stack, Ups(m), true) == Climb(stack, m)
  {
    if m > 0 {
      var next := Push(stack, "..", true);
      assert next == if |stack| > 0 then stack[..|stack| - 1] else stack;
      assert Ups(m)[1..] == Ups(m - 1);
      PushKeepsResolved(stack, "..", true);
      ResolveFromUps(next, m - 1);
    }
  }

  lemma {:induction false} NamesOfNames(elems: seq<string>)
    requires AllNames(elems)
    ensures Names(elems) == elems
  {
    if elems != [] {
      NamesOfNames(elems[1..]);
    }
  }

  /** Cleaning a resolved stack further with `m` parent references and then
      plain names. */
  lemma ResolveFromClimb(s: seq<string>, m: nat, names: seq<string>)
    requires Resolved(s, true)
    requires AllNames(names)
    ensures ResolveFrom(s, Ups(m) + names, true) == Climb(s, m) + names
  {
    ResolveFromAppend(s, Ups(m), names, true);
    ResolveFromUps(s, m);
    var up := Climb(s, m);
    ResolveFromNoDotDot(up, names, true);
    NamesOfNames(names);
  }

  lemma UpsThenNames(m: nat, names: seq<string>)
    requires AllNames(names)
    ensures forall i :: 0 <= i < |Ups(m) + names| ==> Separator !in (Ups(m) + names)[i]
  {
    var elems := Ups(m) + names;
    forall i | 0 <= i < |elems|
      ensures Separator !in elems[i]
    {
      if i >= m {
        assert elems[i] == names[i - m];
        assert IsName(names[i - m]);
      } else {
        assert elems[i] == "..";
      }
    }
  }

  /** Joining a rooted directory with `m` parent references followed by plain
      names climbs `m` levels (never above the root) and then descends along
      the names. */
  lemma JoinClimbs(d: string, m: nat, names: seq<string>)
    requires Rooted(d)
    requires m + |names| > 0
    requires AllNames(names)
    ensures Join(d, JoinElems(Ups(m) + names)) == [Separator] + JoinElems(Climb(ResolveFrom([], Split(d), true), m) + names)
  {
    var elems := Ups(m) + names;
    var t := JoinElems(elems);
    var s := ResolveFrom([], Split(d), true);
    ResolveFromKeepsResolved([], Split(d), true);
    UpsThenNames(m, names);
    SplitJoin(elems);
    SplitAround(d, t);
    ResolveFromAppend([], Split(d), elems, true);
    ResolveFromClimb(s, m, names);
    var path := d + [Separator] + t;
    assert path[0] == Separator;
    assert Split(path) == Split(d) + elems;
    var up := Climb(s, m);
    assert ResolveFrom([], Split(path), true) == up + names;
    assert Clean(path) == [Separator] + JoinElems(up + names);
    assert Join(d, t) == Clean(path);
  }

  /** The rooted path whose elements are `names`. */
  function Absolute(names: seq<string>): string
  {
    [Separator] + JoinElems(names)
  }

  /** A rooted path built from names splits and cleans back to those names. */
  lemma AbsoluteResolves(names: seq<string>)
    requires AllNames(names)
    ensures ResolveFrom([], Split(Absolute(names)), true) == names
    ensures Clean(Absolute(names)) == Absolute(names)
  {
    var p := Absolute(names);
    if names == [] {
      assert p == "/";
      assert Split("/") == [[], []];
    } else {
      SplitJoin(names);
      SplitCons(Separator, JoinElems(names));
      assert Split(p) == [[]] + names;
      assert ([[]] + names)[1..] == names;
      ResolveFromNoDotDot([], names, true);
      NamesOfNames(names);
    }
  }

  /** Joining an absolute path with `m` parent references and then plain names. */
  lemma JoinAbsoluteClimbs(s: seq<string>, m: nat, names: seq<string>)
    requires AllNames(s)
    requires AllNames(names)
    requires m + |names| > 0
    ensures Join(Absolute(s), JoinElems(Ups(m) + names)) == Absolute(Climb(s, m) + names)
  {
    AbsoluteResolves(s);
    JoinClimbs(Absolute(s), m, names);
  }

  /** The first element of a join, followed by nothing or by a separator. */
  lemma JoinElemsHead(x: seq<string>)
    requires |x| > 0
    ensures |x| == 1 ==> JoinElems(x) == x[0]
    ensures |x| > 1 ==> JoinElems(x) == x[0] + [Separator] + JoinElems(x[1..])
  {
  }

  lemma JoinElemsSnoc(front: seq<string>, last: string)
    requires |front| > 0
    ensures JoinElems(front + [last]) == JoinElems(front) + [Separator] + last
  {
    JoinElemsAppend(front, [last]);
  }

  /** Growing the last element of an absolute path by `ext` and appending names
      extends the path's text by `ext` and the names. */
  lemma AbsoluteExtends(front: seq<string>, last: string, ext: string, names: seq<string>)
    ensures Absolute(front + [last + ext] + names)
      == Absolute(front + [last]) + ext + (if names == [] then [] else [Separator] + JoinElems(names))
  {
    var grown := [last + ext] + names;
    var rest := if names == [] then [] else [Separator] + JoinElems(names);
    GrownJoin(last + ext, names);
    assert front + [last + ext] + names == front + grown;
    if front != [] {
      ExtendsNonEmpty(front, last, ext, grown, rest);
    } else {
      ExtendsEmpty(last, ext, grown, rest);
    }
  }

  lemma ExtendsEmpty(last: string, ext: string, grown: seq<string>, rest: string)
    requires |grown| > 0
    requires JoinElems(grown) == last + ext + rest
    ensures Absolute(grown) == Absolute([last]) + ext + rest
  {
    assert Absolute([last]) == [Separator] + last by {
      JoinElemsHead([last]);
    }
    Regroup3([Separator], last, ext, rest);
  }

  lemma Regroup3(a: string, b: string, c: string, d: string)
    ensures a + (b + c + d) == (a + b) + c + d
  {
  }

  lemma GrownJoin(first: string, names: seq<string>)
    ensures JoinElems([first] + names) == first + (if names == [] then [] else [Separator] + JoinElems(names))
  {
    assert ([first] + names)[1..] == names;
  }

  lemma ExtendsNonEmpty(front: seq<string>, last: string, ext: string, grown: seq<string>, rest: string)
    requires front != [] && |grown| > 0
    requires JoinElems(grown) == last + ext + rest
    ensures Absolute(front + grown) == Absolute(front + [last]) + ext + rest
  {
    var jf := JoinElems(front);
    JoinElemsAppend(front, grown);
    JoinElemsSnoc(front, last);
    Regroup([Separator], jf, last, ext, rest);
  }

  lemma Regroup(sep: string, a: string, b: string, c: string, d: string)
    ensures sep + (a + sep + (b + c + d)) == (sep + (a + sep + b)) + c + d
  {
  }

  /** Stepping up once from an absolute path and into a sibling whose name
      extends the last element only appends characters to the path. */
  lemma JoinSibling(front: seq<string>, last: string, ext: string, names: seq<string>)
    requires AllNames(front)
    requires IsName(last) && IsName(last + ext)
    requires AllNames(names)
    ensures Join(Absolute(front + [last]), JoinElems([".."] + [last + ext] + names))
      == Absolute(front + [last + ext] + names)
    ensures Absolute(front + [last + ext] + names)
      == Absolute(front + [last]) + ext + (if names == [] then [] else [Separator] + JoinElems(names))
  {
    var s := front + [last];
    var grown := [last + ext] + names;
    assert [".."] + [last + ext] + names == Ups(1) + grown by {
      assert Ups(1) == [".."];
    }
    assert Join(Absolute(s), JoinElems(Ups(1) + grown)) == Absolute(front + grown) by {
      AllNamesAppend(front, [last]);
      AllNamesAppend([last + ext], names);
      JoinAbsoluteClimbs(s, 1, grown);
      assert Climb(s, 1) == front;
    }
    assert front + grown == front + [last + ext] + names;
    AbsoluteExtends(front, last, ext, names);
  }
}
