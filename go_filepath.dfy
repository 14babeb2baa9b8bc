/** The functions of Go's `path/filepath` package that the extractor uses, for a
    system whose separator is '/'. */
module GoFilepath {

  const Separator: char := '/'

  /** `filepath.Ext`: the suffix of `path` that starts at the last '.' of the final
      '/'-separated element, or "" when that element has no '.'. */
  function Ext(path: string): (r: string)
    ensures |r| <= |path| && r == path[|path| - |r|..]
    ensures r != [] ==> r[0] == '.'
    ensures forall k :: |path| - |r| < k < |path| ==> path[k] != '.' && path[k] != Separator
    ensures r == [] ==> forall k :: 0 <= k < |path| && path[k] == '.' ==> Separator in path[k + 1..]
  {
    ExtFrom(path, |path|)
  }

  /** The backward scan of `filepath.Ext`, positioned just before index `i`: every
      character from `i` on is already known to be neither '.' nor '/'. */
  function ExtFrom(path: string, i: nat): (r: string)
    requires i <= |path|
    requires forall k :: i <= k < |path| ==> path[k] != '.' && path[k] != Separator
    ensures |r| <= |path| && r == path[|path| - |r|..]
    ensures r != [] ==> r[0] == '.'
    ensures forall k :: |path| - |r| < k < |path| ==> path[k] != '.' && path[k] != Separator
    ensures r == [] ==> forall k :: 0 <= k < |path| && path[k] == '.' ==> Separator in path[k + 1..]
    decreases i
  {
    if i == 0 then []
    else if path[i - 1] == Separator then
      forall k | 0 <= k < i - 1 && path[k] == '.' ensures Separator in path[k + 1..] {
        assert path[k + 1..][i - 2 - k] == Separator;
      }
      []
    else if path[i - 1] == '.' then path[i - 1..]
    else ExtFrom(path, i - 1)
  }

  /** `strings.Split(path, "/")`: n separators give n + 1 elements, empty ones included. */
  function Split(path: string): (elems: seq<string>)
    ensures |elems| >= 1
  {
    SplitFrom(path, [])
  }

  /** Splits `rest`, with `current` the part of the pending element already read; joining
      the elements with "/" gives back `current + rest`. */
  function SplitFrom(rest: string, current: string): (elems: seq<string>)
    ensures |elems| >= 1
    ensures JoinElems(elems) == current + rest
    decreases |rest|
  {
    if rest == [] then
      assert current + rest == current;
      [current]
    else if rest[0] == Separator then
      var tail := SplitFrom(rest[1..], []);
      JoinElemsCons(current, tail);
      assert current + [Separator] + (rest[1..]) == current + rest;
      [current] + tail
    else
      assert current + [rest[0]] + rest[1..] == current + rest;
      SplitFrom(rest[1..], current + [rest[0]])
  }

  /** The lexical resolution of `filepath.Clean` over path elements: empty and "."
      elements vanish, ".." removes the element before it, a leading ".." stays in a
      relative path and vanishes at the root of a rooted one. */
  function Resolve(elems: seq<string>, rooted: bool, kept: seq<string>): seq<string>
    decreases |elems|
  {
    if elems == [] then kept
    else
      var e := elems[0];
      if e == "" || e == "." then Resolve(elems[1..], rooted, kept)
      else if e == ".." then
        if kept != [] && kept[|kept| - 1] != ".." then Resolve(elems[1..], rooted, kept[..|kept| - 1])
        else if rooted then Resolve(elems[1..], rooted, kept)
        else Resolve(elems[1..], rooted, kept + [".."])
      else Resolve(elems[1..], rooted, kept + [e])
  }

  /** `strings.Join(elems, "/")`. */
  function JoinElems(elems: seq<string>): string
  {
    if elems == [] then []
    else if |elems| == 1 then elems[0]
    else elems[0] + [Separator] + JoinElems(elems[1..])
  }

  /** Joining puts a separator after the first of two or more elements. */
  lemma JoinElemsCons(first: string, rest: seq<string>)
    requires rest != []
    ensures JoinElems([first] + rest) == first + [Separator] + JoinElems(rest)
  {
    assert ([first] + rest)[1..] == rest;
  }

  /** `filepath.Clean`: the shortest lexically equivalent path; "." for an empty result. */
  function Clean(path: string): (r: string)
    ensures r != []
  {
    if path == [] then "."
    else
      var rooted := path[0] == Separator;
      var body := JoinElems(Resolve(Split(path), rooted, []));
      if rooted then [Separator] + body
      else if body == [] then "."
      else body
  }

  /** `filepath.Join(dir, name)`: the non-empty arguments joined by '/', then cleaned. */
  function Join(dir: string, name: string): string
  {
    if dir == [] && name == [] then []
    else if dir == [] then Clean(name)
    else Clean(dir + [Separator] + name)
  }

  /** A single path element that cleaning leaves alone. */
  predicate IsPlainName(name: string)
  {
    name != [] && Separator !in name && name != "." && name != ".."
  }

  lemma {:induction false} SplitFromPlain(a: string, rest: string, current: string)
    requires Separator !in a
    ensures SplitFrom(a + rest, current) == SplitFrom(rest, current + a)
    decreases |a|
  {
    if a != [] {
      assert (a + rest)[0] == a[0] && (a + rest)[1..] == a[1..] + rest;
      assert a[0] in a;
      assert Separator !in a[1..] by {
        forall c | c in a[1..] ensures c in a { }
      }
      SplitFromPlain(a[1..], rest, current + [a[0]]);
      assert current + [a[0]] + a[1..] == current + a;
    } else {
      assert a + rest == rest && current + a == current;
    }
  }

  /** Splitting "a/rest" yields the element a followed by the elements of rest. */
  lemma SplitElement(a: string, rest: string)
    requires Separator !in a
    ensures Split(a + [Separator] + rest) == [a] + Split(rest)
  {
    assert a + [Separator] + rest == a + ([Separator] + rest);
    SplitFromPlain(a, [Separator] + rest, []);
    assert ([Separator] + rest)[1..] == rest;
    assert [] + a == a;
  }

  /** Splitting a path without separators yields that path as its only element. */
  lemma SplitPlain(a: string)
    requires Separator !in a
    ensures Split(a) == [a]
  {
    SplitFromPlain(a, [], []);
    assert a + [] == a && [] + a == a;
  }

  /** Cleaning a relative path joins its resolved elements. */
  lemma CleanRelative(path: string, resolved: seq<string>)
    requires path != [] && path[0] != Separator
    requires Resolve(Split(path), false, []) == resolved && JoinElems(resolved) != []
    ensures Clean(path) == JoinElems(resolved)
  {
  }

  /** Cleaning a plain name returns it unchanged. */
  lemma CleanPlainName(name: string)
    requires IsPlainName(name)
    ensures Clean(name) == name
  {
    SplitPlain(name);
    assert name[0] in name;
    assert [] + [name] == [name];
    assert Resolve([name], false, []) == Resolve([], false, [name]) == [name];
  }

  /** Joining two plain names puts exactly one separator between them. */
  lemma JoinPlainNames(dir: string, name: string)
    requires IsPlainName(dir) && IsPlainName(name)
    ensures Join(dir, name) == dir + [Separator] + name
  {
    SplitElement(dir, name);
    SplitPlain(name);
    assert dir[0] in dir;
    assert (dir + [Separator] + name)[0] == dir[0];
    assert [dir, name][1..] == [name] && [] + [dir] == [dir] && [dir] + [name] == [dir, name];
    assert Resolve([name], false, [dir]) == Resolve([], false, [dir, name]) == [dir, name];
    assert Resolve([dir, name], false, []) == [dir, name];
    assert Split(dir + [Separator] + name) == [dir, name];
    assert JoinElems([dir, name]) == dir + [Separator] + JoinElems([name]);
    assert Clean(dir + [Separator] + name) == JoinElems([dir, name]);
  }

  /** No element of the list holds a separator. */
  predicate NoSeparators(elems: seq<string>)
  {
    forall i :: 0 <= i < |elems| ==> Separator !in elems[i]
  }

  /** The shape `Resolve` leaves: no element is empty or ".", every ".." comes before
      every other element, and a rooted path keeps no "..". */
  predicate IsResolved(elems: seq<string>, rooted: bool)
  {
    && (forall i :: 0 <= i < |elems| ==> elems[i] != "" && elems[i] != ".")
    && (forall i, j :: 0 <= i < j < |elems| && elems[j] == ".." ==> elems[i] == "..")
    && (rooted ==> forall i :: 0 <= i < |elems| ==> elems[i] != "..")
  }

  /** Splitting on the separator leaves no separator inside an element. */
  lemma {:induction false} SplitFromNoSeparators(rest: string, current: string)
    requires Separator !in current
    ensures NoSeparators(SplitFrom(rest, current))
    decreases |rest|
  {
    if rest == [] {
    } else if rest[0] == Separator {
      SplitFromNoSeparators(rest[1..], []);
    } else {
      assert Separator !in current + [rest[0]];
      SplitFromNoSeparators(rest[1..], current + [rest[0]]);
    }
  }

  /** `strings.Join(strings.Split(path, "/"), "/") == path`. */
  lemma JoinSplit(path: string)
    ensures JoinElems(Split(path)) == path
  {
    assert [] + path == path;
  }

  /** Splitting a join of separator-free elements gives back the elements. */
  lemma {:induction false} SplitJoin(elems: seq<string>)
    requires elems != [] && NoSeparators(elems)
    ensures Split(JoinElems(elems)) == elems
    decreases |elems|
  {
    assert Separator !in elems[0];
    if |elems| == 1 {
      SplitPlain(elems[0]);
    } else {
      assert NoSeparators(elems[1..]) by {
        forall i | 0 <= i < |elems[1..]| ensures Separator !in elems[1..][i] {
          assert elems[1..][i] == elems[i + 1];
        }
      }
      SplitJoin(elems[1..]);
      SplitElement(elems[0], JoinElems(elems[1..]));
      assert [elems[0]] + elems[1..] == elems;
    }
  }

  /** `Resolve` builds a resolved, separator-free list from separator-free elements. */
  lemma {:induction false} ResolveIsResolved(elems: seq<string>, rooted: bool, kept: seq<string>)
    requires IsResolved(kept, rooted) && NoSeparators(kept) && NoSeparators(elems)
    ensures IsResolved(Resolve(elems, rooted, kept), rooted)
    ensures NoSeparators(Resolve(elems, rooted, kept))
    decreases |elems|
  {
    if elems != [] {
      var e := elems[0];
      assert Separator !in e;
      assert NoSeparators(elems[1..]) by {
        forall i | 0 <= i < |elems[1..]| ensures Separator !in elems[1..][i] {
          assert elems[1..][i] == elems[i + 1];
        }
      }
      if e == "" || e == "." {
        ResolveIsResolved(elems[1..], rooted, kept);
      } else if e == ".." {
        if kept != [] && kept[|kept| - 1] != ".." {
          var shorter := kept[..|kept| - 1];
          assert forall i :: 0 <= i < |shorter| ==> shorter[i] == kept[i];
          ResolveIsResolved(elems[1..], rooted, shorter);
        } else if rooted {
          ResolveIsResolved(elems[1..], rooted, kept);
        } else {
          var longer := kept + [".."];
          assert forall i :: 0 <= i < |kept| ==> kept[i] == ".." by {
            forall i | 0 <= i < |kept| ensures kept[i] == ".." {
              if i < |kept| - 1 {
                assert kept[|kept| - 1] == "..";
              }
            }
          }
          assert forall i :: 0 <= i < |longer| ==> longer[i] == "..";
          assert Separator !in "..";
          ResolveIsResolved(elems[1..], rooted, longer);
        }
      } else {
        ResolveIsResolved(elems[1..], rooted, kept + [e]);
      }
    }
  }

  /** `Resolve` leaves an already resolved list as it is. */
  lemma {:induction false} ResolveResolved(elems: seq<string>, rooted: bool, kept: seq<string>)
    requires IsResolved(kept + elems, rooted)
    ensures Resolve(elems, rooted, kept) == kept + elems
    decreases |elems|
  {
    var all := kept + elems;
    if elems == [] {
      assert all == kept;
    } else {
      var e := elems[0];
      assert all[|kept|] == e;
      assert kept + [e] + elems[1..] == all;
      if e == ".." && kept != [] {
        assert all[|kept| - 1] == kept[|kept| - 1];
      }
      ResolveResolved(elems[1..], rooted, kept + [e]);
    }
  }

  /** The joined elements start with the first element. */
  lemma JoinElemsStart(elems: seq<string>)
    requires elems != [] && elems[0] != []
    ensures JoinElems(elems) != [] && JoinElems(elems)[0] == elems[0][0]
  {
  }

  /** Cleaning a rooted, resolved path again changes nothing. */
  lemma CleanRootedResolved(resolved: seq<string>)
    requires IsResolved(resolved, true) && NoSeparators(resolved)
    ensures Clean([Separator] + JoinElems(resolved)) == [Separator] + JoinElems(resolved)
  {
    var body := JoinElems(resolved);
    SplitElement([], body);
    assert [] + [Separator] + body == [Separator] + body;
    if resolved == [] {
      assert Split(body) == [[]];
      assert Resolve([[], []], true, []) == [];
    } else {
      SplitJoin(resolved);
      assert [] + resolved == resolved;
      ResolveResolved(resolved, true, []);
      assert ([[]] + resolved)[1..] == resolved;
    }
  }

  /** Cleaning a relative, resolved path with a non-empty join again changes nothing. */
  lemma CleanRelativeResolved(resolved: seq<string>)
    requires IsResolved(resolved, false) && NoSeparators(resolved) && JoinElems(resolved) != []
    ensures Clean(JoinElems(resolved)) == JoinElems(resolved)
  {
    JoinElemsStart(resolved);
    assert Separator !in resolved[0];
    assert resolved[0][0] in resolved[0];
    SplitJoin(resolved);
    assert [] + resolved == resolved;
    ResolveResolved(resolved, false, []);
  }

  /** `filepath.Clean` is idempotent: a cleaned path is already clean. */
  lemma CleanIdempotent(path: string)
    ensures Clean(Clean(path)) == Clean(path)
  {
    SplitPlain(".");
    assert Resolve(["."], false, []) == [];
    assert Clean(".") == ".";
    if path != [] {
      var rooted := path[0] == Separator;
      var resolved := Resolve(Split(path), rooted, []);
      SplitFromNoSeparators(path, []);
      ResolveIsResolved(Split(path), rooted, []);
      if rooted {
        CleanRootedResolved(resolved);
      } else if JoinElems(resolved) != [] {
        CleanRelativeResolved(resolved);
      }
    }
  }
}
