/** The loadable manager's list of base directories and its lookups by file
    extension (`PLCore::LoadableManager`). Base directories are kept as
    normalised URLs in registration order; the order is the search priority. */
module Loadables {
  import opened Sequences

  // ---------------------------------------------------------------------
  // List operations the base-directory methods are specified by
  // ---------------------------------------------------------------------

  /** The list after registering x: appended at the end unless already there. */
  function Added<T(==)>(l: seq<T>, x: T): (r: seq<T>)
    ensures x in r && l <= r
    ensures |r| == if x in l then |l| else |l| + 1
  {
    if x in l then l else l + [x]
  }

  /** The list with the first occurrence of x taken out, if there is one. */
  function Removed<T(==)>(l: seq<T>, x: T): (r: seq<T>)
    ensures |r| == if x in l then |l| - 1 else |l|
    ensures forall y :: y in r ==> y in l
  {
    if x in l then l[..IndexOf(l, x)] + l[IndexOf(l, x) + 1..] else l
  }

  /** The list after asking for f to take priority over s: when the first f
      sits after the first s, f takes the place of that s and s follows it
      directly; the entries between move one place up. */
  function Reordered<T(==)>(l: seq<T>, f: T, s: T): (r: seq<T>)
    requires f in l && s in l
    ensures |r| == |l|
  {
    var i := IndexOf(l, f);
    var j := IndexOf(l, s);
    if i > j then l[..j] + [f, s] + l[j + 1..i] + l[i + 1..] else l
  }

  /** The elements of s that pass p, in order. */
  function Filter<T(!new)>(s: seq<T>, p: T -> bool): (r: seq<T>)
    ensures |r| <= |s|
    ensures forall x :: x in r <==> x in s && p(x)
  {
    if s == [] then []
    else
      var r0 := Filter(s[..|s| - 1], p);
      assert forall x :: x in s <==> x in s[..|s| - 1] || x == s[|s| - 1];
      r0 + (if p(s[|s| - 1]) then [s[|s| - 1]] else [])
  }

  /** The elements of l other than f and s, in order. */
  function Others<T(==)>(l: seq<T>, f: T, s: T): seq<T>
  {
    if l == [] then []
    else
      var last := l[|l| - 1];
      Others(l[..|l| - 1], f, s) + (if last != f && last != s then [last] else [])
  }

  lemma {:induction false} OthersConcat<T>(a: seq<T>, b: seq<T>, f: T, s: T)
    ensures Others(a + b, f, s) == Others(a, f, s) + Others(b, f, s)
  {
    if b != [] {
      var b0 := b[..|b| - 1];
      assert (a + b)[..|a + b| - 1] == a + b0;
      OthersConcat(a, b0, f, s);
    } else {
      assert a + b == a;
    }
  }

  /** Removing at i, overwriting j with f and inserting s after it (the
      `RemoveAtIndex`, `ReplaceAtIndex` and `AddAtIndex` calls) is the
      reorder. */
  lemma ReorderSteps<T>(l: seq<T>, i: nat, j: nat, f: T, s: T)
    requires j < i < |l|
    ensures var t := (l[..i] + l[i + 1..])[j := f];
      t[..j + 1] + [s] + t[j + 1..] == l[..j] + [f, s] + l[j + 1..i] + l[i + 1..]
  {
    var t := (l[..i] + l[i + 1..])[j := f];
    assert t[..j + 1] == l[..j] + [f];
    assert t[j + 1..] == l[j + 1..i] + l[i + 1..];
  }

  // ---------------------------------------------------------------------
  // What the list operations keep
  // ---------------------------------------------------------------------

  /** Registering keeps a list free of duplicates. */
  lemma AddedKeepsNoDups<T>(l: seq<T>, x: T)
    requires NoDups(l)
    ensures NoDups(Added(l, x))
  {
    if x !in l {
      assert multiset(l)[x] == 0;
    }
  }

  /** Removal takes out exactly one copy of a present element. */
  lemma RemovedMultiset<T>(l: seq<T>, x: T)
    ensures multiset(Removed(l, x)) == multiset(l) - multiset{x}
    ensures x in l ==> |Removed(l, x)| == |l| - 1
  {
    if x in l {
      var i := IndexOf(l, x);
      assert l == l[..i] + [x] + l[i + 1..];
    } else {
      assert multiset(l)[x] == 0;
    }
  }

  /** In a list without duplicates, removal takes the entry out for good,
      keeps every other entry, and keeps the list free of duplicates. */
  lemma RemovedFromNoDups<T>(l: seq<T>, x: T)
    requires NoDups(l)
    ensures x !in Removed(l, x)
    ensures forall y :: y in Removed(l, x) <==> y in l && y != x
    ensures NoDups(Removed(l, x))
  {
    RemovedMultiset(l, x);
    var r := Removed(l, x);
    forall y
      ensures y in r <==> y in l && y != x
    {
      assert y in r <==> y in multiset(r);
      assert y in l <==> y in multiset(l);
    }
  }

  /** The reorder only moves entries: the result is a permutation. */
  lemma ReorderedPermutes<T>(l: seq<T>, f: T, s: T)
    requires f in l && s in l
    ensures multiset(Reordered(l, f, s)) == multiset(l)
  {
    var i := IndexOf(l, f);
    var j := IndexOf(l, s);
    if i > j {
      assert l == l[..j] + [s] + l[j + 1..i] + [f] + l[i + 1..];
    }
  }

  /** Being a permutation, the reorder keeps a list free of duplicates. */
  lemma ReorderedKeepsNoDups<T>(l: seq<T>, f: T, s: T)
    requires f in l && s in l && NoDups(l)
    ensures NoDups(Reordered(l, f, s))
  {
    ReorderedPermutes(l, f, s);
  }

  /** After the reorder, f comes no later than s; when f was after s, f now
      holds the place s held and s comes right after it. */
  lemma ReorderedPlaces<T>(l: seq<T>, f: T, s: T)
    requires f in l && s in l
    ensures var r := Reordered(l, f, s);
      f in r && s in r && IndexOf(r, f) <= IndexOf(r, s)
    ensures IndexOf(l, f) > IndexOf(l, s) ==>
      var r := Reordered(l, f, s);
      IndexOf(r, f) == IndexOf(l, s) && IndexOf(r, s) == IndexOf(l, s) + 1
  {
    var i := IndexOf(l, f);
    var j := IndexOf(l, s);
    var r := Reordered(l, f, s);
    if i > j {
      assert f != s;
      assert r[..j] == l[..j];
      assert l[..j] == l[..i][..j];
      IndexOfIs(r, f, j);
      assert r[..j + 1] == l[..j] + [f];
      IndexOfIs(r, s, j + 1);
    }
  }

  /** Asking again for the same priority changes nothing. */
  lemma ReorderedIdempotent<T>(l: seq<T>, f: T, s: T)
    requires f in l && s in l
    ensures var r := Reordered(l, f, s);
      f in r && s in r && Reordered(r, f, s) == r
  {
    ReorderedPlaces(l, f, s);
  }

  /** Every entry other than f and s keeps its relative order. */
  lemma ReorderedKeepsOthers<T>(l: seq<T>, f: T, s: T)
    requires f in l && s in l
    ensures Others(Reordered(l, f, s), f, s) == Others(l, f, s)
  {
    var i := IndexOf(l, f);
    var j := IndexOf(l, s);
    if i > j {
      var a, m, b := l[..j], l[j + 1..i], l[i + 1..];
      assert l == a + [s] + m + [f] + b;
      OthersSwap(a, m, b, f, s);
    }
  }

  /** Moving f and s around between the same other entries leaves the
      other entries as they are. */
  lemma OthersSwap<T>(a: seq<T>, m: seq<T>, b: seq<T>, f: T, s: T)
    ensures Others(a + [f, s] + m + b, f, s) == Others(a + [s] + m + [f] + b, f, s)
  {
    OthersConcat(a + [s] + m + [f], b, f, s);
    OthersConcat(a + [s] + m, [f], f, s);
    OthersConcat(a + [s], m, f, s);
    OthersConcat(a, [s], f, s);
    OthersOne(s, f, s);
    OthersOne(f, f, s);
    OthersConcat(a + [f, s] + m, b, f, s);
    OthersConcat(a + [f, s], m, f, s);
    OthersConcat(a + [f], [s], f, s);
    assert a + [f, s] == a + [f] + [s];
    OthersConcat(a, [f], f, s);
  }

  lemma OthersOne<T>(x: T, f: T, s: T)
    ensures Others([x], f, s) == if x != f && x != s then [x] else []
  {
    assert [x][..0] == [];
  }

  // ---------------------------------------------------------------------
  // The manager
  // ---------------------------------------------------------------------

  /** The manager, over the registered loadable types and loaders. URL
      handling is a parameter: `getUrl` stands for `Url(p).GetUrl()` and
      `isDirectory` for `Url(u).IsDirectory()`. */
  class LoadableManager<LoadableType(!new), Loader(!new)> {
    const getUrl: string -> string
    const isDirectory: string -> bool
    const types: seq<LoadableType>
    const loaders: seq<Loader>
    var baseDirs: seq<string>

    constructor(getUrl: string -> string, isDirectory: string -> bool,
                types: seq<LoadableType>, loaders: seq<Loader>)
      ensures this.getUrl == getUrl && this.isDirectory == isDirectory
      ensures this.types == types && this.loaders == loaders
      ensures baseDirs == []
    {
      this.getUrl := getUrl;
      this.isDirectory := isDirectory;
      this.types := types;
      this.loaders := loaders;
      baseDirs := [];
    }

    /** The corrected form of a path: its URL, with a '/' appended unless
        the URL already denotes a directory. */
    function Corrected(path: string): string
    {
      var url := getUrl(path);
      if isDirectory(url) then url else url + "/"
    }

    /** `GetTypesByExtension`: appends to `lstTypes`, in registration order,
        each type that has a loader for the extension (`hasLoader`). */
    method GetTypesByExtension(hasLoader: LoadableType -> bool, lstTypes: seq<LoadableType>)
      returns (r: seq<LoadableType>)
      ensures r == lstTypes + Filter(types, hasLoader)
    {
      r := lstTypes;
      for i := 0 to |types|
        invariant r == lstTypes + Filter(types[..i], hasLoader)
      {
        assert types[..i + 1][..i] == types[..i];
        if hasLoader(types[i]) {
          r := r + [types[i]];
        }
      }
      assert types[..|types|] == types;
    }

    /** `GetLoadersByExtension`: appends to `lstLoaders`, in registration
        order, each loader that supports the extension (`supports`). */
    method GetLoadersByExtension(supports: Loader -> bool, lstLoaders: seq<Loader>)
      returns (r: seq<Loader>)
      ensures r == lstLoaders + Filter(loaders, supports)
    {
      r := lstLoaders;
      for i := 0 to |loaders|
        invariant r == lstLoaders + Filter(loaders[..i], supports)
      {
        assert loaders[..i + 1][..i] == loaders[..i];
        if supports(loaders[i]) {
          r := r + [loaders[i]];
        }
      }
      assert loaders[..|loaders|] == loaders;
    }

    /** `IsBaseDir`: whether the corrected path is registered. */
    method IsBaseDir(path: string) returns (r: bool)
      ensures r <==> Corrected(path) in baseDirs
    {
      var valid := Corrected(path);
      for i := 0 to |baseDirs|
        invariant valid !in baseDirs[..i]
      {
        if baseDirs[i] == valid {
          return true;
        }
        assert baseDirs[..i + 1] == baseDirs[..i] + [baseDirs[i]];
      }
      assert baseDirs[..|baseDirs|] == baseDirs;
      return false;
    }

    /** `AddBaseDir`: registers the corrected path at the end unless it is
        already registered; always succeeds. */
    method AddBaseDir(path: string) returns (ok: bool)
      modifies this
      ensures ok
      ensures baseDirs == Added(old(baseDirs), Corrected(path))
    {
      var valid := Corrected(path);
      for i := 0 to |baseDirs|
        invariant valid !in baseDirs[..i]
      {
        if baseDirs[i] == valid {
          return true;
        }
        assert baseDirs[..i + 1] == baseDirs[..i] + [baseDirs[i]];
      }
      assert baseDirs[..|baseDirs|] == baseDirs;
      baseDirs := baseDirs + [valid];
      return true;
    }

    /** `SetBaseDirPriority`: identical arguments succeed at once; otherwise
        both corrected paths must be registered, and the first is moved in
        front of the second when it is behind it. */
    method SetBaseDirPriority(firstPath: string, secondPath: string) returns (ok: bool)
      modifies this
      ensures firstPath == secondPath ==> ok
      ensures firstPath != secondPath ==>
        (ok <==> Corrected(firstPath) in old(baseDirs) && Corrected(secondPath) in old(baseDirs))
      ensures baseDirs == if firstPath != secondPath && ok
        then Reordered(old(baseDirs), Corrected(firstPath), Corrected(secondPath))
        else old(baseDirs)
    {
      if firstPath == secondPath {
        return true;
      }
      var validFirst := Corrected(firstPath);
      var validSecond := Corrected(secondPath);
      var nFirst := 0;
      while nFirst < |baseDirs|
        invariant 0 <= nFirst <= |baseDirs|
        invariant baseDirs == old(baseDirs)
        invariant validSecond !in baseDirs || validFirst !in baseDirs[..nFirst]
      {
        if baseDirs[nFirst] == validFirst {
          var nSecond := 0;
          while nSecond < |baseDirs|
            invariant 0 <= nSecond <= |baseDirs|
            invariant validSecond !in baseDirs[..nSecond]
          {
            if baseDirs[nSecond] == validSecond {
              IndexOfIs(baseDirs, validFirst, nFirst);
              IndexOfIs(baseDirs, validSecond, nSecond);
              if nFirst > nSecond {
                var t := baseDirs[..nFirst] + baseDirs[nFirst + 1..];
                t := t[nSecond := validFirst];
                t := t[..nSecond + 1] + [validSecond] + t[nSecond + 1..];
                ReorderSteps(baseDirs, nFirst, nSecond, validFirst, validSecond);
                assert t == Reordered(baseDirs, validFirst, validSecond);
                baseDirs := t;
              }
              return true;
            }
            assert baseDirs[..nSecond + 1] == baseDirs[..nSecond] + [baseDirs[nSecond]];
            nSecond := nSecond + 1;
          }
          assert baseDirs[..|baseDirs|] == baseDirs;
        }
        assert baseDirs[..nFirst + 1] == baseDirs[..nFirst] + [baseDirs[nFirst]];
        nFirst := nFirst + 1;
      }
      assert baseDirs[..|baseDirs|] == baseDirs;
      return false;
    }

    /** `RemoveBaseDir(path)`: unregisters the corrected path; fails, changing
        nothing, when it is not registered. */
    method RemoveBaseDir(path: string) returns (ok: bool)
      modifies this
      ensures ok <==> Corrected(path) in old(baseDirs)
      ensures baseDirs == Removed(old(baseDirs), Corrected(path))
    {
      var valid := Corrected(path);
      for i := 0 to |baseDirs|
        invariant valid !in baseDirs[..i]
        invariant baseDirs == old(baseDirs)
      {
        if valid == baseDirs[i] {
          IndexOfIs(baseDirs, valid, i);
          baseDirs := baseDirs[..i] + baseDirs[i + 1..];
          return true;
        }
        assert baseDirs[..i + 1] == baseDirs[..i] + [baseDirs[i]];
      }
      assert baseDirs[..|baseDirs|] == baseDirs;
      return false;
    }
  }
}
