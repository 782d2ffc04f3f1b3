/** List facts shared by the containers that keep their entries in an
    `Array` (`m_lstBaseDirs`, `m_lstResources`, `m_lstParameters`): first
    occurrences, duplicate-freedom, removal of a set of entries, and the
    move of one entry to another index. */
module Sequences {

  /** The index of the first occurrence of x in l. */
  function IndexOf<T(==)>(l: seq<T>, x: T): (i: nat)
    requires x in l
    ensures i < |l| && l[i] == x && x !in l[..i]
  {
    if l[0] == x then 0 else assert l[1..][..IndexOf(l[1..], x)] == l[1..IndexOf(l[1..], x) + 1]; 1 + IndexOf(l[1..], x)
  }

  /** A position holding x with no earlier x is the first occurrence. */
  lemma IndexOfIs<T>(l: seq<T>, x: T, i: nat)
    requires i < |l| && l[i] == x && x !in l[..i]
    ensures x in l && IndexOf(l, x) == i
  {
  }

  /** Every element occurs once. */
  predicate NoDups<T(==)>(l: seq<T>)
  {
    forall x | x in multiset(l) :: multiset(l)[x] == 1
  }

  /** The entries of l outside gone, in order. */
  function Without<T(==,!new)>(l: seq<T>, gone: set<T>): (r: seq<T>)
    ensures forall x :: x in r <==> x in l && x !in gone
  {
    if l == [] then []
    else
      var last := l[|l| - 1];
      assert forall x :: x in l <==> x in l[..|l| - 1] || x == last;
      Without(l[..|l| - 1], gone) + (if last in gone then [] else [last])
  }

  /** The entries of l inside gone, in order. */
  function Only<T(==,!new)>(l: seq<T>, gone: set<T>): (r: seq<T>)
    ensures forall x :: x in r <==> x in l && x in gone
  {
    if l == [] then []
    else
      var last := l[|l| - 1];
      assert forall x :: x in l <==> x in l[..|l| - 1] || x == last;
      Only(l[..|l| - 1], gone) + (if last in gone then [last] else [])
  }

  /** Every entry is either kept or taken out, so the two counts add up. */
  lemma {:induction false} WithoutOnlySplit<T(!new)>(l: seq<T>, gone: set<T>)
    ensures |Without(l, gone)| + |Only(l, gone)| == |l|
    ensures multiset(Without(l, gone)) + multiset(Only(l, gone)) == multiset(l)
  {
    if l != [] {
      var init, last := l[..|l| - 1], l[|l| - 1];
      assert l == init + [last];
      WithoutOnlySplit(init, gone);
      var w, o := Without(init, gone), Only(init, gone);
      var kept: seq<T>, taken: seq<T> := if last in gone then [] else [last], if last in gone then [last] else [];
      assert Without(l, gone) == w + kept && Only(l, gone) == o + taken;
      assert multiset(kept) + multiset(taken) == multiset{last};
      MultisetSplit(init, last, w, o, kept, taken);
    }
  }

  /** Bookkeeping step of the split: adding the last entry to one side. */
  lemma MultisetSplit<T>(init: seq<T>, last: T, w: seq<T>, o: seq<T>, kept: seq<T>, taken: seq<T>)
    requires multiset(w) + multiset(o) == multiset(init)
    requires multiset(kept) + multiset(taken) == multiset{last}
    ensures multiset(w + kept) + multiset(o + taken) == multiset(init + [last])
    ensures |w + kept| + |o + taken| == |init + [last]|
  {
    assert |multiset(w)| + |multiset(o)| == |multiset(init)|;
    assert |multiset{last}| == 1;
  }

  /** Taking out every entry leaves nothing. */
  lemma {:induction false} WithoutAll<T(!new)>(l: seq<T>, gone: set<T>)
    requires forall x | x in l :: x in gone
    ensures Without(l, gone) == []
  {
    if l != [] {
      WithoutAll(l[..|l| - 1], gone);
    }
  }

  /** Picking out every entry keeps the whole list. */
  lemma {:induction false} OnlyAll<T(!new)>(l: seq<T>, gone: set<T>)
    requires forall x | x in l :: x in gone
    ensures Only(l, gone) == l
  {
    if l != [] {
      OnlyAll(l[..|l| - 1], gone);
      assert l == l[..|l| - 1] + [l[|l| - 1]];
    }
  }

  /** Taking entries out keeps a list free of duplicates. */
  lemma WithoutKeepsNoDups<T(!new)>(l: seq<T>, gone: set<T>)
    requires NoDups(l)
    ensures NoDups(Without(l, gone))
  {
    WithoutOnlySplit(l, gone);
    var w := multiset(Without(l, gone));
    forall x | x in w
      ensures w[x] == 1
    {
      assert x in multiset(l);
    }
  }

  /** Taking one member out of a duplicate-free list removes it for good
      and shortens the list by exactly one. */
  lemma WithoutOne<T(!new)>(l: seq<T>, x: T)
    requires NoDups(l) && x in l
    ensures |Without(l, {x})| == |l| - 1
    ensures x !in Without(l, {x})
    ensures Only(l, {x}) == [x]
  {
    WithoutOnlySplit(l, {x});
    var o := Only(l, {x});
    assert multiset(o)[x] <= multiset(l)[x] == 1;
    assert multiset(o) == multiset{x} by {
      forall y
        ensures multiset(o)[y] == multiset{x}[y]
      {
        if y != x {
          assert y !in o;
        }
      }
    }
    assert |multiset(o)| == 1;
    assert o == [o[0]];
  }

  /** The list after moving the entry at `from` to index `to`: it is taken
      out and inserted again so that it ends up at `to`. */
  function Moved<T>(l: seq<T>, from: nat, to: nat): (r: seq<T>)
    requires from < |l| && to < |l|
    ensures |r| == |l|
  {
    var rest := l[..from] + l[from + 1..];
    rest[..to] + [l[from]] + rest[to..]
  }

  /** A move only permutes the list, puts the moved entry at its target,
      and keeps the other entries in their relative order. */
  lemma MovedPermutes<T>(l: seq<T>, from: nat, to: nat)
    requires from < |l| && to < |l|
    ensures multiset(Moved(l, from, to)) == multiset(l)
    ensures Moved(l, from, to)[to] == l[from]
    ensures var r := Moved(l, from, to);
      r[..to] + r[to + 1..] == l[..from] + l[from + 1..]
  {
    var rest := l[..from] + l[from + 1..];
    assert l == l[..from] + [l[from]] + l[from + 1..];
    assert multiset(l) == multiset(rest) + multiset{l[from]};
    assert rest == rest[..to] + rest[to..];
    assert multiset(rest) == multiset(rest[..to]) + multiset(rest[to..]);
    var r := Moved(l, from, to);
    assert r[..to] == rest[..to];
    assert r[to + 1..] == rest[to..];
  }

  /** Moving an entry to where it is changes nothing, and moving it back
      undoes the move. */
  lemma MovedBack<T>(l: seq<T>, from: nat, to: nat)
    requires from < |l| && to < |l|
    ensures Moved(l, from, from) == l
    ensures Moved(Moved(l, from, to), to, from) == l
  {
    assert l == l[..from] + [l[from]] + l[from + 1..];
    MovedPermutes(l, from, to);
    var r := Moved(l, from, to);
    var rest := r[..to] + r[to + 1..];
    assert rest == l[..from] + l[from + 1..];
    assert Moved(r, to, from) == rest[..from] + [r[to]] + rest[from..];
    assert rest[..from] == l[..from];
    assert rest[from..] == l[from + 1..];
  }
}
