/** The list-plus-name-index shape shared by `ResourceManager<AType>`
    (`m_lstResources`/`m_mapResources`) and `ParameterManager`
    (`m_lstParameters`/`m_mapParameters`): an `Array` of members in order
    and a `HashMap` from each member's name to the member. Members are
    identities (`nat`), each carrying one name. */
module Registries {
  import opened Sequences

  /** The list and the name index describe the same members, one to one,
      and every member's identity is below `nextId`. */
  ghost predicate Registered(members: seq<nat>, byName: map<string, nat>, names: map<nat, string>, nextId: nat)
  {
    && NoDups(members)
    && (forall r | r in members ::
          r < nextId && r in names && names[r] in byName && byName[names[r]] == r)
    && (forall n | n in byName :: byName[n] in names && names[byName[n]] == n)
    && (forall r | r in names :: r in members)
  }

  /** The name index without the entries for the members in `gone`. */
  function NamesWithout(byName: map<string, nat>, gone: set<nat>): map<string, nat>
  {
    map n | n in byName && byName[n] !in gone :: byName[n]
  }

  /** A name stays in the index exactly when its member stays. */
  lemma NamesWithoutIs(byName: map<string, nat>, gone: set<nat>)
    ensures forall n :: n in NamesWithout(byName, gone) <==> n in byName && byName[n] !in gone
    ensures forall n | n in NamesWithout(byName, gone) :: NamesWithout(byName, gone)[n] == byName[n]
  {
  }

  /** Splits a list into the entries outside and inside `gone`, keeping
      their order. */
  method Split(l: seq<nat>, gone: set<nat>) returns (kept: seq<nat>, removed: seq<nat>)
    ensures kept == Without(l, gone) && removed == Only(l, gone)
  {
    kept, removed := [], [];
    for i := 0 to |l|
      invariant kept == Without(l[..i], gone)
      invariant removed == Only(l[..i], gone)
    {
      assert l[..i + 1][..i] == l[..i];
      if l[i] in gone {
        removed := removed + [l[i]];
      } else {
        kept := kept + [l[i]];
      }
    }
    assert l[..|l|] == l;
  }

  /** Registering a new member under a free name keeps the list and the
      index in correspondence. */
  lemma RegisterKeeps(members: seq<nat>, byName: map<string, nat>, names: map<nat, string>, nextId: nat,
                      r: nat, name: string)
    requires Registered(members, byName, names, nextId)
    requires r !in members && name !in byName
    ensures Registered(members + [r], byName[name := r], names[r := name], if r < nextId then nextId else r + 1)
  {
    assert NoDups(members + [r]) by {
      assert multiset(members + [r]) == multiset(members) + multiset{r};
      assert multiset(members)[r] == 0;
    }
  }

  /** Unregistering any set of members keeps the list and the index in
      correspondence. */
  lemma UnregisterKeeps(members: seq<nat>, byName: map<string, nat>, names: map<nat, string>, nextId: nat,
                        gone: set<nat>)
    requires Registered(members, byName, names, nextId)
    ensures Registered(Without(members, gone), NamesWithout(byName, gone), names - gone, nextId)
  {
    WithoutKeepsNoDups(members, gone);
    NamesWithoutIs(byName, gone);
  }

  /** Unregistering one member drops exactly its own name from the index. */
  lemma UnregisterOne(members: seq<nat>, byName: map<string, nat>, names: map<nat, string>, nextId: nat,
                      r: nat)
    requires Registered(members, byName, names, nextId) && r in members
    ensures NamesWithout(byName, {r}) == byName - {names[r]}
  {
    NamesWithoutIs(byName, {r});
    var m := NamesWithout(byName, {r});
    forall n | n in byName
      ensures n in m <==> n != names[r]
    {
    }
  }

  /** Unregistering every member leaves nothing behind. */
  lemma UnregisterAll(members: seq<nat>, byName: map<string, nat>, names: map<nat, string>, nextId: nat,
                      gone: set<nat>)
    requires Registered(members, byName, names, nextId)
    requires forall r | r in members :: r in gone
    ensures Without(members, gone) == []
    ensures NamesWithout(byName, gone) == map[]
  {
    WithoutAll(members, gone);
    NamesWithoutIs(byName, gone);
    assert forall n | n in byName :: byName[n] in gone;
  }

  /** Reordering the list keeps the correspondence. */
  lemma PermuteKeeps(members: seq<nat>, reordered: seq<nat>, byName: map<string, nat>, names: map<nat, string>,
                     nextId: nat)
    requires Registered(members, byName, names, nextId)
    requires multiset(reordered) == multiset(members)
    ensures Registered(reordered, byName, names, nextId)
  {
    assert forall r :: r in reordered <==> r in members by {
      forall r
        ensures r in reordered <==> r in members
      {
        assert r in reordered <==> r in multiset(reordered);
        assert r in members <==> r in multiset(members);
      }
    }
  }

  /** Renaming a member to a free name keeps the correspondence. */
  lemma RenameKeeps(members: seq<nat>, byName: map<string, nat>, names: map<nat, string>, nextId: nat,
                    r: nat, name: string)
    requires Registered(members, byName, names, nextId)
    requires r in members && name !in byName
    ensures Registered(members, (byName - {names[r]})[name := r], names[r := name], nextId)
  {
  }

  /** The names in use that are at least `len` characters long. */
  function NamesAtLeast(byName: map<string, nat>, len: nat): (s: set<string>)
    ensures forall k :: k in s <==> k in byName && |k| >= len
  {
    set k | k in byName && |k| >= len
  }

  /** A subset is no larger than its superset. */
  lemma {:induction false} SubsetSmaller<T>(a: set<T>, b: set<T>)
    requires a <= b
    ensures |a| <= |b|
    decreases |b|
  {
    if b != {} {
      var x :| x in b;
      SubsetSmaller(a - {x}, b - {x});
    }
  }

  /** A name no member carries: `base`, followed by as many underscores as
      it takes to be free. */
  method FreshName(byName: map<string, nat>, base: string) returns (n: string)
    requires base != ""
    ensures n != "" && n !in byName
    ensures |n| >= |base| && n[..|base|] == base
  {
    n := base;
    while n in byName
      invariant |n| >= |base| && n[..|base|] == base
      decreases |NamesAtLeast(byName, |n|)|
    {
      var longer, current := NamesAtLeast(byName, |n| + 1), NamesAtLeast(byName, |n|);
      assert n in current && longer <= current - {n};
      SubsetSmaller(longer, current - {n});
      assert (n + "_")[..|base|] == n[..|base|];
      n := n + "_";
    }
  }
}
