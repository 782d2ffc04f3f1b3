/** The named resource collection `ResourceManager<AType>`: a resource list
    in insertion order (`m_lstResources`) with a name index
    (`m_mapResources`), an optional standard resource and the
    `EventResourceRemoved` signal.

    A resource is represented by its identity (a `nat` standing for the
    object's address). Whether a resource is protected or still in use is
    decided by the resource itself, in a class outside this model, so those
    two tests are passed in as predicates; whether the concrete manager's
    `CreateResource` succeeds is passed in as a flag. */
module Resources {
  import opened Common
  import opened Sequences
  import opened Registries

  class ResourceManager {
    /** `m_lstResources`, in insertion order. */
    var resources: seq<nat>
    /** `m_mapResources`: every member under its current name. */
    var byName: map<string, nat>
    /** The name each member carries (the resource's own name field). */
    var names: map<nat, string>
    /** `m_pStandardResource`; `None` is the null pointer. */
    var standard: Option<nat>
    /** Every resource `EventResourceRemoved` has been emitted for. */
    var removedEvents: seq<nat>
    /** Identities not yet handed out: every member is below it. */
    var nextId: nat

    /** The list and the name index describe the same members, one to one,
        and the standard resource, when set, is one of them. */
    ghost predicate Valid()
      reads this
    {
      && Registered(resources, byName, names, nextId)
      && (standard.Some? ==> standard.value in resources)
    }

    constructor ()
      ensures Valid()
      ensures resources == [] && byName == map[] && standard == None && removedEvents == []
    {
      resources := [];
      byName := map[];
      names := map[];
      standard := None;
      removedEvents := [];
      nextId := 0;
    }

    /** Number of managed resources. */
    function GetNumOfElements(): (n: nat)
      reads this
      ensures n == |resources|
    {
      |resources|
    }

    /** The resource called `name`, creating a new one when there is none;
        an empty name is replaced by an unused one. `factoryOk` says whether
        the concrete manager could construct the object. */
    method Create(name: string, factoryOk: bool) returns (r: Option<nat>)
      requires Valid()
      modifies this
      ensures Valid()
      ensures name != "" && name in old(byName) ==>
        r == Some(old(byName)[name]) && resources == old(resources) && byName == old(byName)
      ensures (name == "" || name !in old(byName)) && !factoryOk ==>
        r == None && resources == old(resources) && byName == old(byName)
      ensures (name == "" || name !in old(byName)) && factoryOk ==>
        && r.Some? && r.value !in old(resources)
        && resources == old(resources) + [r.value]
        && names[r.value] !in old(byName)
        && (name != "" ==> names[r.value] == name)
        && byName == old(byName)[names[r.value] := r.value]
      ensures standard == old(standard) && removedEvents == old(removedEvents)
    {
      if name != "" && name in byName {
        return Some(byName[name]);
      }
      if !factoryOk {
        return None;
      }
      var n := name;
      if n == "" {
        n := FreshName(byName, "Resource");
      }
      var id := nextId;
      RegisterKeeps(resources, byName, names, nextId, id, n);
      nextId := nextId + 1;
      resources := resources + [id];
      byName := byName[n := id];
      names := names[id := n];
      return Some(id);
    }

    /** Loading a file is creating a resource named after it. */
    method LoadResource(filename: string, factoryOk: bool) returns (r: Option<nat>)
      requires Valid()
      modifies this
      ensures Valid()
      ensures filename != "" && filename in old(byName) ==>
        r == Some(old(byName)[filename]) && |resources| == |old(resources)|
      ensures filename != "" && filename !in old(byName) && factoryOk ==>
        r.Some? && byName == old(byName)[filename := r.value]
        && |resources| == |old(resources)| + 1
      ensures !factoryOk ==> |resources| == |old(resources)|
    {
      r := Create(filename, factoryOk);
    }

    /** Takes the members in `gone` out of the list and the name index,
        returns them in list order, and drops the standard resource when it
        is one of them. No event is emitted and nothing is deleted. */
    method Unregister(gone: set<nat>) returns (removed: seq<nat>)
      requires Valid()
      modifies this
      ensures Valid()
      ensures resources == Without(old(resources), gone)
      ensures removed == Only(old(resources), gone)
      ensures byName == NamesWithout(old(byName), gone)
      ensures names == old(names) - gone
      ensures standard == StandardWithout(old(standard), gone)
      ensures removedEvents == old(removedEvents) && nextId == old(nextId)
    {
      UnregisterKeeps(resources, byName, names, nextId, gone);
      var kept;
      kept, removed := Split(resources, gone);
      resources := kept;
      byName := NamesWithout(byName, gone);
      names := names - gone;
      standard := StandardWithout(standard, gone);
    }

    /** Deletes one resource unless it is protected: it leaves the list and
        the name index, and `EventResourceRemoved` fires for it. */
    method Unload(r: nat, isProtected: nat -> bool) returns (ok: bool)
      requires Valid()
      modifies this
      ensures Valid()
      ensures ok <==> r in old(resources) && !isProtected(r)
      ensures ok ==>
        && resources == Without(old(resources), {r})
        && |resources| == |old(resources)| - 1
        && r !in resources
        && r in old(names) && byName == old(byName) - {old(names)[r]}
        && removedEvents == old(removedEvents) + [r]
        && standard == (if old(standard) == Some(r) then None else old(standard))
      ensures !ok ==>
        resources == old(resources) && byName == old(byName)
        && removedEvents == old(removedEvents) && standard == old(standard)
    {
      if r !in resources || isProtected(r) {
        return false;
      }
      WithoutOne(resources, r);
      UnregisterOne(resources, byName, names, nextId, r);
      var removed := Unregister({r});
      removedEvents := removedEvents + removed;
      return true;
    }

    /** Deletes every unprotected resource that is no longer used and returns
        how many went; one `EventResourceRemoved` fires per deletion. */
    method UnloadUnused(isProtected: nat -> bool, isUnused: nat -> bool) returns (count: nat)
      requires Valid()
      modifies this
      ensures Valid()
      ensures forall r :: r in resources <==> r in old(resources) && (isProtected(r) || !isUnused(r))
      ensures resources == Without(old(resources), Unused(old(resources), isProtected, isUnused))
      ensures byName == NamesWithout(old(byName), Unused(old(resources), isProtected, isUnused))
      ensures names == old(names) - Unused(old(resources), isProtected, isUnused)
      ensures standard == StandardWithout(old(standard), Unused(old(resources), isProtected, isUnused))
      ensures removedEvents == old(removedEvents) + Only(old(resources), Unused(old(resources), isProtected, isUnused))
      ensures nextId == old(nextId)
      ensures |resources| == |old(resources)| - count
      ensures |removedEvents| == |old(removedEvents)| + count
      ensures forall r | r in removedEvents[|old(removedEvents)|..] :: r in old(resources) && isUnused(r) && !isProtected(r)
    {
      var gone := Unused(resources, isProtected, isUnused);
      WithoutOnlySplit(resources, gone);
      var removed := Unregister(gone);
      removedEvents := removedEvents + removed;
      assert removedEvents[|old(removedEvents)|..] == removed;
      count := |removed|;
    }

    /** Deletes every resource, or every unprotected one when
        `protectedToo` is false; one `EventResourceRemoved` fires per
        deletion. */
    method Clear(protectedToo: bool, isProtected: nat -> bool) returns (ok: bool)
      requires Valid()
      modifies this
      ensures Valid()
      ensures ok
      ensures forall r :: r in resources <==> r in old(resources) && !protectedToo && isProtected(r)
      ensures resources == Without(old(resources), Cleared(old(resources), protectedToo, isProtected))
      ensures byName == NamesWithout(old(byName), Cleared(old(resources), protectedToo, isProtected))
      ensures names == old(names) - Cleared(old(resources), protectedToo, isProtected)
      ensures standard == StandardWithout(old(standard), Cleared(old(resources), protectedToo, isProtected))
      ensures removedEvents == old(removedEvents) + Only(old(resources), Cleared(old(resources), protectedToo, isProtected))
      ensures nextId == old(nextId)
      ensures protectedToo ==> resources == [] && byName == map[] && standard == None
      ensures |resources| + |removedEvents| == |old(resources)| + |old(removedEvents)|
    {
      var gone := Cleared(resources, protectedToo, isProtected);
      WithoutOnlySplit(resources, gone);
      if protectedToo {
        UnregisterAll(resources, byName, names, nextId, gone);
      }
      var removed := Unregister(gone);
      removedEvents := removedEvents + removed;
      return true;
    }

    /** The standard resource, `None` when there is none. */
    function GetStandard(): (s: Option<nat>)
      reads this
      requires Valid()
      ensures s.Some? ==> s.value in resources
    {
      standard
    }

    /** Makes a member the standard resource, or clears it with `None`; a
        resource outside the manager is refused. */
    method SetStandard(s: Option<nat>) returns (ok: bool)
      requires Valid()
      modifies this
      ensures Valid()
      ensures ok <==> s.None? || s.value in resources
      ensures standard == if ok then s else old(standard)
      ensures resources == old(resources) && byName == old(byName) && names == old(names)
      ensures removedEvents == old(removedEvents) && nextId == old(nextId)
    {
      if s.Some? && s.value !in resources {
        return false;
      }
      standard := s;
      return true;
    }

    /** The resource at an index, `None` out of range. */
    function GetByIndex(index: nat): (r: Option<nat>)
      reads this
      ensures r.Some? <==> index < |resources|
      ensures r.Some? ==> r.value == resources[index] && r.value in resources
    {
      if index < |resources| then Some(resources[index]) else None
    }

    /** The index of a resource in the list, negative for a non-member. */
    method GetIndex(r: nat) returns (i: int)
      requires Valid()
      ensures i < 0 <==> r !in resources
      ensures i >= 0 ==> i < |resources| && resources[i] == r && GetByIndex(i) == Some(r)
      ensures i >= 0 ==> i == IndexOf(resources, r)
    {
      var k := 0;
      while k < |resources|
        invariant 0 <= k <= |resources|
        invariant r !in resources[..k]
      {
        if resources[k] == r {
          IndexOfIs(resources, r, k);
          return k;
        }
        assert resources[..k + 1] == resources[..k] + [resources[k]];
        k := k + 1;
      }
      assert resources[..k] == resources;
      return -1;
    }

    /** The resource with the given name, `None` when no member has it. */
    function GetByName(name: string): (r: Option<nat>)
      reads this
      requires Valid()
      ensures r.Some? <==> name in byName
      ensures r.Some? ==> r.value in resources && names[r.value] == name
    {
      if name in byName then Some(byName[name]) else None
    }

    /** Moves the resource at `from` so that it ends up at index `to`; the
        caller guarantees both indices are in range. */
    method MoveResource(from: nat, to: nat)
      requires Valid()
      requires from < |resources| && to < |resources|
      modifies this
      ensures Valid()
      ensures resources == Moved(old(resources), from, to)
      ensures multiset(resources) == multiset(old(resources))
      ensures byName == old(byName) && names == old(names) && standard == old(standard)
      ensures removedEvents == old(removedEvents) && nextId == old(nextId)
    {
      MovedPermutes(resources, from, to);
      PermuteKeeps(resources, Moved(resources, from, to), byName, names, nextId);
      var moving := resources[from];
      var rest := resources[..from] + resources[from + 1..];
      resources := rest[..to] + [moving] + rest[to..];
    }

    /** Renames a member; a name already in use is refused. */
    method SetResourceName(r: nat, name: string) returns (ok: bool)
      requires Valid()
      modifies this
      ensures Valid()
      ensures ok <==> r in resources && name !in old(byName)
      ensures ok ==> r in old(names) && byName == (old(byName) - {old(names)[r]})[name := r]
      ensures ok ==> names == old(names)[r := name]
      ensures !ok ==> byName == old(byName) && names == old(names)
      ensures resources == old(resources) && standard == old(standard)
      ensures removedEvents == old(removedEvents) && nextId == old(nextId)
    {
      if r !in resources || name in byName {
        return false;
      }
      RenameKeeps(resources, byName, names, nextId, r, name);
      byName := (byName - {names[r]})[name := r];
      names := names[r := name];
      return true;
    }

    /** Registers a resource under its name; refused when it is already a
        member or its name is taken. */
    method Add(r: nat, name: string) returns (ok: bool)
      requires Valid()
      modifies this
      ensures Valid()
      ensures ok <==> r !in old(resources) && name !in old(byName)
      ensures ok ==> resources == old(resources) + [r] && byName == old(byName)[name := r]
      ensures !ok ==> resources == old(resources) && byName == old(byName)
      ensures standard == old(standard) && removedEvents == old(removedEvents)
    {
      if r in resources || name in byName {
        return false;
      }
      RegisterKeeps(resources, byName, names, nextId, r, name);
      resources := resources + [r];
      byName := byName[name := r];
      names := names[r := name];
      if nextId <= r {
        nextId := r + 1;
      }
      return true;
    }

    /** Unregisters a member without deleting it: no event is emitted. */
    method Remove(r: nat) returns (ok: bool)
      requires Valid()
      modifies this
      ensures Valid()
      ensures ok <==> r in old(resources)
      ensures ok ==>
        && resources == Without(old(resources), {r})
        && |resources| == |old(resources)| - 1
        && r in old(names) && byName == old(byName) - {old(names)[r]}
        && standard == (if old(standard) == Some(r) then None else old(standard))
      ensures !ok ==> resources == old(resources) && byName == old(byName)
      ensures removedEvents == old(removedEvents)
    {
      if r !in resources {
        return false;
      }
      WithoutOne(resources, r);
      UnregisterOne(resources, byName, names, nextId, r);
      var removed := Unregister({r});
      return true;
    }
  }

  /** The members `UnloadUnused` deletes: unprotected and no longer used. */
  function Unused(resources: seq<nat>, isProtected: nat -> bool, isUnused: nat -> bool): (gone: set<nat>)
    ensures forall r :: r in gone <==> r in resources && isUnused(r) && !isProtected(r)
  {
    set r | r in resources && isUnused(r) && !isProtected(r)
  }

  /** The members `Clear` deletes: all of them, or the unprotected ones. */
  function Cleared(resources: seq<nat>, protectedToo: bool, isProtected: nat -> bool): (gone: set<nat>)
    ensures forall r :: r in gone <==> r in resources && (protectedToo || !isProtected(r))
  {
    set r | r in resources && (protectedToo || !isProtected(r))
  }

  /** The standard resource, cleared when it is one of `gone`. */
  function StandardWithout(standard: Option<nat>, gone: set<nat>): (s: Option<nat>)
    ensures s.Some? <==> standard.Some? && standard.value !in gone
    ensures s.Some? ==> s == standard
  {
    if standard.Some? && standard.value in gone then None else standard
  }
}
