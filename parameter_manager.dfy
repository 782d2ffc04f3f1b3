/** The named parameter table `ParameterManager` of the renderer's
    materials and effects: a parameter list in creation order
    (`m_lstParameters`) with a name index (`m_mapParameters`), and the
    `EventParameterChanged` event.

    A parameter is represented by its identity (a `nat`), its data type and
    its value. The data types are those of `Parameters::EDataType`, whose
    list lies outside this model: `UnknownDataType` is singled out and every
    other member is a `Typed` code. Values are of an abstract type `V`; the
    value a fresh parameter starts with is given per data type by
    `initial`. */
module Parameters {
  import opened Common
  import opened Sequences
  import opened Registries

  datatype DataType = UnknownDataType | Typed(code: nat)

  /** What an XML parameter element yields once read: whether it could be
      read at all, the data type its tag names, the `Name` attribute and
      the value its text holds. */
  datatype XmlParameter<V> = XmlParameter(wellFormed: bool, dataType: DataType, name: string, value: V)

  class ParameterManager<V> {
    /** The value each data type starts with. */
    const initial: DataType -> V
    /** `m_lstParameters`, in creation order. */
    var parameters: seq<nat>
    /** `m_mapParameters`: every parameter under its name. */
    var byName: map<string, nat>
    /** The name each parameter carries. */
    var names: map<nat, string>
    /** The data type each parameter was created with. */
    var types: map<nat, DataType>
    /** The current value of each parameter. */
    var values: map<nat, V>
    /** Every parameter `EventParameterChanged` has been emitted for, in
        order. */
    var events: seq<nat>
    /** Identities not yet handed out. */
    var nextId: nat

    /** List and index correspond one to one, and every parameter has a
        known data type and a value. */
    ghost predicate Valid()
      reads this
    {
      && Registered(parameters, byName, names, nextId)
      && Described(parameters, types, values)
    }

    constructor (initial: DataType -> V)
      ensures Valid()
      ensures parameters == [] && byName == map[] && events == []
      ensures this.initial == initial
    {
      this.initial := initial;
      parameters := [];
      byName := map[];
      names := map[];
      types := map[];
      values := map[];
      events := [];
      nextId := 0;
    }

    /** Number of parameters. */
    function GetNumOfParameters(): (n: nat)
      reads this
      ensures n == |parameters|
    {
      |parameters|
    }

    /** Whether a parameter with that name exists. */
    function IsParameter(name: string): (b: bool)
      reads this
      requires Valid()
      ensures b <==> exists p | p in parameters :: names[p] == name
    {
      assert name in byName ==> byName[name] in parameters && names[byName[name]] == name;
      name in byName
    }

    /** The parameter at an index, `None` out of range. */
    function GetParameter(index: nat): (p: Option<nat>)
      reads this
      ensures p.Some? <==> index < |parameters|
      ensures p.Some? ==> p.value == parameters[index]
    {
      if index < |parameters| then Some(parameters[index]) else None
    }

    /** The parameter with that name, `None` when there is none. */
    function GetParameterByName(name: string): (p: Option<nat>)
      reads this
      requires Valid()
      ensures p.Some? <==> IsParameter(name)
      ensures p.Some? ==> p.value in parameters && names[p.value] == name
    {
      if name in byName then Some(byName[name]) else None
    }

    /** The value of the named parameter when it exists and has the asked
        data type. */
    function GetParameterValue(name: string, dataType: DataType): (v: Option<V>)
      reads this
      requires Valid()
      ensures v.Some? <==> name in byName && types[byName[name]] == dataType
      ensures v.Some? ==> v.value == values[byName[name]]
    {
      if name in byName && types[byName[name]] == dataType then Some(values[byName[name]]) else None
    }

    /** The parameter called `name`, created with the given data type and its
        initial value when there is none; an unknown data type creates
        nothing. A creation fires `EventParameterChanged`. */
    method CreateParameter(dataType: DataType, name: string) returns (p: Option<nat>)
      requires Valid()
      modifies this
      ensures Valid()
      ensures name in old(byName) ==>
        p == Some(old(byName)[name]) && parameters == old(parameters) && byName == old(byName)
        && names == old(names) && types == old(types) && values == old(values) && events == old(events)
      ensures name !in old(byName) && dataType == UnknownDataType ==>
        p == None && parameters == old(parameters) && byName == old(byName)
        && names == old(names) && types == old(types) && values == old(values) && events == old(events)
      ensures name !in old(byName) && dataType != UnknownDataType ==>
        && p.Some? && p.value !in old(parameters)
        && parameters == old(parameters) + [p.value]
        && byName == old(byName)[name := p.value]
        && names == old(names)[p.value := name]
        && types == old(types)[p.value := dataType]
        && values == old(values)[p.value := initial(dataType)]
        && events == old(events) + [p.value]
    {
      if name in byName {
        return Some(byName[name]);
      }
      if dataType == UnknownDataType {
        return None;
      }
      var id := nextId;
      RegisterKeeps(parameters, byName, names, nextId, id, name);
      CreateKeepsDescribed(parameters, types, values, id, dataType, initial(dataType));
      nextId, parameters, byName, names := id + 1, parameters + [id], byName[name := id], names[id := name];
      types, values := types[id := dataType], values[id := initial(dataType)];
      events := events + [id];
      assert Registered(parameters, byName, names, nextId);
      assert Described(parameters, types, values);
      return Some(id);
    }

    /** Destroys the parameters in `gone`, firing `EventParameterChanged`
        for each, in list order. */
    method Destroy(gone: set<nat>) returns (removed: seq<nat>)
      requires Valid()
      modifies this
      ensures Valid()
      ensures parameters == Without(old(parameters), gone)
      ensures removed == Only(old(parameters), gone)
      ensures byName == NamesWithout(old(byName), gone) && names == old(names) - gone
      ensures events == old(events) + removed
      ensures types == old(types) - gone && values == old(values) - gone
    {
      var kept;
      kept, removed := Split(parameters, gone);
      UnregisterKeeps(parameters, byName, names, nextId, gone);
      DestroyKeepsDescribed(parameters, types, values, gone);
      parameters, byName, names := kept, NamesWithout(byName, gone), names - gone;
      types, values := types - gone, values - gone;
      events := events + removed;
      assert parameters == Without(old(parameters), gone);
      assert types == old(types) - gone && values == old(values) - gone;
      assert byName == NamesWithout(old(byName), gone) && names == old(names) - gone && nextId == old(nextId);
      assert Registered(parameters, byName, names, nextId);
      assert Described(parameters, types, values);
    }

    /** Removes the parameter at an index; an index out of range changes
        nothing. */
    method RemoveParameter(index: nat) returns (ok: bool)
      requires Valid()
      modifies this
      ensures Valid()
      ensures ok <==> index < |old(parameters)|
      ensures ok ==>
        && parameters == Without(old(parameters), {old(parameters)[index]})
        && |parameters| == |old(parameters)| - 1
        && old(parameters)[index] in old(names)
        && byName == old(byName) - {old(names)[old(parameters)[index]]}
        && names == old(names) - {old(parameters)[index]}
        && types == old(types) - {old(parameters)[index]}
        && values == old(values) - {old(parameters)[index]}
        && events == old(events) + [old(parameters)[index]]
      ensures !ok ==>
        parameters == old(parameters) && byName == old(byName) && names == old(names)
        && types == old(types) && values == old(values) && events == old(events)
    {
      if index >= |parameters| {
        return false;
      }
      var p := parameters[index];
      WithoutOne(parameters, p);
      UnregisterOne(parameters, byName, names, nextId, p);
      var removed := Destroy({p});
      return true;
    }

    /** Removes the parameter with that name; an unknown name changes
        nothing. */
    method RemoveParameterByName(name: string) returns (ok: bool)
      requires Valid()
      modifies this
      ensures Valid()
      ensures ok <==> name in old(byName)
      ensures ok ==>
        && parameters == Without(old(parameters), {old(byName)[name]})
        && |parameters| == |old(parameters)| - 1
        && byName == old(byName) - {name}
        && names == old(names) - {old(byName)[name]}
        && types == old(types) - {old(byName)[name]}
        && values == old(values) - {old(byName)[name]}
        && events == old(events) + [old(byName)[name]]
      ensures !ok ==>
        parameters == old(parameters) && byName == old(byName) && names == old(names)
        && types == old(types) && values == old(values) && events == old(events)
    {
      if name !in byName {
        return false;
      }
      var p := byName[name];
      WithoutOne(parameters, p);
      UnregisterOne(parameters, byName, names, nextId, p);
      var removed := Destroy({p});
      return true;
    }

    /** Removes every parameter, one `EventParameterChanged` each. */
    method RemoveAllParameters()
      requires Valid()
      modifies this
      ensures Valid()
      ensures parameters == [] && byName == map[]
      ensures events == old(events) + old(parameters)
    {
      var all := set p | p in parameters;
      UnregisterAll(parameters, byName, names, nextId, all);
      assert Only(parameters, all) == parameters by {
        WithoutOnlySplit(parameters, all);
        OnlyAll(parameters, all);
      }
      var removed := Destroy(all);
    }

    /** Sets the value of the named parameter, first creating it with the
        given data type when it is missing: the `Set*` family. A parameter of
        another data type is left alone. Every value change fires
        `EventParameterChanged`, after the creation's own event. */
    method SetParameter(name: string, dataType: DataType, value: V) returns (ok: bool)
      requires Valid()
      modifies this
      ensures Valid()
      ensures ok <==> if name in old(byName) then old(types)[old(byName)[name]] == dataType
                      else dataType != UnknownDataType
      ensures ok ==>
        name in byName && IsParameter(name) && values[byName[name]] == value
        && GetParameterValue(name, dataType) == Some(value)
      ensures ok && name in old(byName) ==>
        && parameters == old(parameters) && byName == old(byName) && names == old(names)
        && types == old(types) && values == old(values)[byName[name] := value]
        && events == old(events) + [byName[name]]
      ensures ok && name !in old(byName) ==>
        && byName[name] !in old(parameters)
        && parameters == old(parameters) + [byName[name]]
        && byName == old(byName)[name := byName[name]]
        && names == old(names)[byName[name] := name]
        && types == old(types)[byName[name] := dataType]
        && values == old(values)[byName[name] := value]
        && events == old(events) + [byName[name], byName[name]]
      ensures !ok ==>
        parameters == old(parameters) && byName == old(byName) && names == old(names)
        && types == old(types) && values == old(values) && events == old(events)
    {
      var p := CreateParameter(dataType, name);
      if p.None? || types[p.value] != dataType {
        return false;
      }
      values := values[p.value := value];
      events := events + [p.value];
      return true;
    }

    /** Adds the parameter an XML element describes; refused for an element
        that cannot be read, an unknown data type, a missing name, or a name
        already in use. On success the parameter is created and its value
        set, each firing `EventParameterChanged`. */
    method AddParameterFromXMLElement(element: XmlParameter<V>) returns (ok: bool)
      requires Valid()
      modifies this
      ensures Valid()
      ensures ok <==> element.wellFormed && element.dataType != UnknownDataType
                      && element.name != "" && element.name !in old(byName)
      ensures ok ==>
        && element.name in byName
        && byName[element.name] !in old(parameters)
        && parameters == old(parameters) + [byName[element.name]]
        && byName == old(byName)[element.name := byName[element.name]]
        && names == old(names)[byName[element.name] := element.name]
        && types == old(types)[byName[element.name] := element.dataType]
        && values == old(values)[byName[element.name] := element.value]
        && events == old(events) + [byName[element.name], byName[element.name]]
        && GetParameterValue(element.name, element.dataType) == Some(element.value)
      ensures !ok ==>
        parameters == old(parameters) && byName == old(byName) && names == old(names)
        && types == old(types) && values == old(values) && events == old(events)
    {
      if !element.wellFormed || element.dataType == UnknownDataType || element.name == ""
         || element.name in byName {
        return false;
      }
      ok := SetParameter(element.name, element.dataType, element.value);
    }
  }

  /** Every parameter has a known data type and a value. */
  ghost predicate Described<V>(parameters: seq<nat>, types: map<nat, DataType>, values: map<nat, V>)
  {
    forall p | p in parameters :: p in types && types[p] != UnknownDataType && p in values
  }

  /** A new parameter of a known data type comes with its type and value. */
  lemma CreateKeepsDescribed<V>(parameters: seq<nat>, types: map<nat, DataType>, values: map<nat, V>,
                                p: nat, dataType: DataType, value: V)
    requires Described(parameters, types, values) && dataType != UnknownDataType
    ensures Described(parameters + [p], types[p := dataType], values[p := value])
  {
  }

  /** Destroying parameters drops their types and values with them. */
  lemma DestroyKeepsDescribed<V>(parameters: seq<nat>, types: map<nat, DataType>, values: map<nat, V>,
                                 gone: set<nat>)
    requires Described(parameters, types, values)
    ensures Described(Without(parameters, gone), types - gone, values - gone)
  {
  }
}
