/**
 * The type lattice of the JavaScript checker. Every JavaScript class of the
 * lattice is one constructor of `Type`; the lodash-generated instance id is an
 * explicit natural number carried by every constructor. Object identity (`===`)
 * between two types is modelled as equality of the two values.
 */
module Types {
  import opened Wrappers
  import opened Symbols

  /** The two record classes whose instances share RecordType's behaviour. */
  datatype RecordClass = RecordClass | ObjectClass

  datatype Type =
    | Plain(name: string, id: nat)          // an instance of the base class itself
    | Any(id: nat)
    | Void(id: nat)
    | Null(id: nat)
    | Number(id: nat)
    | Boolean(id: nat)
    | String(id: nat)
    | Record(recordClass: RecordClass, properties: seq<Property>, id: nat)
    | Array(of: Type, properties: seq<Property>, id: nat)
    | Maybe(of: Type, id: nat)
    | Function(thisType: Type, params: seq<Type>, returnType: Type,
               declaration: Option<nat>, environment: Option<nat>, id: nat)
    | Variable(id: nat)

  /** A record entry: the member symbol and the type of the property. */
  datatype Property = Property(member: Symbol, propertyType: Type)

  /** What makes an operation on types fail. */
  datatype TypeFailure =
    | AssertionFailure(message: string)
    | UndefinedReceiver      // a method called on `undefined`
    | UndefinedArgument      // `undefined.constructor` read while comparing kinds

  // The shared instances returned by the `create()` functions of the singleton classes.
  const AnyId: nat := 1
  const VoidId: nat := 2
  const NullId: nat := 3
  const NumberId: nat := 4
  const BooleanId: nat := 5
  const StringId: nat := 6
  const MaybeNumberId: nat := 7

  const AnyType: Type := Any(AnyId)
  const VoidType: Type := Void(VoidId)
  const NullType: Type := Null(NullId)
  const NumberType: Type := Number(NumberId)
  const BooleanType: Type := Boolean(BooleanId)
  const StringType: Type := String(StringId)
  /** The instance `MaybeType.of` hands out for every number type. */
  const MaybeNumber: Type := Maybe(NumberType, MaybeNumberId)

  /** The JavaScript class (constructor) of a type, which `isSameType` compares. */
  datatype Kind =
    | PlainKind | AnyKind | VoidKind | NullKind | NumberKind | BooleanKind | StringKind
    | RecordKind(recordClass: RecordClass) | ArrayKind | MaybeKind | FunctionKind | VariableKind

  function KindOf(t: Type): Kind {
    match t
    case Plain(_, _) => PlainKind
    case Any(_) => AnyKind
    case Void(_) => VoidKind
    case Null(_) => NullKind
    case Number(_) => NumberKind
    case Boolean(_) => BooleanKind
    case String(_) => StringKind
    case Record(c, _, _) => RecordKind(c)
    case Array(_, _, _) => ArrayKind
    case Maybe(_, _) => MaybeKind
    case Function(_, _, _, _, _, _) => FunctionKind
    case Variable(_) => VariableKind
  }

  predicate IsSameType(a: Type, b: Type) {
    KindOf(a) == KindOf(b)
  }

  predicate IsTypeVariable(t: Type) {
    t.Variable?
  }

  /** A concrete type: anything but a type variable. */
  predicate IsBaseType(t: Type) {
    !IsTypeVariable(t)
  }

  /** Maybe and Function types carry type parameters. */
  predicate IsParametrized(t: Type) {
    t.Maybe? || t.Function?
  }

  /** Two types are the same type instance when they are identical or share an id. */
  predicate Same(a: Type, b: Type)
    ensures Same(a, b) <==> a.id == b.id
  {
    a == b || a.id == b.id
  }

  // ----- sizes (termination measures) -----

  function Size(t: Type): nat {
    match t
    case Record(_, props, _) => 1 + PropertiesSize(props)
    case Array(of, props, _) => 1 + Size(of) + PropertiesSize(props)
    case Maybe(of, _) => 1 + Size(of)
    case Function(th, ps, ret, _, _, _) => 1 + Size(th) + Size(ret) + ListSize(ps)
    case _ => 1
  }

  function ListSize(ts: seq<Type>): nat {
    if |ts| == 0 then 0 else Size(ts[0]) + ListSize(ts[1..])
  }

  function PropertiesSize(ps: seq<Property>): nat {
    if |ps| == 0 then 0 else PropertySize(ps[0]) + PropertiesSize(ps[1..])
  }

  function PropertySize(p: Property): nat {
    Size(p.propertyType)
  }

  // ----- properties of records, by member name -----

  /** The position of the property named `name`, if the record has one. */
  function IndexOf(ps: seq<Property>, name: Name): (r: Option<nat>)
    ensures r.Some? ==> r.value < |ps| && ps[r.value].member.name == name
    ensures r.Some? ==> forall k | 0 <= k < r.value :: ps[k].member.name != name
    ensures r.None? ==> forall i | 0 <= i < |ps| :: ps[i].member.name != name
  {
    if |ps| == 0 then None
    else if ps[0].member.name == name then Some(0)
    else match IndexOf(ps[1..], name)
      case None => None
      case Some(i) => Some(i + 1)
  }

  /** The type stored for `name`, the lookup of an Immutable map keyed by member name. */
  function Lookup(ps: seq<Property>, name: Name): (r: Option<Type>)
    ensures r.Some? <==> IndexOf(ps, name).Some?
    ensures r.Some? ==> r.value == ps[IndexOf(ps, name).value].propertyType
  {
    match IndexOf(ps, name)
    case None => None
    case Some(i) => Some(ps[i].propertyType)
  }

  /** Names of a property list are pairwise distinct, as the keys of a map are. */
  predicate DistinctNames(ps: seq<Property>) {
    forall i, j | 0 <= i < j < |ps| :: ps[i].member.name != ps[j].member.name
  }

  // ----- containment -----

  /** `containsType`: `t2` is `t` itself or is part of a type parameter, property or element type. */
  predicate ContainsType(t: Type, t2: Type)
    decreases t
  {
    t == t2 ||
    match t
    case Maybe(of, _) => ContainsType(of, t2)
    case Function(th, ps, ret, _, _, _) =>
      ContainsType(th, t2) || ContainsType(ret, t2) || exists p | p in ps :: ContainsType(p, t2)
    case Record(_, props, _) => exists p | p in props :: PropertyContains(p, t2)
    case Array(of, props, _) =>
      (exists p | p in props :: PropertyContains(p, t2)) || ContainsType(of, t2)
    case _ => false
  }

  predicate PropertyContains(p: Property, t2: Type)
    decreases p
  {
    ContainsType(p.propertyType, t2)
  }

  /** `occursIn`: the reverse of `containsType`. */
  predicate OccursIn(t: Type, t2: Type)
    ensures OccursIn(t, t2) <==> ContainsType(t2, t)
  {
    ContainsType(t2, t)
  }

  // ----- equality -----

  /**
   * `equals`: the same kind and, recursively, equal type parameters, equal
   * properties and equal element types; a type variable equals only a type
   * with its id.
   */
  predicate Equals(a: Type, b: Type)
    ensures Equals(a, b) && !a.Variable? ==> IsSameType(a, b)
    decreases a
  {
    match a
    case Variable(_) => Same(a, b)
    case Maybe(of, _) => b.Maybe? && Equals(of, b.of)
    case Function(th, ps, ret, _, _, _) =>
      b.Function? && Equals(th, b.thisType) && Equals(ret, b.returnType) && ListEquals(ps, b.params)
    case Record(c, props, _) => b.Record? && b.recordClass == c && PropertiesEqual(props, b.properties)
    case Array(of, props, _) => b.Array? && PropertiesEqual(props, b.properties) && Equals(of, b.of)
    case _ => IsSameType(a, b)
  }

  /** Equal length and pairwise equal, as `Immutable.is` compares two lists of types. */
  predicate ListEquals(xs: seq<Type>, ys: seq<Type>)
    decreases xs
  {
    |xs| == |ys| && forall i | 0 <= i < |xs| :: Equals(xs[i], ys[i])
  }

  /**
   * `Immutable.is` on two property maps: the same size, and every entry of `pb`
   * has an entry of that name in `pa` whose type equals it.
   */
  predicate PropertiesEqual(pa: seq<Property>, pb: seq<Property>)
    decreases pa
  {
    |pa| == |pb| &&
    forall j | 0 <= j < |pb| ::
      IndexOf(pa, pb[j].member.name).Some? &&
      PropertyEquals(pa[IndexOf(pa, pb[j].member.name).value], pb[j])
  }

  /** The types of two entries are equal. */
  predicate PropertyEquals(p: Property, q: Property)
    decreases p
  {
    Equals(p.propertyType, q.propertyType)
  }

  // ----- type parameters -----

  /** `typeParameters`: `[of]` for Maybe, `[thisType, returnType, ...params]` for Function. */
  function TypeParameters(t: Type): (ps: seq<Type>)
    requires IsParametrized(t)
    ensures t.Maybe? ==> ps == [t.of]
    ensures t.Function? ==> |ps| == 2 + |t.params| && ps[0] == t.thisType && ps[1] == t.returnType && ps[2..] == t.params
  {
    match t
    case Maybe(of, _) => [of]
    case Function(th, params, ret, _, _, _) => [th, ret] + params
  }

  /**
   * `withTypeParameters`: the same kind of type over new parameters and with the
   * given id; a Maybe needs exactly one parameter and a Function at least a this
   * type and a return type.
   */
  function WithTypeParameters(t: Type, ps: seq<Type>, id: nat): (r: Result<Type, TypeFailure>)
    requires IsParametrized(t)
    ensures t.Maybe? ==> (r.Ok? <==> |ps| == 1)
    ensures t.Function? ==> (r.Ok? <==> |ps| >= 2)
    ensures r.Ok? ==> KindOf(r.value) == KindOf(t) && r.value.id == id && TypeParameters(r.value) == ps
    ensures r.Ok? && t.Function? ==>
      r.value.declaration == t.declaration && r.value.environment == t.environment
  {
    match t
    case Maybe(_, _) =>
      if |ps| == 1 then Ok(Maybe(ps[0], id))
      else Err(AssertionFailure("A maybe type can only have one type parameter"))
    case Function(_, _, _, declaration, environment, _) =>
      if |ps| < 2 then Err(AssertionFailure("the return type needs to be a type instance"))
      else
        assert ps == [ps[0], ps[1]] + ps[2..];
        Ok(Function(ps[0], ps[2..], ps[1], declaration, environment, id))
  }

  /** `MaybeType.of`: a new Maybe, except that every number shares one instance. */
  function MaybeOf(t: Type, id: nat): (r: Type)
    ensures r.Maybe?
    ensures t.Number? ==> r == MaybeNumber
    ensures !t.Number? ==> r == Maybe(t, id)
  {
    if t.Number? then MaybeNumber else Maybe(t, id)
  }

  /** `ArrayType.of`: a new array of `t` without custom properties. */
  function ArrayOf(t: Type, id: nat): (r: Type)
    ensures r.Array? && r.of == t && r.properties == [] && r.id == id
  {
    Array(t, [], id)
  }

  /** A function type without declaration or type environment. */
  function FunctionOf(thisType: Type, params: seq<Type>, returnType: Type, id: nat): (r: Type)
    ensures r.Function? && TypeParameters(r) == [thisType, returnType] + params && r.id == id
  {
    Function(thisType, params, returnType, None, None, id)
  }

  // ----- record and array properties -----

  predicate IsRecordLike(t: Type) {
    t.Record? || t.Array?
  }

  /** `withProperties`: the same record class or element type over new properties. */
  function WithProperties(t: Type, ps: seq<Property>, id: nat): (r: Type)
    requires IsRecordLike(t)
    ensures KindOf(r) == KindOf(t) && r.properties == ps && r.id == id
    ensures t.Array? ==> r.of == t.of
  {
    match t
    case Record(c, _, _) => Record(c, ps, id)
    case Array(of, _, _) => Array(of, ps, id)
  }

  /** The array built-ins that have a signature: every listed name but `splice`. */
  const ArrayBuiltIns: set<string> := {
    "length",
    "concat", "copyWithin", "every", "fill", "filter", "find", "findIndex", "forEach", "includes",
    "indexOf", "join", "lastIndexOf", "map", "pop", "push", "reduce", "reduceRight", "reverse", "shift", "slice", "some",
    "sort", "unshift"
  }

  /** The names listed as array built-ins, `splice` included. */
  const ListedArrayBuiltIns: set<string> := ArrayBuiltIns + {"splice"}

  /** Whether `name` is one of `builtIns`; the source's own list is `ListedArrayBuiltIns`. */
  predicate IsBuiltInAmong(builtIns: set<string>, name: Name) {
    name.Identifier? && name.text in builtIns
  }

  /** `builtIns.has(name)` over the list as written, `splice` included. */
  predicate IsArrayBuiltIn(name: Name) {
    IsBuiltInAmong(ListedArrayBuiltIns, name)
  }

  /** Computed members and numeric names address array elements. */
  predicate IsElementAccess(symbol: Symbol) {
    IsComputed(symbol.flags) || symbol.name.Numeric?
  }

  /** RecordType `hasProperty`: computed members might exist; otherwise membership by name. */
  predicate RecordHasProperty(t: Type, symbol: Symbol)
    requires IsRecordLike(t)
  {
    IsComputed(symbol.flags) || IndexOf(t.properties, symbol.name).Some?
  }

  /** `hasProperty` of the type's own class, for an array answering to the names in `builtIns`. */
  predicate HasPropertyAmong(builtIns: set<string>, t: Type, symbol: Symbol)
    requires IsRecordLike(t)
  {
    if t.Array? then IsElementAccess(symbol) || IsBuiltInAmong(builtIns, symbol.name) || RecordHasProperty(t, symbol)
    else RecordHasProperty(t, symbol)
  }

  /** `hasProperty` as written: arrays answer to every listed built-in. */
  predicate HasProperty(t: Type, symbol: Symbol)
    requires IsRecordLike(t)
    ensures HasProperty(t, symbol) <==>
      HasPropertyAmong(ArrayBuiltIns, t, symbol) || (t.Array? && symbol.name == Identifier("splice"))
  {
    HasPropertyAmong(ListedArrayBuiltIns, t, symbol)
  }

  /** RecordType `getType`: Any for a computed member, otherwise the stored type if there is one. */
  function RecordGetType(t: Type, symbol: Symbol): (r: Option<Type>)
    requires IsRecordLike(t)
    ensures IsComputed(symbol.flags) ==> r == Some(AnyType)
    ensures !IsComputed(symbol.flags) ==> r == Lookup(t.properties, symbol.name)
  {
    if IsComputed(symbol.flags) then Some(AnyType) else Lookup(t.properties, symbol.name)
  }

  /**
   * The signature of a built-in array method, built with fresh ids from `ids`;
   * every other name fails the assertion of the switch's default case.
   */
  function ArrayBuiltInType(t: Type, name: string, ids: nat): (r: Result<Type, TypeFailure>)
    requires t.Array?
    ensures r.Ok? <==> name in ArrayBuiltIns
  {
    var maybeArray := MaybeOf(t, ids);
    var callbackThis := Variable(ids + 1);
    var callbackThisArg := MaybeOf(callbackThis, ids + 2);
    var predicateT := FunctionOf(callbackThis, [t.of, NumberType, t], BooleanType, ids + 3);
    var next := ids + 4;
    if name == "length" then Ok(NumberType)
    else if name == "concat" then Ok(FunctionOf(t, [t, maybeArray, maybeArray], t, next))
    else if name == "copyWithin" then Ok(FunctionOf(t, [NumberType, NumberType, MaybeNumber], VoidType, next))
    else if name == "every" || name == "some" then Ok(FunctionOf(t, [predicateT, callbackThisArg], BooleanType, next))
    else if name == "filter" then Ok(FunctionOf(t, [predicateT, callbackThisArg], t, next))
    else if name == "fill" then Ok(FunctionOf(t, [t.of, NumberType, NumberType], VoidType, next))
    else if name == "find" then Ok(FunctionOf(t, [predicateT, callbackThisArg], t.of, next))
    else if name == "findIndex" then Ok(FunctionOf(t, [predicateT, callbackThisArg], NumberType, next))
    else if name == "forEach" then
      Ok(FunctionOf(t, [FunctionOf(callbackThis, [t.of, NumberType, t], VoidType, next), callbackThisArg], VoidType, next + 1))
    else if name == "includes" then Ok(FunctionOf(t, [t.of, MaybeNumber], BooleanType, next))
    else if name == "lastIndexOf" || name == "indexOf" then Ok(FunctionOf(t, [t.of, MaybeNumber], NumberType, next))
    else if name == "map" then
      var mapReturnType := Variable(next);
      Ok(FunctionOf(t, [FunctionOf(callbackThis, [t.of, NumberType, t], mapReturnType, next + 1), callbackThisArg],
                    ArrayOf(mapReturnType, next + 2), next + 3))
    else if name == "join" then Ok(FunctionOf(t, [MaybeOf(StringType, next)], StringType, next + 1))
    else if name == "pop" || name == "shift" then Ok(FunctionOf(t, [], t.of, next))
    else if name == "push" || name == "unshift" then Ok(FunctionOf(t, [t.of], NumberType, next))
    else if name == "reduce" || name == "reduceRight" then
      var reduceValue := Variable(next);
      Ok(FunctionOf(t, [FunctionOf(VoidType, [reduceValue, t.of, NumberType, t], reduceValue, next + 1),
                        MaybeOf(reduceValue, next + 2)], reduceValue, next + 3))
    else if name == "reverse" then Ok(FunctionOf(t, [], t, next))
    else if name == "slice" then Ok(FunctionOf(t, [NumberType, MaybeNumber], t, next))
    else if name == "sort" then
      Ok(FunctionOf(t, [MaybeOf(FunctionOf(VoidType, [t.of, t.of], NumberType, next), next + 1)], t, next + 2))
    else Err(AssertionFailure(name + " is not a built in array function"))
  }

  /**
   * `getType` of the type's own class, for an array answering to the names in
   * `builtIns`; `None` stands for `undefined`. An array answers element
   * accesses with its element type and built-in names with their signatures.
   */
  function GetTypeAmong(builtIns: set<string>, t: Type, symbol: Symbol, ids: nat): (r: Result<Option<Type>, TypeFailure>)
    requires IsRecordLike(t)
    ensures t.Array? && IsElementAccess(symbol) ==> r == Ok(Some(t.of))
    ensures t.Array? && !IsElementAccess(symbol) && IsBuiltInAmong(builtIns, symbol.name) ==>
      r.Ok? == ArrayBuiltInType(t, symbol.name.text, ids).Ok? &&
      (r.Ok? ==> r.value == Some(ArrayBuiltInType(t, symbol.name.text, ids).value))
    ensures t.Array? && !IsElementAccess(symbol) && !IsBuiltInAmong(builtIns, symbol.name) ==>
      r == Ok(Lookup(t.properties, symbol.name))
    ensures t.Record? ==> r == Ok(RecordGetType(t, symbol))
  {
    if t.Array? && IsElementAccess(symbol) then Ok(Some(t.of))
    else if t.Array? && IsBuiltInAmong(builtIns, symbol.name) then
      match ArrayBuiltInType(t, symbol.name.text, ids)
      case Ok(b) => Ok(Some(b))
      case Err(e) => Err(e)
    else Ok(RecordGetType(t, symbol))
  }

  /** `getType` as written: a listed built-in without a signature fails the switch's assertion. */
  function GetType(t: Type, symbol: Symbol, ids: nat): (r: Result<Option<Type>, TypeFailure>)
    requires IsRecordLike(t)
    ensures t.Array? && !IsElementAccess(symbol) && symbol.name == Identifier("splice") ==> r.Err?
  {
    GetTypeAmong(ListedArrayBuiltIns, t, symbol, ids)
  }

  /** Replaces the type at position `i`, keeping the entry in place. */
  function ReplaceAt(ps: seq<Property>, i: nat, p: Property): (r: seq<Property>)
    requires i < |ps|
    ensures |r| == |ps| && r[i] == p && forall j | 0 <= j < |ps| && j != i :: r[j] == ps[j]
  {
    ps[i := p]
  }

  /** `addProperty`: asserts the property is absent, then appends it; the id is kept. */
  function AddProperty(t: Type, symbol: Symbol, propertyType: Type): (r: Result<Type, TypeFailure>)
    requires IsRecordLike(t)
    ensures r.Ok? <==> !HasProperty(t, symbol)
    ensures r.Ok? ==> r.value == WithProperties(t, t.properties + [Property(symbol, propertyType)], t.id)
  {
    if HasProperty(t, symbol) then Err(AssertionFailure("A property with the name already exists"))
    else Ok(WithProperties(t, t.properties + [Property(symbol, propertyType)], t.id))
  }

  /** `Map.set` keyed by member name: an existing entry is replaced in place, a new one appended. */
  function SetProperty(ps: seq<Property>, symbol: Symbol, propertyType: Type): (r: seq<Property>)
    ensures IndexOf(ps, symbol.name).Some? ==>
      r == ReplaceAt(ps, IndexOf(ps, symbol.name).value, Property(symbol, propertyType))
    ensures IndexOf(ps, symbol.name).None? ==> r == ps + [Property(symbol, propertyType)]
  {
    match IndexOf(ps, symbol.name)
    case Some(i) => ReplaceAt(ps, i, Property(symbol, propertyType))
    case None => ps + [Property(symbol, propertyType)]
  }

  /** RecordType `setType`: the property must exist; a computed member yields Any. */
  function RecordSetType(t: Type, symbol: Symbol, propertyType: Type): (r: Result<Type, TypeFailure>)
    requires IsRecordLike(t)
    ensures r.Ok? <==> HasProperty(t, symbol)
    ensures r.Ok? && IsComputed(symbol.flags) ==> r.value == AnyType
    ensures r.Ok? && !IsComputed(symbol.flags) ==>
      r.value == WithProperties(t, SetProperty(t.properties, symbol, propertyType), t.id)
  {
    if !HasProperty(t, symbol) then Err(AssertionFailure("property does not yet exist, to add new properties use add property"))
    else if IsComputed(symbol.flags) then Ok(AnyType)
    else Ok(WithProperties(t, SetProperty(t.properties, symbol, propertyType), t.id))
  }

  /**
   * `setType` of the type's own class. An array refuses built-in names and
   * answers an element access with a new array of the given element type.
   */
  function SetType(t: Type, symbol: Symbol, propertyType: Type): (r: Result<Type, TypeFailure>)
    requires IsRecordLike(t)
    ensures t.Array? && IsArrayBuiltIn(symbol.name) ==> r.Err?
    ensures t.Array? && !IsArrayBuiltIn(symbol.name) && IsElementAccess(symbol) ==>
      r == Ok(Array(propertyType, t.properties, t.id))
    ensures t.Array? && !IsArrayBuiltIn(symbol.name) && !IsElementAccess(symbol) ==>
      r == RecordSetType(t, symbol, propertyType)
    ensures t.Record? ==> r == RecordSetType(t, symbol, propertyType)
  {
    if t.Array? && IsArrayBuiltIn(symbol.name) then
      Err(AssertionFailure("The type of the built in array property cannot be changed"))
    else if t.Array? && IsElementAccess(symbol) then Ok(Array(propertyType, t.properties, t.id))
    else RecordSetType(t, symbol, propertyType)
  }

  // ----- subtyping -----

  /** What `t.isSubType(undefined)` does: the classes that ignore their argument say yes, the others throw. */
  function SubTypeOfUndefined(t: Type): (r: Result<bool, TypeFailure>)
    ensures r.Ok? <==> t.Variable? || t.Any? || t.Void?
    ensures r.Ok? ==> r.value
  {
    if t.Variable? || t.Any? || t.Void? then Ok(true) else Err(UndefinedArgument)
  }

  /**
   * `isSubType`: whether `b` is a subtype of `a`. Any, Void and type variables
   * accept everything; a Maybe accepts null, undefined, subtypes of its own
   * parameter and Maybes of those; parametrized types compare their parameters
   * pairwise, records their properties, arrays also their element types; every
   * other type accepts only types equal to it. Errors are the exceptions the
   * JavaScript code throws.
   */
  function IsSubType(a: Type, b: Type): (r: Result<bool, TypeFailure>)
    ensures a.Any? || a.Void? || a.Variable? ==> r == Ok(true)
    ensures r == Ok(true) && !(a.Any? || a.Void? || a.Variable? || a.Maybe?) ==> IsSameType(a, b)
    ensures r.Err? ==> IsParametrized(a) || IsRecordLike(a)
    decreases a
  {
    match a
    case Any(_) => Ok(true)
    case Void(_) => Ok(true)
    case Variable(_) => Ok(true)
    case Maybe(of, _) =>
      var parametrized := if b.Maybe? then IsSubType(of, b.of) else Ok(false);
      if parametrized.Err? || parametrized.value then parametrized
      else if b.Null? || b.Void? then Ok(true)
      else IsSubType(of, b)
    case Function(th, ps, ret, _, _, _) =>
      if !b.Function? then Ok(false)
      else
        var first := IsSubType(th, b.thisType);
        if first.Err? || !first.value then first
        else
          var second := IsSubType(ret, b.returnType);
          if second.Err? || !second.value then second
          else SubTypes(ps, b.params)
    case Record(c, props, _) =>
      if b.Record? && b.recordClass == c then PropertiesSubTypes(props, b) else Ok(false)
    case Array(of, props, _) =>
      if !b.Array? then Ok(false)
      else
        var record := PropertiesSubTypes(props, b);
        if record.Err? || !record.value then record else IsSubType(of, b.of)
    case String(_) => Ok(b.String?)
    case _ => Ok(Equals(a, b))
  }

  /** lodash `zip` followed by `every`: a missing partner is `undefined`. */
  function SubTypes(xs: seq<Type>, ys: seq<Type>): (r: Result<bool, TypeFailure>)
    decreases xs
  {
    if |xs| == 0 && |ys| == 0 then Ok(true)
    else if |xs| == 0 then Err(UndefinedReceiver)
    else
      var head := if |ys| == 0 then SubTypeOfUndefined(xs[0]) else IsSubType(xs[0], ys[0]);
      if head.Err? || !head.value then head
      else SubTypes(xs[1..], if |ys| == 0 then [] else ys[1..])
  }

  /** Every own property of the record must exist in `b` with a type it accepts. */
  function PropertiesSubTypes(props: seq<Property>, b: Type): (r: Result<bool, TypeFailure>)
    requires IsRecordLike(b)
    decreases props
  {
    if |props| == 0 then Ok(true)
    else
      var head := PropertySubType(props[0], b);
      if head.Err? || !head.value then head else PropertiesSubTypes(props[1..], b)
  }

  /** `b` has the property and its type there is accepted by the property's own type. */
  function PropertySubType(p: Property, b: Type): (r: Result<bool, TypeFailure>)
    requires IsRecordLike(b)
    decreases p
  {
    match GetType(b, p.member, 0)
    case Err(e) => Err(e)
    case Ok(None) => Ok(false)
    case Ok(Some(other)) => IsSubType(p.propertyType, other)
  }

  // ----- substitution -----

  /**
   * `substitute`: `newType` where `t` is the same instance as `oldType`;
   * otherwise the type rebuilt with the same id over substituted parts, or `t`
   * itself when the substituted parts are equal to the old ones.
   */
  function Substitute(t: Type, oldType: Type, newType: Type): (r: Type)
    ensures Same(t, oldType) ==> r == newType
    ensures !Same(t, oldType) ==> KindOf(r) == KindOf(t) && r.id == t.id
    decreases t
  {
    if Same(t, oldType) then newType
    else match t
      case Maybe(of, id) =>
        var of' := Substitute(of, oldType, newType);
        if Equals(of, of') then t else Maybe(of', id)
      case Function(th, ps, ret, declaration, environment, id) =>
        var th' := Substitute(th, oldType, newType);
        var ret' := Substitute(ret, oldType, newType);
        var ps' := SubstituteList(ps, oldType, newType);
        if Equals(th, th') && Equals(ret, ret') && ListEquals(ps, ps') then t
        else Function(th', ps', ret', declaration, environment, id)
      case Record(c, props, id) =>
        var props' := SubstituteProperties(props, oldType, newType);
        if PropertiesEqual(props', props) then t else Record(c, props', id)
      case Array(of, props, id) =>
        var of' := Substitute(of, oldType, newType);
        var props' := SubstituteProperties(props, oldType, newType);
        if of != of' then Array(of', props', id)
        else if PropertiesEqual(props', props) then t
        else Array(of, props', id)
      case _ => t
  }

  /**
   * `substitute` as written, at every depth: ArrayType's own `substitute`
   * returns a new array of the substituted element type over the OLD properties
   * whenever the element type changes, and substitutes the properties only when
   * it does not. Every other class behaves as in `Substitute`.
   */
  function SubstituteAsWritten(t: Type, oldType: Type, newType: Type): (r: Type)
    ensures Same(t, oldType) ==> r == newType
    ensures !Same(t, oldType) ==> KindOf(r) == KindOf(t) && r.id == t.id
    ensures !Same(t, oldType) && t.Array? && r.of != t.of ==> r.properties == t.properties
    decreases t
  {
    if Same(t, oldType) then newType
    else match t
      case Maybe(of, id) =>
        var of' := SubstituteAsWritten(of, oldType, newType);
        if Equals(of, of') then t else Maybe(of', id)
      case Function(th, ps, ret, declaration, environment, id) =>
        var th' := SubstituteAsWritten(th, oldType, newType);
        var ret' := SubstituteAsWritten(ret, oldType, newType);
        var ps' := SubstituteListAsWritten(ps, oldType, newType);
        if Equals(th, th') && Equals(ret, ret') && ListEquals(ps, ps') then t
        else Function(th', ps', ret', declaration, environment, id)
      case Record(c, props, id) =>
        var props' := SubstitutePropertiesAsWritten(props, oldType, newType);
        if PropertiesEqual(props', props) then t else Record(c, props', id)
      case Array(of, props, id) =>
        var of' := SubstituteAsWritten(of, oldType, newType);
        if of != of' then Array(of', props, id)
        else
          var props' := SubstitutePropertiesAsWritten(props, oldType, newType);
          if PropertiesEqual(props', props) then t else Array(of, props', id)
      case _ => t
  }

  function SubstituteListAsWritten(ts: seq<Type>, oldType: Type, newType: Type): (r: seq<Type>)
    ensures |r| == |ts|
    ensures forall i | 0 <= i < |ts| :: r[i] == SubstituteAsWritten(ts[i], oldType, newType)
    decreases ts
  {
    if |ts| == 0 then []
    else [SubstituteAsWritten(ts[0], oldType, newType)] + SubstituteListAsWritten(ts[1..], oldType, newType)
  }

  function SubstitutePropertiesAsWritten(ps: seq<Property>, oldType: Type, newType: Type): (r: seq<Property>)
    ensures |r| == |ps|
    ensures forall i | 0 <= i < |ps| :: r[i] == SubstitutePropertyAsWritten(ps[i], oldType, newType)
    decreases ps
  {
    if |ps| == 0 then []
    else [SubstitutePropertyAsWritten(ps[0], oldType, newType)] + SubstitutePropertiesAsWritten(ps[1..], oldType, newType)
  }

  function SubstitutePropertyAsWritten(p: Property, oldType: Type, newType: Type): (r: Property)
    ensures r.member == p.member
    decreases p
  {
    Property(p.member, SubstituteAsWritten(p.propertyType, oldType, newType))
  }

  function SubstituteList(ts: seq<Type>, oldType: Type, newType: Type): (r: seq<Type>)
    ensures |r| == |ts|
    ensures forall i | 0 <= i < |ts| :: r[i] == Substitute(ts[i], oldType, newType)
    decreases ts
  {
    if |ts| == 0 then [] else [Substitute(ts[0], oldType, newType)] + SubstituteList(ts[1..], oldType, newType)
  }

  /** Each property keeps its member and position; only its type is substituted. */
  function SubstituteProperties(ps: seq<Property>, oldType: Type, newType: Type): (r: seq<Property>)
    ensures |r| == |ps|
    ensures forall i | 0 <= i < |ps| :: r[i] == SubstituteProperty(ps[i], oldType, newType)
    decreases ps
  {
    if |ps| == 0 then []
    else [SubstituteProperty(ps[0], oldType, newType)] + SubstituteProperties(ps[1..], oldType, newType)
  }

  function SubstituteProperty(p: Property, oldType: Type, newType: Type): (r: Property)
    ensures r.member == p.member
    decreases p
  {
    Property(p.member, Substitute(p.propertyType, oldType, newType))
  }

  // ----- fresh instances -----

  /**
   * `fresh`: base types and the string type are their own fresh instance; a type
   * variable becomes a new variable; parametrized and record types are rebuilt
   * over the same parts with the new id.
   */
  function Fresh(t: Type, id: nat): (r: Type)
    ensures IsBaseType(t) && !IsParametrized(t) && !IsRecordLike(t) ==> r == t
    ensures t.Variable? ==> r == Variable(id)
    ensures IsParametrized(t) ==> KindOf(r) == KindOf(t) && r.id == id && TypeParameters(r) == TypeParameters(t)
    ensures IsRecordLike(t) ==> r == WithProperties(t, t.properties, id)
  {
    match t
    case Variable(_) => Variable(id)
    case Maybe(of, _) => Maybe(of, id)
    case Function(th, ps, ret, declaration, environment, _) => Function(th, ps, ret, declaration, environment, id)
    case Record(c, props, _) => Record(c, props, id)
    case Array(of, props, _) => Array(of, props, id)
    case _ => t
  }

  /**
   * The module-level cache behind `MaybeType.of`: the Maybe of number is
   * created on the first request and handed out on every later one.
   */
  class MaybeTypeCache {
    var maybeNumber: Option<Type>

    /** The cached instance, once created, is a Maybe of the shared number type. */
    ghost predicate Valid()
      reads this
    {
      maybeNumber.Some? ==> maybeNumber.value == Maybe(NumberType, maybeNumber.value.id)
    }

    constructor ()
      ensures Valid() && maybeNumber == None
    {
      maybeNumber := None;
    }

    /** `MaybeType.of(t)`, where `id` is the id a newly created Maybe receives. */
    method Of(t: Type, id: nat) returns (r: Type)
      requires Valid()
      modifies this
      ensures Valid()
      ensures r.Maybe?
      ensures t.Number? ==> maybeNumber == Some(r) && r.of == NumberType
      ensures t.Number? && old(maybeNumber).Some? ==> r == old(maybeNumber).value
      ensures t.Number? && old(maybeNumber).None? ==> r.id == id
      ensures !t.Number? ==> r == Maybe(t, id) && maybeNumber == old(maybeNumber)
    {
      if t.Number? {
        if maybeNumber.None? {
          maybeNumber := Some(Maybe(NumberType, id));
        }
        return maybeNumber.value;
      }
      return Maybe(t, id);
    }
  }
}
