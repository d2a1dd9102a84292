/**
 * Laws of the type lattice: the invariant every type built by the checker
 * keeps (property names are distinct and no stored member is one the record
 * answers without storing), equality as an equivalence, subtyping, substitution
 * against a reference definition, and the record and array accessors.
 */
module TypeLaws {
  import opened Wrappers
  import opened Symbols
  import opened Types

  // ----- well-formed types -----

  /**
   * Property names are distinct (they are the keys of a map), no property is
   * stored under a computed member, and an array stores no element access and
   * no built-in name: `addProperty` refuses all of those.
   */
  predicate WellFormed(t: Type)
    decreases t
  {
    match t
    case Maybe(of, _) => WellFormed(of)
    case Function(th, ps, ret, _, _, _) => WellFormed(th) && WellFormed(ret) && forall p | p in ps :: WellFormed(p)
    case Record(_, props, _) => WellFormedProperties(props, false)
    case Array(of, props, _) => WellFormed(of) && WellFormedProperties(props, true)
    case _ => true
  }

  predicate WellFormedProperties(ps: seq<Property>, inArray: bool)
    decreases ps
  {
    DistinctNames(ps) && forall p | p in ps :: WellFormedProperty(p, inArray)
  }

  predicate StorableMember(member: Symbol, inArray: bool) {
    !IsComputed(member.flags) && (inArray ==> !IsElementAccess(member) && !IsArrayBuiltIn(member.name))
  }

  predicate WellFormedProperty(p: Property, inArray: bool)
    decreases p
  {
    StorableMember(p.member, inArray) && WellFormed(p.propertyType)
  }

  /**
   * Every part of `t` has the kind its id stands for in `kindOf`: an id names
   * instances of one class only, as the ids lodash hands out do.
   */
  predicate KindsAgree(t: Type, kindOf: nat -> Kind)
    decreases t
  {
    KindOf(t) == kindOf(t.id) &&
    match t
    case Maybe(of, _) => KindsAgree(of, kindOf)
    case Function(th, ps, ret, _, _, _) =>
      KindsAgree(th, kindOf) && KindsAgree(ret, kindOf) && forall p | p in ps :: KindsAgree(p, kindOf)
    case Record(_, props, _) => forall p | p in props :: PropertyKindsAgree(p, kindOf)
    case Array(of, props, _) => KindsAgree(of, kindOf) && forall p | p in props :: PropertyKindsAgree(p, kindOf)
    case _ => true
  }

  predicate PropertyKindsAgree(p: Property, kindOf: nat -> Kind)
    decreases p
  {
    KindsAgree(p.propertyType, kindOf)
  }

  // ----- names of a property list -----

  function NameSet(ps: seq<Property>): set<Name> {
    if |ps| == 0 then {} else {ps[0].member.name} + NameSet(ps[1..])
  }

  lemma {:induction false} NameSetMembership(ps: seq<Property>, name: Name)
    ensures name in NameSet(ps) <==> IndexOf(ps, name).Some?
  {
    if |ps| > 0 {
      NameSetMembership(ps[1..], name);
    }
  }

  lemma {:induction false} NameSetSize(ps: seq<Property>)
    requires DistinctNames(ps)
    ensures |NameSet(ps)| == |ps|
  {
    if |ps| > 0 {
      NameSetSize(ps[1..]);
      NameSetMembership(ps[1..], ps[0].member.name);
      assert forall i | 0 <= i < |ps[1..]| :: ps[1..][i].member.name != ps[0].member.name;
    }
  }

  lemma {:induction false} SubsetOfSameSize<T>(a: set<T>, b: set<T>)
    requires a <= b && |a| == |b|
    ensures a == b
  {
    if a != b {
      var x :| x in b && x !in a;
      assert a <= b - {x};
      SubsetSize(a, b - {x});
    }
  }

  lemma {:induction false} SubsetSize<T>(a: set<T>, b: set<T>)
    requires a <= b
    ensures |a| <= |b|
    decreases a
  {
    if a != {} {
      var x :| x in a;
      SubsetSize(a - {x}, b - {x});
    }
  }

  /** In a distinct list, a name is found at the position that holds it. */
  lemma IndexOfDistinct(ps: seq<Property>, k: nat)
    requires DistinctNames(ps) && k < |ps|
    ensures IndexOf(ps, ps[k].member.name) == Some(k)
  {
  }

  /**
   * Two distinct-named lists of the same length where every name of `pb` is a
   * name of `pa` hold the same names.
   */
  lemma {:induction false} NamesCovered(pa: seq<Property>, pb: seq<Property>)
    requires DistinctNames(pa) && DistinctNames(pb) && |pa| == |pb|
    requires forall j | 0 <= j < |pb| :: IndexOf(pa, pb[j].member.name).Some?
    ensures forall i | 0 <= i < |pa| :: IndexOf(pb, pa[i].member.name).Some?
  {
    forall n | n in NameSet(pb) ensures n in NameSet(pa) {
      NameSetMembership(pb, n);
      var j := IndexOf(pb, n).value;
      NameSetMembership(pa, pb[j].member.name);
    }
    NameSetSize(pa);
    NameSetSize(pb);
    SubsetOfSameSize(NameSet(pb), NameSet(pa));
    forall i | 0 <= i < |pa| ensures IndexOf(pb, pa[i].member.name).Some? {
      NameSetMembership(pa, pa[i].member.name);
      IndexOfDistinct(pa, i);
      NameSetMembership(pb, pa[i].member.name);
    }
  }

  // ----- equality is an equivalence on well-formed types -----

  /** Every well-formed type equals itself. */
  lemma {:induction false} EqualsReflexive(t: Type)
    requires WellFormed(t)
    ensures Equals(t, t)
    decreases t
  {
    match t
    case Maybe(of, _) => EqualsReflexive(of);
    case Function(th, ps, ret, _, _, _) =>
      EqualsReflexive(th);
      EqualsReflexive(ret);
      forall i | 0 <= i < |ps| ensures Equals(ps[i], ps[i]) {
        EqualsReflexive(ps[i]);
      }
    case Record(_, props, _) => PropertiesEqualReflexive(props, false);
    case Array(of, props, _) =>
      EqualsReflexive(of);
      PropertiesEqualReflexive(props, true);
    case _ =>
  }

  lemma {:induction false} PropertiesEqualReflexive(ps: seq<Property>, inArray: bool)
    requires WellFormedProperties(ps, inArray)
    ensures PropertiesEqual(ps, ps)
    decreases ps
  {
    forall j | 0 <= j < |ps|
      ensures IndexOf(ps, ps[j].member.name).Some? && PropertyEquals(ps[IndexOf(ps, ps[j].member.name).value], ps[j])
    {
      IndexOfDistinct(ps, j);
      PropertyEqualsReflexive(ps[j], inArray);
    }
  }

  lemma {:induction false} PropertyEqualsReflexive(p: Property, inArray: bool)
    requires WellFormedProperty(p, inArray)
    ensures PropertyEquals(p, p)
    decreases p
  {
    EqualsReflexive(p.propertyType);
  }

  /** Equality of well-formed types is symmetric. */
  lemma {:induction false} EqualsSymmetric(a: Type, b: Type, kindOf: nat -> Kind)
    requires WellFormed(a) && WellFormed(b) && KindsAgree(a, kindOf) && KindsAgree(b, kindOf) && Equals(a, b)
    ensures Equals(b, a)
    decreases a
  {
    match a
    case Maybe(of, _) => EqualsSymmetric(of, b.of, kindOf);
    case Function(th, ps, ret, _, _, _) =>
      EqualsSymmetric(th, b.thisType, kindOf);
      EqualsSymmetric(ret, b.returnType, kindOf);
      forall i | 0 <= i < |ps| ensures Equals(b.params[i], ps[i]) {
        assert ps[i] in ps && b.params[i] in b.params;
        EqualsSymmetric(ps[i], b.params[i], kindOf);
      }
    case Record(_, props, _) => PropertiesEqualSymmetric(props, b.properties, false, kindOf);
    case Array(of, props, _) =>
      EqualsSymmetric(of, b.of, kindOf);
      PropertiesEqualSymmetric(props, b.properties, true, kindOf);
    case Variable(_) =>
    case _ =>
  }

  lemma {:induction false} PropertiesEqualSymmetric(pa: seq<Property>, pb: seq<Property>, inArray: bool, kindOf: nat -> Kind)
    requires WellFormedProperties(pa, inArray) && WellFormedProperties(pb, inArray) && PropertiesEqual(pa, pb)
    requires forall p | p in pa :: PropertyKindsAgree(p, kindOf)
    requires forall p | p in pb :: PropertyKindsAgree(p, kindOf)
    ensures PropertiesEqual(pb, pa)
    decreases pa
  {
    NamesCovered(pa, pb);
    forall i | 0 <= i < |pa|
      ensures IndexOf(pb, pa[i].member.name).Some? && PropertyEquals(pb[IndexOf(pb, pa[i].member.name).value], pa[i])
    {
      var j := IndexOf(pb, pa[i].member.name).value;
      IndexOfDistinct(pa, i);
      assert IndexOf(pa, pb[j].member.name) == Some(i);
      assert pa[i] in pa && pb[j] in pb;
      PropertyEqualsSymmetric(pa[i], pb[j], inArray, kindOf);
    }
  }

  lemma {:induction false} PropertyEqualsSymmetric(p: Property, q: Property, inArray: bool, kindOf: nat -> Kind)
    requires WellFormedProperty(p, inArray) && WellFormedProperty(q, inArray) && PropertyEquals(p, q)
    requires PropertyKindsAgree(p, kindOf) && PropertyKindsAgree(q, kindOf)
    ensures PropertyEquals(q, p)
    decreases p
  {
    EqualsSymmetric(p.propertyType, q.propertyType, kindOf);
  }

  /** Equality is transitive. */
  lemma {:induction false} EqualsTransitive(a: Type, b: Type, c: Type, kindOf: nat -> Kind)
    requires KindsAgree(a, kindOf) && KindsAgree(b, kindOf) && Equals(a, b) && Equals(b, c)
    ensures Equals(a, c)
    decreases a
  {
    match a
    case Maybe(of, _) => EqualsTransitive(of, b.of, c.of, kindOf);
    case Function(th, ps, ret, _, _, _) =>
      EqualsTransitive(th, b.thisType, c.thisType, kindOf);
      EqualsTransitive(ret, b.returnType, c.returnType, kindOf);
      forall i | 0 <= i < |ps| ensures Equals(ps[i], c.params[i]) {
        assert ps[i] in ps && b.params[i] in b.params;
        EqualsTransitive(ps[i], b.params[i], c.params[i], kindOf);
      }
    case Record(_, props, _) => PropertiesEqualTransitive(props, b.properties, c.properties, kindOf);
    case Array(of, props, _) =>
      EqualsTransitive(of, b.of, c.of, kindOf);
      PropertiesEqualTransitive(props, b.properties, c.properties, kindOf);
    case Variable(_) =>
    case _ =>
  }

  lemma {:induction false} PropertiesEqualTransitive(pa: seq<Property>, pb: seq<Property>, pc: seq<Property>, kindOf: nat -> Kind)
    requires forall p | p in pa :: PropertyKindsAgree(p, kindOf)
    requires forall p | p in pb :: PropertyKindsAgree(p, kindOf)
    requires PropertiesEqual(pa, pb) && PropertiesEqual(pb, pc)
    ensures PropertiesEqual(pa, pc)
    decreases pa
  {
    forall k | 0 <= k < |pc|
      ensures IndexOf(pa, pc[k].member.name).Some? && PropertyEquals(pa[IndexOf(pa, pc[k].member.name).value], pc[k])
    {
      var j := IndexOf(pb, pc[k].member.name).value;
      var i := IndexOf(pa, pb[j].member.name).value;
      assert pa[i] in pa && pb[j] in pb;
      PropertyEqualsTransitive(pa[i], pb[j], pc[k], kindOf);
    }
  }

  lemma {:induction false} PropertyEqualsTransitive(p: Property, q: Property, r: Property, kindOf: nat -> Kind)
    requires PropertyKindsAgree(p, kindOf) && PropertyKindsAgree(q, kindOf)
    requires PropertyEquals(p, q) && PropertyEquals(q, r)
    ensures PropertyEquals(p, r)
    decreases p
  {
    EqualsTransitive(p.propertyType, q.propertyType, r.propertyType, kindOf);
  }

  // ----- subtyping -----

  /** A well-formed type accepts every well-formed type equal to it. */
  lemma {:induction false} EqualsImpliesSubType(a: Type, b: Type)
    requires WellFormed(a) && WellFormed(b) && Equals(a, b)
    ensures IsSubType(a, b) == Ok(true)
    decreases a
  {
    match a
    case Maybe(of, _) => EqualsImpliesSubType(of, b.of);
    case Function(th, ps, ret, _, _, _) =>
      EqualsImpliesSubType(th, b.thisType);
      EqualsImpliesSubType(ret, b.returnType);
      SubTypesOfEqualLists(ps, b.params);
    case Record(_, props, _) => PropertiesSubTypesOfEqual(props, b, false);
    case Array(of, props, _) =>
      PropertiesSubTypesOfEqual(props, b, true);
      EqualsImpliesSubType(of, b.of);
    case _ =>
  }

  lemma {:induction false} SubTypesOfEqualLists(xs: seq<Type>, ys: seq<Type>)
    requires forall x | x in xs :: WellFormed(x)
    requires forall y | y in ys :: WellFormed(y)
    requires ListEquals(xs, ys)
    ensures SubTypes(xs, ys) == Ok(true)
    decreases xs
  {
    if |xs| > 0 {
      EqualsImpliesSubType(xs[0], ys[0]);
      assert forall x | x in xs[1..] :: x in xs;
      assert forall y | y in ys[1..] :: y in ys;
      SubTypesOfEqualLists(xs[1..], ys[1..]);
    }
  }

  lemma {:induction false} PropertiesSubTypesOfEqual(pa: seq<Property>, b: Type, inArray: bool)
    requires IsRecordLike(b) && inArray == b.Array?
    requires WellFormedProperties(pa, inArray) && WellFormedProperties(b.properties, inArray)
    requires PropertiesEqual(pa, b.properties)
    ensures PropertiesSubTypes(pa, b) == Ok(true)
    decreases pa
  {
    var pb := b.properties;
    NamesCovered(pa, pb);
    forall i | 0 <= i < |pa| ensures PropertySubType(pa[i], b) == Ok(true) {
      var j := IndexOf(pb, pa[i].member.name).value;
      IndexOfDistinct(pa, i);
      assert pa[i] in pa && pb[j] in pb;
      PropertySubTypeOfEqual(pa[i], pb[j], b, inArray);
    }
    AllPropertiesSubType(pa, b);
  }

  lemma {:induction false} PropertySubTypeOfEqual(p: Property, q: Property, b: Type, inArray: bool)
    requires IsRecordLike(b) && inArray == b.Array?
    requires Lookup(b.properties, p.member.name) == Some(q.propertyType)
    requires WellFormedProperty(p, inArray) && WellFormedProperty(q, inArray) && PropertyEquals(p, q)
    ensures PropertySubType(p, b) == Ok(true)
    decreases p
  {
    EqualsImpliesSubType(p.propertyType, q.propertyType);
  }

  lemma {:induction false} AllPropertiesSubType(ps: seq<Property>, b: Type)
    requires IsRecordLike(b)
    requires forall i | 0 <= i < |ps| :: PropertySubType(ps[i], b) == Ok(true)
    ensures PropertiesSubTypes(ps, b) == Ok(true)
  {
    if |ps| > 0 {
      AllPropertiesSubType(ps[1..], b);
    }
  }

  /** Every well-formed type is a subtype of itself. */
  lemma SubTypeReflexive(t: Type)
    requires WellFormed(t)
    ensures IsSubType(t, t) == Ok(true)
  {
    EqualsReflexive(t);
    EqualsImpliesSubType(t, t);
  }

  /**
   * What `isSubType` answers class by class: Any, Void and type variables accept
   * everything; a Maybe accepts null, undefined, the subtypes of its parameter
   * and Maybes of those; the other base types accept their own class only; a
   * function, record or array never accepts a type of another class.
   */
  lemma SubTypeByClass(a: Type, b: Type)
    ensures a.Any? || a.Void? || a.Variable? ==> IsSubType(a, b) == Ok(true)
    ensures a.Maybe? && (b.Null? || b.Void?) ==> IsSubType(a, b) == Ok(true)
    ensures a.Maybe? && !b.Maybe? && !b.Null? && !b.Void? ==> IsSubType(a, b) == IsSubType(a.of, b)
    ensures a.Maybe? && b.Maybe? && IsSubType(a.of, b.of) == Ok(true) ==> IsSubType(a, b) == Ok(true)
    ensures a.Maybe? && b.Maybe? && IsSubType(a.of, b.of) == Ok(false) ==> IsSubType(a, b) == IsSubType(a.of, b)
    ensures a.Plain? || a.Null? || a.Number? || a.Boolean? || a.String? ==>
      IsSubType(a, b) == Ok(KindOf(a) == KindOf(b))
    ensures (a.Function? || IsRecordLike(a)) && KindOf(a) != KindOf(b) ==> IsSubType(a, b) == Ok(false)
  {
  }

  // ----- substitution -----

  /** Some part of `t` carries the id `id`. */
  predicate Mentions(t: Type, id: nat)
    decreases t
  {
    t.id == id ||
    match t
    case Maybe(of, _) => Mentions(of, id)
    case Function(th, ps, ret, _, _, _) =>
      Mentions(th, id) || Mentions(ret, id) || exists p | p in ps :: Mentions(p, id)
    case Record(_, props, _) => exists p | p in props :: PropertyMentions(p, id)
    case Array(of, props, _) => Mentions(of, id) || exists p | p in props :: PropertyMentions(p, id)
    case _ => false
  }

  predicate PropertyMentions(p: Property, id: nat)
    decreases p
  {
    Mentions(p.propertyType, id)
  }

  /**
   * The reference substitution: every part that is the same instance as
   * `oldType` is replaced by `newType`, and every other part keeps its kind,
   * its id and its members.
   */
  function FullSubstitute(t: Type, oldType: Type, newType: Type): Type
    decreases t
  {
    if Same(t, oldType) then newType
    else match t
      case Maybe(of, id) => Maybe(FullSubstitute(of, oldType, newType), id)
      case Function(th, ps, ret, declaration, environment, id) =>
        Function(FullSubstitute(th, oldType, newType), FullSubstituteList(ps, oldType, newType),
                 FullSubstitute(ret, oldType, newType), declaration, environment, id)
      case Record(c, props, id) => Record(c, FullSubstituteProperties(props, oldType, newType), id)
      case Array(of, props, id) =>
        Array(FullSubstitute(of, oldType, newType), FullSubstituteProperties(props, oldType, newType), id)
      case _ => t
  }

  function FullSubstituteList(ts: seq<Type>, oldType: Type, newType: Type): (r: seq<Type>)
    ensures |r| == |ts| && forall i | 0 <= i < |ts| :: r[i] == FullSubstitute(ts[i], oldType, newType)
    decreases ts
  {
    if |ts| == 0 then [] else [FullSubstitute(ts[0], oldType, newType)] + FullSubstituteList(ts[1..], oldType, newType)
  }

  function FullSubstituteProperties(ps: seq<Property>, oldType: Type, newType: Type): (r: seq<Property>)
    ensures |r| == |ps| && forall i | 0 <= i < |ps| :: r[i] == FullSubstituteProperty(ps[i], oldType, newType)
    decreases ps
  {
    if |ps| == 0 then []
    else [FullSubstituteProperty(ps[0], oldType, newType)] + FullSubstituteProperties(ps[1..], oldType, newType)
  }

  function FullSubstituteProperty(p: Property, oldType: Type, newType: Type): (r: Property)
    ensures r.member == p.member
    decreases p
  {
    Property(p.member, FullSubstitute(p.propertyType, oldType, newType))
  }

  /** Substituting an instance a well-formed type does not mention gives the type itself back. */
  lemma {:induction false} SubstituteUnmentioned(t: Type, oldType: Type, newType: Type)
    requires WellFormed(t) && !Mentions(t, oldType.id)
    ensures Substitute(t, oldType, newType) == t
    decreases t, 1
  {
    match t
    case Maybe(of, _) =>
      SubstituteUnmentioned(of, oldType, newType);
      EqualsReflexive(of);
    case Function(_, _, _, _, _, _) => FunctionSubstituteUnmentioned(t, oldType, newType);
    case Record(_, props, _) =>
      PropertiesSubstituteUnmentioned(props, oldType, newType, false);
      PropertiesEqualReflexive(props, false);
    case Array(of, props, _) =>
      SubstituteUnmentioned(of, oldType, newType);
      PropertiesSubstituteUnmentioned(props, oldType, newType, true);
      PropertiesEqualReflexive(props, true);
    case _ =>
  }

  lemma {:induction false} FunctionSubstituteUnmentioned(t: Type, oldType: Type, newType: Type)
    requires t.Function? && WellFormed(t) && !Mentions(t, oldType.id)
    ensures Substitute(t, oldType, newType) == t
    decreases t, 0
  {
    var ps := t.params;
    SubstituteUnmentioned(t.thisType, oldType, newType);
    SubstituteUnmentioned(t.returnType, oldType, newType);
    EqualsReflexive(t.thisType);
    EqualsReflexive(t.returnType);
    forall i | 0 <= i < |ps| ensures Substitute(ps[i], oldType, newType) == ps[i] && Equals(ps[i], ps[i]) {
      assert ps[i] in ps;
      SubstituteUnmentioned(ps[i], oldType, newType);
      EqualsReflexive(ps[i]);
    }
    assert SubstituteList(ps, oldType, newType) == ps;
  }

  lemma {:induction false} PropertiesSubstituteUnmentioned(ps: seq<Property>, oldType: Type, newType: Type, inArray: bool)
    requires WellFormedProperties(ps, inArray) && forall p | p in ps :: !PropertyMentions(p, oldType.id)
    ensures SubstituteProperties(ps, oldType, newType) == ps
    decreases ps
  {
    forall i | 0 <= i < |ps| ensures SubstituteProperty(ps[i], oldType, newType) == ps[i] {
      assert ps[i] in ps;
      PropertySubstituteUnmentioned(ps[i], oldType, newType, inArray);
    }
    assert SubstituteProperties(ps, oldType, newType) == ps;
  }

  lemma {:induction false} PropertySubstituteUnmentioned(p: Property, oldType: Type, newType: Type, inArray: bool)
    requires WellFormedProperty(p, inArray) && !PropertyMentions(p, oldType.id)
    ensures SubstituteProperty(p, oldType, newType) == p
    decreases p
  {
    SubstituteUnmentioned(p.propertyType, oldType, newType);
  }

  /** Substituting a well-formed type into a well-formed type gives a well-formed type. */
  lemma {:induction false} SubstitutePreservesWellFormed(t: Type, oldType: Type, newType: Type)
    requires WellFormed(t) && WellFormed(newType)
    ensures WellFormed(Substitute(t, oldType, newType))
    decreases t, 1
  {
    if !Same(t, oldType) {
      match t
      case Maybe(of, _) => SubstitutePreservesWellFormed(of, oldType, newType);
      case Function(_, _, _, _, _, _) => FunctionSubstitutePreservesWellFormed(t, oldType, newType);
      case Record(_, props, _) => PropertiesSubstitutePreservesWellFormed(props, oldType, newType, false);
      case Array(of, props, _) =>
        SubstitutePreservesWellFormed(of, oldType, newType);
        PropertiesSubstitutePreservesWellFormed(props, oldType, newType, true);
      case _ =>
    }
  }

  lemma {:induction false} FunctionSubstitutePreservesWellFormed(t: Type, oldType: Type, newType: Type)
    requires t.Function? && !Same(t, oldType) && WellFormed(t) && WellFormed(newType)
    ensures WellFormed(Substitute(t, oldType, newType))
    decreases t, 0
  {
    var ps := t.params;
    var ps' := SubstituteList(ps, oldType, newType);
    SubstitutePreservesWellFormed(t.thisType, oldType, newType);
    SubstitutePreservesWellFormed(t.returnType, oldType, newType);
    forall p | p in ps' ensures WellFormed(p) {
      var i :| 0 <= i < |ps| && p == ps'[i];
      assert ps[i] in ps;
      SubstitutePreservesWellFormed(ps[i], oldType, newType);
    }
  }

  lemma {:induction false} PropertiesSubstitutePreservesWellFormed(ps: seq<Property>, oldType: Type, newType: Type, inArray: bool)
    requires WellFormedProperties(ps, inArray) && WellFormed(newType)
    ensures WellFormedProperties(SubstituteProperties(ps, oldType, newType), inArray)
    decreases ps
  {
    var r := SubstituteProperties(ps, oldType, newType);
    forall q | q in r ensures WellFormedProperty(q, inArray) {
      var i :| 0 <= i < |ps| && q == r[i];
      assert ps[i] in ps;
      PropertySubstitutePreservesWellFormed(ps[i], oldType, newType, inArray);
    }
  }

  lemma {:induction false} PropertySubstitutePreservesWellFormed(p: Property, oldType: Type, newType: Type, inArray: bool)
    requires WellFormedProperty(p, inArray) && WellFormed(newType)
    ensures WellFormedProperty(SubstituteProperty(p, oldType, newType), inArray)
    decreases p
  {
    SubstitutePreservesWellFormed(p.propertyType, oldType, newType);
  }

  /** Substitution keeps the kind of every id: rebuilt parts keep their id and kind. */
  lemma {:induction false} SubstitutePreservesKinds(t: Type, oldType: Type, newType: Type, kindOf: nat -> Kind)
    requires KindsAgree(t, kindOf) && KindsAgree(newType, kindOf)
    ensures KindsAgree(Substitute(t, oldType, newType), kindOf)
    decreases t, 1
  {
    if !Same(t, oldType) {
      match t
      case Maybe(of, id) =>
        SubstitutePreservesKinds(of, oldType, newType, kindOf);
        var r := Substitute(t, oldType, newType);
        assert r == t || r == Maybe(Substitute(of, oldType, newType), id);
      case Function(_, _, _, _, _, _) => FunctionSubstitutePreservesKinds(t, oldType, newType, kindOf);
      case Record(c, props, id) =>
        PropertiesSubstitutePreservesKinds(props, oldType, newType, kindOf);
        var r := Substitute(t, oldType, newType);
        assert r == t || r == Record(c, SubstituteProperties(props, oldType, newType), id);
      case Array(of, props, id) =>
        SubstitutePreservesKinds(of, oldType, newType, kindOf);
        PropertiesSubstitutePreservesKinds(props, oldType, newType, kindOf);
        var r := Substitute(t, oldType, newType);
        var of' := Substitute(of, oldType, newType);
        var props' := SubstituteProperties(props, oldType, newType);
        assert r == t || r == Array(of', props', id) || r == Array(of, props', id);
      case _ =>
    }
  }

  lemma {:induction false} FunctionSubstitutePreservesKinds(t: Type, oldType: Type, newType: Type, kindOf: nat -> Kind)
    requires t.Function? && !Same(t, oldType) && KindsAgree(t, kindOf) && KindsAgree(newType, kindOf)
    ensures KindsAgree(Substitute(t, oldType, newType), kindOf)
    decreases t, 0
  {
    var ps := t.params;
    var ps' := SubstituteList(ps, oldType, newType);
    SubstitutePreservesKinds(t.thisType, oldType, newType, kindOf);
    SubstitutePreservesKinds(t.returnType, oldType, newType, kindOf);
    forall p | p in ps' ensures KindsAgree(p, kindOf) {
      var i :| 0 <= i < |ps| && p == ps'[i];
      assert ps[i] in ps;
      SubstitutePreservesKinds(ps[i], oldType, newType, kindOf);
    }
  }

  lemma {:induction false} PropertiesSubstitutePreservesKinds(ps: seq<Property>, oldType: Type, newType: Type, kindOf: nat -> Kind)
    requires (forall p | p in ps :: PropertyKindsAgree(p, kindOf)) && KindsAgree(newType, kindOf)
    ensures forall q | q in SubstituteProperties(ps, oldType, newType) :: PropertyKindsAgree(q, kindOf)
    decreases ps
  {
    var r := SubstituteProperties(ps, oldType, newType);
    forall q | q in r ensures PropertyKindsAgree(q, kindOf) {
      var i :| 0 <= i < |ps| && q == r[i];
      assert ps[i] in ps;
      PropertySubstitutePreservesKinds(ps[i], oldType, newType, kindOf);
    }
  }

  lemma {:induction false} PropertySubstitutePreservesKinds(p: Property, oldType: Type, newType: Type, kindOf: nat -> Kind)
    requires PropertyKindsAgree(p, kindOf) && KindsAgree(newType, kindOf)
    ensures PropertyKindsAgree(SubstituteProperty(p, oldType, newType), kindOf)
    decreases p
  {
    SubstitutePreservesKinds(p.propertyType, oldType, newType, kindOf);
  }

  /**
   * `Substitute` agrees with the reference substitution up to `Equals`: a part
   * it leaves as it was is equal to its substituted form.
   */
  lemma {:induction false} SubstituteMatchesReference(t: Type, oldType: Type, newType: Type, kindOf: nat -> Kind)
    requires WellFormed(t) && WellFormed(newType) && KindsAgree(t, kindOf) && KindsAgree(newType, kindOf)
    ensures Equals(Substitute(t, oldType, newType), FullSubstitute(t, oldType, newType))
    decreases t, 1
  {
    if Same(t, oldType) {
      EqualsReflexive(newType);
    } else {
      match t
      case Maybe(_, _) => MaybeSubstituteMatchesReference(t, oldType, newType, kindOf);
      case Function(_, _, _, _, _, _) => FunctionSubstituteMatchesReference(t, oldType, newType, kindOf);
      case Record(_, _, _) => RecordSubstituteMatchesReference(t, oldType, newType, kindOf);
      case Array(_, _, _) => ArraySubstituteMatchesReference(t, oldType, newType, kindOf);
      case _ =>
    }
  }

  lemma {:induction false} MaybeSubstituteMatchesReference(t: Type, oldType: Type, newType: Type, kindOf: nat -> Kind)
    requires t.Maybe? && !Same(t, oldType)
    requires WellFormed(t) && WellFormed(newType) && KindsAgree(t, kindOf) && KindsAgree(newType, kindOf)
    ensures Equals(Substitute(t, oldType, newType), FullSubstitute(t, oldType, newType))
    decreases t, 0
  {
    var of := t.of;
    var of' := Substitute(of, oldType, newType);
    SubstituteMatchesReference(of, oldType, newType, kindOf);
    SubstitutePreservesKinds(of, oldType, newType, kindOf);
    if Equals(of, of') {
      EqualsTransitive(of, of', FullSubstitute(of, oldType, newType), kindOf);
    }
  }

  lemma {:induction false} RecordSubstituteMatchesReference(t: Type, oldType: Type, newType: Type, kindOf: nat -> Kind)
    requires t.Record? && !Same(t, oldType)
    requires WellFormed(t) && WellFormed(newType) && KindsAgree(t, kindOf) && KindsAgree(newType, kindOf)
    ensures Equals(Substitute(t, oldType, newType), FullSubstitute(t, oldType, newType))
    decreases t, 0
  {
    var props' := SubstituteProperties(t.properties, oldType, newType);
    var full := FullSubstituteProperties(t.properties, oldType, newType);
    SubstitutedPropertiesMatchReference(t.properties, oldType, newType, kindOf, false);
    assert FullSubstitute(t, oldType, newType) == Record(t.recordClass, full, t.id);
    if PropertiesEqual(props', t.properties) {
      UnchangedPropertiesMatchReference(t.properties, oldType, newType, kindOf, false);
      assert Substitute(t, oldType, newType) == t;
    } else {
      assert Substitute(t, oldType, newType) == Record(t.recordClass, props', t.id);
    }
  }

  lemma {:induction false} ArraySubstituteMatchesReference(t: Type, oldType: Type, newType: Type, kindOf: nat -> Kind)
    requires t.Array? && !Same(t, oldType)
    requires WellFormed(t) && WellFormed(newType) && KindsAgree(t, kindOf) && KindsAgree(newType, kindOf)
    ensures Equals(Substitute(t, oldType, newType), FullSubstitute(t, oldType, newType))
    decreases t, 0
  {
    var of' := Substitute(t.of, oldType, newType);
    var props' := SubstituteProperties(t.properties, oldType, newType);
    var full := FullSubstituteProperties(t.properties, oldType, newType);
    SubstituteMatchesReference(t.of, oldType, newType, kindOf);
    SubstitutedPropertiesMatchReference(t.properties, oldType, newType, kindOf, true);
    assert FullSubstitute(t, oldType, newType) == Array(FullSubstitute(t.of, oldType, newType), full, t.id);
    if t.of != of' {
      assert Substitute(t, oldType, newType) == Array(of', props', t.id);
    } else if PropertiesEqual(props', t.properties) {
      UnchangedPropertiesMatchReference(t.properties, oldType, newType, kindOf, true);
      assert Substitute(t, oldType, newType) == t;
    } else {
      assert Substitute(t, oldType, newType) == Array(t.of, props', t.id);
    }
  }

  lemma {:induction false} FunctionSubstituteMatchesReference(t: Type, oldType: Type, newType: Type, kindOf: nat -> Kind)
    requires t.Function? && !Same(t, oldType)
    requires WellFormed(t) && WellFormed(newType) && KindsAgree(t, kindOf) && KindsAgree(newType, kindOf)
    ensures Equals(Substitute(t, oldType, newType), FullSubstitute(t, oldType, newType))
    decreases t, 0
  {
    var th, ret := t.thisType, t.returnType;
    var th', ret' := Substitute(th, oldType, newType), Substitute(ret, oldType, newType);
    SubstituteMatchesReference(th, oldType, newType, kindOf);
    SubstituteMatchesReference(ret, oldType, newType, kindOf);
    SubstitutePreservesKinds(th, oldType, newType, kindOf);
    SubstitutePreservesKinds(ret, oldType, newType, kindOf);
    ListSubstituteMatchesReference(t.params, oldType, newType, kindOf);
    if Equals(th, th') && Equals(ret, ret') {
      EqualsTransitive(th, th', FullSubstitute(th, oldType, newType), kindOf);
      EqualsTransitive(ret, ret', FullSubstitute(ret, oldType, newType), kindOf);
    }
  }

  lemma {:induction false} ListSubstituteMatchesReference(ps: seq<Type>, oldType: Type, newType: Type, kindOf: nat -> Kind)
    requires forall p | p in ps :: WellFormed(p) && KindsAgree(p, kindOf)
    requires WellFormed(newType) && KindsAgree(newType, kindOf)
    ensures ListEquals(SubstituteList(ps, oldType, newType), FullSubstituteList(ps, oldType, newType))
    ensures ListEquals(ps, SubstituteList(ps, oldType, newType)) ==> ListEquals(ps, FullSubstituteList(ps, oldType, newType))
    decreases ps, 0
  {
    var ps' := SubstituteList(ps, oldType, newType);
    var fps := FullSubstituteList(ps, oldType, newType);
    forall i | 0 <= i < |ps|
      ensures Equals(ps'[i], fps[i]) && (Equals(ps[i], ps'[i]) ==> Equals(ps[i], fps[i]))
    {
      assert ps[i] in ps;
      SubstituteMatchesReference(ps[i], oldType, newType, kindOf);
      SubstitutePreservesKinds(ps[i], oldType, newType, kindOf);
      if Equals(ps[i], ps'[i]) {
        EqualsTransitive(ps[i], ps'[i], fps[i], kindOf);
      }
    }
  }

  /** The substituted properties equal the reference ones. */
  lemma {:induction false} SubstitutedPropertiesMatchReference(ps: seq<Property>, oldType: Type, newType: Type, kindOf: nat -> Kind, inArray: bool)
    requires WellFormedProperties(ps, inArray) && (forall p | p in ps :: PropertyKindsAgree(p, kindOf))
    requires WellFormed(newType) && KindsAgree(newType, kindOf)
    ensures PropertiesEqual(SubstituteProperties(ps, oldType, newType), FullSubstituteProperties(ps, oldType, newType))
    decreases ps, 0
  {
    var ps' := SubstituteProperties(ps, oldType, newType);
    var full := FullSubstituteProperties(ps, oldType, newType);
    assert DistinctNames(ps');
    forall j | 0 <= j < |full|
      ensures IndexOf(ps', full[j].member.name).Some? && PropertyEquals(ps'[IndexOf(ps', full[j].member.name).value], full[j])
    {
      assert ps[j] in ps;
      IndexOfDistinct(ps', j);
      PropertySubstituteMatchesReference(ps[j], oldType, newType, kindOf, inArray);
    }
  }

  /** When the substituted properties equal the old ones, the old ones equal the reference ones. */
  lemma {:induction false} UnchangedPropertiesMatchReference(ps: seq<Property>, oldType: Type, newType: Type, kindOf: nat -> Kind, inArray: bool)
    requires WellFormedProperties(ps, inArray) && (forall p | p in ps :: PropertyKindsAgree(p, kindOf))
    requires WellFormed(newType) && KindsAgree(newType, kindOf)
    requires PropertiesEqual(SubstituteProperties(ps, oldType, newType), ps)
    ensures PropertiesEqual(ps, FullSubstituteProperties(ps, oldType, newType))
    decreases ps, 0
  {
    var ps' := SubstituteProperties(ps, oldType, newType);
    var full := FullSubstituteProperties(ps, oldType, newType);
    assert DistinctNames(ps');
    forall j | 0 <= j < |full|
      ensures IndexOf(ps, full[j].member.name).Some? && PropertyEquals(ps[IndexOf(ps, full[j].member.name).value], full[j])
    {
      assert ps[j] in ps;
      IndexOfDistinct(ps, j);
      IndexOfDistinct(ps', j);
      assert PropertyEquals(ps'[j], ps[j]);
      PropertySubstituteMatchesReference(ps[j], oldType, newType, kindOf, inArray);
    }
  }

  lemma {:induction false} PropertySubstituteMatchesReference(p: Property, oldType: Type, newType: Type, kindOf: nat -> Kind, inArray: bool)
    requires WellFormedProperty(p, inArray) && PropertyKindsAgree(p, kindOf)
    requires WellFormed(newType) && KindsAgree(newType, kindOf)
    ensures PropertyEquals(SubstituteProperty(p, oldType, newType), FullSubstituteProperty(p, oldType, newType))
    ensures PropertyEquals(SubstituteProperty(p, oldType, newType), p) ==>
      PropertyEquals(p, FullSubstituteProperty(p, oldType, newType))
    decreases p
  {
    var t := p.propertyType;
    var t' := Substitute(t, oldType, newType);
    SubstituteMatchesReference(t, oldType, newType, kindOf);
    SubstitutePreservesWellFormed(t, oldType, newType);
    SubstitutePreservesKinds(t, oldType, newType, kindOf);
    if Equals(t', t) {
      EqualsSymmetric(t', t, kindOf);
      EqualsTransitive(t, t', FullSubstitute(t, oldType, newType), kindOf);
    }
  }

  /** The type has no array anywhere inside it. */
  predicate ArrayFree(t: Type)
    decreases t
  {
    match t
    case Maybe(of, _) => ArrayFree(of)
    case Function(th, ps, ret, _, _, _) => ArrayFree(th) && ArrayFree(ret) && forall p | p in ps :: ArrayFree(p)
    case Record(_, props, _) => forall p | p in props :: PropertyArrayFree(p)
    case Array(_, _, _) => false
    case _ => true
  }

  predicate PropertyArrayFree(p: Property)
    decreases p
  {
    ArrayFree(p.propertyType)
  }

  /** Where no array is involved, `substitute` as written is the corrected `Substitute`. */
  lemma {:induction false} SubstituteAsWrittenAgrees(t: Type, oldType: Type, newType: Type)
    requires ArrayFree(t)
    ensures SubstituteAsWritten(t, oldType, newType) == Substitute(t, oldType, newType)
    decreases t, 2
  {
    if !Same(t, oldType) {
      if t.Maybe? {
        MaybeAsWrittenAgrees(t, oldType, newType);
      } else if t.Function? {
        FunctionAsWrittenAgrees(t, oldType, newType);
      } else if t.Record? {
        PropertiesAsWrittenAgrees(t, t.properties, oldType, newType);
      }
    }
  }

  lemma {:induction false} MaybeAsWrittenAgrees(t: Type, oldType: Type, newType: Type)
    requires t.Maybe? && !Same(t, oldType) && ArrayFree(t)
    ensures SubstituteAsWritten(t, oldType, newType) == Substitute(t, oldType, newType)
    decreases t, 1
  {
    SubstituteAsWrittenAgrees(t.of, oldType, newType);
  }

  lemma {:induction false} FunctionAsWrittenAgrees(t: Type, oldType: Type, newType: Type)
    requires t.Function? && !Same(t, oldType) && ArrayFree(t)
    ensures SubstituteAsWritten(t, oldType, newType) == Substitute(t, oldType, newType)
    decreases t, 1
  {
    SubstituteAsWrittenAgrees(t.thisType, oldType, newType);
    SubstituteAsWrittenAgrees(t.returnType, oldType, newType);
    ListAsWrittenAgrees(t, t.params, oldType, newType);
  }

  lemma {:induction false} ListAsWrittenAgrees(t: Type, ps: seq<Type>, oldType: Type, newType: Type)
    requires t.Function? && ps == t.params && forall p | p in ps :: ArrayFree(p)
    ensures SubstituteListAsWritten(ps, oldType, newType) == SubstituteList(ps, oldType, newType)
    decreases t, 0
  {
    forall i | 0 <= i < |ps|
      ensures SubstituteAsWritten(ps[i], oldType, newType) == Substitute(ps[i], oldType, newType)
    {
      assert ps[i] in ps;
      SubstituteAsWrittenAgrees(ps[i], oldType, newType);
    }
  }

  lemma {:induction false} PropertiesAsWrittenAgrees(t: Type, props: seq<Property>, oldType: Type, newType: Type)
    requires t.Record? && props == t.properties && forall p | p in props :: PropertyArrayFree(p)
    ensures SubstitutePropertiesAsWritten(props, oldType, newType) == SubstituteProperties(props, oldType, newType)
    decreases t, 0
  {
    forall i | 0 <= i < |props|
      ensures SubstitutePropertyAsWritten(props[i], oldType, newType) == SubstituteProperty(props[i], oldType, newType)
    {
      assert props[i] in props && PropertyArrayFree(props[i]);
      SubstituteAsWrittenAgrees(props[i].propertyType, oldType, newType);
    }
  }

  /**
   * `substitute` as written keeps a custom array property typed by the
   * substituted variable when the element type is that variable too, also
   * below a Maybe; the corrected and the reference substitution replace it.
   */
  lemma ArraySubstituteKeepsStaleProperty(foo: Symbol)
    ensures var alpha := Variable(100);
      var t := Array(alpha, [Property(foo, alpha)], 101);
      SubstituteAsWritten(t, alpha, NumberType) == Array(NumberType, [Property(foo, alpha)], 101) &&
      SubstituteAsWritten(Maybe(t, 102), alpha, NumberType) == Maybe(Array(NumberType, [Property(foo, alpha)], 101), 102) &&
      Substitute(t, alpha, NumberType) == Array(NumberType, [Property(foo, NumberType)], 101) &&
      !Equals(SubstituteAsWritten(t, alpha, NumberType), FullSubstitute(t, alpha, NumberType))
  {
    var alpha := Variable(100);
    var t := Array(alpha, [Property(foo, alpha)], 101);
    assert SubstituteProperties([Property(foo, alpha)], alpha, NumberType) == [Property(foo, NumberType)];
    assert FullSubstituteProperty(Property(foo, alpha), alpha, NumberType) == Property(foo, NumberType);
    assert FullSubstituteProperties([Property(foo, alpha)], alpha, NumberType) == [Property(foo, NumberType)];
    assert IndexOf([Property(foo, alpha)], foo.name) == Some(0);
    assert !PropertyEquals(Property(foo, alpha), Property(foo, NumberType));
    assert SubstituteAsWritten(t, alpha, NumberType) == Array(NumberType, [Property(foo, alpha)], 101);
    assert !Equals(t, Array(NumberType, [Property(foo, alpha)], 101));
  }

  // ----- record and array accessors -----

  lemma {:induction false} IndexOfAppend(ps: seq<Property>, p: Property, name: Name)
    ensures IndexOf(ps + [p], name) ==
      if IndexOf(ps, name).Some? then IndexOf(ps, name)
      else if p.member.name == name then Some(|ps|) else None
  {
    if |ps| > 0 {
      assert (ps + [p])[1..] == ps[1..] + [p];
      IndexOfAppend(ps[1..], p, name);
    }
  }

  lemma IndexOfReplace(ps: seq<Property>, i: nat, p: Property, name: Name)
    requires IndexOf(ps, name) == Some(i) && p.member.name == name
    ensures IndexOf(ReplaceAt(ps, i, p), name) == Some(i)
  {
    var r := ReplaceAt(ps, i, p);
    assert forall k | 0 <= k < i :: r[k].member.name != name;
    assert r[i].member.name == name;
  }

  /** After `addProperty` the record answers the new member with the given type. */
  lemma AddPropertyThenGetType(t: Type, symbol: Symbol, propertyType: Type, ids: nat)
    requires IsRecordLike(t) && AddProperty(t, symbol, propertyType).Ok?
    ensures GetType(AddProperty(t, symbol, propertyType).value, symbol, ids) == Ok(Some(propertyType))
  {
    IndexOfAppend(t.properties, Property(symbol, propertyType), symbol.name);
  }

  /** `addProperty` changes nothing about the other names. */
  lemma AddPropertyKeepsOthers(t: Type, symbol: Symbol, propertyType: Type, other: Symbol, ids: nat)
    requires IsRecordLike(t) && AddProperty(t, symbol, propertyType).Ok? && other.name != symbol.name
    ensures HasProperty(AddProperty(t, symbol, propertyType).value, other) == HasProperty(t, other)
    ensures !(t.Array? && IsArrayBuiltIn(other.name)) ==>
      GetType(AddProperty(t, symbol, propertyType).value, other, ids) == GetType(t, other, ids)
  {
    IndexOfAppend(t.properties, Property(symbol, propertyType), other.name);
  }

  /** `addProperty` keeps a type well formed. */
  lemma AddPropertyPreservesWellFormed(t: Type, symbol: Symbol, propertyType: Type)
    requires IsRecordLike(t) && WellFormed(t) && WellFormed(propertyType) && AddProperty(t, symbol, propertyType).Ok?
    ensures WellFormed(AddProperty(t, symbol, propertyType).value)
  {
    var ps := t.properties + [Property(symbol, propertyType)];
    forall i, j | 0 <= i < j < |ps| ensures ps[i].member.name != ps[j].member.name {
      if j == |ps| - 1 {
        assert ps[i] == t.properties[i];
      }
    }
  }

  /** After `setType` on a stored member or an element access, the new type is what `getType` answers. */
  lemma SetTypeThenGetType(t: Type, symbol: Symbol, propertyType: Type, ids: nat)
    requires IsRecordLike(t) && SetType(t, symbol, propertyType).Ok? && !IsComputed(symbol.flags)
    ensures GetType(SetType(t, symbol, propertyType).value, symbol, ids) == Ok(Some(propertyType))
  {
    if !(t.Array? && IsElementAccess(symbol)) {
      var i := IndexOf(t.properties, symbol.name).value;
      IndexOfReplace(t.properties, i, Property(symbol, propertyType), symbol.name);
    }
  }

  /** `setType` keeps a type well formed. */
  lemma SetTypePreservesWellFormed(t: Type, symbol: Symbol, propertyType: Type)
    requires IsRecordLike(t) && WellFormed(t) && WellFormed(propertyType)
    requires SetType(t, symbol, propertyType).Ok? && !IsComputed(symbol.flags)
    ensures WellFormed(SetType(t, symbol, propertyType).value)
  {
    if !(t.Array? && IsElementAccess(symbol)) {
      var i := IndexOf(t.properties, symbol.name).value;
      var ps := ReplaceAt(t.properties, i, Property(symbol, propertyType));
      assert forall k | 0 <= k < |ps| :: ps[k].member.name == t.properties[k].member.name;
      forall p | p in ps ensures WellFormedProperty(p, t.Array?) {
        var k :| 0 <= k < |ps| && ps[k] == p;
        assert k != i ==> t.properties[k] in t.properties;
      }
    }
  }

  /**
   * `splice` is listed among the array built-ins, so `hasProperty` admits it on
   * every array, but the built-in switch has no case for it and `getType` fails.
   */
  lemma SpliceHasPropertyWithoutType(t: Type, splice: Symbol, ids: nat)
    requires t.Array? && splice.name == Identifier("splice") && !IsComputed(splice.flags)
    ensures HasProperty(t, splice) && GetType(t, splice, ids).Err?
    ensures "splice" in ListedArrayBuiltIns && "splice" !in ArrayBuiltIns
  {
  }

  /** As written, `splice` is the only member an array or record admits without a type. */
  lemma HasPropertyWithoutTypeIsSplice(t: Type, symbol: Symbol, ids: nat)
    requires IsRecordLike(t) && HasProperty(t, symbol)
    requires GetType(t, symbol, ids).Err? || GetType(t, symbol, ids).value.None?
    ensures t.Array? && !IsElementAccess(symbol) && symbol.name == Identifier("splice")
  {
    if !(t.Array? && !IsElementAccess(symbol) && symbol.name == Identifier("splice")) {
      HasPropertyHasType(t, symbol, ids);
      AmongListedAgreesOffSplice(t, symbol, ids);
    }
  }

  /** Off the name `splice`, the accessors as written and with `splice` dropped agree. */
  lemma AmongListedAgreesOffSplice(t: Type, symbol: Symbol, ids: nat)
    requires IsRecordLike(t) && !(t.Array? && !IsElementAccess(symbol) && symbol.name == Identifier("splice"))
    ensures HasProperty(t, symbol) == HasPropertyAmong(ArrayBuiltIns, t, symbol)
    ensures GetType(t, symbol, ids) == GetTypeAmong(ArrayBuiltIns, t, symbol, ids)
  {
  }

  /**
   * With `splice` dropped from the built-ins, every member an array or record
   * admits has a type.
   */
  lemma HasPropertyHasType(t: Type, symbol: Symbol, ids: nat)
    requires IsRecordLike(t) && HasPropertyAmong(ArrayBuiltIns, t, symbol)
    ensures GetTypeAmong(ArrayBuiltIns, t, symbol, ids).Ok? && GetTypeAmong(ArrayBuiltIns, t, symbol, ids).value.Some?
  {
  }

  // ----- fresh instances and type parameters -----

  /** A fresh instance equals the original, except a fresh type variable under a new id. */
  lemma FreshEqualsOriginal(t: Type, id: nat)
    requires WellFormed(t)
    ensures Equals(Fresh(t, id), t) <==> !t.Variable? || id == t.id
  {
    match t
    case Maybe(of, _) => EqualsReflexive(of);
    case Function(th, ps, ret, _, _, _) =>
      EqualsReflexive(th);
      EqualsReflexive(ret);
      forall i | 0 <= i < |ps| ensures Equals(ps[i], ps[i]) {
        EqualsReflexive(ps[i]);
      }
    case Record(_, props, _) => PropertiesEqualReflexive(props, false);
    case Array(of, props, _) =>
      EqualsReflexive(of);
      PropertiesEqualReflexive(props, true);
    case _ =>
  }

  /** Rebuilding a parametrized type over its own parameters and id gives the type back. */
  lemma TypeParametersRoundTrip(t: Type)
    requires IsParametrized(t)
    ensures WithTypeParameters(t, TypeParameters(t), t.id) == Ok(t)
  {
  }

  // ----- containment -----

  lemma {:induction false} ListSizeBound(ts: seq<Type>, i: nat)
    requires i < |ts|
    ensures Size(ts[i]) <= ListSize(ts)
  {
    if i > 0 {
      ListSizeBound(ts[1..], i - 1);
    }
  }

  lemma {:induction false} PropertiesSizeBound(ps: seq<Property>, i: nat)
    requires i < |ps|
    ensures PropertySize(ps[i]) <= PropertiesSize(ps)
  {
    if i > 0 {
      PropertiesSizeBound(ps[1..], i - 1);
    }
  }

  /** A contained type is no larger than its container, and strictly smaller when it is a proper part. */
  lemma {:induction false} ContainedIsSmaller(t: Type, t2: Type)
    requires ContainsType(t, t2)
    ensures Size(t2) <= Size(t)
    ensures t2 != t ==> Size(t2) < Size(t)
    decreases t
  {
    if t != t2 {
      match t
      case Maybe(of, _) => ContainedIsSmaller(of, t2);
      case Function(th, ps, ret, _, _, _) =>
        if ContainsType(th, t2) {
          ContainedIsSmaller(th, t2);
        } else if ContainsType(ret, t2) {
          ContainedIsSmaller(ret, t2);
        } else {
          var p :| p in ps && ContainsType(p, t2);
          var i :| 0 <= i < |ps| && ps[i] == p;
          ContainedIsSmaller(p, t2);
          ListSizeBound(ps, i);
        }
      case Record(_, props, _) => PropertyContainedIsSmaller(props, t2);
      case Array(of, props, _) =>
        if ContainsType(of, t2) {
          ContainedIsSmaller(of, t2);
        } else {
          PropertyContainedIsSmaller(props, t2);
        }
    }
  }

  lemma {:induction false} PropertyContainedIsSmaller(props: seq<Property>, t2: Type)
    requires exists p | p in props :: PropertyContains(p, t2)
    ensures Size(t2) <= PropertiesSize(props)
    decreases props
  {
    var p :| p in props && PropertyContains(p, t2);
    var i :| 0 <= i < |props| && props[i] == p;
    PropertiesSizeBound(props, i);
    PropertyIsLarger(p, t2);
  }

  lemma {:induction false} PropertyIsLarger(p: Property, t2: Type)
    requires PropertyContains(p, t2)
    ensures Size(t2) <= PropertySize(p)
    decreases p
  {
    ContainedIsSmaller(p.propertyType, t2);
  }
}
