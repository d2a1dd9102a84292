/**
 * The type unificator: two equal types unify to the first; two concrete types
 * are handed to the one base-type rule that accepts them; a type variable is
 * bound to the other type unless it occurs inside it. Every type instance a
 * rule creates draws its id from a counter that is threaded through the
 * computation, so a new instance never shares an id with an existing one.
 */
module Unification {
  import opened Wrappers
  import opened Symbols
  import opened Types
  import opened TypeLaws

  // ----- the base-type rules -----

  /**
   * The rules of the `unification-rules` directory. `TNullExceptAnyRule` is the
   * null rule with the exclusion of Any that the Any rule relies on.
   */
  datatype Rule =
    | AnyRule | ArrayRule | NullMaybeRule | ParametrizedRule | RecordRule
    | TMaybeRule | TNullRule | TUndefinedRule
    | TNullExceptAnyRule

  /** The default rule set, in the (alphabetical) order the directory is loaded in. */
  const DefaultRules: seq<Rule> :=
    [AnyRule, ArrayRule, NullMaybeRule, ParametrizedRule, RecordRule, TMaybeRule, TNullRule, TUndefinedRule]

  /** The default rule set with the null rule excluding Any. */
  const CorrectedRules: seq<Rule> :=
    [AnyRule, ArrayRule, NullMaybeRule, ParametrizedRule, RecordRule, TMaybeRule, TNullExceptAnyRule, TUndefinedRule]

  predicate IsObject(t: Type) {
    t.Record? && t.recordClass == ObjectClass
  }

  /** The type the Maybe rule leaves aside: the second when the first is a Maybe, else the first. */
  function MaybeOther(t1: Type, t2: Type): Type {
    if t1.Maybe? then t2 else t1
  }

  function NullOther(t1: Type, t2: Type): Type {
    if t1.Null? then t2 else t1
  }

  function VoidOther(t1: Type, t2: Type): Type {
    if t1.Void? then t2 else t1
  }

  /** `canUnify` of each rule. */
  predicate CanUnify(rule: Rule, t1: Type, t2: Type) {
    match rule
    case AnyRule => t1.Any? || t2.Any?
    case ArrayRule => t1.Array? && t2.Array?
    case NullMaybeRule => (t1.Null? && t2.Maybe?) || (t2.Null? && t1.Maybe?)
    case ParametrizedRule => IsSameType(t1, t2) && IsParametrized(t1)
    case RecordRule => IsObject(t1) && IsObject(t2)
    case TMaybeRule =>
      var other := MaybeOther(t1, t2);
      (t1.Maybe? || t2.Maybe?) && !(other.Null? || other.Any? || other.Void? || other.Maybe?)
    case TNullRule =>
      var other := NullOther(t1, t2);
      (t1.Null? || t2.Null?) && !(other.Maybe? || other.Void?)
    case TUndefinedRule =>
      (t1.Void? || t2.Void?) && !VoidOther(t1, t2).Any?
    case TNullExceptAnyRule =>
      var other := NullOther(t1, t2);
      (t1.Null? || t2.Null?) && !(other.Maybe? || other.Void? || other.Any?)
  }

  /** The rules of `rules` that accept the pair, in the order of `rules`. */
  function Applicable(rules: seq<Rule>, t1: Type, t2: Type): (r: seq<Rule>)
    ensures |r| <= |rules|
  {
    if |rules| == 0 then []
    else (if CanUnify(rules[0], t1, t2) then [rules[0]] else []) + Applicable(rules[1..], t1, t2)
  }

  // ----- results -----

  datatype UnificationError =
    | NotUnifiable(t1: Type, t2: Type)                        // no rule accepts the pair
    | AmbiguousRule(t1: Type, t2: Type, rules: seq<Rule>)     // more than one rule does
    | OccursCheck(t1: Type, t2: Type)                         // the variable t1 is part of t2
    | ParameterCountMismatch(t1: Type, t2: Type)
    | AssertionFailed(message: string)                        // an assertion of a type's own method fails

  /** A unified type and the next unused id. */
  datatype Unified = Unified(t: Type, next: nat)
  datatype UnifiedList = UnifiedList(ts: seq<Type>, next: nat)
  datatype UnifiedProperties = UnifiedProperties(ps: seq<Property>, next: nat)

  // ----- sizes of the parts a rule unifies -----

  lemma TypeParametersSmaller(t: Type)
    requires IsParametrized(t)
    ensures ListSize(TypeParameters(t)) < Size(t)
  {
    var ps := TypeParameters(t);
    if t.Function? {
      assert ps[1..] == [t.returnType] + t.params;
      assert ps[1..][1..] == t.params;
    } else {
      assert ps[1..] == [];
    }
  }

  lemma SizePositive(t: Type)
    ensures Size(t) >= 1
  {
  }

  // ----- unification -----

  /** `unify`. */
  function Unify(rules: seq<Rule>, t1: Type, t2: Type, next: nat): (r: Result<Unified, UnificationError>)
    ensures r.Ok? ==> r.value.next >= next
    decreases Size(t1) + Size(t2), if t1.Variable? then 0 else 3
  {
    if Equals(t1, t2) then Ok(Unified(t1, next))
    else if IsBaseType(t1) && IsBaseType(t2) then UnifyBaseTypes(rules, t1, t2, next)
    else if t1.Variable? then
      if OccursIn(t1, t2) then Err(OccursCheck(t1, t2)) else Ok(Unified(t2, next))
    else Unify(rules, t2, t1, next)
  }

  /** `_unifyBaseTypes`: exactly one rule must accept the pair. */
  function UnifyBaseTypes(rules: seq<Rule>, t1: Type, t2: Type, next: nat): (r: Result<Unified, UnificationError>)
    ensures r.Ok? ==> r.value.next >= next
    decreases Size(t1) + Size(t2), 2
  {
    var applicable := Applicable(rules, t1, t2);
    ApplicableMembers(rules, t1, t2);
    assert |applicable| > 0 ==> applicable[0] in applicable;
    if |applicable| == 0 then Err(NotUnifiable(t1, t2))
    else if |applicable| > 1 then Err(AmbiguousRule(t1, t2, applicable))
    else ApplyRule(rules, applicable[0], t1, t2, next)
  }

  /** The `unify` of one rule, for a pair the rule accepts. */
  function ApplyRule(rules: seq<Rule>, rule: Rule, t1: Type, t2: Type, next: nat): (r: Result<Unified, UnificationError>)
    requires CanUnify(rule, t1, t2)
    ensures r.Ok? ==> r.value.next >= next
    decreases Size(t1) + Size(t2), 1
  {
    match rule
    case AnyRule => Ok(Unified(if t1.Any? then t1 else t2, next))
    case ArrayRule => UnifyArrays(rules, t1, t2, next)
    case NullMaybeRule => Ok(Unified(if t1.Maybe? then t1 else t2, next))
    case ParametrizedRule => UnifyParametrized(rules, t1, t2, next)
    case RecordRule => UnifyRecords(rules, t1, t2, next)
    case TMaybeRule => UnifyWithMaybe(rules, t1, t2, next)
    case TNullRule => Ok(Unified(MaybeOf(NullOther(t1, t2), next), next + 1))
    case TUndefinedRule => Ok(Unified(VoidOther(t1, t2), next))
    case TNullExceptAnyRule => Ok(Unified(MaybeOf(NullOther(t1, t2), next), next + 1))
  }

  /** The array rule: an array of the unified element types, or an input equal to it. */
  function UnifyArrays(rules: seq<Rule>, t1: Type, t2: Type, next: nat): (r: Result<Unified, UnificationError>)
    requires t1.Array? && t2.Array?
    ensures r.Ok? ==> r.value.next > next
    decreases Size(t1) + Size(t2), 0
  {
    var u :- Unify(rules, t1.of, t2.of, next);
    var unified := ArrayOf(u.t, u.next);
    if Equals(unified, t1) then Ok(Unified(t1, u.next + 1))
    else if Equals(unified, t2) then Ok(Unified(t2, u.next + 1))
    else Ok(Unified(unified, u.next + 1))
  }

  /**
   * The parametrized rule: the type parameters are unified pairwise; the first
   * type is kept when they come out equal to its own. Otherwise the type is
   * rebuilt from the unified parameters, which are handed over as an
   * Immutable.js list: a Function destructures it, but a Maybe reads its
   * `length`, which such a list does not have, and fails its assertion.
   */
  function UnifyParametrized(rules: seq<Rule>, t1: Type, t2: Type, next: nat): (r: Result<Unified, UnificationError>)
    requires IsSameType(t1, t2) && IsParametrized(t1)
    ensures r.Ok? ==> r.value.next >= next
    ensures r.Ok? && t1.Maybe? ==> r.value.t == t1
    ensures r.Ok? && r.value.t != t1 ==> t1.Function? && r.value.t.Function? && r.value.t.id == r.value.next - 1
    decreases Size(t1) + Size(t2), 0
  {
    var old1 := TypeParameters(t1);
    var old2 := TypeParameters(t2);
    if |old1| != |old2| then Err(ParameterCountMismatch(t1, t2))
    else
      TypeParametersSmaller(t1);
      TypeParametersSmaller(t2);
      var u :- UnifyList(rules, old1, old2, next);
      if ListEquals(u.ts, old1) then Ok(Unified(t1, u.next))
      else if t1.Maybe? then Err(AssertionFailed("A maybe type can only have one type parameter"))
      else Ok(Unified(WithTypeParameters(t1, u.ts, u.next).value, u.next + 1))
  }

  /** `zip` then `map(unify)`, left to right, stopping at the first failure. */
  function UnifyList(rules: seq<Rule>, xs: seq<Type>, ys: seq<Type>, next: nat): (r: Result<UnifiedList, UnificationError>)
    ensures r.Ok? ==> r.value.next >= next
    ensures r.Ok? ==> |r.value.ts| == if |xs| <= |ys| then |xs| else |ys|
    decreases ListSize(xs) + ListSize(ys), 4
  {
    if |xs| == 0 || |ys| == 0 then Ok(UnifiedList([], next))
    else
      var u :- Unify(rules, xs[0], ys[0], next);
      var rest :- UnifyList(rules, xs[1..], ys[1..], u.next);
      Ok(UnifiedList([u.t] + rest.ts, rest.next))
  }

  /**
   * The record rule: the properties common to both records, each with the
   * unified type; the record with fewer properties is kept when the common
   * properties equal its own.
   */
  function UnifyRecords(rules: seq<Rule>, t1: Type, t2: Type, next: nat): (r: Result<Unified, UnificationError>)
    requires IsObject(t1) && IsObject(t2)
    ensures r.Ok? ==> r.value.next >= next
    decreases Size(t1) + Size(t2), 0
  {
    var smaller := if |t1.properties| <= |t2.properties| then t1 else t2;
    var larger := if |t1.properties| <= |t2.properties| then t2 else t1;
    var common :- UnifyProperties(rules, smaller.properties, larger.properties, smaller.properties, next);
    if PropertiesEqual(common.ps, smaller.properties) then Ok(Unified(smaller, common.next))
    else Ok(Unified(WithProperties(t1, common.ps, common.next), common.next + 1))
  }

  /**
   * `Map.delete` on a small map: the last entry moves into the place of the
   * removed one.
   */
  function DeleteProperty(ps: seq<Property>, name: Name): (r: seq<Property>)
    ensures IndexOf(ps, name).None? ==> r == ps
    ensures IndexOf(ps, name).Some? ==> |r| == |ps| - 1
  {
    match IndexOf(ps, name)
    case None => ps
    case Some(i) =>
      if i == |ps| - 1 then ps[..i]
      else ps[..|ps| - 1][i := ps[|ps| - 1]]
  }

  /**
   * The loop of the record rule over the entries `visit` still to see: an entry
   * the larger record lacks is deleted from `acc`, an entry it has gets the
   * unified type whenever unification returned another instance.
   */
  function UnifyProperties(rules: seq<Rule>, visit: seq<Property>, larger: seq<Property>, acc: seq<Property>, next: nat)
    : (r: Result<UnifiedProperties, UnificationError>)
    ensures r.Ok? ==> r.value.next >= next
    decreases PropertiesSize(visit) + PropertiesSize(larger), 4
  {
    if |visit| == 0 then Ok(UnifiedProperties(acc, next))
    else
      var p := visit[0];
      SizePositive(p.propertyType);
      assert PropertiesSize(visit) == PropertySize(p) + PropertiesSize(visit[1..]);
      match IndexOf(larger, p.member.name)
      case None => UnifyProperties(rules, visit[1..], larger, DeleteProperty(acc, p.member.name), next)
      case Some(k) =>
        PropertiesSizeBound(larger, k);
        var u :- Unify(rules, p.propertyType, larger[k].propertyType, next);
        var acc' := if u.t != p.propertyType then SetProperty(acc, p.member, u.t) else acc;
        UnifyProperties(rules, visit[1..], larger, acc', u.next)
  }

  /** The Maybe rule: Maybe of the unified type, or the Maybe itself when it already wraps the other type. */
  function UnifyWithMaybe(rules: seq<Rule>, t1: Type, t2: Type, next: nat): (r: Result<Unified, UnificationError>)
    requires t1.Maybe? || t2.Maybe?
    ensures r.Ok? ==> r.value.next >= next
    decreases Size(t1) + Size(t2), 0
  {
    var maybe := if t1.Maybe? then t1 else t2;
    var other := MaybeOther(t1, t2);
    if Equals(other, maybe.of) then Ok(Unified(maybe, next))
    else
      var u :- Unify(rules, other, maybe.of, next);
      Ok(Unified(MaybeOf(u.t, u.next), u.next + 1))
  }

  // ----- rule selection -----

  predicate NoDuplicates(rules: seq<Rule>) {
    forall i, j | 0 <= i < j < |rules| :: rules[i] != rules[j]
  }

  /** No two rules of the list accept the same pair. */
  predicate Exclusive(rules: seq<Rule>, t1: Type, t2: Type) {
    forall i, j | 0 <= i < j < |rules| :: !(CanUnify(rules[i], t1, t2) && CanUnify(rules[j], t1, t2))
  }

  /** The selected rules are exactly the rules of the list that accept the pair. */
  lemma {:induction false} ApplicableMembers(rules: seq<Rule>, t1: Type, t2: Type)
    ensures forall rule | rule in Applicable(rules, t1, t2) :: rule in rules && CanUnify(rule, t1, t2)
    ensures forall rule | rule in rules && CanUnify(rule, t1, t2) :: rule in Applicable(rules, t1, t2)
  {
    if |rules| > 0 {
      ApplicableMembers(rules[1..], t1, t2);
      assert rules == [rules[0]] + rules[1..];
    }
  }

  lemma EmptyWhenNoneApplies(rules: seq<Rule>, t1: Type, t2: Type)
    requires forall rule | rule in rules :: !CanUnify(rule, t1, t2)
    ensures Applicable(rules, t1, t2) == []
  {
    ApplicableMembers(rules, t1, t2);
  }

  /** When exactly one rule of a duplicate-free set accepts the pair, it is the one selected. */
  lemma {:induction false} ApplicableSingle(rules: seq<Rule>, rule: Rule, t1: Type, t2: Type)
    requires NoDuplicates(rules) && rule in rules && CanUnify(rule, t1, t2)
    requires forall other | other in rules && other != rule :: !CanUnify(other, t1, t2)
    ensures Applicable(rules, t1, t2) == [rule]
  {
    if rules[0] == rule {
      forall other | other in rules[1..] ensures other in rules && other != rule {
        var k :| 0 <= k < |rules[1..]| && rules[1..][k] == other;
        assert rules[k + 1] == other;
      }
      EmptyWhenNoneApplies(rules[1..], t1, t2);
    } else {
      ApplicableSingle(rules[1..], rule, t1, t2);
    }
  }

  /** Pairwise exclusive rules leave at most one candidate. */
  lemma {:induction false} ExclusiveAtMostOne(rules: seq<Rule>, t1: Type, t2: Type)
    requires Exclusive(rules, t1, t2)
    ensures |Applicable(rules, t1, t2)| <= 1
  {
    if |rules| > 0 {
      var rest := rules[1..];
      if CanUnify(rules[0], t1, t2) {
        forall other | other in rest ensures !CanUnify(other, t1, t2) {
          var k :| 0 <= k < |rest| && rest[k] == other;
          assert rules[k + 1] == other;
        }
        EmptyWhenNoneApplies(rest, t1, t2);
      } else {
        assert Exclusive(rest, t1, t2) by {
          forall i, j | 0 <= i < j < |rest| ensures !(CanUnify(rest[i], t1, t2) && CanUnify(rest[j], t1, t2)) {
            assert rest[i] == rules[i + 1] && rest[j] == rules[j + 1];
          }
        }
        ExclusiveAtMostOne(rest, t1, t2);
      }
    }
  }

  /** Apart from the null rule, no two rules accept the same pair. */
  lemma RulesExclusive(r1: Rule, r2: Rule, t1: Type, t2: Type)
    requires r1 != r2 && r1 != TNullRule && r2 != TNullRule
    ensures !(CanUnify(r1, t1, t2) && CanUnify(r2, t1, t2))
  {
  }

  /** The only overlap in the default rules: the null rule and the Any rule both accept Null with Any. */
  lemma DefaultRulesOverlap(r1: Rule, r2: Rule, t1: Type, t2: Type)
    requires r1 in DefaultRules && r2 in DefaultRules && r1 != r2
    requires CanUnify(r1, t1, t2) && CanUnify(r2, t1, t2)
    ensures {r1, r2} == {AnyRule, TNullRule}
    ensures (t1.Null? && t2.Any?) || (t1.Any? && t2.Null?)
  {
  }

  /** With the corrected rules no pair of types is ambiguous. */
  lemma CorrectedRulesUnambiguous()
    ensures forall t1: Type, t2: Type :: |Applicable(CorrectedRules, t1, t2)| <= 1
  {
    forall t1: Type, t2: Type ensures |Applicable(CorrectedRules, t1, t2)| <= 1 {
      CorrectedPairUnambiguous(t1, t2);
    }
  }

  lemma CorrectedPairUnambiguous(t1: Type, t2: Type)
    ensures |Applicable(CorrectedRules, t1, t2)| <= 1
  {
    var rs := CorrectedRules;
    forall i, j | 0 <= i < j < |rs| ensures !(CanUnify(rs[i], t1, t2) && CanUnify(rs[j], t1, t2)) {
      assert rs[i] != rs[j] && rs[i] != TNullRule && rs[j] != TNullRule;
      RulesExclusive(rs[i], rs[j], t1, t2);
    }
    ExclusiveAtMostOne(CorrectedRules, t1, t2);
  }

  lemma ApplicableCons(rule: Rule, rest: seq<Rule>, t1: Type, t2: Type)
    ensures Applicable([rule] + rest, t1, t2) == (if CanUnify(rule, t1, t2) then [rule] else []) + Applicable(rest, t1, t2)
  {
    assert ([rule] + rest)[1..] == rest;
  }

  lemma NullAnyApplicable(z: Type, a: Type)
    requires z.Null? && a.Any?
    ensures Applicable(DefaultRules, z, a) == [AnyRule, TNullRule]
  {
    NullWithAnyApplicable(z, a);
  }

  lemma AnyNullApplicable(z: Type, a: Type)
    requires z.Null? && a.Any?
    ensures Applicable(DefaultRules, a, z) == [AnyRule, TNullRule]
  {
    NullWithAnyApplicable(a, z);
  }

  /** Of the default rules, the Any rule and the null rule accept Null with Any, in either order. */
  lemma NullWithAnyApplicable(t1: Type, t2: Type)
    requires (t1.Null? && t2.Any?) || (t1.Any? && t2.Null?)
    ensures Applicable(DefaultRules, t1, t2) == [AnyRule, TNullRule]
  {
    var s4 := [RecordRule, TMaybeRule, TNullRule, TUndefinedRule];
    var s3 := [ParametrizedRule] + s4;
    var s2 := [NullMaybeRule] + s3;
    var s1 := [ArrayRule] + s2;
    assert DefaultRules == [AnyRule] + s1;
    NullWithAnyBack(t1, t2);
    ApplicableCons(ParametrizedRule, s4, t1, t2);
    ApplicableCons(NullMaybeRule, s3, t1, t2);
    ApplicableCons(ArrayRule, s2, t1, t2);
    ApplicableCons(AnyRule, s1, t1, t2);
  }

  /** The last four default rules: only the null rule accepts Null with Any. */
  lemma NullWithAnyBack(t1: Type, t2: Type)
    requires (t1.Null? && t2.Any?) || (t1.Any? && t2.Null?)
    ensures Applicable([RecordRule, TMaybeRule, TNullRule, TUndefinedRule], t1, t2) == [TNullRule]
  {
    ApplicableCons(TUndefinedRule, [], t1, t2);
    ApplicableCons(TNullRule, [TUndefinedRule], t1, t2);
    ApplicableCons(TMaybeRule, [TNullRule, TUndefinedRule], t1, t2);
    ApplicableCons(RecordRule, [TMaybeRule, TNullRule, TUndefinedRule], t1, t2);
  }

  /** As written, unifying Null with Any fails: both the Any rule and the null rule accept the pair. */
  lemma NullAnyAmbiguous(z: Type, a: Type, n: nat)
    requires z.Null? && a.Any?
    ensures Unify(DefaultRules, z, a, n) == Err(AmbiguousRule(z, a, [AnyRule, TNullRule]))
    ensures Unify(DefaultRules, a, z, n) == Err(AmbiguousRule(a, z, [AnyRule, TNullRule]))
  {
    NullAnyApplicable(z, a);
    AnyNullApplicable(z, a);
    assert !Equals(z, a) && !Equals(a, z);
  }

  // ----- how the rule sets unify the base types -----

  /** The rule set as loaded from the directory, or with the corrected null rule. */
  predicate IsRuleSet(rules: seq<Rule>) {
    rules == DefaultRules || rules == CorrectedRules
  }

  /** The null rule of a rule set. */
  function NullRuleOf(rules: seq<Rule>): Rule {
    if rules == DefaultRules then TNullRule else TNullExceptAnyRule
  }

  lemma RuleSetsDistinct()
    ensures NoDuplicates(DefaultRules) && NoDuplicates(CorrectedRules)
  {
  }

  /** The one rule of a rule set that accepts the pair is the one selected. */
  lemma OnlyRule(rules: seq<Rule>, rule: Rule, t1: Type, t2: Type)
    requires IsRuleSet(rules) && rule in rules && CanUnify(rule, t1, t2)
    requires forall other | other in rules && other != rule :: !CanUnify(other, t1, t2)
    ensures Applicable(rules, t1, t2) == [rule]
  {
    RuleSetsDistinct();
    ApplicableSingle(rules, rule, t1, t2);
  }

  /** Two equal types unify to the first, whatever the rules, and no id is used. */
  lemma EqualTypesUnify(rules: seq<Rule>, t1: Type, t2: Type, n: nat)
    requires Equals(t1, t2)
    ensures Unify(rules, t1, t2, n) == Ok(Unified(t1, n))
  {
  }

  /** Two concrete types that differ and that no rule accepts are not unifiable. */
  lemma NoRuleNotUnifiable(rules: seq<Rule>, t1: Type, t2: Type, n: nat)
    requires IsBaseType(t1) && IsBaseType(t2) && !Equals(t1, t2)
    requires forall rule | rule in rules :: !CanUnify(rule, t1, t2)
    ensures Unify(rules, t1, t2, n) == Err(NotUnifiable(t1, t2))
  {
    EmptyWhenNoneApplies(rules, t1, t2);
  }

  /** Two function types with different numbers of parameters fail on the parameter count. */
  lemma ParameterCountsDiffer(rules: seq<Rule>, f1: Type, f2: Type, n: nat)
    requires IsRuleSet(rules) && f1.Function? && f2.Function? && |f1.params| != |f2.params|
    ensures Unify(rules, f1, f2, n) == Err(ParameterCountMismatch(f1, f2))
  {
    assert !ListEquals(f1.params, f2.params);
    OnlyRule(rules, ParametrizedRule, f1, f2);
    UnifyByRule(rules, ParametrizedRule, f1, f2, n);
  }

  /**
   * Two Maybes that differ unify, if at all, to the first one unchanged: when
   * the unified parameter differs from its own, rebuilding the Maybe fails.
   */
  lemma MaybesUnifyUnchanged(rules: seq<Rule>, m1: Type, m2: Type, n: nat)
    requires IsRuleSet(rules) && m1.Maybe? && m2.Maybe? && !Equals(m1, m2)
    ensures Unify(rules, m1, m2, n).Ok? ==> Unify(rules, m1, m2, n).value.t == m1
  {
    OnlyRule(rules, ParametrizedRule, m1, m2);
    UnifyByRule(rules, ParametrizedRule, m1, m2, n);
  }

  /**
   * Two different Maybes whose parameters unify to a type that differs from the
   * first one's parameter do not unify: rebuilding the Maybe fails.
   */
  lemma MaybeParameterChangeRefused(rules: seq<Rule>, m1: Type, m2: Type, n: nat)
    requires IsRuleSet(rules) && m1.Maybe? && m2.Maybe? && !Equals(m1, m2)
    requires Unify(rules, m1.of, m2.of, n).Ok? && !Equals(Unify(rules, m1.of, m2.of, n).value.t, m1.of)
    ensures Unify(rules, m1, m2, n) == Err(AssertionFailed("A maybe type can only have one type parameter"))
  {
    OnlyRule(rules, ParametrizedRule, m1, m2);
    UnifyByRule(rules, ParametrizedRule, m1, m2, n);
    SingleParameterUnified(rules, m1.of, m2.of, n);
    ParametrizedMaybeRefused(rules, m1, m2, n);
  }

  /** Maybe<α> and Maybe<string> do not unify: α binds to string, and the Maybe cannot be rebuilt. */
  lemma MaybeOfVariableRefused(rules: seq<Rule>, n: nat)
    requires IsRuleSet(rules)
    ensures Unify(rules, Maybe(Variable(1), 2), Maybe(String(3), 4), n) ==
      Err(AssertionFailed("A maybe type can only have one type parameter"))
  {
    VariableBinding(rules, Variable(1), String(3), n);
    assert !Equals(String(3), Variable(1));
    assert !Equals(Maybe(Variable(1), 2), Maybe(String(3), 4));
    MaybeParameterChangeRefused(rules, Maybe(Variable(1), 2), Maybe(String(3), 4), n);
  }

  lemma SingleParameterUnified(rules: seq<Rule>, x: Type, y: Type, n: nat)
    requires Unify(rules, x, y, n).Ok?
    ensures UnifyList(rules, [x], [y], n) == Ok(UnifiedList([Unify(rules, x, y, n).value.t], Unify(rules, x, y, n).value.next))
  {
    var u := Unify(rules, x, y, n).value;
    assert [x][1..] == [] && [y][1..] == [];
    assert UnifyList(rules, [], [], u.next) == Ok(UnifiedList([], u.next));
    assert [u.t] + [] == [u.t];
  }

  lemma ParametrizedMaybeRefused(rules: seq<Rule>, m1: Type, m2: Type, n: nat)
    requires m1.Maybe? && m2.Maybe?
    requires UnifyList(rules, [m1.of], [m2.of], n).Ok?
    requires !ListEquals(UnifyList(rules, [m1.of], [m2.of], n).value.ts, [m1.of])
    ensures UnifyParametrized(rules, m1, m2, n) == Err(AssertionFailed("A maybe type can only have one type parameter"))
  {
  }

  /** Two concrete types that are not equal are unified by the one rule that accepts them. */
  lemma UnifyByRule(rules: seq<Rule>, rule: Rule, t1: Type, t2: Type, n: nat)
    requires IsBaseType(t1) && IsBaseType(t2) && !Equals(t1, t2)
    requires Applicable(rules, t1, t2) == [rule]
    ensures CanUnify(rule, t1, t2) && Unify(rules, t1, t2, n) == ApplyRule(rules, rule, t1, t2, n)
  {
    ApplicableMembers(rules, t1, t2);
    assert rule in Applicable(rules, t1, t2);
  }

  /** Only the Any rule accepts Any with a concrete type other than Any (as written, other than Null too). */
  lemma AnySelected(rules: seq<Rule>, a: Type, t: Type)
    requires IsRuleSet(rules) && a.Any? && IsBaseType(t) && !t.Any?
    requires rules == DefaultRules ==> !t.Null?
    ensures Applicable(rules, a, t) == [AnyRule] && Applicable(rules, t, a) == [AnyRule]
  {
    AnyOnly(rules, a, t);
    AnyOnly(rules, t, a);
  }

  /** The Any rule alone accepts Any with a concrete type other than Any, on either side. */
  lemma AnyOnly(rules: seq<Rule>, t1: Type, t2: Type)
    requires IsRuleSet(rules) && IsBaseType(t1) && IsBaseType(t2)
    requires (t1.Any? && !t2.Any?) || (t2.Any? && !t1.Any?)
    requires rules == DefaultRules ==> !t1.Null? && !t2.Null?
    ensures Applicable(rules, t1, t2) == [AnyRule]
  {
    OnlyRule(rules, AnyRule, t1, t2);
  }

  /**
   * Any absorbs every other type, whichever side it is on (as written, except
   * Null: see NullAnyAmbiguous); a type variable is bound to Any.
   */
  lemma AnyAbsorbs(rules: seq<Rule>, a: Type, t: Type, n: nat)
    requires IsRuleSet(rules) && a.Any?
    requires rules == DefaultRules ==> !t.Null?
    requires !(t.Variable? && t.id == a.id)
    ensures Unify(rules, a, t, n) == Ok(Unified(a, n))
    ensures Unify(rules, t, a, n) == Ok(Unified(if t.Any? then t else a, n))
  {
    if t.Variable? {
      assert !ContainsType(a, t);
      assert Unify(rules, a, t, n) == Unify(rules, t, a, n);
    } else if !t.Any? {
      AnySelected(rules, a, t);
      assert !Equals(t, a) && !Equals(a, t);
      UnifyByRule(rules, AnyRule, a, t, n);
      UnifyByRule(rules, AnyRule, t, a, n);
    }
  }

  /** Only the undefined rule accepts Void with a concrete type other than Any and Void. */
  lemma VoidSelected(rules: seq<Rule>, v: Type, t: Type)
    requires IsRuleSet(rules) && v.Void? && IsBaseType(t) && !t.Any? && !t.Void?
    ensures Applicable(rules, v, t) == [TUndefinedRule] && Applicable(rules, t, v) == [TUndefinedRule]
  {
    VoidOnly(rules, v, t);
    VoidOnly(rules, t, v);
  }

  /** The undefined rule alone accepts Void with a concrete type other than Any and Void, on either side. */
  lemma VoidOnly(rules: seq<Rule>, t1: Type, t2: Type)
    requires IsRuleSet(rules) && IsBaseType(t1) && IsBaseType(t2)
    requires (t1.Void? && !t2.Any? && !t2.Void?) || (t2.Void? && !t1.Any? && !t1.Void?)
    ensures Applicable(rules, t1, t2) == [TUndefinedRule]
  {
    OnlyRule(rules, TUndefinedRule, t1, t2);
  }

  /** Undefined gives way to every concrete type but Any, whichever side it is on. */
  lemma VoidGivesWay(rules: seq<Rule>, v: Type, t: Type, n: nat)
    requires IsRuleSet(rules) && v.Void? && IsBaseType(t) && !t.Any? && !t.Void?
    ensures Unify(rules, v, t, n) == Ok(Unified(t, n))
    ensures Unify(rules, t, v, n) == Ok(Unified(t, n))
  {
    VoidSelected(rules, v, t);
    assert !Equals(t, v) && !Equals(v, t);
    UnifyByRule(rules, TUndefinedRule, v, t, n);
    UnifyByRule(rules, TUndefinedRule, t, v, n);
  }

  /** Only the null rule accepts Null with a concrete type that is not Null, optional or Any. */
  lemma NullSelected(rules: seq<Rule>, z: Type, t: Type)
    requires IsRuleSet(rules) && z.Null? && IsBaseType(t)
    requires !t.Null? && !t.Maybe? && !t.Void? && !t.Any?
    ensures Applicable(rules, z, t) == [NullRuleOf(rules)] && Applicable(rules, t, z) == [NullRuleOf(rules)]
  {
    NullOnly(rules, z, t);
    NullOnly(rules, t, z);
  }

  /** The null rule alone accepts Null with a concrete type that is not optional, on either side. */
  lemma NullOnly(rules: seq<Rule>, t1: Type, t2: Type)
    requires IsRuleSet(rules) && IsBaseType(t1) && IsBaseType(t2)
    requires (t1.Null? && !t2.Null? && !t2.Maybe? && !t2.Void? && !t2.Any?) ||
             (t2.Null? && !t1.Null? && !t1.Maybe? && !t1.Void? && !t1.Any?)
    ensures Applicable(rules, t1, t2) == [NullRuleOf(rules)]
  {
    OnlyRule(rules, NullRuleOf(rules), t1, t2);
  }

  /** Null and a concrete type T that is not optional already unify to Maybe<T>, whichever side Null is on. */
  lemma NullMakesMaybe(rules: seq<Rule>, z: Type, t: Type, n: nat)
    requires IsRuleSet(rules) && z.Null? && IsBaseType(t)
    requires !t.Null? && !t.Maybe? && !t.Void? && !t.Any?
    ensures Unify(rules, z, t, n) == Ok(Unified(MaybeOf(t, n), n + 1))
    ensures Unify(rules, t, z, n) == Ok(Unified(MaybeOf(t, n), n + 1))
  {
    NullSelected(rules, z, t);
    assert !Equals(t, z) && !Equals(z, t);
    UnifyByRule(rules, NullRuleOf(rules), z, t, n);
    UnifyByRule(rules, NullRuleOf(rules), t, z, n);
  }

  /** Null and a Maybe unify to the Maybe, whichever side it is on. */
  lemma NullJoinsMaybe(rules: seq<Rule>, z: Type, m: Type, n: nat)
    requires IsRuleSet(rules) && z.Null? && m.Maybe?
    ensures Unify(rules, z, m, n) == Ok(Unified(m, n))
    ensures Unify(rules, m, z, n) == Ok(Unified(m, n))
  {
    NullMaybeOnly(rules, z, m);
    NullMaybeOnly(rules, m, z);
    UnifyByRule(rules, NullMaybeRule, z, m, n);
    UnifyByRule(rules, NullMaybeRule, m, z, n);
  }

  /** The null-Maybe rule alone accepts Null with a Maybe, on either side. */
  lemma NullMaybeOnly(rules: seq<Rule>, t1: Type, t2: Type)
    requires IsRuleSet(rules)
    requires (t1.Null? && t2.Maybe?) || (t1.Maybe? && t2.Null?)
    ensures Applicable(rules, t1, t2) == [NullMaybeRule]
  {
    OnlyRule(rules, NullMaybeRule, t1, t2);
  }

  /** Only the Maybe rule accepts a Maybe with a concrete type that is neither optional nor Any. */
  lemma MaybeSelected(rules: seq<Rule>, m: Type, t: Type)
    requires IsRuleSet(rules) && m.Maybe? && IsBaseType(t)
    requires !t.Null? && !t.Maybe? && !t.Void? && !t.Any?
    ensures Applicable(rules, m, t) == [TMaybeRule] && Applicable(rules, t, m) == [TMaybeRule]
  {
    MaybeOnly(rules, m, t);
    MaybeOnly(rules, t, m);
  }

  /** The Maybe rule alone accepts a Maybe with a concrete type that is neither optional nor Any, on either side. */
  lemma MaybeOnly(rules: seq<Rule>, t1: Type, t2: Type)
    requires IsRuleSet(rules) && IsBaseType(t1) && IsBaseType(t2)
    requires (t1.Maybe? && !t2.Null? && !t2.Maybe? && !t2.Void? && !t2.Any?) ||
             (t2.Maybe? && !t1.Null? && !t1.Maybe? && !t1.Void? && !t1.Any?)
    ensures Applicable(rules, t1, t2) == [TMaybeRule]
  {
    OnlyRule(rules, TMaybeRule, t1, t2);
  }

  /**
   * A Maybe and a concrete type that is neither optional nor Any unify the same
   * way on either side, to a Maybe, and to the Maybe itself when it already
   * wraps that type.
   */
  lemma MaybeWraps(rules: seq<Rule>, m: Type, t: Type, n: nat)
    requires IsRuleSet(rules) && m.Maybe? && IsBaseType(t)
    requires !t.Null? && !t.Maybe? && !t.Void? && !t.Any?
    ensures Unify(rules, m, t, n) == Unify(rules, t, m, n)
    ensures Equals(t, m.of) ==> Unify(rules, m, t, n) == Ok(Unified(m, n))
    ensures Unify(rules, m, t, n).Ok? ==> Unify(rules, m, t, n).value.t.Maybe?
  {
    MaybeSelected(rules, m, t);
    assert !Equals(t, m) && !Equals(m, t);
    UnifyByRule(rules, TMaybeRule, m, t, n);
    UnifyByRule(rules, TMaybeRule, t, m, n);
    MaybeRuleEitherSide(rules, m, t, n);
  }

  /** The Maybe rule finds the Maybe on either side. */
  lemma MaybeRuleEitherSide(rules: seq<Rule>, m: Type, t: Type, n: nat)
    requires m.Maybe? && !t.Maybe? && !t.Null? && !t.Void? && !t.Any?
    ensures ApplyRule(rules, TMaybeRule, m, t, n) == UnifyWithMaybe(rules, m, t, n)
    ensures ApplyRule(rules, TMaybeRule, t, m, n) == UnifyWithMaybe(rules, m, t, n)
    ensures Equals(t, m.of) ==> UnifyWithMaybe(rules, m, t, n) == Ok(Unified(m, n))
    ensures UnifyWithMaybe(rules, m, t, n).Ok? ==> UnifyWithMaybe(rules, m, t, n).value.t.Maybe?
  {
  }

  /**
   * A type variable is bound to any type it does not occur in, and the
   * unification fails when it does; the variable may be on either side.
   */
  lemma VariableBinding(rules: seq<Rule>, v: Type, t: Type, n: nat)
    requires v.Variable? && t.id != v.id
    ensures Unify(rules, v, t, n) == if ContainsType(t, v) then Err(OccursCheck(v, t)) else Ok(Unified(t, n))
    ensures !t.Variable? ==> Unify(rules, t, v, n) == Unify(rules, v, t, n)
  {
  }

  // ----- what unification preserves -----

  /** Two concrete types of the same class unify to a type of that class, whatever the rules. */
  lemma UnifyKeepsKind(rules: seq<Rule>, t1: Type, t2: Type, n: nat)
    requires IsSameType(t1, t2) && !t1.Variable?
    ensures Unify(rules, t1, t2, n).Ok? ==> KindOf(Unify(rules, t1, t2, n).value.t) == KindOf(t1)
  {
    if !Equals(t1, t2) {
      var applicable := Applicable(rules, t1, t2);
      if |applicable| == 1 {
        ApplicableMembers(rules, t1, t2);
        assert applicable[0] in applicable;
        ApplyRuleKeepsKind(rules, applicable[0], t1, t2, n);
      }
    }
  }

  lemma ApplyRuleKeepsKind(rules: seq<Rule>, rule: Rule, t1: Type, t2: Type, n: nat)
    requires CanUnify(rule, t1, t2) && IsSameType(t1, t2) && !Equals(t1, t2)
    ensures ApplyRule(rules, rule, t1, t2, n).Ok? ==> KindOf(ApplyRule(rules, rule, t1, t2, n).value.t) == KindOf(t1)
  {
  }

  /** With a rule set in which at most one rule accepts any pair of types, unification never fails for an ambiguous rule choice, at any depth. */
  lemma {:induction false} NeverAmbiguous(rules: seq<Rule>, t1: Type, t2: Type, n: nat)
    requires forall a: Type, b: Type :: |Applicable(rules, a, b)| <= 1
    ensures Unify(rules, t1, t2, n).Err? ==> !Unify(rules, t1, t2, n).error.AmbiguousRule?
    decreases Size(t1) + Size(t2), if t1.Variable? then 0 else 3
  {
    if Equals(t1, t2) {
    } else if IsBaseType(t1) && IsBaseType(t2) {
      BaseTypesNeverAmbiguous(rules, t1, t2, n);
    } else if !t1.Variable? {
      NeverAmbiguous(rules, t2, t1, n);
    }
  }

  lemma {:induction false} BaseTypesNeverAmbiguous(rules: seq<Rule>, t1: Type, t2: Type, n: nat)
    requires forall a: Type, b: Type :: |Applicable(rules, a, b)| <= 1
    ensures UnifyBaseTypes(rules, t1, t2, n).Err? ==> !UnifyBaseTypes(rules, t1, t2, n).error.AmbiguousRule?
    decreases Size(t1) + Size(t2), 2
  {
    var applicable := Applicable(rules, t1, t2);
    if |applicable| == 1 {
      ApplicableMembers(rules, t1, t2);
      assert applicable[0] in applicable;
      RuleNeverAmbiguous(rules, applicable[0], t1, t2, n);
    }
  }

  lemma {:induction false} RuleNeverAmbiguous(rules: seq<Rule>, rule: Rule, t1: Type, t2: Type, n: nat)
    requires forall a: Type, b: Type :: |Applicable(rules, a, b)| <= 1
    requires CanUnify(rule, t1, t2)
    ensures ApplyRule(rules, rule, t1, t2, n).Err? ==> !ApplyRule(rules, rule, t1, t2, n).error.AmbiguousRule?
    decreases Size(t1) + Size(t2), 1
  {
    match rule
    case ArrayRule =>
      assert ApplyRule(rules, rule, t1, t2, n) == UnifyArrays(rules, t1, t2, n);
      ArraysNeverAmbiguous(rules, t1, t2, n);
    case ParametrizedRule =>
      assert ApplyRule(rules, rule, t1, t2, n) == UnifyParametrized(rules, t1, t2, n);
      ParametrizedNeverAmbiguous(rules, t1, t2, n);
    case RecordRule =>
      assert ApplyRule(rules, rule, t1, t2, n) == UnifyRecords(rules, t1, t2, n);
      RecordsNeverAmbiguous(rules, t1, t2, n);
    case TMaybeRule =>
      assert ApplyRule(rules, rule, t1, t2, n) == UnifyWithMaybe(rules, t1, t2, n);
      WithMaybeNeverAmbiguous(rules, t1, t2, n);
    case _ =>
  }

  lemma {:induction false} ArraysNeverAmbiguous(rules: seq<Rule>, t1: Type, t2: Type, n: nat)
    requires forall a: Type, b: Type :: |Applicable(rules, a, b)| <= 1
    requires CanUnify(ArrayRule, t1, t2)
    ensures UnifyArrays(rules, t1, t2, n).Err? ==> !UnifyArrays(rules, t1, t2, n).error.AmbiguousRule?
    decreases Size(t1) + Size(t2), 0
  {
    NeverAmbiguous(rules, t1.of, t2.of, n);
  }

  lemma {:induction false} ParametrizedNeverAmbiguous(rules: seq<Rule>, t1: Type, t2: Type, n: nat)
    requires forall a: Type, b: Type :: |Applicable(rules, a, b)| <= 1
    requires CanUnify(ParametrizedRule, t1, t2)
    ensures UnifyParametrized(rules, t1, t2, n).Err? ==> !UnifyParametrized(rules, t1, t2, n).error.AmbiguousRule?
    decreases Size(t1) + Size(t2), 0
  {
    var old1 := TypeParameters(t1);
    var old2 := TypeParameters(t2);
    if |old1| == |old2| {
      TypeParametersSmaller(t1);
      TypeParametersSmaller(t2);
      ListNeverAmbiguous(rules, old1, old2, n);
    }
  }

  lemma {:induction false} RecordsNeverAmbiguous(rules: seq<Rule>, t1: Type, t2: Type, n: nat)
    requires forall a: Type, b: Type :: |Applicable(rules, a, b)| <= 1
    requires CanUnify(RecordRule, t1, t2)
    ensures UnifyRecords(rules, t1, t2, n).Err? ==> !UnifyRecords(rules, t1, t2, n).error.AmbiguousRule?
    decreases Size(t1) + Size(t2), 0
  {
    var smaller := if |t1.properties| <= |t2.properties| then t1 else t2;
    var larger := if |t1.properties| <= |t2.properties| then t2 else t1;
    PropertiesNeverAmbiguous(rules, smaller.properties, larger.properties, smaller.properties, n);
  }

  lemma {:induction false} WithMaybeNeverAmbiguous(rules: seq<Rule>, t1: Type, t2: Type, n: nat)
    requires forall a: Type, b: Type :: |Applicable(rules, a, b)| <= 1
    requires CanUnify(TMaybeRule, t1, t2)
    ensures UnifyWithMaybe(rules, t1, t2, n).Err? ==> !UnifyWithMaybe(rules, t1, t2, n).error.AmbiguousRule?
    decreases Size(t1) + Size(t2), 0
  {
    var maybe := if t1.Maybe? then t1 else t2;
    NeverAmbiguous(rules, MaybeOther(t1, t2), maybe.of, n);
  }

  lemma {:induction false} ListNeverAmbiguous(rules: seq<Rule>, xs: seq<Type>, ys: seq<Type>, n: nat)
    requires forall a: Type, b: Type :: |Applicable(rules, a, b)| <= 1
    ensures UnifyList(rules, xs, ys, n).Err? ==> !UnifyList(rules, xs, ys, n).error.AmbiguousRule?
    decreases ListSize(xs) + ListSize(ys), 4
  {
    if |xs| > 0 && |ys| > 0 {
      NeverAmbiguous(rules, xs[0], ys[0], n);
      var u := Unify(rules, xs[0], ys[0], n);
      if u.Ok? {
        ListNeverAmbiguous(rules, xs[1..], ys[1..], u.value.next);
      }
    }
  }

  lemma {:induction false} PropertiesNeverAmbiguous(rules: seq<Rule>, visit: seq<Property>, larger: seq<Property>, acc: seq<Property>, n: nat)
    requires forall a: Type, b: Type :: |Applicable(rules, a, b)| <= 1
    ensures UnifyProperties(rules, visit, larger, acc, n).Err? ==>
      !UnifyProperties(rules, visit, larger, acc, n).error.AmbiguousRule?
    decreases PropertiesSize(visit) + PropertiesSize(larger), 4
  {
    if |visit| > 0 {
      var p := visit[0];
      SizePositive(p.propertyType);
      assert PropertiesSize(visit) == PropertySize(p) + PropertiesSize(visit[1..]);
      match IndexOf(larger, p.member.name)
      case None =>
        PropertiesNeverAmbiguous(rules, visit[1..], larger, DeleteProperty(acc, p.member.name), n);
      case Some(k) =>
        PropertiesSizeBound(larger, k);
        NeverAmbiguous(rules, p.propertyType, larger[k].propertyType, n);
        var u := Unify(rules, p.propertyType, larger[k].propertyType, n);
        if u.Ok? {
          var acc' := if u.value.t != p.propertyType then SetProperty(acc, p.member, u.value.t) else acc;
          PropertiesNeverAmbiguous(rules, visit[1..], larger, acc', u.value.next);
        }
    }
  }

  /** With the corrected rules, unification never fails for an ambiguous rule choice. */
  lemma CorrectedNeverAmbiguous(t1: Type, t2: Type, n: nat)
    ensures Unify(CorrectedRules, t1, t2, n).Err? ==> !Unify(CorrectedRules, t1, t2, n).error.AmbiguousRule?
  {
    CorrectedRulesUnambiguous();
    NeverAmbiguous(CorrectedRules, t1, t2, n);
  }

  // ----- the record rule keeps the common properties -----

  lemma NameSetHas(ps: seq<Property>, name: Name)
    ensures name in NameSet(ps) <==> exists i | 0 <= i < |ps| :: ps[i].member.name == name
  {
    NameSetMembership(ps, name);
  }

  /** Deleting a name from a distinct-named list removes exactly that name. */
  lemma DeletePropertyNames(ps: seq<Property>, name: Name)
    requires DistinctNames(ps)
    ensures DistinctNames(DeleteProperty(ps, name))
    ensures NameSet(DeleteProperty(ps, name)) == NameSet(ps) - {name}
  {
    var r := DeleteProperty(ps, name);
    match IndexOf(ps, name)
    case None =>
      NameSetMembership(ps, name);
    case Some(i) =>
      var last := |ps| - 1;
      // position j of the result holds the entry of position `from(j)` of `ps`
      assert forall j | 0 <= j < |r| :: r[j] == ps[if j == i then last else j];
      forall x ensures x in NameSet(r) <==> x in NameSet(ps) && x != name {
        NameSetHas(r, x);
        NameSetHas(ps, x);
        if x in NameSet(ps) && x != name {
          var j :| 0 <= j < |ps| && ps[j].member.name == x;
          assert j != i;
          if j == last {
            assert r[i] == ps[j];
          } else {
            assert r[j] == ps[j];
          }
        }
      }
  }

  /** Replacing the type of a present name keeps the names. */
  lemma SetPropertyNames(ps: seq<Property>, symbol: Symbol, propertyType: Type)
    requires DistinctNames(ps) && IndexOf(ps, symbol.name).Some?
    ensures DistinctNames(SetProperty(ps, symbol, propertyType))
    ensures NameSet(SetProperty(ps, symbol, propertyType)) == NameSet(ps)
  {
    var r := SetProperty(ps, symbol, propertyType);
    var i := IndexOf(ps, symbol.name).value;
    assert forall j | 0 <= j < |r| :: r[j].member.name == ps[j].member.name;
    forall x ensures x in NameSet(r) <==> x in NameSet(ps) {
      NameSetHas(r, x);
      NameSetHas(ps, x);
    }
  }

  /**
   * The loop of the record rule removes from `acc` exactly the visited names
   * the larger record lacks.
   */
  lemma {:induction false} UnifyPropertiesNames(rules: seq<Rule>, visit: seq<Property>, larger: seq<Property>, acc: seq<Property>, n: nat)
    requires DistinctNames(acc) && DistinctNames(visit) && NameSet(visit) <= NameSet(acc)
    ensures UnifyProperties(rules, visit, larger, acc, n).Ok? ==>
      DistinctNames(UnifyProperties(rules, visit, larger, acc, n).value.ps) &&
      NameSet(UnifyProperties(rules, visit, larger, acc, n).value.ps) == NameSet(acc) - (NameSet(visit) - NameSet(larger))
    decreases |visit|
  {
    if |visit| > 0 {
      var p := visit[0];
      var name := p.member.name;
      var rest := visit[1..];
      assert NameSet(visit) == {name} + NameSet(rest);
      assert DistinctNames(rest) by {
        forall i, j | 0 <= i < j < |rest| ensures rest[i].member.name != rest[j].member.name {
          assert rest[i] == visit[i + 1] && rest[j] == visit[j + 1];
        }
      }
      assert name !in NameSet(rest) by {
        NameSetHas(rest, name);
        forall i | 0 <= i < |rest| ensures rest[i].member.name != name {
          assert rest[i] == visit[i + 1];
        }
      }
      NameSetMembership(larger, name);
      NameSetMembership(acc, name);
      match IndexOf(larger, name)
      case None =>
        DeletePropertyNames(acc, name);
        UnifyPropertiesNames(rules, rest, larger, DeleteProperty(acc, name), n);
      case Some(k) =>
        var u := Unify(rules, p.propertyType, larger[k].propertyType, n);
        if u.Ok? {
          var acc' := if u.value.t != p.propertyType then SetProperty(acc, p.member, u.value.t) else acc;
          if u.value.t != p.propertyType {
            SetPropertyNames(acc, p.member, u.value.t);
          }
          UnifyPropertiesNames(rules, rest, larger, acc', u.value.next);
        }
    }
  }

  /**
   * The record rule yields a record whose property names are the names both
   * records have, each once.
   */
  lemma RecordRuleKeepsCommonNames(rules: seq<Rule>, t1: Type, t2: Type, n: nat)
    requires IsObject(t1) && IsObject(t2) && DistinctNames(t1.properties) && DistinctNames(t2.properties)
    ensures UnifyRecords(rules, t1, t2, n).Ok? ==>
      UnifyRecords(rules, t1, t2, n).value.t.Record? &&
      DistinctNames(UnifyRecords(rules, t1, t2, n).value.t.properties) &&
      NameSet(UnifyRecords(rules, t1, t2, n).value.t.properties) == NameSet(t1.properties) * NameSet(t2.properties)
  {
    var smaller := if |t1.properties| <= |t2.properties| then t1 else t2;
    var larger := if |t1.properties| <= |t2.properties| then t2 else t1;
    var s := smaller.properties;
    UnifyPropertiesNames(rules, s, larger.properties, s, n);
    var c := UnifyProperties(rules, s, larger.properties, s, n);
    if c.Ok? {
      var common := c.value.ps;
      assert NameSet(common) == NameSet(s) * NameSet(larger.properties);
      if PropertiesEqual(common, s) {
        forall x | x in NameSet(s) ensures x in NameSet(common) {
          NameSetHas(s, x);
          var j :| 0 <= j < |s| && s[j].member.name == x;
          NameSetMembership(common, x);
        }
      }
    }
  }

  /** Two records unify to a record holding the property names both have, each once. */
  lemma RecordUnifyKeepsCommonNames(rules: seq<Rule>, t1: Type, t2: Type, n: nat)
    requires IsRuleSet(rules) && IsObject(t1) && IsObject(t2)
    requires DistinctNames(t1.properties) && DistinctNames(t2.properties)
    ensures Unify(rules, t1, t2, n).Ok? ==>
      Unify(rules, t1, t2, n).value.t.Record? &&
      DistinctNames(Unify(rules, t1, t2, n).value.t.properties) &&
      NameSet(Unify(rules, t1, t2, n).value.t.properties) == NameSet(t1.properties) * NameSet(t2.properties)
  {
    if Equals(t1, t2) {
      var p1 := t1.properties;
      var p2 := t2.properties;
      assert PropertiesEqual(p1, p2);
      NamesCovered(p1, p2);
      forall x ensures x in NameSet(p1) <==> x in NameSet(p2) {
        NameSetHas(p1, x);
        NameSetHas(p2, x);
        NameSetMembership(p1, x);
        NameSetMembership(p2, x);
      }
    } else {
      OnlyRule(rules, RecordRule, t1, t2);
      UnifyByRule(rules, RecordRule, t1, t2, n);
      RecordRuleKeepsCommonNames(rules, t1, t2, n);
    }
  }

  /**
   * The loop of the record rule over the entries of the smaller record, with
   * the deletions and updates of `withMutations`; `smaller` is visited as it
   * was before the loop.
   */
  method CommonProperties(rules: seq<Rule>, smaller: seq<Property>, larger: seq<Property>, next: nat)
    returns (r: Result<UnifiedProperties, UnificationError>)
    ensures r == UnifyProperties(rules, smaller, larger, smaller, next)
  {
    var common := smaller;
    var ids := next;
    var i := 0;
    while i < |smaller|
      invariant 0 <= i <= |smaller|
      invariant UnifyProperties(rules, smaller, larger, smaller, next) == UnifyProperties(rules, smaller[i..], larger, common, ids)
    {
      var p := smaller[i];
      assert smaller[i..][1..] == smaller[i + 1..];
      match IndexOf(larger, p.member.name) {
        case None =>
          common := DeleteProperty(common, p.member.name);
        case Some(k) =>
          var u := Unify(rules, p.propertyType, larger[k].propertyType, ids);
          if u.Err? {
            return Err(u.error);
          }
          if u.value.t != p.propertyType {
            common := SetProperty(common, p.member, u.value.t);
          }
          ids := u.value.next;
      }
      i := i + 1;
    }
    return Ok(UnifiedProperties(common, ids));
  }
}
