/**
 * The whole cascade of the type environment's `substitute`: when the worklist
 * settles after the changes of its first pass, and what it leaves.
 */
module EnvironmentCascade {
  import opened Wrappers
  import opened Symbols
  import Types
  import opened TypeEnvironments

  type Type = Types.Type

  /** Every entry with its type substituted once. */
  function SubstitutedOnce(ms: seq<Mapping>, oldType: Type, newType: Type): (r: seq<Mapping>)
    ensures |r| == |ms|
    ensures forall k | 0 <= k < |ms| :: r[k] == Mapping(ms[k].symbol, Types.Substitute(ms[k].boundType, oldType, newType))
  {
    seq(|ms|, k requires 0 <= k < |ms| => Mapping(ms[k].symbol, Types.Substitute(ms[k].boundType, oldType, newType)))
  }

  /** A pass queues at most one substitution per entry it visits. */
  lemma {:induction false} PassQueueBound(ms: seq<Mapping>, s: Substitution, i: nat, work: seq<Substitution>)
    requires i <= |ms|
    ensures |SubstitutePass(ms, s, i, work).work| <= |work| + |ms| - i
    decreases |ms| - i
  {
    if i < |ms| {
      PassQueueBound(SubstituteEntry(ms, s, i), s, i + 1, Queue(ms, s, i, work));
    }
  }

  /** The first pass of `substitute` gives every entry its type substituted once. */
  lemma FirstPassSubstitutesOnce(ms: seq<Mapping>, s: Substitution)
    ensures SubstitutePass(ms, s, 0, []).mappings == SubstitutedOnce(ms, s.oldType, s.newType)
  {
    PassSubstitutesEachEntry(ms, s, 0, []);
    var p := SubstitutePass(ms, s, 0, []);
    assert forall k | 0 <= k < |ms| :: p.mappings[k].symbol == SymbolsOf(p.mappings)[k];
  }

  /** The first pass of `substitute`, over every entry. */
  function FirstPass(ms: seq<Mapping>, oldType: Type, newType: Type): Pass {
    SubstitutePass(ms, Substitution(oldType, newType), 0, [])
  }

  /** The substitution changes no entry. */
  predicate Idle(ms: seq<Mapping>, s: Substitution) {
    forall k | 0 <= k < |ms| :: Types.Substitute(ms[k].boundType, s.oldType, s.newType) == ms[k].boundType
  }

  /** A pass of a substitution that changes no entry leaves the entries and the worklist as they are. */
  lemma IdlePass(ms: seq<Mapping>, s: Substitution, work: seq<Substitution>)
    requires Idle(ms, s)
    ensures SubstitutePass(ms, s, 0, work) == Pass(ms, work)
  {
    var p := SubstitutePass(ms, s, 0, work);
    PassSubstitutesEachEntry(ms, s, 0, work);
    PassWithoutChangeQueuesNothing(ms, s, 0, work);
    assert p.mappings == ms by {
      assert forall k | 0 <= k < |ms| :: p.mappings[k].symbol == SymbolsOf(p.mappings)[k];
    }
  }

  /** Substitutions that change no entry drain without changing anything, one pass each. */
  lemma {:induction false} DrainIdle(ms: seq<Mapping>, work: seq<Substitution>, fuel: nat)
    requires |work| <= fuel
    requires forall j | 0 <= j < |work| :: Idle(ms, work[j])
    ensures Drain(ms, work, fuel) == Some(ms)
    decreases |work|
  {
    if |work| > 0 {
      var rest := work[..|work| - 1];
      IdlePass(ms, work[|work| - 1], rest);
      assert forall j | 0 <= j < |rest| :: rest[j] == work[j];
      DrainIdle(ms, rest, fuel - 1);
    }
  }

  /** The changes queued by a pass whose every change leaves the substituted entries idle. */
  predicate ChangesSettle(ms: seq<Mapping>, oldType: Type, newType: Type) {
    var once := SubstitutedOnce(ms, oldType, newType);
    forall j | 0 <= j < |ms| && once[j].boundType != ms[j].boundType && ms[j].boundType != oldType ::
      Idle(once, Substitution(ms[j].boundType, once[j].boundType))
  }

  lemma QueuedChangesIdle(ms: seq<Mapping>, oldType: Type, newType: Type)
    requires ChangesSettle(ms, oldType, newType)
    ensures |FirstPass(ms, oldType, newType).work| <= |ms|
    ensures forall j | 0 <= j < |FirstPass(ms, oldType, newType).work| ::
      Idle(SubstitutedOnce(ms, oldType, newType), FirstPass(ms, oldType, newType).work[j])
  {
    var once := SubstitutedOnce(ms, oldType, newType);
    var s := Substitution(oldType, newType);
    var p := SubstitutePass(ms, s, 0, []);
    PassQueueBound(ms, s, 0, []);
    PassQueuesOnlyChanges(ms, s, 0, []);
    forall j | 0 <= j < |p.work| ensures Idle(once, p.work[j]) {
      var i :| 0 <= i < |ms| && p.work[j] == Substitution(ms[i].boundType, Types.Substitute(ms[i].boundType, oldType, newType));
      assert once[i].boundType == Types.Substitute(ms[i].boundType, oldType, newType);
    }
  }

  /** The changes the first pass queues drain from the substituted entries without changing them. */
  lemma QueuedChangesDrain(ms: seq<Mapping>, oldType: Type, newType: Type, fuel: nat)
    requires fuel >= |ms| && ChangesSettle(ms, oldType, newType)
    ensures Drain(FirstPass(ms, oldType, newType).mappings, FirstPass(ms, oldType, newType).work, fuel)
      == Some(SubstitutedOnce(ms, oldType, newType))
  {
    FirstPassSubstitutesOnce(ms, Substitution(oldType, newType));
    QueuedChangesIdle(ms, oldType, newType);
    DrainIdle(SubstitutedOnce(ms, oldType, newType), FirstPass(ms, oldType, newType).work, fuel);
  }

  /** The worklist loop over the entries, when the first pass's changes settle. */
  lemma CascadeDrains(ms: seq<Mapping>, oldType: Type, newType: Type, fuel: nat)
    requires fuel > |ms| && ChangesSettle(ms, oldType, newType)
    ensures SubstituteInMappings(ms, oldType, newType, fuel) == Some(SubstitutedOnce(ms, oldType, newType))
  {
    var rest := fuel - 1;
    QueuedChangesDrain(ms, oldType, newType, rest);
    DrainFirstPass(ms, oldType, newType, rest, SubstitutedOnce(ms, oldType, newType));
    assert rest + 1 == fuel;
  }

  /** The worklist loop starts with one pass of the first substitution, then drains what it queued. */
  lemma DrainFirstPass(ms: seq<Mapping>, oldType: Type, newType: Type, rest: nat, result: seq<Mapping>)
    requires Drain(FirstPass(ms, oldType, newType).mappings, FirstPass(ms, oldType, newType).work, rest) == Some(result)
    ensures SubstituteInMappings(ms, oldType, newType, rest + 1) == Some(result)
  {
  }

  /**
   * The whole cascade of `substitute`: when the changes the first pass queues
   * change no substituted entry any further, the worklist empties after one
   * pass per queued change, and the result holds every entry with its type
   * substituted once (the environment itself when that equals the old entries).
   */
  lemma SubstituteCascadeSettles(env: TypeEnvironment, oldType: Type, newType: Type, fuel: nat)
    requires oldType != newType && fuel > |env.mappings|
    requires ChangesSettle(env.mappings, oldType, newType)
    ensures var once := SubstitutedOnce(env.mappings, oldType, newType);
      Substitute(env, oldType, newType, fuel) == Some(if MapEquals(env.mappings, once) then env else TypeEnvironment(once))
  {
    CascadeDrains(env.mappings, oldType, newType, fuel);
  }

  /**
   * On an environment of one entry whose type is not a different instance of
   * the old type, `substitute` ends with the entry's type substituted.
   */
  lemma SubstituteOneEntry(symbol: Symbol, t: Type, oldType: Type, newType: Type, fuel: nat)
    requires oldType != newType && fuel >= 2
    requires t == oldType || !Types.Same(t, oldType)
    ensures var env := TypeEnvironment([Mapping(symbol, t)]);
      var t' := Types.Substitute(t, oldType, newType);
      Substitute(env, oldType, newType, fuel) ==
        Some(if Types.Equals(t, t') then env else TypeEnvironment([Mapping(symbol, t')]))
  {
    var ms := [Mapping(symbol, t)];
    var t' := Types.Substitute(t, oldType, newType);
    OneEntrySettles(symbol, t, oldType, newType);
    SubstituteCascadeSettles(TypeEnvironment(ms), oldType, newType, fuel);
    assert Get(ms, symbol) == Some(t);
    assert MapEquals(ms, [Mapping(symbol, t')]) <==> Types.Equals(t, t');
  }

  lemma OneEntrySettles(symbol: Symbol, t: Type, oldType: Type, newType: Type)
    requires t == oldType || !Types.Same(t, oldType)
    ensures SubstitutedOnce([Mapping(symbol, t)], oldType, newType) == [Mapping(symbol, Types.Substitute(t, oldType, newType))]
    ensures ChangesSettle([Mapping(symbol, t)], oldType, newType)
  {
    var ms := [Mapping(symbol, t)];
    var t' := Types.Substitute(t, oldType, newType);
    var once := SubstitutedOnce(ms, oldType, newType);
    assert once[0] == Mapping(symbol, t');
    if t' != t && t != oldType {
      assert Types.Same(t', t);
      assert Types.Substitute(t', t, t') == t';
      assert Idle(once, Substitution(t, t'));
    }
  }
}
