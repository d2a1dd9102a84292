/**
 * The type environment of the JavaScript checker: an immutable map from
 * symbols to types. Symbols are map keys by identity (the symbol class has no
 * `equals`), and the entries keep the order in which they were added, which
 * decides the order in which a substitution visits them.
 */
module TypeEnvironments {
  import opened Wrappers
  import opened Symbols
  import Types
  import TypeLaws

  type Type = Types.Type

  /** One entry: the type bound to a symbol. */
  datatype Mapping = Mapping(symbol: Symbol, boundType: Type)

  /** The entries of the environment, in iteration order. */
  datatype TypeEnvironment = TypeEnvironment(mappings: seq<Mapping>)

  /** `TypeEnvironment.EMPTY`. */
  const Empty := TypeEnvironment([])

  /** No symbol has two entries, which holds of every map. */
  predicate DistinctSymbols(ms: seq<Mapping>) {
    forall i, j | 0 <= i < j < |ms| :: ms[i].symbol != ms[j].symbol
  }

  /** The keys of the entries, in order. */
  function SymbolsOf(ms: seq<Mapping>): (r: seq<Symbol>)
    ensures |r| == |ms| && forall k | 0 <= k < |ms| :: r[k] == ms[k].symbol
  {
    if |ms| == 0 then [] else [ms[0].symbol] + SymbolsOf(ms[1..])
  }

  /** The position of the entry for `symbol`. */
  function Find(ms: seq<Mapping>, symbol: Symbol): (r: Option<nat>)
    ensures r.Some? ==> r.value < |ms| && ms[r.value].symbol == symbol
    ensures r.Some? ==> forall k | 0 <= k < r.value :: ms[k].symbol != symbol
    ensures r.None? ==> forall k | 0 <= k < |ms| :: ms[k].symbol != symbol
  {
    if |ms| == 0 then None
    else if ms[0].symbol == symbol then Some(0)
    else match Find(ms[1..], symbol)
      case None => None
      case Some(i) => Some(i + 1)
  }

  /** The type of the entry for `symbol`; `None` stands for `undefined`. */
  function Get(ms: seq<Mapping>, symbol: Symbol): (r: Option<Type>)
  {
    match Find(ms, symbol)
    case None => None
    case Some(i) => Some(ms[i].boundType)
  }

  /** `Map.set`: an existing entry keeps its position, a new one is appended. */
  function Put(ms: seq<Mapping>, symbol: Symbol, t: Type): (r: seq<Mapping>)
  {
    match Find(ms, symbol)
    case None => ms + [Mapping(symbol, t)]
    case Some(i) => ms[i := Mapping(symbol, t)]
  }

  /** `Map.delete` on a small map: the last entry takes the place of the deleted one. */
  function Delete(ms: seq<Mapping>, symbol: Symbol): (r: seq<Mapping>)
    ensures Find(ms, symbol).None? ==> r == ms
    ensures Find(ms, symbol).Some? ==> |r| == |ms| - 1
    ensures Find(ms, symbol).Some? ==>
      forall k | 0 <= k < |r| :: r[k] == (if k == Find(ms, symbol).value then ms[|ms| - 1] else ms[k])
  {
    match Find(ms, symbol)
    case None => ms
    case Some(i) => if i == |ms| - 1 then ms[..i] else ms[..i] + [ms[|ms| - 1]] + ms[i + 1..|ms| - 1]
  }

  /**
   * `Map.equals`: the same size, and every entry of `b` has an entry for its
   * symbol in `a` whose type equals it.
   */
  predicate MapEquals(a: seq<Mapping>, b: seq<Mapping>) {
    |a| == |b| &&
    forall j | 0 <= j < |b| :: Get(a, b[j].symbol).Some? && Types.Equals(Get(a, b[j].symbol).value, b[j].boundType)
  }

  // ----- the public operations -----

  predicate IsEmpty(env: TypeEnvironment) {
    |env.mappings| == 0
  }

  /** `setType`: the symbol is bound to the type, in its old place or appended as a new key. */
  function SetType(env: TypeEnvironment, symbol: Symbol, t: Type): (r: TypeEnvironment)
    ensures Mapping(symbol, t) in r.mappings
    ensures SymbolsOf(r.mappings) == if HasType(env, symbol) then SymbolsOf(env.mappings) else SymbolsOf(env.mappings) + [symbol]
  {
    var ms := Put(env.mappings, symbol, t);
    assert Find(env.mappings, symbol).Some? ==> ms[Find(env.mappings, symbol).value] == Mapping(symbol, t);
    TypeEnvironment(ms)
  }

  /** `getType`: the bound type, `None` standing for `undefined`. */
  function GetType(env: TypeEnvironment, symbol: Symbol): (r: Option<Type>)
    ensures r.Some? <==> HasType(env, symbol)
    ensures r.Some? ==> Mapping(symbol, r.value) in env.mappings
  {
    Get(env.mappings, symbol)
  }

  predicate HasType(env: TypeEnvironment, symbol: Symbol)
  {
    Find(env.mappings, symbol).Some?
  }

  /** `equals`: the maps hold the same number of keys, and every key of `other` has an equal type here. */
  predicate Equals(env: TypeEnvironment, other: TypeEnvironment)
    ensures Equals(env, other) ==>
      |env.mappings| == |other.mappings| && forall j | 0 <= j < |other.mappings| :: HasType(env, other.mappings[j].symbol)
  {
    MapEquals(env.mappings, other.mappings)
  }

  // ----- substitution -----

  /** A pending substitution of the worklist. */
  datatype Substitution = Substitution(oldType: Type, newType: Type)

  /** What a pass over the entries leaves: the entries and the worklist. */
  datatype Pass = Pass(mappings: seq<Mapping>, work: seq<Substitution>)

  /**
   * One pass of the worklist loop from the entry at `i` on: each entry whose
   * type the substitution changes gets the substituted type, and unless the
   * entry held the old type itself, its change is queued as a new substitution.
   */
  function SubstitutePass(ms: seq<Mapping>, s: Substitution, i: nat, work: seq<Substitution>): (r: Pass)
    requires i <= |ms|
    ensures SymbolsOf(r.mappings) == SymbolsOf(ms)
    decreases |ms| - i
  {
    if i == |ms| then Pass(ms, work)
    else SubstitutePass(SubstituteEntry(ms, s, i), s, i + 1, Queue(ms, s, i, work))
  }

  /** The entries after the entry at `i` has been visited. */
  function SubstituteEntry(ms: seq<Mapping>, s: Substitution, i: nat): (r: seq<Mapping>)
    requires i < |ms|
    ensures |r| == |ms| && forall k | 0 <= k < |ms| && k != i :: r[k] == ms[k]
    ensures r[i] == Mapping(ms[i].symbol, Types.Substitute(ms[i].boundType, s.oldType, s.newType))
  {
    var t := ms[i].boundType;
    var t' := Types.Substitute(t, s.oldType, s.newType);
    if t' != t then ms[i := Mapping(ms[i].symbol, t')] else ms
  }

  /** The worklist after the entry at `i` has been visited. */
  function Queue(ms: seq<Mapping>, s: Substitution, i: nat, work: seq<Substitution>): (r: seq<Substitution>)
    requires i < |ms|
  {
    var t := ms[i].boundType;
    var t' := Types.Substitute(t, s.oldType, s.newType);
    if t' != t && t != s.oldType then work + [Substitution(t, t')] else work
  }

  /**
   * The worklist loop: the last substitution is taken off and applied to every
   * entry, until no substitution is left. The loop has no bound of its own;
   * `fuel` counts the passes it may make, and `None` means it ran out.
   */
  function Drain(ms: seq<Mapping>, work: seq<Substitution>, fuel: nat): (r: Option<seq<Mapping>>)
    ensures r.Some? ==> SymbolsOf(r.value) == SymbolsOf(ms)
    ensures |work| == 0 ==> r == Some(ms)
    decreases fuel
  {
    if |work| == 0 then Some(ms)
    else if fuel == 0 then None
    else
      var p := SubstitutePass(ms, work[|work| - 1], 0, work[..|work| - 1]);
      Drain(p.mappings, p.work, fuel - 1)
  }

  /** `_substituteInMutable` on the entries of a map. */
  function SubstituteInMappings(ms: seq<Mapping>, oldType: Type, newType: Type, fuel: nat): (r: Option<seq<Mapping>>)
    ensures r.Some? ==> SymbolsOf(r.value) == SymbolsOf(ms)
  {
    Drain(ms, [Substitution(oldType, newType)], fuel)
  }

  /** `_substituteInMutable`, updating the entries step by step. */
  method SubstituteInMutable(ms: seq<Mapping>, oldType: Type, newType: Type, fuel: nat)
    returns (r: Option<seq<Mapping>>)
    ensures r == SubstituteInMappings(ms, oldType, newType, fuel)
    ensures r.Some? ==> SymbolsOf(r.value) == SymbolsOf(ms)
  {
    var mappings := ms;
    var substitutions := [Substitution(oldType, newType)];
    var remaining := fuel;
    while |substitutions| > 0 && remaining > 0
      invariant Drain(mappings, substitutions, remaining) == SubstituteInMappings(ms, oldType, newType, fuel)
      decreases remaining
    {
      mappings, substitutions, remaining := TakeSubstitution(mappings, substitutions, remaining);
    }
    DrainStops(mappings, substitutions, remaining);
    if |substitutions| > 0 {
      r := None;
    } else {
      r := Some(mappings);
    }
  }

  /** One turn of the worklist loop: the last substitution is taken off and applied to every entry. */
  method TakeSubstitution(mappings: seq<Mapping>, substitutions: seq<Substitution>, remaining: nat)
    returns (mappings': seq<Mapping>, substitutions': seq<Substitution>, remaining': nat)
    requires |substitutions| > 0 && remaining > 0
    ensures remaining' == remaining - 1
    ensures Drain(mappings', substitutions', remaining') == Drain(mappings, substitutions, remaining)
  {
    var current := substitutions[|substitutions| - 1];
    mappings', substitutions' := VisitEntries(mappings, current, substitutions[..|substitutions| - 1]);
    remaining' := remaining - 1;
  }

  /** The worklist loop ends with the entries once no substitution is left, and with `None` once the fuel is spent. */
  lemma DrainStops(ms: seq<Mapping>, work: seq<Substitution>, fuel: nat)
    requires |work| == 0 || fuel == 0
    ensures Drain(ms, work, fuel) == if |work| == 0 then Some(ms) else None
  {
  }

  /** The inner loop: one substitution applied to every entry in turn. */
  method VisitEntries(ms: seq<Mapping>, current: Substitution, work: seq<Substitution>)
    returns (mappings: seq<Mapping>, substitutions: seq<Substitution>)
    ensures Pass(mappings, substitutions) == SubstitutePass(ms, current, 0, work)
  {
    mappings, substitutions := ms, work;
    var i := 0;
    while i < |mappings|
      invariant i <= |mappings|
      invariant SubstitutePass(mappings, current, i, substitutions) == SubstitutePass(ms, current, 0, work)
      decreases |mappings| - i
    {
      mappings, substitutions := VisitEntry(mappings, current, i, substitutions);
      i := i + 1;
    }
  }

  /** The body of the inner loop: the entry at `i` is substituted, and its change queued. */
  method VisitEntry(mappings: seq<Mapping>, current: Substitution, i: nat, substitutions: seq<Substitution>)
    returns (mappings': seq<Mapping>, substitutions': seq<Substitution>)
    requires i < |mappings|
    ensures mappings' == SubstituteEntry(mappings, current, i)
    ensures substitutions' == Queue(mappings, current, i, substitutions)
  {
    mappings', substitutions' := mappings, substitutions;
    var t := mappings[i].boundType;
    var substituted := Types.Substitute(t, current.oldType, current.newType);
    if substituted != t {
      mappings' := mappings[i := Mapping(mappings[i].symbol, substituted)];
      if t != current.oldType {
        substitutions' := substitutions + [Substitution(t, substituted)];
      }
    }
  }

  /**
   * `substitute`: the same environment when the two types are the same
   * instance or the substituted entries equal the old ones, otherwise an
   * environment over the substituted entries.
   */
  function Substitute(env: TypeEnvironment, oldType: Type, newType: Type, fuel: nat): (r: Option<TypeEnvironment>)
    ensures oldType == newType ==> r == Some(env)
    ensures r.Some? ==> SymbolsOf(r.value.mappings) == SymbolsOf(env.mappings)
  {
    if oldType == newType then Some(env)
    else match SubstituteInMappings(env.mappings, oldType, newType, fuel)
      case None => None
      case Some(ms) => Some(if MapEquals(env.mappings, ms) then env else TypeEnvironment(ms))
  }

  // ----- difference, add and replaceTypes -----

  /** The type of `symbol` before equals `t`: the entry is not a change. */
  predicate Unchanged(before: TypeEnvironment, symbol: Symbol, t: Type) {
    GetType(before, symbol).Some? && Types.Equals(GetType(before, symbol).value, t)
  }

  /** The loop of `difference`: it visits the original entries and deletes the unchanged ones. */
  function DifferenceFrom(visit: seq<Mapping>, acc: seq<Mapping>, before: TypeEnvironment): (r: seq<Mapping>)
    ensures |r| <= |acc|
    decreases |visit|
  {
    if |visit| == 0 then acc
    else
      var acc' := if Unchanged(before, visit[0].symbol, visit[0].boundType) then Delete(acc, visit[0].symbol) else acc;
      DifferenceFrom(visit[1..], acc', before)
  }

  /** `difference`: only deletes, so the result never has more entries than the environment. */
  function Difference(env: TypeEnvironment, before: TypeEnvironment): (r: TypeEnvironment)
    ensures |r.mappings| <= |env.mappings|
  {
    var diff := DifferenceFrom(env.mappings, env.mappings, before);
    if MapEquals(env.mappings, diff) then env else TypeEnvironment(diff)
  }

  /** The loop of `add`: each entry of `visit` whose symbol is missing is appended. */
  function AddFrom(visit: seq<Mapping>, acc: seq<Mapping>): (r: seq<Mapping>)
    ensures |acc| <= |r| && r[..|acc|] == acc
    decreases |visit|
  {
    if |visit| == 0 then acc
    else AddFrom(visit[1..], if Find(acc, visit[0].symbol).Some? then acc else acc + [visit[0]])
  }

  /** `add`: only appends, so this environment's entries stay first, in their order and with their types. */
  function Add(env: TypeEnvironment, newMappings: TypeEnvironment): (r: TypeEnvironment)
    ensures |env.mappings| <= |r.mappings| && r.mappings[..|env.mappings|] == env.mappings
  {
    var ms := AddFrom(newMappings.mappings, env.mappings);
    if MapEquals(env.mappings, ms) then env else TypeEnvironment(ms)
  }

  /**
   * The loop of `replaceTypes`: for each original entry that is not excluded and
   * whose new type differs, the original type is substituted by the new one in
   * the entries built so far.
   */
  function ReplaceFrom(visit: seq<Mapping>, acc: seq<Mapping>, newTypes: TypeEnvironment,
                       excluded: set<Symbol>, fuel: nat): (r: Option<seq<Mapping>>)
    ensures r.Some? ==> SymbolsOf(r.value) == SymbolsOf(acc)
    decreases |visit|
  {
    if |visit| == 0 then Some(acc)
    else if visit[0].symbol in excluded then ReplaceFrom(visit[1..], acc, newTypes, excluded, fuel)
    else
      var newType := GetType(newTypes, visit[0].symbol);
      if newType.Some? && !Types.Equals(newType.value, visit[0].boundType) then
        match SubstituteInMappings(acc, visit[0].boundType, newType.value, fuel)
        case None => None
        case Some(acc') => ReplaceFrom(visit[1..], acc', newTypes, excluded, fuel)
      else ReplaceFrom(visit[1..], acc, newTypes, excluded, fuel)
  }

  function ReplaceTypes(env: TypeEnvironment, newTypes: TypeEnvironment, excluded: set<Symbol>, fuel: nat)
    : (r: Option<TypeEnvironment>)
    ensures r.Some? ==> SymbolsOf(r.value.mappings) == SymbolsOf(env.mappings)
  {
    match ReplaceFrom(env.mappings, env.mappings, newTypes, excluded, fuel)
    case None => None
    case Some(ms) => Some(if MapEquals(env.mappings, ms) then env else TypeEnvironment(ms))
  }

  // ----- lemmas: lookups -----

  /** In a map, the entry at `i` is the one found for its symbol. */
  lemma FindDistinct(ms: seq<Mapping>, i: nat)
    requires DistinctSymbols(ms) && i < |ms|
    ensures Find(ms, ms[i].symbol) == Some(i)
    ensures Get(ms, ms[i].symbol) == Some(ms[i].boundType)
  {
  }

  /** The first entry for a symbol is the one found. */
  lemma FindFirst(ms: seq<Mapping>, symbol: Symbol, i: nat)
    requires i < |ms| && ms[i].symbol == symbol
    requires forall k | 0 <= k < i :: ms[k].symbol != symbol
    ensures Find(ms, symbol) == Some(i)
  {
    match Find(ms, symbol)
    case None =>
    case Some(j) =>
      if j < i {
      } else if j > i {
      }
  }

  /** An entry for another symbol at the front does not change a lookup. */
  lemma GetTail(ms: seq<Mapping>, symbol: Symbol)
    requires |ms| > 0 && ms[0].symbol != symbol
    ensures Get(ms, symbol) == Get(ms[1..], symbol)
  {
  }

  /** Appending an entry for a missing symbol: only that symbol's lookup changes. */
  lemma GetAppend(ms: seq<Mapping>, m: Mapping, symbol: Symbol)
    requires Find(ms, m.symbol).None?
    ensures Find(ms, symbol).Some? ==> Get(ms + [m], symbol) == Get(ms, symbol)
    ensures Find(ms, symbol).None? ==> Get(ms + [m], symbol) == if symbol == m.symbol then Some(m.boundType) else None
    ensures DistinctSymbols(ms) ==> DistinctSymbols(ms + [m])
  {
    var ms' := ms + [m];
    match Find(ms, symbol)
    case Some(i) =>
      assert ms'[i] == ms[i];
      assert forall k | 0 <= k < i :: ms'[k] == ms[k];
      assert Find(ms', symbol) == Some(i);
    case None =>
      assert forall k | 0 <= k < |ms| :: ms'[k] == ms[k];
      if symbol == m.symbol {
        assert ms'[|ms|].symbol == symbol;
        assert Find(ms', symbol) == Some(|ms|);
      } else {
        assert ms'[|ms|].symbol != symbol;
      }
  }

  /** Deleting a symbol removes its entry and keeps every other lookup. */
  lemma DeleteGet(ms: seq<Mapping>, x: Symbol, symbol: Symbol)
    requires DistinctSymbols(ms)
    ensures DistinctSymbols(Delete(ms, x))
    ensures Get(Delete(ms, x), symbol) == if symbol == x then None else Get(ms, symbol)
  {
    var r := Delete(ms, x);
    match Find(ms, x)
    case None =>
    case Some(i) =>
      var last := |ms| - 1;
      assert forall k | 0 <= k < |r| :: r[k] == ms[if k == i then last else k];
      forall a, b | 0 <= a < b < |r| ensures r[a].symbol != r[b].symbol {
        var ia := if a == i then last else a;
        var ib := if b == i then last else b;
        assert ia != ib;
      }
      if symbol == x {
        forall k | 0 <= k < |r| ensures r[k].symbol != symbol {
          var ik := if k == i then last else k;
          assert ik != i;
        }
      } else {
        match Find(ms, symbol)
        case None =>
        case Some(j) =>
          assert j != i;
          var jr := if j == last then i else j;
          assert r[jr] == ms[j];
          FindDistinct(ms, j);
          FindDistinct(r, jr);
      }
  }

  /**
   * `setType` then `getType`: the symbol gets the new type; an existing entry
   * keeps its position and a new one comes last. The original environment is a
   * value and stays as it was.
   */
  lemma SetTypeThenGetType(env: TypeEnvironment, symbol: Symbol, t: Type)
    ensures GetType(SetType(env, symbol, t), symbol) == Some(t)
    ensures HasType(SetType(env, symbol, t), symbol) && !IsEmpty(SetType(env, symbol, t))
    ensures HasType(env, symbol) ==> SymbolsOf(SetType(env, symbol, t).mappings) == SymbolsOf(env.mappings)
    ensures !HasType(env, symbol) ==> SetType(env, symbol, t).mappings == env.mappings + [Mapping(symbol, t)]
  {
    var ms := env.mappings;
    match Find(ms, symbol)
    case None =>
      GetAppend(ms, Mapping(symbol, t), symbol);
    case Some(i) =>
      var r := ms[i := Mapping(symbol, t)];
      assert forall k | 0 <= k < i :: r[k] == ms[k];
      FindFirst(r, symbol, i);
  }

  /** `setType` leaves the type of every other symbol, and keeps the symbols distinct. */
  lemma SetTypeKeepsOthers(env: TypeEnvironment, symbol: Symbol, t: Type, other: Symbol)
    requires other != symbol
    ensures GetType(SetType(env, symbol, t), other) == GetType(env, other)
    ensures DistinctSymbols(env.mappings) ==> DistinctSymbols(SetType(env, symbol, t).mappings)
  {
    var ms := env.mappings;
    match Find(ms, symbol)
    case None =>
      GetAppend(ms, Mapping(symbol, t), other);
    case Some(i) =>
      var r := ms[i := Mapping(symbol, t)];
      match Find(ms, other)
      case None =>
        assert forall k | 0 <= k < |r| :: r[k].symbol != other;
      case Some(j) =>
        assert forall k | 0 <= k <= j :: r[k].symbol == ms[k].symbol;
        FindFirst(r, other, j);
  }

  /** The empty environment has no mappings, and an empty one has no type for any symbol. */
  lemma EmptyHasNoTypes(env: TypeEnvironment, symbol: Symbol)
    ensures IsEmpty(Empty)
    ensures IsEmpty(env) ==> !HasType(env, symbol) && GetType(env, symbol) == None
    ensures !IsEmpty(env) ==> HasType(env, env.mappings[0].symbol)
  {
  }

  /** Equal environments agree, up to `Types.Equals`, on the type of every symbol of the second. */
  lemma EqualsAgreesOnEverySymbol(env: TypeEnvironment, other: TypeEnvironment, symbol: Symbol)
    requires DistinctSymbols(other.mappings) && Equals(env, other) && HasType(other, symbol)
    ensures HasType(env, symbol)
    ensures Types.Equals(GetType(env, symbol).value, GetType(other, symbol).value)
  {
    var j := Find(other.mappings, symbol).value;
    assert other.mappings[j].symbol == symbol;
  }

  /** An environment of well-formed types equals itself. */
  lemma EqualsReflexive(env: TypeEnvironment)
    requires DistinctSymbols(env.mappings)
    requires forall k | 0 <= k < |env.mappings| :: TypeLaws.WellFormed(env.mappings[k].boundType)
    ensures Equals(env, env)
  {
    forall j | 0 <= j < |env.mappings|
      ensures Get(env.mappings, env.mappings[j].symbol) == Some(env.mappings[j].boundType)
      ensures Types.Equals(env.mappings[j].boundType, env.mappings[j].boundType)
    {
      FindDistinct(env.mappings, j);
      TypeLaws.EqualsReflexive(env.mappings[j].boundType);
    }
  }

  // ----- lemmas: substitution -----

  /** A pass gives each entry from `i` on its type substituted once, and leaves the earlier ones. */
  lemma {:induction false} PassSubstitutesEachEntry(ms: seq<Mapping>, s: Substitution, i: nat, work: seq<Substitution>)
    requires i <= |ms|
    ensures var r := SubstitutePass(ms, s, i, work);
      |r.mappings| == |ms| &&
      (forall k | 0 <= k < i :: r.mappings[k] == ms[k]) &&
      (forall k | i <= k < |ms| :: r.mappings[k].boundType == Types.Substitute(ms[k].boundType, s.oldType, s.newType))
    decreases |ms| - i
  {
    if i < |ms| {
      var ms' := SubstituteEntry(ms, s, i);
      var work' := Queue(ms, s, i, work);
      PassSubstitutesEachEntry(ms', s, i + 1, work');
      PassStep(ms, s, i, work);
      EntryThenRest(ms, ms', SubstitutePass(ms', s, i + 1, work').mappings, s, i);
    }
  }

  /** A pass from the entry at `i` visits that entry, then passes over the rest. */
  lemma PassStep(ms: seq<Mapping>, s: Substitution, i: nat, work: seq<Substitution>)
    requires i < |ms|
    ensures SubstitutePass(ms, s, i, work) == SubstitutePass(SubstituteEntry(ms, s, i), s, i + 1, Queue(ms, s, i, work))
  {
  }

  /**
   * The entry at `i` substituted first and the later entries substituted
   * afterwards: together every entry from `i` on is substituted.
   */
  lemma EntryThenRest(ms: seq<Mapping>, ms': seq<Mapping>, rm: seq<Mapping>, s: Substitution, i: nat)
    requires i < |ms| && |ms'| == |ms| && |rm| == |ms|
    requires forall k | 0 <= k < |ms| && k != i :: ms'[k] == ms[k]
    requires ms'[i].boundType == Types.Substitute(ms[i].boundType, s.oldType, s.newType)
    requires forall k | 0 <= k < i + 1 :: rm[k] == ms'[k]
    requires forall k | i + 1 <= k < |ms| :: rm[k].boundType == Types.Substitute(ms'[k].boundType, s.oldType, s.newType)
    ensures forall k | 0 <= k < i :: rm[k] == ms[k]
    ensures forall k | i <= k < |ms| :: rm[k].boundType == Types.Substitute(ms[k].boundType, s.oldType, s.newType)
  {
  }

  /** A pass keeps the waiting substitutions in front of the ones it queues, and queues nothing when no entry changes. */
  lemma {:induction false} PassKeepsWaiting(ms: seq<Mapping>, s: Substitution, i: nat, work: seq<Substitution>)
    requires i <= |ms|
    ensures |work| <= |SubstitutePass(ms, s, i, work).work|
    ensures SubstitutePass(ms, s, i, work).work[..|work|] == work
    decreases |ms| - i
  {
    if i < |ms| {
      var ms' := SubstituteEntry(ms, s, i);
      var work' := Queue(ms, s, i, work);
      PassKeepsWaiting(ms', s, i + 1, work');
      var r := SubstitutePass(ms', s, i + 1, work');
      assert r.work[..|work|] == r.work[..|work'|][..|work|];
    }
  }

  /** A pass in which no entry changes queues nothing. */
  lemma {:induction false} PassWithoutChangeQueuesNothing(ms: seq<Mapping>, s: Substitution, i: nat, work: seq<Substitution>)
    requires i <= |ms|
    requires forall k | i <= k < |ms| :: Types.Substitute(ms[k].boundType, s.oldType, s.newType) == ms[k].boundType
    ensures SubstitutePass(ms, s, i, work).work == work
    decreases |ms| - i
  {
    if i < |ms| {
      var ms' := SubstituteEntry(ms, s, i);
      assert ms' == ms;
      PassWithoutChangeQueuesNothing(ms', s, i + 1, Queue(ms, s, i, work));
    }
  }

  /**
   * Each substitution a pass queues is the change of an entry from `i` on: the
   * entry's type and its substituted type, which differ, where the entry did
   * not hold the old type.
   */
  lemma {:induction false} PassQueuesOnlyChanges(ms: seq<Mapping>, s: Substitution, i: nat, work: seq<Substitution>)
    requires i <= |ms|
    ensures var r := SubstitutePass(ms, s, i, work);
      |work| <= |r.work| &&
      forall j | |work| <= j < |r.work| :: r.work[j].oldType != r.work[j].newType && r.work[j].oldType != s.oldType &&
        exists k | i <= k < |ms| :: r.work[j] == Substitution(ms[k].boundType, Types.Substitute(ms[k].boundType, s.oldType, s.newType))
    decreases |ms| - i
  {
    PassKeepsWaiting(ms, s, i, work);
    if i < |ms| {
      var t := ms[i].boundType;
      var t' := Types.Substitute(t, s.oldType, s.newType);
      var ms' := SubstituteEntry(ms, s, i);
      var work' := Queue(ms, s, i, work);
      PassQueuesOnlyChanges(ms', s, i + 1, work');
      PassKeepsWaiting(ms', s, i + 1, work');
      var r := SubstitutePass(ms', s, i + 1, work');
      forall j | |work| <= j < |r.work|
        ensures r.work[j].oldType != r.work[j].newType && r.work[j].oldType != s.oldType
        ensures exists k | i <= k < |ms| :: r.work[j] == Substitution(ms[k].boundType, Types.Substitute(ms[k].boundType, s.oldType, s.newType))
      {
        if j < |work'| {
          assert r.work[j] == r.work[..|work'|][j];
          assert r.work[j] == Substitution(t, t');
        } else {
          var k :| i + 1 <= k < |ms| && r.work[j] == Substitution(ms'[k].boundType, Types.Substitute(ms'[k].boundType, s.oldType, s.newType));
          assert ms'[k] == ms[k];
        }
      }
    }
  }

  /** A pass queues the change of every entry from `i` on that changed and did not hold the old type. */
  lemma {:induction false} PassQueuesEveryChange(ms: seq<Mapping>, s: Substitution, i: nat, work: seq<Substitution>)
    requires i <= |ms|
    ensures var r := SubstitutePass(ms, s, i, work);
      forall k | i <= k < |ms| ::
        Types.Substitute(ms[k].boundType, s.oldType, s.newType) != ms[k].boundType && ms[k].boundType != s.oldType ==>
        exists j | |work| <= j < |r.work| :: r.work[j] == Substitution(ms[k].boundType, Types.Substitute(ms[k].boundType, s.oldType, s.newType))
    decreases |ms| - i
  {
    if i < |ms| {
      var t := ms[i].boundType;
      var t' := Types.Substitute(t, s.oldType, s.newType);
      var ms' := SubstituteEntry(ms, s, i);
      var work' := Queue(ms, s, i, work);
      PassQueuesEveryChange(ms', s, i + 1, work');
      PassKeepsWaiting(ms', s, i + 1, work');
      var r := SubstitutePass(ms', s, i + 1, work');
      assert SubstitutePass(ms, s, i, work) == r;
      forall k | i <= k < |ms| && Types.Substitute(ms[k].boundType, s.oldType, s.newType) != ms[k].boundType && ms[k].boundType != s.oldType
        ensures exists j | |work| <= j < |r.work| :: r.work[j] == Substitution(ms[k].boundType, Types.Substitute(ms[k].boundType, s.oldType, s.newType))
      {
        if k == i {
          assert work' == work + [Substitution(t, t')];
          assert r.work[|work|] == r.work[..|work'|][|work|];
        } else {
          assert ms'[k] == ms[k];
        }
      }
    }
  }

  /** A substitution that no entry mentions leaves the environment as it is. */
  lemma SubstituteUnmentionedKeepsEnvironment(env: TypeEnvironment, oldType: Type, newType: Type, fuel: nat)
    requires fuel >= 1
    requires forall k | 0 <= k < |env.mappings| ::
      TypeLaws.WellFormed(env.mappings[k].boundType) && !TypeLaws.Mentions(env.mappings[k].boundType, oldType.id)
    ensures Substitute(env, oldType, newType, fuel) == Some(env)
  {
    if oldType != newType {
      var ms := env.mappings;
      var s := Substitution(oldType, newType);
      forall k | 0 <= k < |ms| ensures Types.Substitute(ms[k].boundType, oldType, newType) == ms[k].boundType {
        TypeLaws.SubstituteUnmentioned(ms[k].boundType, oldType, newType);
      }
      PassSubstitutesEachEntry(ms, s, 0, []);
      PassWithoutChangeQueuesNothing(ms, s, 0, []);
      var p := SubstitutePass(ms, s, 0, []);
      assert p.mappings == ms by {
        assert forall k | 0 <= k < |ms| :: p.mappings[k].symbol == SymbolsOf(p.mappings)[k];
      }
      assert [s][..0] == [];
      assert Drain(ms, [s], fuel) == Drain(p.mappings, p.work, fuel - 1);
    }
  }

  // ----- lemmas: difference -----

  /**
   * The loop of `difference` deletes exactly the visited symbols whose type is
   * unchanged since `before`, and keeps every other entry as it is.
   */
  lemma {:induction false} DifferenceFromGet(visit: seq<Mapping>, acc: seq<Mapping>, before: TypeEnvironment, symbol: Symbol)
    requires DistinctSymbols(visit) && DistinctSymbols(acc)
    requires forall k | 0 <= k < |visit| :: Get(acc, visit[k].symbol) == Some(visit[k].boundType)
    ensures DistinctSymbols(DifferenceFrom(visit, acc, before))
    ensures Get(DifferenceFrom(visit, acc, before), symbol) ==
      if Get(visit, symbol).Some? && Unchanged(before, symbol, Get(visit, symbol).value) then None else Get(acc, symbol)
    ensures |DifferenceFrom(visit, acc, before)| <= |acc|
    ensures |DifferenceFrom(visit, acc, before)| == |acc| ==> DifferenceFrom(visit, acc, before) == acc
    decreases |visit|
  {
    if |visit| > 0 {
      var x := visit[0].symbol;
      var acc' := if Unchanged(before, x, visit[0].boundType) then Delete(acc, x) else acc;
      DeleteGet(acc, x, symbol);
      forall k | 1 <= k < |visit| ensures Get(acc', visit[k].symbol) == Some(visit[k].boundType) {
        DeleteGet(acc, x, visit[k].symbol);
      }
      assert forall k | 0 <= k < |visit| - 1 :: visit[1..][k] == visit[k + 1];
      DifferenceFromGet(visit[1..], acc', before, symbol);
      if symbol == x {
        FindDistinct(visit, 0);
        assert Get(visit[1..], symbol) == None;
      } else {
        GetTail(visit, symbol);
      }
      if Unchanged(before, x, visit[0].boundType) {
        FindDistinct(visit, 0);
        assert Find(acc, x).Some?;
      }
    }
  }

  /**
   * `difference`: a symbol keeps its entry exactly when it is new since
   * `before` or its type is not equal to the one it had there.
   */
  lemma DifferenceKeepsChanges(env: TypeEnvironment, before: TypeEnvironment, symbol: Symbol)
    requires DistinctSymbols(env.mappings)
    ensures DistinctSymbols(Difference(env, before).mappings)
    ensures GetType(Difference(env, before), symbol) ==
      if HasType(env, symbol) && !Unchanged(before, symbol, GetType(env, symbol).value) then GetType(env, symbol) else None
  {
    var ms := env.mappings;
    forall k | 0 <= k < |ms| ensures Get(ms, ms[k].symbol) == Some(ms[k].boundType) {
      FindDistinct(ms, k);
    }
    DifferenceFromGet(ms, ms, before, symbol);
  }

  /** The difference of a well-formed environment and itself is empty. */
  lemma DifferenceWithItselfIsEmpty(env: TypeEnvironment)
    requires DistinctSymbols(env.mappings)
    requires forall k | 0 <= k < |env.mappings| :: TypeLaws.WellFormed(env.mappings[k].boundType)
    ensures IsEmpty(Difference(env, env))
  {
    var d := Difference(env, env);
    if |d.mappings| > 0 {
      var x := d.mappings[0].symbol;
      DifferenceKeepsChanges(env, env, x);
      FindDistinct(d.mappings, 0);
      var i := Find(env.mappings, x).value;
      TypeLaws.EqualsReflexive(env.mappings[i].boundType);
      assert false;
    }
  }

  /** Against an empty environment before, every mapping is new and `difference` returns the environment. */
  lemma DifferenceFromEmptyIsAll(env: TypeEnvironment)
    ensures Difference(env, Empty) == env
  {
    assert forall k | 0 <= k < |env.mappings| :: !Unchanged(Empty, env.mappings[k].symbol, env.mappings[k].boundType);
    DifferenceFromNothingDeleted(env.mappings, env.mappings);
  }

  lemma {:induction false} DifferenceFromNothingDeleted(visit: seq<Mapping>, acc: seq<Mapping>)
    requires forall k | 0 <= k < |visit| :: !Unchanged(Empty, visit[k].symbol, visit[k].boundType)
    ensures DifferenceFrom(visit, acc, Empty) == acc
    decreases |visit|
  {
    if |visit| > 0 {
      DifferenceFromNothingDeleted(visit[1..], acc);
    }
  }

  // ----- lemmas: add -----

  /**
   * The loop of `add` appends the entries of `visit` whose symbols are missing:
   * the entries already there stay in front, unchanged.
   */
  lemma {:induction false} AddFromGet(visit: seq<Mapping>, acc: seq<Mapping>, symbol: Symbol)
    requires DistinctSymbols(visit) && DistinctSymbols(acc)
    ensures DistinctSymbols(AddFrom(visit, acc))
    ensures |acc| <= |AddFrom(visit, acc)| && AddFrom(visit, acc)[..|acc|] == acc
    ensures Get(AddFrom(visit, acc), symbol) == if Find(acc, symbol).Some? then Get(acc, symbol) else Get(visit, symbol)
    decreases |visit|
  {
    if |visit| > 0 {
      var m := visit[0];
      var acc' := if Find(acc, m.symbol).Some? then acc else acc + [m];
      if Find(acc, m.symbol).None? {
        GetAppend(acc, m, symbol);
      }
      assert forall k | 0 <= k < |visit| - 1 :: visit[1..][k] == visit[k + 1];
      AddFromGet(visit[1..], acc', symbol);
      var r := AddFrom(visit[1..], acc');
      assert r[..|acc|] == r[..|acc'|][..|acc|];
      if symbol == m.symbol {
        FindDistinct(visit, 0);
      } else {
        GetTail(visit, symbol);
        if Find(acc, m.symbol).None? && Find(acc, symbol).None? {
          assert Find(acc', symbol).None?;
        }
      }
    }
  }

  /**
   * `add`: a symbol of this environment keeps its type, a missing symbol takes
   * its type from the added environment, and the entries of this environment
   * stay first, in their order.
   */
  lemma AddNeverOverrides(env: TypeEnvironment, newMappings: TypeEnvironment, symbol: Symbol)
    requires DistinctSymbols(env.mappings) && DistinctSymbols(newMappings.mappings)
    ensures DistinctSymbols(Add(env, newMappings).mappings)
    ensures |env.mappings| <= |Add(env, newMappings).mappings|
    ensures Add(env, newMappings).mappings[..|env.mappings|] == env.mappings
    ensures GetType(Add(env, newMappings), symbol) ==
      if HasType(env, symbol) then GetType(env, symbol) else GetType(newMappings, symbol)
  {
    var ms := AddFrom(newMappings.mappings, env.mappings);
    AddFromGet(newMappings.mappings, env.mappings, symbol);
    if MapEquals(env.mappings, ms) {
      assert ms == ms[..|env.mappings|];
    }
  }

  /** When every added symbol is already there, `add` returns the environment itself. */
  lemma {:induction false} AddNothingNew(env: TypeEnvironment, newMappings: TypeEnvironment)
    requires forall k | 0 <= k < |newMappings.mappings| :: HasType(env, newMappings.mappings[k].symbol)
    ensures Add(env, newMappings) == env
  {
    AddFromPresent(newMappings.mappings, env.mappings);
  }

  lemma {:induction false} AddFromPresent(visit: seq<Mapping>, acc: seq<Mapping>)
    requires forall k | 0 <= k < |visit| :: Find(acc, visit[k].symbol).Some?
    ensures AddFrom(visit, acc) == acc
    decreases |visit|
  {
    if |visit| > 0 {
      AddFromPresent(visit[1..], acc);
    }
  }

  // ----- lemmas: replaceTypes -----

  /** When each symbol is excluded or has no differing new type, `replaceTypes` returns the environment itself. */
  lemma ReplaceTypesSkipsExcluded(env: TypeEnvironment, newTypes: TypeEnvironment, excluded: set<Symbol>, fuel: nat)
    requires forall k | 0 <= k < |env.mappings| ::
      env.mappings[k].symbol in excluded || GetType(newTypes, env.mappings[k].symbol).None? ||
      Types.Equals(GetType(newTypes, env.mappings[k].symbol).value, env.mappings[k].boundType)
    ensures ReplaceTypes(env, newTypes, excluded, fuel) == Some(env)
  {
    ReplaceFromNothing(env.mappings, env.mappings, newTypes, excluded, fuel);
  }

  lemma {:induction false} ReplaceFromNothing(visit: seq<Mapping>, acc: seq<Mapping>, newTypes: TypeEnvironment,
                                              excluded: set<Symbol>, fuel: nat)
    requires forall k | 0 <= k < |visit| ::
      visit[k].symbol in excluded || GetType(newTypes, visit[k].symbol).None? ||
      Types.Equals(GetType(newTypes, visit[k].symbol).value, visit[k].boundType)
    ensures ReplaceFrom(visit, acc, newTypes, excluded, fuel) == Some(acc)
    decreases |visit|
  {
    if |visit| > 0 {
      ReplaceFromNothing(visit[1..], acc, newTypes, excluded, fuel);
    }
  }

  /**
   * `replaceTypes` on a single type variable: the symbol takes the new type
   * unless it is excluded.
   */
  lemma ReplaceTypesReplacesVariable(symbol: Symbol, v: Type, u: Type, newTypes: TypeEnvironment,
                                     excluded: set<Symbol>, fuel: nat)
    requires v.Variable? && u.id != v.id && fuel >= 1
    requires GetType(newTypes, symbol) == Some(u)
    ensures symbol !in excluded ==>
      ReplaceTypes(TypeEnvironment([Mapping(symbol, v)]), newTypes, excluded, fuel) == Some(TypeEnvironment([Mapping(symbol, u)]))
    ensures symbol in excluded ==>
      ReplaceTypes(TypeEnvironment([Mapping(symbol, v)]), newTypes, excluded, fuel) == Some(TypeEnvironment([Mapping(symbol, v)]))
  {
    var ms := [Mapping(symbol, v)];
    if symbol !in excluded {
      assert !Types.Equals(u, v);
      var s := Substitution(v, u);
      assert Types.Substitute(v, v, u) == u;
      assert SubstitutePass(ms, s, 0, []) == Pass([Mapping(symbol, u)], []) by {
        assert SubstituteEntry(ms, s, 0) == [Mapping(symbol, u)];
        assert Queue(ms, s, 0, []) == [];
      }
      assert SubstituteInMappings(ms, v, u, fuel) == Some([Mapping(symbol, u)]);
      assert ReplaceFrom(ms, ms, newTypes, excluded, fuel) == ReplaceFrom([], [Mapping(symbol, u)], newTypes, excluded, fuel);
      assert !MapEquals(ms, [Mapping(symbol, u)]) by {
        assert Get(ms, symbol) == Some(v);
      }
    } else {
      ReplaceTypesSkipsExcluded(TypeEnvironment(ms), newTypes, excluded, fuel);
    }
  }
}
