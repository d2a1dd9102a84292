/**
 * The variable scopes of the JavaScript checker. A scope owns the symbols
 * declared in it, keyed by name in the order they were added, knows its parent
 * scope and the child scopes created from it; names resolve from the scope
 * outwards through its parents.
 */
module Scopes {
  import opened Wrappers
  import opened Symbols

  /** The position of the symbol named `name` in `ss`, the first one if there are several. */
  function IndexOfName(ss: seq<Symbol>, name: Name): (r: Option<nat>)
    ensures r.Some? ==> r.value < |ss| && ss[r.value].name == name
    ensures r.Some? ==> forall k | 0 <= k < r.value :: ss[k].name != name
    ensures r.None? ==> forall k | 0 <= k < |ss| :: ss[k].name != name
  {
    if |ss| == 0 then None
    else if ss[0].name == name then Some(0)
    else match IndexOfName(ss[1..], name)
      case None => None
      case Some(i) => Some(i + 1)
  }

  /** The first symbol named `name` in `ss`. */
  function FirstNamed(ss: seq<Symbol>, name: Name): (r: Option<Symbol>)
    ensures r.Some? ==> r.value in ss && r.value.name == name
  {
    match IndexOfName(ss, name)
    case None => None
    case Some(i) => Some(ss[i])
  }

  /** No two symbols share a name, which holds of the keys of a map. */
  predicate DistinctNames(ss: seq<Symbol>) {
    forall i, j | 0 <= i < j < |ss| :: ss[i].name != ss[j].name
  }

  class Scope {
    /** The enclosing scope; the global scope has none. */
    const parent: Scope?
    /** The number of scopes enclosing this one. */
    ghost const depth: nat
    /** The scopes enclosing this one. */
    ghost const ancestors: set<Scope>
    var children: seq<Scope>
    /** The symbols declared in this scope, in the order they were added. */
    var symbols: seq<Symbol>

    /** This scope and the scopes enclosing it. */
    ghost function Chain(): set<Scope> {
      {this} + ancestors
    }

    /** The parent links end in a global scope, each step one level up. */
    ghost predicate Linked()
      decreases depth
    {
      (parent == null ==> depth == 0 && ancestors == {}) &&
      (parent != null ==> parent.depth < depth && ancestors == parent.Chain() && parent.Linked())
    }

    /** `new Scope(parent)`: a scope without symbols and children. */
    constructor (parent: Scope?)
      requires parent != null ==> parent.Linked()
      ensures this.parent == parent && Linked()
      ensures symbols == [] && children == []
    {
      this.parent := parent;
      depth := if parent == null then 0 else parent.depth + 1;
      ancestors := if parent == null then {} else parent.Chain();
      symbols := [];
      children := [];
    }

    /** `addSymbol`: a symbol whose name the scope already holds is refused. */
    method AddSymbol(symbol: Symbol) returns (r: Result<(), AssertionError>)
      modifies this
      ensures r.Ok? <==> !old(HasOwnSymbol(symbol.name))
      ensures r.Ok? ==> symbols == old(symbols) + [symbol]
      ensures r.Err? ==> symbols == old(symbols)
      ensures children == old(children)
      ensures DistinctNames(old(symbols)) ==> DistinctNames(symbols)
    {
      if HasOwnSymbol(symbol.name) {
        return Err(AssertionError("Another symbol with the name already exists"));
      }
      symbols := symbols + [symbol];
      return Ok(());
    }

    /**
     * `replaceSymbol`: `that` takes the place of the symbol of the same name,
     * which this scope must hold.
     */
    method ReplaceSymbol(thiz: Symbol, that: Symbol) returns (r: Result<(), AssertionError>)
      modifies this
      ensures r.Ok? <==> old(HasOwnSymbol(thiz.name)) && thiz.name == that.name
      ensures r.Ok? ==> symbols == old(symbols)[IndexOfName(old(symbols), that.name).value := that]
      ensures r.Err? ==> symbols == old(symbols)
      ensures children == old(children)
      ensures DistinctNames(old(symbols)) ==> DistinctNames(symbols)
    {
      if !HasOwnSymbol(thiz.name) {
        return Err(AssertionError("Can only replaces symbol contained in this scope"));
      }
      if thiz.name != that.name {
        return Err(AssertionError("The name of the symbols need to be equal"));
      }
      var i := IndexOfName(symbols, that.name).value;
      symbols := symbols[i := that];
      return Ok(());
    }

    /** `hasOwnSymbol`: this scope itself declares the name. */
    predicate HasOwnSymbol(name: Name)
      reads this
    {
      IndexOfName(symbols, name).Some?
    }

    /** `getOwnSymbol`: the symbol of that name declared in this scope, without looking further out. */
    function GetOwnSymbol(name: Name): (r: Option<Symbol>)
      reads this
      ensures r.Some? <==> HasOwnSymbol(name)
      ensures r.Some? ==> r.value in symbols && r.value.name == name
      ensures r == FirstNamed(symbols, name)
    {
      match IndexOfName(symbols, name)
      case None => None
      case Some(i) => Some(symbols[i])
    }

    /** `hasSymbol`: this scope or an enclosing one declares the name. */
    predicate HasSymbol(name: Name)
      requires Linked()
      reads Chain()
      decreases depth
    {
      HasOwnSymbol(name) || (parent != null && parent.HasSymbol(name))
    }

    /**
     * `resolveSymbol`: the symbol of that name in the nearest scope, from this
     * one outwards, that declares it.
     */
    function ResolveSymbol(name: Name): (r: Option<Symbol>)
      requires Linked()
      reads Chain()
      ensures r.Some? <==> HasSymbol(name)
      ensures r.Some? ==> r.value.name == name
      ensures HasOwnSymbol(name) ==> r == GetOwnSymbol(name)
      ensures !HasOwnSymbol(name) && parent != null ==> r == parent.ResolveSymbol(name)
      decreases depth
    {
      var symbol := GetOwnSymbol(name);
      if symbol.None? && parent != null then parent.ResolveSymbol(name) else symbol
    }

    /** `isGlobal`: the scope has no parent. */
    predicate IsGlobal() {
      parent == null
    }

    /** The symbols of this scope, then those of each enclosing scope outwards. */
    ghost function AllSymbols(): (r: seq<Symbol>)
      requires Linked()
      reads Chain()
      decreases depth
    {
      symbols + (if parent == null then [] else parent.AllSymbols())
    }

    /** `getAllSymbols`, which walks from this scope out to the global one. */
    method GetAllSymbols() returns (all: seq<Symbol>)
      requires Linked()
      ensures all == AllSymbols()
    {
      all := [];
      var current := this;
      while current != null
        invariant current != null ==> current.Linked()
        invariant current != null ==> all + current.AllSymbols() == AllSymbols()
        invariant current == null ==> all == AllSymbols()
        decreases if current == null then 0 else current.depth + 1
      {
        all := all + current.symbols;
        current := current.parent;
      }
    }

    /** `createChild`: a new scope enclosed by this one, recorded as its last child. */
    method CreateChild() returns (child: Scope)
      requires Linked()
      modifies this
      ensures fresh(child) && child.parent == this && child.Linked()
      ensures child.symbols == [] && child.children == []
      ensures children == old(children) + [child]
      ensures symbols == old(symbols)
    {
      child := new Scope(this);
      children := children + [child];
    }
  }

  // ----- lemmas -----

  /** The first symbol of a name in a concatenation comes from the front part when it has one. */
  lemma {:induction false} FirstNamedAppend(front: seq<Symbol>, back: seq<Symbol>, name: Name)
    ensures FirstNamed(front + back, name) ==
      if FirstNamed(front, name).Some? then FirstNamed(front, name) else FirstNamed(back, name)
  {
    var all := front + back;
    match IndexOfName(front, name)
    case Some(i) =>
      assert all[i] == front[i];
      assert forall k | 0 <= k < i :: all[k] == front[k];
      var j := IndexOfName(all, name);
      assert j == Some(i);
    case None =>
      assert forall k | 0 <= k < |front| :: all[k] == front[k];
      assert forall k | 0 <= k < |back| :: all[|front| + k] == back[k];
      match IndexOfName(back, name)
      case Some(i) =>
        assert IndexOfName(all, name) == Some(|front| + i);
      case None =>
        assert IndexOfName(all, name) == None;
  }

  /**
   * Resolving a name finds the symbol `getAllSymbols` lists first under that
   * name: the nearer scopes shadow the enclosing ones.
   */
  lemma {:induction false} ResolveIsFirstOfAllSymbols(scope: Scope, name: Name)
    requires scope.Linked()
    ensures scope.ResolveSymbol(name) == FirstNamed(scope.AllSymbols(), name)
    decreases scope.depth
  {
    var rest := if scope.parent == null then [] else scope.parent.AllSymbols();
    FirstNamedAppend(scope.symbols, rest, name);
    if scope.parent != null {
      ResolveIsFirstOfAllSymbols(scope.parent, name);
    }
  }

  /** A name resolves from the global scope only to a symbol of its own. */
  lemma GlobalScopeResolvesOwnSymbols(scope: Scope, name: Name)
    requires scope.Linked() && scope.IsGlobal()
    ensures scope.HasSymbol(name) <==> scope.HasOwnSymbol(name)
    ensures scope.ResolveSymbol(name) == scope.GetOwnSymbol(name)
    ensures scope.AllSymbols() == scope.symbols
  {
  }

  /**
   * A child scope sees every symbol of its parent that it does not shadow,
   * and is not global.
   */
  lemma ChildSeesParentSymbols(child: Scope, name: Name)
    requires child.Linked() && child.parent != null
    ensures !child.IsGlobal()
    ensures child.parent.HasSymbol(name) ==> child.HasSymbol(name)
    ensures !child.HasOwnSymbol(name) ==> child.ResolveSymbol(name) == child.parent.ResolveSymbol(name)
  {
  }
}
