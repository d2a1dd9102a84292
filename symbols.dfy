/**
 * Symbols of the JavaScript checker: a name, a set of flags, the members found
 * for it (`x.y` makes `y` a member of `x`), its declarations and the AST nodes
 * that reference it. AST nodes are identified by natural numbers.
 */
module Symbols {
  import opened Wrappers

  /** A symbol name: an identifier, or a number used as a property name (`a[0]`). */
  datatype Name = Identifier(text: string) | Numeric(number: int)

  /** The assertion a method of the checker fails with. */
  datatype AssertionError = AssertionError(message: string)

  type Flags = bv32

  const None: Flags := 0
  const FunctionScopedVariable: Flags := 0x0000_0001
  const BlockScopedVariable: Flags := 0x0000_0002
  const Property: Flags := 0x0000_0004
  const EnumMember: Flags := 0x0000_0008
  const Function: Flags := 0x0000_0010
  const Return: Flags := 0x0000_0020
  const Computed: Flags := 0x0000_0030
  const Anonymous: Flags := 0x0000_0040
  const Hoisted: Flags := 0x0000_0050
  const Unknown: Flags := 0xffff_ffff
  const Variable: Flags := FunctionScopedVariable | BlockScopedVariable

  /** `(flags & mask) === mask`, the test the checker applies to a flag set. */
  predicate HasFlags(flags: Flags, mask: Flags) {
    flags & mask == mask
  }

  /** The symbol stands for a computed member (`o[expr]`). */
  predicate IsComputed(flags: Flags) {
    HasFlags(flags, Computed)
  }

  /** The flags of the shared symbol used for every computed member. */
  const ComputedSymbolFlags: Flags := Property | Computed | Anonymous

  /** A symbol is looked up either by its name or by another symbol of that name. */
  datatype MemberKey = ByName(name: Name) | BySymbol(symbol: Symbol)

  function KeyName(key: MemberKey): (name: Name)
    ensures key.ByName? ==> name == key.name
    ensures key.BySymbol? ==> name == key.symbol.name
  {
    match key
    case ByName(n) => n
    case BySymbol(s) => s.name
  }

  class Symbol {
    const name: Name
    const flags: Flags
    /** The members, keyed by their names. */
    var members: map<Name, Symbol>
    var declaration: Option<nat>
    var valueDeclaration: Option<nat>
    var references: set<nat>

    constructor (name: Name, flags: Flags)
      ensures this.name == name && this.flags == flags
      ensures members == map[] && references == {}
      ensures declaration == None && valueDeclaration == None
    {
      this.name := name;
      this.flags := flags;
      members := map[];
      declaration := None;
      valueDeclaration := None;
      references := {};
    }

    predicate HasMember(key: MemberKey)
      reads this
    {
      KeyName(key) in members
    }

    function GetMember(key: MemberKey): (r: Option<Symbol>)
      reads this
      ensures r.Some? <==> HasMember(key)
      ensures r.Some? ==> r.value == members[KeyName(key)]
    {
      var n := KeyName(key);
      if n in members then Some(members[n]) else None
    }

    /** Adds `symbol` as a member; a member of the same name must not exist yet. */
    method AddMember(symbol: Symbol) returns (r: Result<(), AssertionError>)
      modifies this
      ensures r.Ok? <==> symbol.name !in old(members)
      ensures r.Ok? ==> members == old(members)[symbol.name := symbol]
      ensures r.Err? ==> members == old(members)
      ensures references == old(references)
      ensures declaration == old(declaration) && valueDeclaration == old(valueDeclaration)
    {
      if HasMember(BySymbol(symbol)) {
        return Err(AssertionError("A member with the name already exists"));
      }
      members := members[symbol.name := symbol];
      return Ok(());
    }

    /** Records that the AST node `node` references this symbol. */
    method Reference(node: nat)
      modifies this
      ensures references == old(references) + {node}
      ensures members == old(members)
      ensures declaration == old(declaration) && valueDeclaration == old(valueDeclaration)
    {
      references := references + {node};
    }
  }

  /** Looking a member up by a symbol finds the member of that symbol's name. */
  lemma MemberBySymbolIsByName(owner: Symbol, symbol: Symbol)
    ensures owner.GetMember(BySymbol(symbol)) == owner.GetMember(ByName(symbol.name))
    ensures owner.HasMember(BySymbol(symbol)) == owner.HasMember(ByName(symbol.name))
  {
  }

  /** `Variable` matches exactly the symbols flagged as either kind of variable. */
  lemma VariableFlags(flags: Flags)
    ensures flags & Variable != 0 <==> flags & FunctionScopedVariable != 0 || flags & BlockScopedVariable != 0
  {
  }

  /** The shared computed-member symbol is computed; variables and plain properties are not. */
  lemma ComputedClassification()
    ensures IsComputed(ComputedSymbolFlags)
    ensures !IsComputed(Property) && !IsComputed(Variable) && !IsComputed(Function)
  {
  }
}
