/**
 * The binary operators of the JavaScript checker: for each operator, the types
 * its operands are unified with and the type of its result, and the table from
 * operator tokens to operators. The unification a caller supplies is a
 * function over the caller's own state, so that the order of its calls shows.
 */
module BinaryOperators {
  import opened Wrappers
  import opened Types

  /** The three kinds of operator; `name` is the name the operator carries. */
  datatype BinaryOperator =
    | NumberOperator(name: string)
    | ParameterIndependent(name: string, operatorReturnType: Type)
    | StrictEquality(name: string)

  /** What `refine` leaves: the caller's state after its unifications, and the result or the error one threw. */
  datatype Refined<S, E> = Refined(state: S, result: Result<Type, E>)

  /** `getLeftParameterType`; the operators that refine independently of their operands do not define it. */
  function LeftParameterType(op: BinaryOperator, leftType: Type): (r: Type)
    requires !op.ParameterIndependent?
    ensures op.NumberOperator? ==> r == Maybe(NumberType, MaybeNumberId)
    ensures op.StrictEquality? ==> r == leftType
  {
    match op
    case NumberOperator(_) => MaybeOf(NumberType, 0)
    case StrictEquality(_) => leftType
  }

  /** `getRightParameterType`, which `refine` passes the left operand's type. */
  function RightParameterType(op: BinaryOperator, leftType: Type): (r: Type)
    requires !op.ParameterIndependent?
    ensures op.NumberOperator? ==> r == Maybe(NumberType, MaybeNumberId)
    ensures op.StrictEquality? ==> r == leftType
  {
    match op
    case NumberOperator(_) => MaybeOf(NumberType, 0)
    case StrictEquality(_) => leftType
  }

  /**
   * `getOperatorReturnType`: the shared number type, or a new boolean type
   * instance that receives `id`.
   */
  function OperatorReturnType(op: BinaryOperator, id: nat): (r: Type)
    requires !op.ParameterIndependent?
    ensures op.NumberOperator? ==> r == NumberType
    ensures op.StrictEquality? ==> r == Boolean(id)
  {
    match op
    case NumberOperator(_) => NumberType
    case StrictEquality(_) => Boolean(id)
  }

  /**
   * `refine`: unify the left operand with the left parameter type, then the
   * right parameter type with the right operand, then build the return type.
   * An error of the first unification ends `refine` before the second.
   */
  function Refine<S, E>(op: BinaryOperator, leftType: Type, rightType: Type, state: S, id: nat,
                        unify: (S, Type, Type) -> (S, Result<Type, E>)): (r: Refined<S, E>)
  {
    match op
    case ParameterIndependent(_, returnType) => Refined(state, Ok(returnType))
    case _ =>
      var (s1, leftRefined) := unify(state, leftType, LeftParameterType(op, leftType));
      if leftRefined.Err? then Refined(s1, Err(leftRefined.error))
      else
        var (s2, rightRefined) := unify(s1, RightParameterType(op, leftType), rightType);
        if rightRefined.Err? then Refined(s2, Err(rightRefined.error))
        else Refined(s2, Ok(OperatorReturnType(op, id)))
  }

  /** The operator tokens, in the order of the table. */
  const Tokens: seq<string> :=
    ["+", "-", "*", "/", "<", ">", "<=", ">=", "==", "!=", "===", "!==", "<<", ">>", ">>>", "%", "|", "&", "^"]

  /** `BINARY_OPERATORS`: the operator stored under each token. */
  function Operators(): (table: map<string, BinaryOperator>)
  {
    map[
      "+" := NumberOperator("+"),
      "-" := NumberOperator("-"),
      "*" := NumberOperator("*"),
      "/" := NumberOperator("/"),
      "<" := NumberOperator("<"),
      ">" := NumberOperator(">"),
      "<=" := NumberOperator("<="),
      ">=" := NumberOperator(">="),
      "==" := ParameterIndependent("==", BooleanType),
      "!=" := ParameterIndependent("==", BooleanType),
      "===" := StrictEquality("==="),
      "!==" := StrictEquality("!=="),
      "<<" := NumberOperator("<<"),
      ">>" := NumberOperator(">>"),
      ">>>" := NumberOperator(">>>"),
      "%" := NumberOperator("%"),
      "|" := NumberOperator("|"),
      "&" := NumberOperator("&"),
      "^" := NumberOperator("^")
    ]
  }

  /** Looking an operator token up; a token the table lacks gives `None` (`undefined`). */
  function Lookup(token: string): (r: Option<BinaryOperator>)
  {
    if token in Operators() then Some(Operators()[token]) else None
  }

  // ----- lemmas -----

  /**
   * The arithmetic, shift, bitwise and relational operators unify both operands
   * with the shared Maybe of number, left first, and return the number type.
   */
  lemma NumberOperatorRefines<S, E>(name: string, leftType: Type, rightType: Type, state: S, id: nat,
                                    unify: (S, Type, Type) -> (S, Result<Type, E>))
    ensures var first := unify(state, leftType, MaybeNumber);
      var second := unify(first.0, MaybeNumber, rightType);
      Refine(NumberOperator(name), leftType, rightType, state, id, unify) ==
        if first.1.Err? then Refined(first.0, Err(first.1.error))
        else if second.1.Err? then Refined(second.0, Err(second.1.error))
        else Refined(second.0, Ok(NumberType))
  {
  }

  /**
   * `===` and `!==` unify the left operand with itself, then the left operand
   * with the right one, and return a new boolean type.
   */
  lemma StrictEqualityRefines<S, E>(name: string, leftType: Type, rightType: Type, state: S, id: nat,
                                    unify: (S, Type, Type) -> (S, Result<Type, E>))
    ensures var first := unify(state, leftType, leftType);
      var second := unify(first.0, leftType, rightType);
      Refine(StrictEquality(name), leftType, rightType, state, id, unify) ==
        if first.1.Err? then Refined(first.0, Err(first.1.error))
        else if second.1.Err? then Refined(second.0, Err(second.1.error))
        else Refined(second.0, Ok(Boolean(id)))
  {
  }

  /** `==` and `!=` unify nothing: the state is untouched and the result is the stored type. */
  lemma ParameterIndependentIgnoresOperands<S, E>(name: string, returnType: Type, leftType: Type, rightType: Type,
                                                  state: S, id: nat, unify: (S, Type, Type) -> (S, Result<Type, E>))
    ensures Refine(ParameterIndependent(name, returnType), leftType, rightType, state, id, unify) ==
      Refined(state, Ok(returnType))
  {
  }

  /** The table holds exactly the nineteen tokens. */
  lemma TableHasNineteenTokens(token: string)
    ensures |Tokens| == 19
    ensures Lookup(token).Some? <==> token in Tokens
  {
  }

  /** `==` and `!=` share one kind of operator, both named `==`; `===` and `!==` are strict equalities. */
  lemma EqualityOperators()
    ensures Lookup("==") == Some(ParameterIndependent("==", BooleanType))
    ensures Lookup("!=") == Some(ParameterIndependent("==", BooleanType))
    ensures Lookup("===") == Some(StrictEquality("==="))
    ensures Lookup("!==") == Some(StrictEquality("!=="))
  {
  }

  /** Every other token maps to the number operator named by the token. */
  lemma OtherTokensAreNumberOperators(token: string)
    requires token in Tokens && token !in ["==", "!=", "===", "!=="]
    ensures Lookup(token) == Some(NumberOperator(token))
  {
  }
}
