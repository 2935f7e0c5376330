/**
 * The unary expression node of the SQL layer: an operator applied to an inner expression,
 * with an optional alias. The node is immutable once built.
 */
module UnaryExpressions {
  import opened Wrappers

  /**
   * An operator constant, by its ordinal. Its text comes from `Operator.operatorToString`,
   * which is not part of this model; it is passed to the members that need it as `opText`.
   */
  datatype Operator = Operator(ordinal: nat)

  /** The expression kinds; `OtherType` stands for every kind other than the unary one. */
  datatype ExpressionType = Unary | OtherType

  /** An expression: a unary node, or an expression of another kind known by its column name. */
  datatype Expression =
    | UnaryNode(node: UnaryExpression)
    | OtherExpression(name: string)

  /** A unary node; an alias of `None` is Java's null. */
  datatype UnaryExpression = UnaryExpression(operator: Operator, expression: Expression, alias: Option<string>)
  {
    /** The operator's text, a space, then the inner expression's column name. */
    function GetColumnName(opText: Operator -> string): string
    {
      opText(operator) + " " + ColumnName(expression, opText)
    }

    function GetType(): ExpressionType
    {
      Unary
    }

    /** An alias is present when it is neither null nor the empty string. */
    predicate HasAlias()
    {
      alias.Some? && alias.value != ""
    }
  }

  function ColumnName(e: Expression, opText: Operator -> string): string
  {
    match e
    case UnaryNode(u) => u.GetColumnName(opText)
    case OtherExpression(name) => name
  }

  /** The two-argument constructor: the alias is the empty string. */
  function NewUnary(operator: Operator, expression: Expression): UnaryExpression
  {
    UnaryExpression(operator, expression, Some(""))
  }

  /** The expression reached by stripping every unary operator. */
  function Innermost(e: Expression): Expression
  {
    match e
    case UnaryNode(u) => Innermost(u.expression)
    case OtherExpression(_) => e
  }

  /** The number of unary operators stacked on the innermost expression. */
  function Depth(e: Expression): nat
  {
    match e
    case UnaryNode(u) => 1 + Depth(u.expression)
    case OtherExpression(_) => 0
  }

  /**
   * The alias only decides `hasAlias`: the two-argument constructor gives a node without an
   * alias, which has the column name and type of the same operator and expression under any
   * alias.
   */
  lemma NewUnaryFacts(operator: Operator, expression: Expression, opText: Operator -> string)
    ensures !NewUnary(operator, expression).HasAlias()
    ensures forall alias ::
      && UnaryExpression(operator, expression, alias).GetColumnName(opText) == NewUnary(operator, expression).GetColumnName(opText)
      && UnaryExpression(operator, expression, alias).GetType() == NewUnary(operator, expression).GetType()
  {
  }

  /**
   * A column name reads back: two nodes with the same operator and the same column name have
   * inner expressions with the same column name.
   */
  lemma ColumnNameDeterminesInner(u: UnaryExpression, v: UnaryExpression, opText: Operator -> string)
    requires u.operator == v.operator && u.GetColumnName(opText) == v.GetColumnName(opText)
    ensures ColumnName(u.expression, opText) == ColumnName(v.expression, opText)
  {
    var head := opText(u.operator) + " ";
    assert u.GetColumnName(opText) == head + ColumnName(u.expression, opText);
    assert v.GetColumnName(opText) == head + ColumnName(v.expression, opText);
    assert (head + ColumnName(u.expression, opText))[|head|..] == ColumnName(u.expression, opText);
    assert (head + ColumnName(v.expression, opText))[|head|..] == ColumnName(v.expression, opText);
  }

  /**
   * Stacked operators only prepend text: the innermost expression's column name is a suffix of
   * the whole column name, which is longer by at least one space per operator.
   */
  lemma {:induction false} ColumnNameEndsWithInnermost(e: Expression, opText: Operator -> string)
    ensures var whole, inner := ColumnName(e, opText), ColumnName(Innermost(e), opText);
      && |whole| >= |inner| + Depth(e)
      && whole[|whole| - |inner|..] == inner
  {
    match e
    case UnaryNode(u) =>
      ColumnNameEndsWithInnermost(u.expression, opText);
      var rest := ColumnName(u.expression, opText);
      var inner := ColumnName(Innermost(e), opText);
      var whole := opText(u.operator) + " " + rest;
      assert whole[|whole| - |rest|..] == rest;
      assert whole[|whole| - |inner|..] == rest[|rest| - |inner|..];
    case OtherExpression(_) =>
  }
}
