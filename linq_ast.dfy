/**
 * The fragment of the C# syntax tree that the index-definition rewrites of
 * Raven.Database.Linq.Ast look at, as values: expressions, lambda
 * parameters by name, and type references.
 */
module LinqAst {

  /**
   * A type reference. `Simple(name, args)` is a type written by name, with
   * type arguments (`Func<dynamic, T>`), or a whole type spelled as one name
   * (`Func<dynamic, bool>` as a single SimpleType). `Reflected(source)` is a
   * type built from a runtime type object; `source` is how that type is
   * written in C# source.
   */
  datatype TypeRef =
    | Simple(name: string, args: seq<TypeRef>)
    | Reflected(source: string)

  /** The binary operators the rewrites tell apart; any other is kept by symbol. */
  datatype BinaryOp = NullCoalescing | InEquality | OtherOp(symbol: string)

  datatype Expr =
    | Ident(name: string)
    | Null                                           // the literal `null`
    | StringLit(text: string)                        // a string literal such as `""`
    | Paren(inner: Expr)                             // `(inner)`
    | Cast(ty: TypeRef, operand: Expr)               // `(ty)operand`
    | Lambda(params: seq<string>, body: Expr)        // `(params) => body`
    | MemberRef(target: Expr, member: string)        // `target.member`
    | Invocation(target: Expr, args: seq<Expr>)      // `target(args)`
    | BinOp(left: Expr, op: BinaryOp, right: Expr)   // `left op right`
    | Conditional(cond: Expr, whenTrue: Expr, whenFalse: Expr)  // `cond ? whenTrue : whenFalse`

  /** `e` inside `n` pairs of parentheses. */
  function Parens(n: nat, e: Expr): (r: Expr)
    ensures n == 0 ==> r == e
    ensures n > 0 ==> r.Paren? && r.inner == Parens(n - 1, e)
  {
    if n == 0 then e else Paren(Parens(n - 1, e))
  }
}
