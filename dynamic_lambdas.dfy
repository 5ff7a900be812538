/**
 * The rewrite that makes lambdas passed to LINQ methods in an index
 * definition compile against `dynamic`: a lambda that is an argument of a
 * call `receiver.Method(...)` is wrapped in a cast to a delegate type chosen
 * from the method's name (and, for some methods, from the lambda's body,
 * its position among the arguments, or the receiver). The rewrite walks the
 * whole tree depth first and descends into every lambda's body.
 */
module DynamicLambdas {
  import opened Wrappers
  import opened LinqAst

  const NumericMethods: set<string> := {"Sum", "Average"}
  const MinMaxMethods: set<string> := {"Max", "Min"}
  const SelectorMethods: set<string> := {"OrderBy", "OrderByDescending", "GroupBy", "Recurse", "Select"}
  /** Matched as written: "all" and "LastOfDefault", not "All" and "LastOrDefault". */
  const PredicateMethods: set<string> :=
    {"Any", "all", "First", "FirstOrDefault", "Last", "LastOfDefault", "Single", "Where", "Count", "SingleOrDefault"}

  const DynamicType: TypeRef := Simple("dynamic", [])
  const PredicateDelegate: TypeRef := Simple("Func<dynamic, bool>", [])
  const GroupingSelectorDelegate: TypeRef := Simple("Func<IGrouping<dynamic,dynamic>, dynamic>", [])
  const SelectorDelegate: TypeRef := Reflected("Func<dynamic, dynamic>")
  const CollectionSelectorDelegate: TypeRef := Reflected("Func<dynamic, IEnumerable<dynamic>>")
  const ResultSelectorDelegate: TypeRef := Reflected("Func<dynamic, dynamic, dynamic>")
  const ComparableDelegate: TypeRef := Reflected("Func<dynamic, IComparable>")
  const DecimalDelegate: TypeRef := Reflected("Func<dynamic, decimal>")
  const DynamicSequence: TypeRef := Reflected("IEnumerable<dynamic>")
  const DecimalType: TypeRef := Reflected("decimal")

  /** `Func<dynamic, t>`, built from the type a lambda body is cast to. */
  function FuncFromDynamic(t: TypeRef): TypeRef
  {
    Simple("Func", [DynamicType, t])
  }

  /** GetAsCastExpression: the cast found by peeling parentheses off `e`, if that is where peeling ends. */
  function GetAsCastExpression(e: Expr): (r: Option<Expr>)
    ensures r.Some? ==> r.value.Cast?
    decreases e
  {
    match e
    case Cast(_, _) => Some(e)
    case Paren(x) => GetAsCastExpression(x)
    case _ => None
  }

  /** Through any number of parentheses, a cast is found. */
  lemma {:induction false} CastFoundThroughParens(n: nat, c: Expr)
    requires c.Cast?
    ensures GetAsCastExpression(Parens(n, c)) == Some(c)
  {
    if n > 0 {
      CastFoundThroughParens(n - 1, c);
    }
  }

  /** Through any number of parentheses, any other node yields nothing. */
  lemma {:induction false} NoCastThroughParens(n: nat, x: Expr)
    requires !x.Cast? && !x.Paren?
    ensures GetAsCastExpression(Parens(n, x)) == None
  {
    if n > 0 {
      NoCastThroughParens(n - 1, x);
    }
  }

  /** The number of parentheses around the innermost non-parenthesised node. */
  function ParenDepth(e: Expr): nat
    decreases e
  {
    if e.Paren? then 1 + ParenDepth(e.inner) else 0
  }

  /** Whatever is found is the node under all the parentheses. */
  lemma {:induction false} CastFoundIsInnermost(e: Expr)
    requires GetAsCastExpression(e).Some?
    ensures e == Parens(ParenDepth(e), GetAsCastExpression(e).value)
    decreases e
  {
    if e.Paren? {
      CastFoundIsInnermost(e.inner);
    }
  }

  /** ModifyLambdaForSelect: a grouping delegate when the receiver is a `GroupBy(...)` call. */
  function ModifyLambdaForSelect(parenthesized: Expr, target: Expr): Expr
    requires target.MemberRef?
  {
    if target.target.Invocation? && target.target.target.MemberRef? && target.target.target.member == "GroupBy" then
      Cast(GroupingSelectorDelegate, parenthesized)
    else
      Cast(SelectorDelegate, parenthesized)
  }

  /**
   * ModifyLambdaForSelectMany: the lambda at argument `position`; as the first
   * argument its body is cast to a sequence of dynamic, as the second it is
   * cast as a result selector; elsewhere it is left alone.
   */
  function ModifyLambdaForSelectMany(lambda: Expr, parenthesized: Expr, position: nat, argCount: nat): Expr
    requires lambda.Lambda?
  {
    if argCount > 0 && position == 0 then
      Cast(CollectionSelectorDelegate, Paren(Lambda(lambda.params, Cast(DynamicSequence, Paren(lambda.body)))))
    else if argCount > 1 && position == 1 then
      Cast(ResultSelectorDelegate, parenthesized)
    else
      lambda
  }

  /** ModifyLambdaForMinMax: `Func<dynamic, T>` when the body is a cast to T, else a comparable delegate. */
  function ModifyLambdaForMinMax(lambda: Expr, parenthesized: Expr): Expr
    requires lambda.Lambda?
  {
    match GetAsCastExpression(lambda.body)
    case Some(c) => Cast(FuncFromDynamic(c.ty), parenthesized)
    case None => Cast(ComparableDelegate, parenthesized)
  }

  /**
   * ModifyLambdaForNumerics: `Func<dynamic, T>` when the body is a cast to T;
   * otherwise the body is cast to decimal and the lambda to a decimal delegate.
   */
  function ModifyLambdaForNumerics(lambda: Expr, parenthesized: Expr): Expr
    requires lambda.Lambda?
  {
    match GetAsCastExpression(lambda.body)
    case Some(c) => Cast(FuncFromDynamic(c.ty), parenthesized)
    case None => Cast(DecimalDelegate, Paren(Lambda(lambda.params, Cast(DecimalType, Paren(lambda.body)))))
  }

  /**
   * The switch of VisitLambdaExpression, for a lambda that is argument
   * `position` of a call with `argCount` arguments whose target is the
   * member reference `target`: the node that replaces the lambda.
   */
  function ReplacementFor(target: Expr, position: nat, argCount: nat, lambda: Expr): Expr
    requires target.MemberRef? && lambda.Lambda?
  {
    var parenthesized := Paren(lambda);
    var name := target.member;
    if name in NumericMethods then ModifyLambdaForNumerics(lambda, parenthesized)
    else if name in MinMaxMethods then ModifyLambdaForMinMax(lambda, parenthesized)
    else if name in SelectorMethods then ModifyLambdaForSelect(parenthesized, target)
    else if name == "SelectMany" then ModifyLambdaForSelectMany(lambda, parenthesized, position, argCount)
    else if name in PredicateMethods then Cast(PredicateDelegate, parenthesized)
    else lambda
  }

  /** Whether the switch replaces a lambda at argument `position` of a call to `name`. */
  predicate Rewritten(name: string, position: nat)
  {
    name in NumericMethods || name in MinMaxMethods || name in SelectorMethods || name in PredicateMethods
    || (name == "SelectMany" && position < 2)
  }

  /**
   * The visitor over a whole tree. A lambda argument of a call through a
   * member reference is replaced, with its body visited; every other node is
   * kept and its children visited.
   */
  function TransformLambdas(e: Expr): Expr
    decreases e, 2
  {
    match e
    case Ident(_) => e
    case Null => e
    case StringLit(_) => e
    case Paren(x) => Paren(TransformLambdas(x))
    case Cast(t, x) => Cast(t, TransformLambdas(x))
    case Lambda(ps, b) => Lambda(ps, TransformLambdas(b))
    case MemberRef(t, m) => MemberRef(TransformLambdas(t), m)
    case Invocation(t, args) => Invocation(TransformLambdas(t), TransformArgs(e))
    case BinOp(l, op, r) => BinOp(TransformLambdas(l), op, TransformLambdas(r))
    case Conditional(c, a, b) => Conditional(TransformLambdas(c), TransformLambdas(a), TransformLambdas(b))
  }

  /** Each argument of the call `inv`, visited with the call as its parent. */
  function TransformArgs(inv: Expr): (r: seq<Expr>)
    requires inv.Invocation?
    ensures |r| == |inv.args|
    ensures forall i :: 0 <= i < |inv.args| ==> r[i] == TransformArg(inv, i)
    decreases inv, 1
  {
    seq(|inv.args|, i requires 0 <= i < |inv.args| => TransformArg(inv, i))
  }

  function TransformArg(inv: Expr, i: nat): Expr
    requires inv.Invocation? && i < |inv.args|
    decreases inv, 0
  {
    var a := inv.args[i];
    assert a in inv.args;
    if a.Lambda? && inv.target.MemberRef? then
      ReplacementFor(inv.target, i, |inv.args|, Lambda(a.params, TransformLambdas(a.body)))
    else
      TransformLambdas(a)
  }

  /**
   * Visiting a lambda's body does not change what GetAsCastExpression finds
   * in it, so the switch decides the same on the lambda before and after its
   * body is visited.
   */
  lemma {:induction false} TransformKeepsCastFound(e: Expr)
    ensures GetAsCastExpression(TransformLambdas(e)).None? <==> GetAsCastExpression(e).None?
    ensures GetAsCastExpression(e).Some? ==>
      GetAsCastExpression(TransformLambdas(e)).value.ty == GetAsCastExpression(e).value.ty
    decreases e
  {
    if e.Paren? {
      TransformKeepsCastFound(e.inner);
    }
  }

  /** A lambda passed to a method outside the switch, or not through a member reference, is only visited inside. */
  lemma UnmatchedLambdaKept(inv: Expr, i: nat)
    requires inv.Invocation? && i < |inv.args| && inv.args[i].Lambda?
    requires !inv.target.MemberRef? || !Rewritten(inv.target.member, i)
    ensures TransformArg(inv, i) == Lambda(inv.args[i].params, TransformLambdas(inv.args[i].body))
  {
  }

  /** The names are matched exactly: "All" and "LastOrDefault" are not in the switch, "all" and "LastOfDefault" are. */
  lemma ExactNames(recv: Expr, position: nat, argCount: nat, lambda: Expr)
    requires lambda.Lambda?
    ensures ReplacementFor(MemberRef(recv, "All"), position, argCount, lambda) == lambda
    ensures ReplacementFor(MemberRef(recv, "LastOrDefault"), position, argCount, lambda) == lambda
    ensures ReplacementFor(MemberRef(recv, "all"), position, argCount, lambda) == Cast(PredicateDelegate, Paren(lambda))
    ensures ReplacementFor(MemberRef(recv, "LastOfDefault"), position, argCount, lambda) == Cast(PredicateDelegate, Paren(lambda))
  {
  }

  /**
   * For each method of the switch, the replacement of a lambda: its
   * parenthesised self under the delegate cast the method calls for.
   */
  lemma ReplacementByMethod(target: Expr, position: nat, argCount: nat, lambda: Expr)
    requires target.MemberRef? && lambda.Lambda?
    ensures var r, name := ReplacementFor(target, position, argCount, lambda), target.member;
      && (name in PredicateMethods ==> r == Cast(PredicateDelegate, Paren(lambda)))
      && (name in SelectorMethods ==>
            r == Cast(if target.target.Invocation? && target.target.target.MemberRef?
                         && target.target.target.member == "GroupBy"
                      then GroupingSelectorDelegate else SelectorDelegate, Paren(lambda)))
      && (name == "SelectMany" && position == 0 && argCount > 0 ==>
            r == Cast(CollectionSelectorDelegate, Paren(Lambda(lambda.params, Cast(DynamicSequence, Paren(lambda.body))))))
      && (name == "SelectMany" && position == 1 && argCount > 1 ==> r == Cast(ResultSelectorDelegate, Paren(lambda)))
      && (name == "SelectMany" && position >= 2 ==> r == lambda)
      && (!Rewritten(name, position) ==> r == lambda)
  {
  }

  /**
   * Max and Min: `Func<dynamic, T>` exactly when the body is, through any
   * number of parentheses, a cast to T; otherwise a comparable delegate.
   */
  lemma MinMaxDelegate(target: Expr, position: nat, argCount: nat, ps: seq<string>, n: nat, body: Expr)
    requires target.MemberRef? && target.member in MinMaxMethods
    requires !body.Paren?
    ensures var lambda := Lambda(ps, Parens(n, body));
      var r := ReplacementFor(target, position, argCount, lambda);
      && (body.Cast? ==> r == Cast(FuncFromDynamic(body.ty), Paren(lambda)))
      && (!body.Cast? ==> r == Cast(ComparableDelegate, Paren(lambda)))
  {
    if body.Cast? {
      CastFoundThroughParens(n, body);
    } else {
      NoCastThroughParens(n, body);
    }
  }

  /**
   * Sum and Average: `Func<dynamic, T>` with the body kept when the body is,
   * through any number of parentheses, a cast to T; otherwise the body is
   * cast to decimal, the parameters kept, under a decimal delegate.
   */
  lemma NumericsDelegate(target: Expr, position: nat, argCount: nat, ps: seq<string>, n: nat, body: Expr)
    requires target.MemberRef? && target.member in NumericMethods
    requires !body.Paren?
    ensures var lambda := Lambda(ps, Parens(n, body));
      var r := ReplacementFor(target, position, argCount, lambda);
      && (body.Cast? ==> r == Cast(FuncFromDynamic(body.ty), Paren(lambda)))
      && (!body.Cast? ==> r == Cast(DecimalDelegate, Paren(Lambda(ps, Cast(DecimalType, Paren(Parens(n, body)))))))
  {
    if body.Cast? {
      CastFoundThroughParens(n, body);
    } else {
      NoCastThroughParens(n, body);
    }
  }

  /** Whether some lambda in the tree sits where the switch replaces it. */
  predicate HasCandidate(e: Expr)
    decreases e, 1
  {
    match e
    case Ident(_) => false
    case Null => false
    case StringLit(_) => false
    case Paren(x) => HasCandidate(x)
    case Cast(_, x) => HasCandidate(x)
    case Lambda(_, b) => HasCandidate(b)
    case MemberRef(t, _) => HasCandidate(t)
    case Invocation(t, args) => HasCandidate(t) || exists i :: 0 <= i < |args| && ArgHasCandidate(e, i)
    case BinOp(l, _, r) => HasCandidate(l) || HasCandidate(r)
    case Conditional(c, a, b) => HasCandidate(c) || HasCandidate(a) || HasCandidate(b)
  }

  predicate ArgHasCandidate(inv: Expr, i: nat)
    requires inv.Invocation? && i < |inv.args|
    decreases inv, 0
  {
    var a := inv.args[i];
    assert a in inv.args;
    if a.Lambda? && inv.target.MemberRef? then
      Rewritten(inv.target.member, i) || HasCandidate(a.body)
    else
      HasCandidate(a)
  }

  /** The visitor changes a tree exactly when it holds a lambda the switch replaces. */
  lemma TransformUnchangedIff(e: Expr)
    ensures TransformLambdas(e) == e <==> !HasCandidate(e)
  {
    if HasCandidate(e) {
      CandidateChanges(e);
    } else {
      NoCandidateUnchanged(e);
    }
  }

  lemma {:induction false} NoCandidateUnchanged(e: Expr)
    requires !HasCandidate(e)
    ensures TransformLambdas(e) == e
    decreases e, 1
  {
    match e
    case Ident(_) =>
    case Null =>
    case StringLit(_) =>
    case Paren(x) => NoCandidateUnchanged(x);
    case Cast(_, x) => NoCandidateUnchanged(x);
    case Lambda(_, b) => NoCandidateUnchanged(b);
    case MemberRef(t, _) => NoCandidateUnchanged(t);
    case Invocation(t, args) =>
      NoCandidateUnchanged(t);
      forall i | 0 <= i < |args| ensures TransformArg(e, i) == args[i] {
        NoCandidateArgUnchanged(e, i);
      }
      assert TransformArgs(e) == args;
    case BinOp(l, _, r) =>
      NoCandidateUnchanged(l);
      NoCandidateUnchanged(r);
    case Conditional(c, a, b) =>
      NoCandidateUnchanged(c);
      NoCandidateUnchanged(a);
      NoCandidateUnchanged(b);
  }

  lemma {:induction false} NoCandidateArgUnchanged(inv: Expr, i: nat)
    requires inv.Invocation? && i < |inv.args| && !ArgHasCandidate(inv, i)
    ensures TransformArg(inv, i) == inv.args[i]
    decreases inv, 0
  {
    var a := inv.args[i];
    assert a in inv.args;
    if a.Lambda? && inv.target.MemberRef? {
      NoCandidateUnchanged(a.body);
    } else {
      NoCandidateUnchanged(a);
    }
  }

  lemma {:induction false} CandidateChanges(e: Expr)
    requires HasCandidate(e)
    ensures TransformLambdas(e) != e
    decreases e, 1
  {
    match e
    case Paren(x) => CandidateChanges(x);
    case Cast(_, x) => CandidateChanges(x);
    case Lambda(_, b) => CandidateChanges(b);
    case MemberRef(t, _) => CandidateChanges(t);
    case Invocation(t, args) =>
      if HasCandidate(t) {
        CandidateChanges(t);
      } else {
        var i :| 0 <= i < |args| && ArgHasCandidate(e, i);
        CandidateArgChanges(e, i);
        assert TransformArgs(e)[i] != args[i];
      }
    case BinOp(l, _, r) =>
      if HasCandidate(l) { CandidateChanges(l); } else { CandidateChanges(r); }
    case Conditional(c, a, b) =>
      if HasCandidate(c) { CandidateChanges(c); }
      else if HasCandidate(a) { CandidateChanges(a); }
      else { CandidateChanges(b); }
  }

  lemma {:induction false} CandidateArgChanges(inv: Expr, i: nat)
    requires inv.Invocation? && i < |inv.args| && ArgHasCandidate(inv, i)
    ensures TransformArg(inv, i) != inv.args[i]
    decreases inv, 0
  {
    var a := inv.args[i];
    assert a in inv.args;
    if a.Lambda? && inv.target.MemberRef? {
      if !Rewritten(inv.target.member, i) {
        CandidateChanges(a.body);
      }
    } else {
      CandidateChanges(a);
    }
  }

  /**
   * Visiting twice is visiting once: a replaced lambda is no longer an
   * argument of the call, so it is never wrapped a second time.
   */
  lemma {:induction false} TransformIdempotent(e: Expr)
    ensures TransformLambdas(TransformLambdas(e)) == TransformLambdas(e)
    decreases e, 1
  {
    match e
    case Ident(_) =>
    case Null =>
    case StringLit(_) =>
    case Paren(x) => TransformIdempotent(x);
    case Cast(_, x) => TransformIdempotent(x);
    case Lambda(_, b) => TransformIdempotent(b);
    case MemberRef(t, _) => TransformIdempotent(t);
    case Invocation(t, args) =>
      TransformIdempotent(t);
      var once := TransformLambdas(e);
      forall i | 0 <= i < |args| ensures TransformArg(once, i) == TransformArg(e, i) {
        TransformArgIdempotent(e, i);
      }
      assert TransformArgs(once) == TransformArgs(e);
    case BinOp(l, _, r) =>
      TransformIdempotent(l);
      TransformIdempotent(r);
    case Conditional(c, a, b) =>
      TransformIdempotent(c);
      TransformIdempotent(a);
      TransformIdempotent(b);
  }

  lemma {:induction false} TransformArgIdempotent(inv: Expr, i: nat)
    requires inv.Invocation? && i < |inv.args|
    ensures TransformArg(TransformLambdas(inv), i) == TransformArg(inv, i)
    decreases inv, 0
  {
    var a := inv.args[i];
    assert a in inv.args;
    var once := TransformLambdas(inv);
    var t := inv.target;
    assert once.target == TransformLambdas(t);
    assert t.MemberRef? <==> once.target.MemberRef?;
    assert t.MemberRef? ==> once.target.member == t.member;
    if a.Lambda? && t.MemberRef? {
      var b := a.body;
      var b1 := TransformLambdas(b);
      TransformIdempotent(b);
      var lam := Lambda(a.params, b1);
      var r := ReplacementFor(t, i, |inv.args|, lam);
      assert once.args[i] == r;
      TransformReplacementIdempotent(t, once.target, i, |inv.args|, a.params, b1);
    } else {
      TransformIdempotent(a);
    }
  }

  /** A replacement whose lambda body is already visited comes back unchanged from a second visit. */
  lemma TransformReplacementIdempotent(t: Expr, t1: Expr, i: nat, argCount: nat, ps: seq<string>, b1: Expr)
    requires t.MemberRef? && t1.MemberRef? && t1.member == t.member
    requires TransformLambdas(b1) == b1
    ensures var r := ReplacementFor(t, i, argCount, Lambda(ps, b1));
      r.Lambda? ==> ReplacementFor(t1, i, argCount, Lambda(ps, TransformLambdas(r.body))) == r
    ensures var r := ReplacementFor(t, i, argCount, Lambda(ps, b1));
      !r.Lambda? ==> TransformLambdas(r) == r
  {
    var lam := Lambda(ps, b1);
    var r := ReplacementFor(t, i, argCount, lam);
    assert TransformLambdas(lam) == lam;
    assert TransformLambdas(Paren(lam)) == Paren(lam);
    if t.member in NumericMethods && GetAsCastExpression(b1).None? {
      var inner := Cast(DecimalType, Paren(b1));
      assert TransformLambdas(Paren(b1)) == Paren(b1);
      assert TransformLambdas(inner) == inner;
      assert TransformLambdas(Lambda(ps, inner)) == Lambda(ps, inner);
      assert TransformLambdas(Paren(Lambda(ps, inner))) == Paren(Lambda(ps, inner));
    } else if !(t.member in NumericMethods || t.member in MinMaxMethods || t.member in SelectorMethods)
      && t.member == "SelectMany" && argCount > 0 && i == 0 {
      var inner := Cast(DynamicSequence, Paren(b1));
      assert TransformLambdas(Paren(b1)) == Paren(b1);
      assert TransformLambdas(inner) == inner;
      assert TransformLambdas(Lambda(ps, inner)) == Lambda(ps, inner);
      assert TransformLambdas(Paren(Lambda(ps, inner))) == Paren(Lambda(ps, inner));
    }
  }
}
