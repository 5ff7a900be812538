/**
 * The null-coalescing rewrite applied to index definitions: `L ?? R` becomes
 * `L != null ? L : R`, so that the null object the index runtime uses for
 * missing values still falls through to `R`. The rewrite walks the tree
 * depth first and does not descend into a `??` it has replaced.
 */
module NullCoalescingRewrite {
  import opened Wrappers
  import opened LinqAst

  /** The node that replaces `left ?? right`; both operands are reused as they are. */
  function CoalescingReplacement(left: Expr, right: Expr): Expr
  {
    Conditional(BinOp(left, InEquality, Null), left, right)
  }

  /** The visitor over a whole tree. */
  function RewriteCoalescing(e: Expr): Expr
    decreases e
  {
    match e
    case Ident(_) => e
    case Null => e
    case StringLit(_) => e
    case Paren(x) => Paren(RewriteCoalescing(x))
    case Cast(t, x) => Cast(t, RewriteCoalescing(x))
    case Lambda(ps, b) => Lambda(ps, RewriteCoalescing(b))
    case MemberRef(t, m) => MemberRef(RewriteCoalescing(t), m)
    case Invocation(t, args) =>
      Invocation(RewriteCoalescing(t), RewriteArgs(args))
    case BinOp(l, op, r) =>
      if op == NullCoalescing then CoalescingReplacement(l, r)
      else BinOp(RewriteCoalescing(l), op, RewriteCoalescing(r))
    case Conditional(c, a, b) => Conditional(RewriteCoalescing(c), RewriteCoalescing(a), RewriteCoalescing(b))
  }

  /** The number of `??` nodes in a tree. */
  function Coalescings(e: Expr): nat
    decreases e
  {
    match e
    case Ident(_) => 0
    case Null => 0
    case StringLit(_) => 0
    case Paren(x) => Coalescings(x)
    case Cast(_, x) => Coalescings(x)
    case Lambda(_, b) => Coalescings(b)
    case MemberRef(t, _) => Coalescings(t)
    case Invocation(t, args) => Coalescings(t) + CoalescingsIn(args)
    case BinOp(l, op, r) => (if op == NullCoalescing then 1 else 0) + Coalescings(l) + Coalescings(r)
    case Conditional(c, a, b) => Coalescings(c) + Coalescings(a) + Coalescings(b)
  }

  function CoalescingsIn(args: seq<Expr>): nat
    decreases args
  {
    if args == [] then 0 else Coalescings(args[0]) + CoalescingsIn(args[1..])
  }

  /** The number of `??` nodes that do not sit inside the operands of another `??`. */
  function Outermost(e: Expr): nat
    decreases e
  {
    match e
    case Ident(_) => 0
    case Null => 0
    case StringLit(_) => 0
    case Paren(x) => Outermost(x)
    case Cast(_, x) => Outermost(x)
    case Lambda(_, b) => Outermost(b)
    case MemberRef(t, _) => Outermost(t)
    case Invocation(t, args) => Outermost(t) + OutermostIn(args)
    case BinOp(l, op, r) => if op == NullCoalescing then 1 else Outermost(l) + Outermost(r)
    case Conditional(c, a, b) => Outermost(c) + Outermost(a) + Outermost(b)
  }

  function OutermostIn(args: seq<Expr>): nat
    decreases args
  {
    if args == [] then 0 else Outermost(args[0]) + OutermostIn(args[1..])
  }

  /** The `??` nodes inside the left operands of the outermost `??` nodes: the ones the rewrite duplicates. */
  function Duplicated(e: Expr): nat
    decreases e
  {
    match e
    case Ident(_) => 0
    case Null => 0
    case StringLit(_) => 0
    case Paren(x) => Duplicated(x)
    case Cast(_, x) => Duplicated(x)
    case Lambda(_, b) => Duplicated(b)
    case MemberRef(t, _) => Duplicated(t)
    case Invocation(t, args) => Duplicated(t) + DuplicatedIn(args)
    case BinOp(l, op, r) => if op == NullCoalescing then Coalescings(l) else Duplicated(l) + Duplicated(r)
    case Conditional(c, a, b) => Duplicated(c) + Duplicated(a) + Duplicated(b)
  }

  function DuplicatedIn(args: seq<Expr>): nat
    decreases args
  {
    if args == [] then 0 else Duplicated(args[0]) + DuplicatedIn(args[1..])
  }

  /** The rewrite of each argument of an invocation. */
  function RewriteArgs(args: seq<Expr>): (r: seq<Expr>)
    ensures |r| == |args| && forall i :: 0 <= i < |args| ==> r[i] == RewriteCoalescing(args[i])
  {
    seq(|args|, i requires 0 <= i < |args| => RewriteCoalescing(args[i]))
  }

  /**
   * The rewrite removes exactly the outermost `??` nodes and keeps every
   * `??` nested in their operands, the ones in a left operand twice, since
   * that operand is reused as both the test and the first branch. So every
   * `??` is inside an outermost one, and the count after the rewrite is
   * the count before, less the outermost ones, plus the duplicated ones.
   */
  lemma {:induction false} RewriteCounts(e: Expr)
    ensures Outermost(e) <= Coalescings(e)
    ensures Duplicated(e) <= Coalescings(e) - Outermost(e)
    ensures Coalescings(e) > 0 ==> Outermost(e) > 0
    ensures Coalescings(RewriteCoalescing(e)) == Coalescings(e) - Outermost(e) + Duplicated(e)
    decreases e, 1
  {
    match e
    case Ident(_) =>
    case Null =>
    case StringLit(_) =>
    case Paren(x) => RewriteCounts(x);
    case Cast(_, x) => RewriteCounts(x);
    case Lambda(_, b) => RewriteCounts(b);
    case MemberRef(t, _) => RewriteCounts(t);
    case Invocation(t, args) =>
      RewriteCounts(t);
      RewriteCountsIn(e, args);
      assert RewriteCoalescing(e) == Invocation(RewriteCoalescing(t), RewriteArgs(args));
    case BinOp(l, op, r) =>
      RewriteCounts(l);
      RewriteCounts(r);
      if op == NullCoalescing {
        var c := CoalescingReplacement(l, r);
        assert Coalescings(c) == Coalescings(c.cond) + Coalescings(l) + Coalescings(r);
      }
    case Conditional(c, a, b) =>
      RewriteCounts(c);
      RewriteCounts(a);
      RewriteCounts(b);
  }

  lemma {:induction false} RewriteCountsIn(inv: Expr, args: seq<Expr>)
    requires forall a :: a in args ==> a < inv
    ensures OutermostIn(args) <= CoalescingsIn(args)
    ensures DuplicatedIn(args) <= CoalescingsIn(args) - OutermostIn(args)
    ensures CoalescingsIn(args) > 0 ==> OutermostIn(args) > 0
    ensures CoalescingsIn(RewriteArgs(args)) == CoalescingsIn(args) - OutermostIn(args) + DuplicatedIn(args)
    decreases inv, 0, |args|
  {
    if args != [] {
      assert args[0] in args;
      assert forall a :: a in args[1..] ==> a in args;
      RewriteCounts(args[0]);
      RewriteCountsIn(inv, args[1..]);
      assert RewriteArgs(args)[1..] == RewriteArgs(args[1..]);
    }
  }

  /** The result holds no `??` exactly when no `??` of the input sits inside another's operands. */
  lemma NoCoalescingLeftIff(e: Expr)
    ensures Coalescings(RewriteCoalescing(e)) == 0 <==> Coalescings(e) == Outermost(e)
  {
    RewriteCounts(e);
  }

  /** A `??` whose operands hold a `??` leaves one in the result: the rewrite does not descend into them. */
  lemma NestedCoalescingSurvives(l: Expr, r: Expr)
    requires Coalescings(l) + Coalescings(r) > 0
    ensures Coalescings(RewriteCoalescing(BinOp(l, NullCoalescing, r))) > 0
  {
    RewriteCounts(BinOp(l, NullCoalescing, r));
  }

  /** The rewrite leaves a tree unchanged exactly when it holds no `??`. */
  lemma RewriteUnchangedIff(e: Expr)
    ensures RewriteCoalescing(e) == e <==> Coalescings(e) == 0
  {
    if Coalescings(e) == 0 {
      NoCoalescingUnchanged(e);
    } else {
      CoalescingChanges(e);
    }
  }

  /** A tree without `??` comes back unchanged. */
  lemma {:induction false} NoCoalescingUnchanged(e: Expr)
    requires Coalescings(e) == 0
    ensures RewriteCoalescing(e) == e
    decreases e, 1
  {
    match e
    case Ident(_) =>
    case Null =>
    case StringLit(_) =>
    case Paren(x) => NoCoalescingUnchanged(x);
    case Cast(_, x) => NoCoalescingUnchanged(x);
    case Lambda(_, b) => NoCoalescingUnchanged(b);
    case MemberRef(t, _) => NoCoalescingUnchanged(t);
    case Invocation(t, args) =>
      NoCoalescingUnchanged(t);
      NoCoalescingUnchangedIn(e, args);
      assert RewriteArgs(args) == args;
    case BinOp(l, op, r) =>
      NoCoalescingUnchanged(l);
      NoCoalescingUnchanged(r);
    case Conditional(c, a, b) =>
      NoCoalescingUnchanged(c);
      NoCoalescingUnchanged(a);
      NoCoalescingUnchanged(b);
  }

  lemma {:induction false} NoCoalescingUnchangedIn(inv: Expr, args: seq<Expr>)
    requires forall a :: a in args ==> a < inv
    requires CoalescingsIn(args) == 0
    ensures forall i :: 0 <= i < |args| ==> RewriteCoalescing(args[i]) == args[i]
    decreases inv, 0, |args|
  {
    if args != [] {
      assert args[0] in args;
      assert forall a :: a in args[1..] ==> a in args;
      NoCoalescingUnchanged(args[0]);
      NoCoalescingUnchangedIn(inv, args[1..]);
      forall i | 1 <= i < |args| ensures RewriteCoalescing(args[i]) == args[i] {
        assert args[i] == args[1..][i - 1];
      }
    }
  }

  /** A tree holding a `??` comes back changed. */
  lemma {:induction false} CoalescingChanges(e: Expr)
    requires Coalescings(e) > 0
    ensures RewriteCoalescing(e) != e
    decreases e, 1
  {
    match e
    case Paren(x) => CoalescingChanges(x);
    case Cast(_, x) => CoalescingChanges(x);
    case Lambda(_, b) => CoalescingChanges(b);
    case MemberRef(t, _) => CoalescingChanges(t);
    case Invocation(t, args) =>
      if Coalescings(t) > 0 {
        CoalescingChanges(t);
      } else {
        var i := CoalescingChangesIn(e, args);
        assert RewriteArgs(args)[i] != args[i];
      }
    case BinOp(l, op, r) =>
      if op != NullCoalescing {
        if Coalescings(l) > 0 { CoalescingChanges(l); } else { CoalescingChanges(r); }
      }
    case Conditional(c, a, b) =>
      if Coalescings(c) > 0 { CoalescingChanges(c); }
      else if Coalescings(a) > 0 { CoalescingChanges(a); }
      else { CoalescingChanges(b); }
  }

  lemma {:induction false} CoalescingChangesIn(inv: Expr, args: seq<Expr>) returns (i: nat)
    requires forall a :: a in args ==> a < inv
    requires CoalescingsIn(args) > 0
    ensures i < |args| && RewriteCoalescing(args[i]) != args[i]
    decreases inv, 0, |args|
  {
    assert args[0] in args;
    if Coalescings(args[0]) > 0 {
      CoalescingChanges(args[0]);
      i := 0;
    } else {
      assert forall a :: a in args[1..] ==> a in args;
      var j := CoalescingChangesIn(inv, args[1..]);
      assert args[1..][j] == args[j + 1];
      i := j + 1;
    }
  }

  // ---------------------------------------------------------------------
  // What the rewrite is for: the index runtime stands in a null object for
  // missing values. `??` tests for the null reference only, so it keeps the
  // null object; `!= null` treats the null object as null, so the rewritten
  // conditional falls through to the right operand.
  // ---------------------------------------------------------------------

  /**
   * The values of the evaluated fragment: the null reference, the runtime's
   * null object, booleans, strings, documents with their fields, and other
   * objects.
   */
  datatype Value =
    | NullRef
    | NullObject
    | Bool(b: bool)
    | Text(s: string)
    | Doc(fields: map<string, Value>)
    | Object(id: int)

  /** Null, or the null object that compares equal to null. */
  predicate IsNullish(v: Value)
  {
    v == NullRef || v == NullObject
  }

  /** `a == b` as the runtime sees it: the null object is equal to null. */
  predicate SameValue(a: Value, b: Value)
  {
    (IsNullish(a) && IsNullish(b)) || a == b
  }

  /**
   * The value of `e` when the identifiers take their values from `env`, for
   * identifiers, `null`, string literals, parentheses, member access, `!=`,
   * `??` and `?:`; anything else, an unbound identifier, and member access on
   * the null reference (which throws) or on an object that is not a document
   * have no value here. A document's missing field reads as the null object,
   * and so does any member of the null object. With `fallThrough` false, `??`
   * falls through on the null reference only, as C# evaluates it; with
   * `fallThrough` true it falls through on the null object as well, which is
   * what an index author writing `??` means.
   */
  function Eval(e: Expr, env: map<string, Value>, fallThrough: bool): Option<Value>
    decreases e
  {
    match e
    case Ident(x) => if x in env then Some(env[x]) else None
    case Null => Some(NullRef)
    case StringLit(s) => Some(Text(s))
    case Paren(x) => Eval(x, env, fallThrough)
    case MemberRef(t, m) =>
      (match Eval(t, env, fallThrough)
       case Some(Doc(fields)) => Some(if m in fields then fields[m] else NullObject)
       case Some(NullObject) => Some(NullObject)
       case _ => None)
    case BinOp(l, NullCoalescing, r) =>
      (match Eval(l, env, fallThrough)
       case None => None
       case Some(v) => if v == NullRef || (fallThrough && v == NullObject) then Eval(r, env, fallThrough) else Some(v))
    case BinOp(l, InEquality, r) =>
      (match (Eval(l, env, fallThrough), Eval(r, env, fallThrough))
       case (Some(a), Some(b)) => Some(Bool(!SameValue(a, b)))
       case _ => None)
    case Conditional(c, a, b) =>
      (match Eval(c, env, fallThrough)
       case Some(Bool(true)) => Eval(a, env, fallThrough)
       case Some(Bool(false)) => Eval(b, env, fallThrough)
       case _ => None)
    case _ => None
  }

  /** Left as it is, `??` yields the null object rather than falling through to the right operand. */
  lemma PlainCoalescingKeepsNullObject(l: Expr, r: Expr, env: map<string, Value>)
    requires Eval(l, env, false) == Some(NullObject)
    ensures Eval(BinOp(l, NullCoalescing, r), env, false) == Some(NullObject)
  {
  }

  /**
   * The replacement, evaluated as C# evaluates it, gives the right operand's
   * value when the left one is null or the null object, and the left one's
   * value otherwise: what `??` means with the null object taken for null.
   */
  lemma ReplacementFallsThrough(l: Expr, r: Expr, env: map<string, Value>)
    ensures Eval(l, env, false).None? ==> Eval(CoalescingReplacement(l, r), env, false).None?
    ensures Eval(l, env, false).Some? && IsNullish(Eval(l, env, false).value) ==>
      Eval(CoalescingReplacement(l, r), env, false) == Eval(r, env, false)
    ensures Eval(l, env, false).Some? && !IsNullish(Eval(l, env, false).value) ==>
      Eval(CoalescingReplacement(l, r), env, false) == Eval(l, env, false)
  {
    var test := BinOp(l, InEquality, Null);
    assert Eval(Null, env, false) == Some(NullRef);
    if Eval(l, env, false).Some? {
      var v := Eval(l, env, false).value;
      assert Eval(test, env, false) == Some(Bool(!SameValue(v, NullRef)));
    }
  }

  /** Without `??`, both readings of a tree agree. */
  lemma {:induction false} NoCoalescingSameValue(e: Expr, env: map<string, Value>)
    requires Coalescings(e) == 0
    ensures Eval(e, env, false) == Eval(e, env, true)
    decreases e
  {
    match e
    case Paren(x) => NoCoalescingSameValue(x, env);
    case MemberRef(t, _) => NoCoalescingSameValue(t, env);
    case BinOp(l, op, r) =>
      NoCoalescingSameValue(l, env);
      NoCoalescingSameValue(r, env);
    case Conditional(c, a, b) =>
      NoCoalescingSameValue(c, env);
      NoCoalescingSameValue(a, env);
      NoCoalescingSameValue(b, env);
    case _ =>
  }

  /**
   * When no `??` sits inside another's operands, the rewritten tree,
   * evaluated as C# evaluates it, has the value the original has with every
   * `??` falling through on the null object.
   */
  lemma {:induction false} RewriteMeansFallThrough(e: Expr, env: map<string, Value>)
    requires Coalescings(e) == Outermost(e)
    ensures Eval(RewriteCoalescing(e), env, false) == Eval(e, env, true)
    decreases e
  {
    RewriteCounts(e);
    match e
    case Paren(x) =>
      RewriteCounts(x);
      RewriteMeansFallThrough(x, env);
    case MemberRef(t, _) =>
      RewriteCounts(t);
      RewriteMeansFallThrough(t, env);
    case BinOp(l, op, r) =>
      RewriteCounts(l);
      RewriteCounts(r);
      if op == NullCoalescing {
        NoCoalescingSameValue(l, env);
        NoCoalescingSameValue(r, env);
        ReplacementFallsThrough(l, r, env);
      } else {
        RewriteMeansFallThrough(l, env);
        RewriteMeansFallThrough(r, env);
      }
    case Conditional(c, a, b) =>
      RewriteCounts(c);
      RewriteCounts(a);
      RewriteCounts(b);
      RewriteMeansFallThrough(c, env);
      RewriteMeansFallThrough(a, env);
      RewriteMeansFallThrough(b, env);
    case _ =>
  }

  /**
   * The example the transformer is written for, `doc.FirstName ?? ""` on a
   * document without that field: left as it is, the expression yields the
   * null object; rewritten, it yields the empty string.
   */
  lemma MissingFieldExample()
    ensures var e := BinOp(MemberRef(Ident("doc"), "FirstName"), NullCoalescing, StringLit(""));
      var env := map["doc" := Doc(map[])];
      && Eval(e, env, false) == Some(NullObject)
      && Eval(RewriteCoalescing(e), env, false) == Some(Text(""))
  {
    var l, r := MemberRef(Ident("doc"), "FirstName"), StringLit("");
    var env := map["doc" := Doc(map[])];
    assert Eval(l, env, false) == Some(NullObject);
    ReplacementFallsThrough(l, r, env);
  }
}
