/**
 * The resolved syntax tree that the code compiler walks (the
 * `org.python.antlr.ast` node classes), as closed datatypes.
 *
 * `null` children of the Java tree are `None`.  The expression context
 * (load, store, delete, augmented) that each Java node carries is not a
 * field here: the compiler has one entry point per context instead.
 */
module Syntax {
  import opened Wrappers

  datatype BoolOperator = And | Or
  datatype CmpOp = Eq | NotEq | Lt | LtE | Gt | GtE | Is | IsNot | In | NotIn
  datatype Operator = Add | Sub | Mult | Div | Mod | Pow | LShift | RShift
                    | BitOr | BitXor | BitAnd | FloorDiv
  datatype UnaryOperator = Invert | Not | UAdd | USub

  datatype Expr =
    | Name(id: string)
    | Num(n: int)
    | Str(s: string)
    | Unicode(s: string)
    | BoolOp(bop: BoolOperator, values: seq<Expr>)
    | Compare(left: Expr, ops: seq<CmpOp>, comparators: seq<Expr>)
    | BinOp(left: Expr, binop: Operator, right: Expr)
    | UnaryOp(uop: UnaryOperator, operand: Expr)
    | Tuple(elts: seq<Expr>)
    | List(elts: seq<Expr>)
    | ListComp(elt: Expr, generators: seq<Comprehension>)
    | Subscript(value: Expr, index: Expr)
    | Slice(value: Expr, lower: Option<Expr>, upper: Option<Expr>, step: Option<Expr>)
    | Attribute(value: Expr, attr: string)
    | Call(func: Expr, args: seq<Expr>, keywords: seq<Keyword>)

  /** A keyword argument `arg=value` of a call. */
  datatype Keyword = Keyword(arg: string, value: Expr)

  /** One `for target in iter if ...` clause of a list comprehension. */
  datatype Comprehension = Comprehension(target: Expr, iter: Expr, ifs: seq<Expr>)

  /** `import name` or `import name as asname`. */
  datatype Alias = Alias(name: string, asname: Option<string>)

  /** `except type, name: body`; a bare `except:` has no type. */
  datatype ExceptClause = ExceptClause(kind: Option<Expr>, name: Option<Expr>, body: seq<Stmt>)

  /** An optional else-suite (`orelse` is `null` in the Java tree when absent). */
  datatype Else = NoElse | Else(suite: seq<Stmt>)

  datatype Stmt =
    | ExprStmt(value: Expr)
    | Yield(yielded: Option<Expr>)
    | Assign(targets: seq<Expr>, rhs: Expr)
    | AugAssign(target: Expr, aop: Operator, operand: Expr)
    | Delete(dels: seq<Expr>)
    | Pass
    | Break
    | Continue
    | Return(result: Option<Expr>)
    | Raise(exc: Option<Expr>, inst: Option<Expr>, tback: Option<Expr>)
    | If(test: Expr, body: seq<Stmt>, orelse: Else)
    | While(cond: Expr, loopBody: seq<Stmt>, loopElse: Else)
    | For(target: Expr, iter: Expr, forBody: seq<Stmt>, forElse: Else)
    | TryExcept(tryBody: seq<Stmt>, clauses: seq<ExceptClause>, tryElse: Else)
    | TryFinally(protected: seq<Stmt>, finalbody: seq<Stmt>)
    | Import(names: seq<Alias>)
    | Global

  // ---------------------------------------------------------------------
  // Sizes: the measure that makes the recursive compiler terminate.
  // ---------------------------------------------------------------------

  function ExprSize(e: Expr): nat {
    match e
    case Name(_) => 1
    case Num(_) => 1
    case Str(_) => 1
    case Unicode(_) => 1
    case BoolOp(_, vs) => 1 + ExprsSize(vs)
    case Compare(l, _, cs) => 1 + ExprSize(l) + ExprsSize(cs)
    case BinOp(l, _, r) => 1 + ExprSize(l) + ExprSize(r)
    case UnaryOp(_, x) => 1 + ExprSize(x)
    case Tuple(es) => 1 + ExprsSize(es)
    case List(es) => 1 + ExprsSize(es)
    case ListComp(elt, gens) => 4 + ExprSize(elt) + GensSize(gens)
    case Subscript(v, i) => 1 + ExprSize(v) + ExprSize(i)
    case Slice(v, lo, up, st) => 1 + ExprSize(v) + OptSize(lo) + OptSize(up) + OptSize(st)
    case Attribute(v, _) => 1 + ExprSize(v)
    case Call(f, args, kws) => 1 + ExprSize(f) + ExprsSize(args) + KeywordsSize(kws)
  }

  function KeywordsSize(kws: seq<Keyword>): nat {
    if kws == [] then 0 else ExprSize(kws[0].value) + KeywordsSize(kws[1..])
  }

  function OptSize(e: Option<Expr>): nat {
    match e
    case None => 0
    case Some(x) => ExprSize(x)
  }

  function ExprsSize(es: seq<Expr>): nat {
    if es == [] then 0 else ExprSize(es[0]) + ExprsSize(es[1..])
  }

  /** Each `if` of a comprehension becomes one `If` node around its test. */
  function IfsSize(ifs: seq<Expr>): nat {
    if ifs == [] then 0 else 1 + ExprSize(ifs[0]) + IfsSize(ifs[1..])
  }

  function GensSize(gens: seq<Comprehension>): nat {
    if gens == [] then 0
    else 1 + ExprSize(gens[0].target) + ExprSize(gens[0].iter) + IfsSize(gens[0].ifs)
         + GensSize(gens[1..])
  }

  function StmtSize(s: Stmt): nat {
    match s
    case ExprStmt(e) => 1 + ExprSize(e)
    case Yield(v) => 1 + OptSize(v)
    case Assign(ts, v) => 1 + ExprsSize(ts) + ExprSize(v)
    case AugAssign(t, _, v) => 1 + ExprSize(t) + ExprSize(v)
    case Delete(ts) => 1 + ExprsSize(ts)
    case Pass => 1
    case Break => 1
    case Continue => 1
    case Return(v) => 1 + OptSize(v)
    case Raise(a, b, c) => 1 + OptSize(a) + OptSize(b) + OptSize(c)
    case If(t, b, e) => 1 + ExprSize(t) + SuiteSize(b) + OptSuiteSize(e)
    case While(t, b, e) => 1 + ExprSize(t) + SuiteSize(b) + OptSuiteSize(e)
    case For(tg, it, b, e) => 1 + ExprSize(tg) + ExprSize(it) + SuiteSize(b) + OptSuiteSize(e)
    case TryExcept(b, cs, e) => 2 + SuiteSize(b) + ClausesSize(cs) + OptSuiteSize(e)
    case TryFinally(b, f) => 2 + SuiteSize(b) + SuiteSize(f)
    case Import(_) => 2
    case Global => 1
  }

  function SuiteSize(ss: seq<Stmt>): nat {
    if ss == [] then 0 else StmtSize(ss[0]) + SuiteSize(ss[1..])
  }

  function OptSuiteSize(ss: Else): nat {
    match ss
    case NoElse => 0
    case Else(b) => SuiteSize(b)
  }

  function ClausesSize(cs: seq<ExceptClause>): nat {
    if cs == [] then 0
    else 1 + OptSize(cs[0].kind) + OptSize(cs[0].name) + SuiteSize(cs[0].body)
         + ClausesSize(cs[1..])
  }

  lemma {:induction false} ExprsSizeElem(es: seq<Expr>, i: nat)
    requires i < |es|
    ensures ExprSize(es[i]) <= ExprsSize(es)
  {
    if i > 0 { ExprsSizeElem(es[1..], i - 1); }
  }

  /** The argument values of a call: positional ones, then keyword values. */
  function KeywordValues(kws: seq<Keyword>): (vs: seq<Expr>)
    ensures |vs| == |kws|
    ensures forall i :: 0 <= i < |kws| ==> vs[i] == kws[i].value
  {
    if kws == [] then [] else [kws[0].value] + KeywordValues(kws[1..])
  }

  function KeywordNames(kws: seq<Keyword>): (ns: seq<string>)
    ensures |ns| == |kws|
    ensures forall i :: 0 <= i < |kws| ==> ns[i] == kws[i].arg
  {
    if kws == [] then [] else [kws[0].arg] + KeywordNames(kws[1..])
  }

  lemma {:induction false} ExprsSizeAppend(a: seq<Expr>, b: seq<Expr>)
    ensures ExprsSize(a + b) == ExprsSize(a) + ExprsSize(b)
  {
    if a != [] {
      assert (a + b)[1..] == a[1..] + b;
      ExprsSizeAppend(a[1..], b);
    } else {
      assert a + b == b;
    }
  }

  lemma {:induction false} KeywordValuesSize(kws: seq<Keyword>)
    ensures ExprsSize(KeywordValues(kws)) == KeywordsSize(kws)
  {
    if kws != [] {
      KeywordValuesSize(kws[1..]);
      assert KeywordValues(kws)[1..] == KeywordValues(kws[1..]);
    }
  }

  lemma {:induction false} SuiteSizeElem(ss: seq<Stmt>, i: nat)
    requires i < |ss|
    ensures StmtSize(ss[i]) <= SuiteSize(ss)
  {
    if i > 0 { SuiteSizeElem(ss[1..], i - 1); }
  }

  lemma {:induction false} ClauseSizeElem(cs: seq<ExceptClause>, i: nat)
    requires i < |cs|
    ensures OptSize(cs[i].kind) + OptSize(cs[i].name) + SuiteSize(cs[i].body) < ClausesSize(cs)
  {
    if i > 0 { ClauseSizeElem(cs[1..], i - 1); }
  }

  // ---------------------------------------------------------------------
  // Well-formedness the parser guarantees and the compiler relies on.
  // ---------------------------------------------------------------------

  /** Expressions that may appear where a value is stored or deleted. */
  predicate IsTarget(e: Expr) {
    match e
    case Name(_) => true
    case Attribute(v, _) => WfExpr(v)
    case Subscript(v, i) => WfExpr(v) && WfExpr(i)
    case Slice(v, lo, up, st) => WfExpr(v) && WfOpt(lo) && WfOpt(up) && WfOpt(st)
    case Tuple(es) => forall i :: 0 <= i < |es| ==> IsTarget(es[i])
    case List(es) => forall i :: 0 <= i < |es| ==> IsTarget(es[i])
    case _ => false
  }

  /** Targets of an augmented assignment: no tuple or list. */
  predicate IsAugTarget(e: Expr) {
    (e.Name? || e.Attribute? || e.Subscript? || e.Slice?) && IsTarget(e)
  }

  predicate WfExpr(e: Expr) {
    match e
    case BoolOp(_, vs) => |vs| >= 1 && forall i :: 0 <= i < |vs| ==> WfExpr(vs[i])
    case Compare(l, ops, cs) =>
      |ops| >= 1 && |ops| == |cs| && WfExpr(l) && forall i :: 0 <= i < |cs| ==> WfExpr(cs[i])
    case BinOp(l, _, r) => WfExpr(l) && WfExpr(r)
    case UnaryOp(_, x) => WfExpr(x)
    case Tuple(es) => forall i :: 0 <= i < |es| ==> WfExpr(es[i])
    case List(es) => forall i :: 0 <= i < |es| ==> WfExpr(es[i])
    case ListComp(elt, gens) =>
      WfExpr(elt) && forall i :: 0 <= i < |gens| ==> WfComprehension(gens[i])
    case Subscript(v, i) => WfExpr(v) && WfExpr(i)
    case Slice(v, lo, up, st) => WfExpr(v) && WfOpt(lo) && WfOpt(up) && WfOpt(st)
    case Attribute(v, _) => WfExpr(v)
    case Call(f, args, kws) =>
      && WfExpr(f) && (forall i :: 0 <= i < |args| ==> WfExpr(args[i]))
      && (forall i :: 0 <= i < |kws| ==> WfExpr(kws[i].value))
    case _ => true
  }

  predicate WfOpt(e: Option<Expr>) {
    match e
    case None => true
    case Some(x) => WfExpr(x)
  }

  predicate WfComprehension(g: Comprehension) {
    IsTarget(g.target) && WfExpr(g.iter) && forall i :: 0 <= i < |g.ifs| ==> WfExpr(g.ifs[i])
  }

  predicate WfStmt(s: Stmt) {
    match s
    case ExprStmt(e) => WfExpr(e)
    case Yield(v) => WfOpt(v)
    case Assign(ts, v) => |ts| >= 1 && WfExpr(v) && forall i :: 0 <= i < |ts| ==> IsTarget(ts[i])
    case AugAssign(t, _, v) => IsAugTarget(t) && WfExpr(v)
    case Delete(ts) => forall i :: 0 <= i < |ts| ==> IsTarget(ts[i])
    case Return(v) => WfOpt(v)
    case Raise(a, b, c) =>
      WfOpt(a) && WfOpt(b) && WfOpt(c) && (a.None? ==> b.None?) && (b.None? ==> c.None?)
    case If(t, b, e) => WfExpr(t) && WfSuite(b) && WfOptSuite(e)
    case While(t, b, e) => WfExpr(t) && WfSuite(b) && WfOptSuite(e)
    case For(tg, it, b, e) => IsTarget(tg) && WfExpr(it) && WfSuite(b) && WfOptSuite(e)
    case TryExcept(b, cs, e) =>
      WfSuite(b) && WfOptSuite(e) && forall i :: 0 <= i < |cs| ==> WfClause(cs[i])
    case TryFinally(b, f) => WfSuite(b) && WfSuite(f)
    case _ => true
  }

  predicate WfSuite(ss: seq<Stmt>) {
    forall i :: 0 <= i < |ss| ==> WfStmt(ss[i])
  }

  predicate WfOptSuite(ss: Else) {
    match ss
    case NoElse => true
    case Else(b) => WfSuite(b)
  }

  predicate WfClause(c: ExceptClause) {
    WfOpt(c.kind) && WfSuite(c.body) && (c.name.Some? ==> IsTarget(c.name.value))
  }

  // ---------------------------------------------------------------------
  // Fall-through: the reference the statement compiler's result must match.
  // ---------------------------------------------------------------------

  /**
   * A statement guarantees that control does not fall through it:
   * `continue`, `return` and `raise` always jump away, an `if` does so
   * when it has an else-suite and both of its suites do.  `break`, loops
   * and `try` statements are reported as falling through.
   */
  predicate Exits(s: Stmt) {
    match s
    case Continue => true
    case Return(_) => true
    case Raise(_, _, _) => true
    case If(_, b, e) => e.Else? && SuiteExits(b) && SuiteExits(e.suite)
    case _ => false
  }

  /** A suite does not fall through when one of its statements does not. */
  predicate SuiteExits(ss: seq<Stmt>) {
    exists i :: 0 <= i < |ss| && Exits(ss[i])
  }

  /**
   * How many statements of a suite are compiled: up to and including the
   * first one that does not fall through, or all of them.
   */
  function FirstExit(ss: seq<Stmt>): (n: nat)
    ensures n <= |ss|
  {
    if ss == [] then 0 else if Exits(ss[0]) then 1 else 1 + FirstExit(ss[1..])
  }

  /**
   * The compiled prefix stops exactly at the first statement that does not
   * fall through: none before it exits, it exits when the suite does, and
   * without one the whole suite is compiled.
   */
  lemma {:induction false} FirstExitSpec(ss: seq<Stmt>)
    ensures forall j :: 0 <= j < FirstExit(ss) - 1 ==> !Exits(ss[j])
    ensures SuiteExits(ss) <==> FirstExit(ss) > 0 && Exits(ss[FirstExit(ss) - 1])
    ensures !SuiteExits(ss) ==> FirstExit(ss) == |ss|
  {
    if ss != [] && !Exits(ss[0]) {
      var rest := ss[1..];
      FirstExitSpec(rest);
      assert forall j :: 1 <= j < |ss| ==> ss[j] == rest[j - 1];
      if SuiteExits(ss) {
        var i :| 0 <= i < |ss| && Exits(ss[i]);
        assert Exits(rest[i - 1]);
      }
      if SuiteExits(rest) {
        var i :| 0 <= i < |rest| && Exits(rest[i]);
        assert Exits(ss[i + 1]);
      }
    }
  }

  /** Past a prefix of statements that all fall through, the count goes on from the rest. */
  lemma {:induction false} FirstExitPrefix(ss: seq<Stmt>, i: nat)
    requires i <= |ss| && forall j :: 0 <= j < i ==> !Exits(ss[j])
    ensures FirstExit(ss) == i + FirstExit(ss[i..])
  {
    if i > 0 {
      FirstExitPrefix(ss[1..], i - 1);
      assert ss[1..][i - 1..] == ss[i..];
    }
  }

  // ---------------------------------------------------------------------
  // The statement a list comprehension is rewritten into.
  // ---------------------------------------------------------------------

  /** The ifs of one clause, outermost first, wrapped around `inner`. */
  function WrapIfs(ifs: seq<Expr>, inner: Stmt): Stmt {
    if ifs == [] then inner else If(ifs[0], [WrapIfs(ifs[1..], inner)], Else([]))
  }

  /** Clause `gens[0]` outermost: `for t in it: if c1: if c2: ... body`. */
  function Desugar(body: Stmt, gens: seq<Comprehension>): Stmt {
    if gens == [] then body
    else For(gens[0].target, gens[0].iter, [WrapIfs(gens[0].ifs, Desugar(body, gens[1..]))], Else([]))
  }

  /** The body of the rewritten loops: `tmp(elt)` as an expression statement. */
  function AppendCall(tmp: string, elt: Expr): Stmt {
    ExprStmt(Call(Name(tmp), [elt], []))
  }

  lemma {:induction false} WrapIfsSize(ifs: seq<Expr>, inner: Stmt)
    ensures StmtSize(WrapIfs(ifs, inner)) == IfsSize(ifs) + StmtSize(inner)
  {
    if ifs != [] {
      WrapIfsSize(ifs[1..], inner);
      var w := WrapIfs(ifs[1..], inner);
      assert SuiteSize([w]) == StmtSize(w) by { assert [w][1..] == []; }
    }
  }

  lemma {:induction false} DesugarSize(body: Stmt, gens: seq<Comprehension>)
    ensures StmtSize(Desugar(body, gens)) == StmtSize(body) + GensSize(gens)
  {
    if gens != [] {
      DesugarSize(body, gens[1..]);
      var d := Desugar(body, gens[1..]);
      WrapIfsSize(gens[0].ifs, d);
      var w := WrapIfs(gens[0].ifs, d);
      assert SuiteSize([w]) == StmtSize(w) by { assert [w][1..] == []; }
    }
  }

  /** The rewritten statement is smaller than the comprehension it replaces. */
  lemma ListCompShrinks(tmp: string, elt: Expr, gens: seq<Comprehension>)
    ensures StmtSize(Desugar(AppendCall(tmp, elt), gens)) < ExprSize(ListComp(elt, gens))
  {
    DesugarSize(AppendCall(tmp, elt), gens);
    var c := Call(Name(tmp), [elt], []);
    assert ExprsSize([elt]) == ExprSize(elt) by { assert [elt][1..] == []; }
    assert ExprSize(c) == 1 + ExprSize(Name(tmp)) + ExprsSize([elt]) + KeywordsSize([]);
    assert StmtSize(ExprStmt(c)) == 1 + ExprSize(c);
  }

  lemma {:induction false} WrapIfsWf(ifs: seq<Expr>, inner: Stmt)
    requires forall i :: 0 <= i < |ifs| ==> WfExpr(ifs[i])
    requires WfStmt(inner)
    ensures WfStmt(WrapIfs(ifs, inner))
  {
    if ifs != [] { WrapIfsWf(ifs[1..], inner); }
  }

  /** The values of a call with keywords: their size, and each of them well formed. */
  lemma KeywordOperands(args: seq<Expr>, kws: seq<Keyword>)
    requires forall i :: 0 <= i < |args| ==> WfExpr(args[i])
    requires forall i :: 0 <= i < |kws| ==> WfExpr(kws[i].value)
    ensures ExprsSize(args + KeywordValues(kws)) == ExprsSize(args) + KeywordsSize(kws)
    ensures forall i :: 0 <= i < |args + KeywordValues(kws)| ==> WfExpr((args + KeywordValues(kws))[i])
  {
    KeywordValuesSize(kws);
    ExprsSizeAppend(args, KeywordValues(kws));
  }

  /** The loop nest a comprehension is rewritten into is smaller than it and well formed. */
  lemma ListCompRewrite(tmp: string, elt: Expr, gens: seq<Comprehension>)
    requires WfExpr(ListComp(elt, gens))
    ensures StmtSize(Desugar(AppendCall(tmp, elt), gens)) < ExprSize(ListComp(elt, gens))
    ensures WfStmt(Desugar(AppendCall(tmp, elt), gens))
  {
    ListCompShrinks(tmp, elt, gens);
    assert WfExpr(Call(Name(tmp), [elt], []));
    DesugarWf(AppendCall(tmp, elt), gens);
  }

  /** Rewriting a well-formed comprehension gives a well-formed loop nest. */
  lemma {:induction false} DesugarWf(body: Stmt, gens: seq<Comprehension>)
    requires WfStmt(body)
    requires forall i :: 0 <= i < |gens| ==> WfComprehension(gens[i])
    ensures WfStmt(Desugar(body, gens))
  {
    if gens != [] {
      DesugarWf(body, gens[1..]);
      WrapIfsWf(gens[0].ifs, Desugar(body, gens[1..]));
    }
  }
}
