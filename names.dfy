/**
 * The pure decisions of the code compiler: private-name mangling
 * (`getName`), the operator to method-name tables (`visitCmpop`,
 * `visitBinOp`, `visitUnaryOp`, `visitAugAssign`), how a name is loaded,
 * stored or deleted given its scope flags (`visitName`), and the name an
 * `import` statement binds (`visitImport`).
 */
module Names {
  import opened Wrappers
  import opened Syntax

  // ---------------------------------------------------------------------
  // getName: private-name mangling
  // ---------------------------------------------------------------------

  /** `__spam` is private; `__spam__` and `__` are not. */
  predicate IsPrivate(name: string) {
    |name| >= 2 && name[..2] == "__" && name[|name| - 2..] != "__"
  }

  function LeadingUnderscores(s: string): (n: nat)
    ensures n <= |s|
    ensures forall i :: 0 <= i < n ==> s[i] == '_'
    ensures n < |s| ==> s[n] != '_'
  {
    if s == [] || s[0] != '_' then 0 else 1 + LeadingUnderscores(s[1..])
  }

  /**
   * getName exactly as written: the loop that skips the class name's
   * leading underscores has no bound, so a class name made only of
   * underscores makes it read past the end (`None`: the Java
   * StringIndexOutOfBoundsException).
   */
  function GetNameAsWritten(className: Option<string>, name: string): Option<string> {
    if className.Some? && IsPrivate(name) then
      var n := LeadingUnderscores(className.value);
      if n == |className.value| then None else Some("_" + className.value[n..] + name)
    else Some(name)
  }

  /** The loop of getName, with the out-of-bounds read reported as `None`. */
  method GetName(className: Option<string>, name: string) returns (r: Option<string>)
    ensures r == GetNameAsWritten(className, name)
  {
    if className.Some? && IsPrivate(name) {
      var c := className.value;
      var i := 0;
      while i < |c| && c[i] == '_'
        invariant 0 <= i <= |c|
        invariant forall k :: 0 <= k < i ==> c[k] == '_'
      {
        i := i + 1;
      }
      if i == |c| {
        return None;
      }
      assert i == LeadingUnderscores(c) by { UnderscoresAt(c, i); }
      return Some("_" + c[i..] + name);
    }
    return Some(name);
  }

  lemma {:induction false} UnderscoresAt(s: string, i: nat)
    requires i < |s| && s[i] != '_'
    requires forall k :: 0 <= k < i ==> s[k] == '_'
    ensures LeadingUnderscores(s) == i
  {
    if i > 0 { UnderscoresAt(s[1..], i - 1); }
  }

  /**
   * Mangling as intended: inside class `C`, `__x` becomes `_C__x` with
   * C's leading underscores dropped; a class name made only of
   * underscores leaves the name alone.  The compiler uses this one.
   */
  function Mangle(className: Option<string>, name: string): string {
    if className.Some? && IsPrivate(name)
       && LeadingUnderscores(className.value) < |className.value|
    then "_" + className.value[LeadingUnderscores(className.value)..] + name
    else name
  }

  /** Mangling only ever puts a prefix in front of the name. */
  lemma MangleEndsWithName(className: Option<string>, name: string)
    ensures var r := Mangle(className, name); |r| >= |name| && r[|r| - |name|..] == name
  {
  }

  /** Wherever getName as written returns, it returns the intended mangled name. */
  lemma GetNameAgrees(className: Option<string>, name: string)
    requires GetNameAsWritten(className, name).Some?
    ensures GetNameAsWritten(className, name).value == Mangle(className, name)
  {
  }

  /** Inside `class _`, getName as written fails on `__x`, where `__x` is intended. */
  lemma GetNameCrashes()
    ensures GetNameAsWritten(Some("_"), "__x") == None
    ensures Mangle(Some("_"), "__x") == "__x"
  {
    assert IsPrivate("__x") by { assert "__x"[..2] == "__"; assert "__x"[1..] == "_x"; }
  }

  /** A mangled name is not private any more, so mangling twice changes nothing. */
  lemma MangleIdempotent(className: Option<string>, name: string)
    ensures Mangle(className, Mangle(className, name)) == Mangle(className, name)
  {
    var r := Mangle(className, name);
    if r != name {
      var c := className.value;
      var n := LeadingUnderscores(c);
      assert r[1] == c[n];
      assert r[..2] != "__" by { assert r[..2][1] == r[1]; }
      assert !IsPrivate(r);
    }
  }

  /** A private name is prefixed by `_` and the class name without its leading underscores. */
  lemma ManglePrefix(c: string, name: string)
    requires IsPrivate(name) && LeadingUnderscores(c) < |c|
    ensures Mangle(Some(c), name)
            == "_" + c[LeadingUnderscores(c)..] + name
    ensures Mangle(Some(c), name)[1] != '_'
  {
  }

  // ---------------------------------------------------------------------
  // Operator method names
  // ---------------------------------------------------------------------

  function CmpopName(op: CmpOp): string {
    match op
    case Eq => "_eq"
    case NotEq => "_ne"
    case Lt => "_lt"
    case LtE => "_le"
    case Gt => "_gt"
    case GtE => "_ge"
    case Is => "_is"
    case IsNot => "_isnot"
    case In => "_in"
    case NotIn => "_notin"
  }

  /** `trueDivision` is `from __future__ import division` being on. */
  function BinOpName(op: Operator, trueDivision: bool): string {
    if op == Div && trueDivision then "_truediv"
    else match op
      case Add => "_add"
      case Sub => "_sub"
      case Mult => "_mul"
      case Div => "_div"
      case Mod => "_mod"
      case Pow => "_pow"
      case LShift => "_lshift"
      case RShift => "_rshift"
      case BitOr => "_or"
      case BitXor => "_xor"
      case BitAnd => "_and"
      case FloorDiv => "_floordiv"
  }

  function UnaryOpName(op: UnaryOperator): string {
    match op
    case Invert => "__invert__"
    case Not => "__not__"
    case UAdd => "__pos__"
    case USub => "__neg__"
  }

  function AugOpName(op: Operator, trueDivision: bool): string {
    if op == Div && trueDivision then "__itruediv__"
    else match op
      case Add => "__iadd__"
      case Sub => "__isub__"
      case Mult => "__imul__"
      case Div => "__idiv__"
      case Mod => "__imod__"
      case Pow => "__ipow__"
      case LShift => "__ilshift__"
      case RShift => "__irshift__"
      case BitOr => "__ior__"
      case BitXor => "__ixor__"
      case BitAnd => "__iand__"
      case FloorDiv => "__ifloordiv__"
  }

  /** Distinct comparison operators call distinct methods. */
  lemma CmpopNameInjective(a: CmpOp, b: CmpOp)
    requires CmpopName(a) == CmpopName(b)
    ensures a == b
  {
  }

  /** Distinct binary operators call distinct methods (under either division mode). */
  lemma BinOpNameInjective(a: Operator, b: Operator, trueDivision: bool)
    requires BinOpName(a, trueDivision) == BinOpName(b, trueDivision)
    ensures a == b
  {
  }

  lemma UnaryOpNameInjective(a: UnaryOperator, b: UnaryOperator)
    requires UnaryOpName(a) == UnaryOpName(b)
    ensures a == b
  {
  }

  /** The in-place method of every operator is `__i` + the binary method's name + `__`. */
  lemma AugNameFollowsBinName(op: Operator, trueDivision: bool)
    ensures BinOpName(op, trueDivision)[0] == '_'
    ensures AugOpName(op, trueDivision) == "__i" + BinOpName(op, trueDivision)[1..] + "__"
  {
    if op == Div && trueDivision {
      assert "_truediv"[1..] == "truediv";
    } else if op.Add? || op.Sub? || op.Mult? || op.Div? || op.Mod? || op.Pow? {
      ArithAugName(op, trueDivision);
    } else if op.LShift? || op.RShift? || op.FloorDiv? {
      ShiftAugName(op, trueDivision);
    } else {
      BitAugName(op, trueDivision);
    }
  }

  lemma ArithAugName(op: Operator, trueDivision: bool)
    requires op.Add? || op.Sub? || op.Mult? || op.Div? || op.Mod? || op.Pow?
    requires !(op == Div && trueDivision)
    ensures BinOpName(op, trueDivision)[0] == '_'
    ensures AugOpName(op, trueDivision) == "__i" + BinOpName(op, trueDivision)[1..] + "__"
  {
    match op
    case Add => assert "_add"[1..] == "add";
    case Sub => assert "_sub"[1..] == "sub";
    case Mult => assert "_mul"[1..] == "mul";
    case Div => assert "_div"[1..] == "div";
    case Mod => assert "_mod"[1..] == "mod";
    case Pow => assert "_pow"[1..] == "pow";
  }

  lemma ShiftAugName(op: Operator, trueDivision: bool)
    requires op.LShift? || op.RShift? || op.FloorDiv?
    ensures BinOpName(op, trueDivision)[0] == '_'
    ensures AugOpName(op, trueDivision) == "__i" + BinOpName(op, trueDivision)[1..] + "__"
  {
    match op
    case LShift => assert "_lshift"[1..] == "lshift";
    case RShift => assert "_rshift"[1..] == "rshift";
    case FloorDiv => assert "_floordiv"[1..] == "floordiv";
  }

  lemma BitAugName(op: Operator, trueDivision: bool)
    requires op.BitOr? || op.BitXor? || op.BitAnd?
    ensures BinOpName(op, trueDivision)[0] == '_'
    ensures AugOpName(op, trueDivision) == "__i" + BinOpName(op, trueDivision)[1..] + "__"
  {
    match op
    case BitOr => assert "_or"[1..] == "or";
    case BitXor => assert "_xor"[1..] == "xor";
    case BitAnd => assert "_and"[1..] == "and";
  }

  // ---------------------------------------------------------------------
  // visitName: how a name is reached, given the scope analysis' flags
  // ---------------------------------------------------------------------

  /** The GLOBAL, BOUND, CELL and FREE flags and the two indices of a symbol. */
  datatype SymInfo = SymInfo(isGlobal: bool, bound: bool, cell: bool, free: bool,
                             envIndex: nat, localsIndex: nat)

  datatype LoadKind = LoadGlobal | LoadDeref(env: nat) | LoadFast(index: nat) | LoadByName
  datatype StoreKind = StoreGlobal | StoreByName | StoreDeref(env: nat) | StoreFast(index: nat)
  datatype DeleteKind = DeleteGlobal | DeleteByName | DeleteFast(index: nat)

  /** A store or delete that cannot be compiled. */
  datatype NameError =
    | UnknownLocal   // no symbol for a name of a fast-locals scope (the Java code dereferences null)
    | DeleteOfCell   // deleting a variable a nested scope refers to

  function LoadAccess(sym: Option<SymInfo>, fastLocals: bool, optimizeGlobals: bool): LoadKind {
    if sym.None? then LoadByName
    else
      var f := sym.value;
      if f.isGlobal || (optimizeGlobals && !f.bound && !f.cell && !f.free) then LoadGlobal
      else if fastLocals && f.cell then LoadDeref(f.envIndex)
      else if fastLocals && f.bound then LoadFast(f.localsIndex)
      else if f.free && !f.bound then LoadDeref(f.envIndex)
      else LoadByName
  }

  function StoreAccess(sym: Option<SymInfo>, fastLocals: bool): Result<StoreKind, NameError> {
    if sym.Some? && sym.value.isGlobal then Ok(StoreGlobal)
    else if !fastLocals then Ok(StoreByName)
    else if sym.None? then Err(UnknownLocal)
    else if sym.value.cell then Ok(StoreDeref(sym.value.envIndex))
    else Ok(StoreFast(sym.value.localsIndex))
  }

  function DeleteAccess(sym: Option<SymInfo>, fastLocals: bool): Result<DeleteKind, NameError> {
    if sym.Some? && sym.value.isGlobal then Ok(DeleteGlobal)
    else if !fastLocals then Ok(DeleteByName)
    else if sym.None? then Err(UnknownLocal)
    else if sym.value.cell then Err(DeleteOfCell)
    else Ok(DeleteFast(sym.value.localsIndex))
  }

  /** A global is read, written and deleted through the globals, in every scope. */
  lemma GlobalAccessAgrees(f: SymInfo, fastLocals: bool, optimizeGlobals: bool)
    requires f.isGlobal
    ensures LoadAccess(Some(f), fastLocals, optimizeGlobals) == LoadGlobal
    ensures StoreAccess(Some(f), fastLocals) == Ok(StoreGlobal)
    ensures DeleteAccess(Some(f), fastLocals) == Ok(DeleteGlobal)
  {
  }

  /** In a function, a cell variable is read and written through the same closure cell and cannot be deleted. */
  lemma CellAccessAgrees(f: SymInfo, optimizeGlobals: bool)
    requires !f.isGlobal && f.cell
    ensures LoadAccess(Some(f), true, optimizeGlobals) == LoadDeref(f.envIndex)
    ensures StoreAccess(Some(f), true) == Ok(StoreDeref(f.envIndex))
    ensures DeleteAccess(Some(f), true) == Err(DeleteOfCell)
  {
  }

  /** In a function, a bound local is read, written and deleted through the same frame slot. */
  lemma FastAccessAgrees(f: SymInfo, optimizeGlobals: bool)
    requires !f.isGlobal && !f.cell && f.bound
    ensures LoadAccess(Some(f), true, optimizeGlobals) == LoadFast(f.localsIndex)
    ensures StoreAccess(Some(f), true) == Ok(StoreFast(f.localsIndex))
    ensures DeleteAccess(Some(f), true) == Ok(DeleteFast(f.localsIndex))
  {
  }

  /** At module or class level (no global optimisation there), a plain name goes through the locals by name. */
  lemma NamedAccessAgrees(sym: Option<SymInfo>)
    requires sym.Some? ==> !sym.value.isGlobal && !(sym.value.free && !sym.value.bound)
    ensures LoadAccess(sym, false, false) == LoadByName
    ensures StoreAccess(sym, false) == Ok(StoreByName)
    ensures DeleteAccess(sym, false) == Ok(DeleteByName)
  {
  }

  // ---------------------------------------------------------------------
  // visitImport: the name an import binds
  // ---------------------------------------------------------------------

  /** String.indexOf: the first position of `c`, or -1. */
  function IndexOf(s: string, c: char): (k: int)
    ensures -1 <= k < |s|
    ensures k >= 0 ==> s[k] == c && forall i :: 0 <= i < k ==> s[i] != c
    ensures k == -1 ==> forall i :: 0 <= i < |s| ==> s[i] != c
  {
    if s == [] then -1
    else if s[0] == c then 0
    else var k := IndexOf(s[1..], c); if k == -1 then -1 else k + 1
  }

  /** `import a.b.c` binds `a`; `import a.b as x` binds `x`. */
  function ImportAlias(a: Alias): string {
    if a.asname.Some? then a.asname.value
    else
      var k := IndexOf(a.name, '.');
      if k > 0 then a.name[..k] else a.name
  }

  /**
   * Without `as`, the bound name is the dotted name's first component:
   * a prefix of it that is the whole name or stops at a dot, and has no
   * dot itself unless the name starts with one.
   */
  lemma ImportAliasIsFirstComponent(name: string)
    ensures var r := ImportAlias(Alias(name, None));
      && r <= name
      && (r == name || name[|r|] == '.')
      && (|name| > 0 && name[0] != '.' ==> forall i :: 0 <= i < |r| ==> r[i] != '.')
  {
  }
}
