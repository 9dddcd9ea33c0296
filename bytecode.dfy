/**
 * The abstract stack-machine instructions the code compiler appends,
 * with their operand-stack effects, and a small symbolic machine for the
 * straight-line local/stack shuffles (loads, stores, dup, pop).
 *
 * Labels are identifiers; a placed label's offset is the number of
 * instructions emitted before it, so two labels placed with no
 * instruction between them have the same offset.
 */
module Bytecode {
  import opened Wrappers

  type Label = nat

  datatype Const =
    | IntConst(i: int)        // iconst
    | StrConst(s: string)     // ldc of a string
    | StaticField(f: string)  // getstatic, e.g. Py.None or Py.EmptyObjects
    | Null                    // aconst_null
    | PyInteger(n: int)       // an integer constant of the module's constant pool
    | PyString(s: string)     // a str constant of the module's constant pool
    | PyUnicode(s: string)    // a unicode constant of the module's constant pool

  datatype Instr =
    | ALoad(slot: nat)
    | AStore(slot: nat)
    | Push(c: Const)
    | Dup
    | Pop
    | Invoke(name: string, pops: nat, pushes: nat)  // receiver and arguments popped
    | New(cls: string)
    | NewArray(cls: string)                         // pops the length
    | ArrayLoad                                     // aaload
    | ArrayStore                                    // aastore
    | GetField(field: string)
    | PutField(field: string)
    | CheckCast(cls: string)
    | Goto(target: Label)
    | IfEq(target: Label)
    | IfNe(target: Label)
    | IfNonNull(target: Label)
    | Throw
    | Return

  function Pops(i: Instr): nat {
    match i
    case AStore(_) => 1
    case Dup => 1
    case Pop => 1
    case Invoke(_, p, _) => p
    case NewArray(_) => 1
    case ArrayLoad => 2
    case ArrayStore => 3
    case GetField(_) => 1
    case PutField(_) => 2
    case CheckCast(_) => 1
    case IfEq(_) => 1
    case IfNe(_) => 1
    case IfNonNull(_) => 1
    case Throw => 1
    case Return => 1
    case _ => 0
  }

  function Pushes(i: Instr): nat {
    match i
    case ALoad(_) => 1
    case Push(_) => 1
    case Dup => 2
    case Invoke(_, _, q) => q
    case New(_) => 1
    case NewArray(_) => 1
    case ArrayLoad => 1
    case GetField(_) => 1
    case CheckCast(_) => 1
    case _ => 0
  }

  predicate IsBranch(i: Instr) {
    i.Goto? || i.IfEq? || i.IfNe? || i.IfNonNull?
  }

  /** An instruction after which control never falls through to the next one. */
  predicate EndsFlow(i: Instr) {
    i.Goto? || i.Throw? || i.Return?
  }

  /** Net operand-stack effect of straight-line code. */
  function Effect(code: seq<Instr>): int {
    if code == [] then 0 else Pushes(code[0]) - Pops(code[0]) + Effect(code[1..])
  }

  lemma {:induction false} EffectAppend(a: seq<Instr>, b: seq<Instr>)
    ensures Effect(a + b) == Effect(a) + Effect(b)
  {
    if a != [] {
      assert (a + b)[1..] == a[1..] + b;
      EffectAppend(a[1..], b);
    } else {
      assert a + b == b;
    }
  }

  lemma AppendAssoc<T>(a: seq<T>, b: seq<T>, c: seq<T>)
    ensures a + (b + c) == (a + b) + c
  {
  }

  lemma AppendSingles<T>(a: seq<T>, x: T, y: T, z: T, w: T)
    ensures a + [x] + [y] == a + [x, y]
    ensures a + [x] + [y] + [z] == a + [x, y, z]
    ensures a + [x] + [y] + [z] + [w] == a + [x, y, z, w]
  {
  }

  function Net(i: Instr): int {
    Pushes(i) - Pops(i)
  }

  function NetAt(code: seq<Instr>, k: nat): int {
    if k < |code| then Net(code[k]) else 0
  }

  /** The effect of a short literal sequence, instruction by instruction. */
  lemma {:induction false} EffectShort(code: seq<Instr>)
    requires |code| <= 8
    ensures Effect(code) == NetAt(code, 0) + NetAt(code, 1) + NetAt(code, 2) + NetAt(code, 3)
                          + NetAt(code, 4) + NetAt(code, 5) + NetAt(code, 6) + NetAt(code, 7)
  {
    if code != [] {
      EffectShort(code[1..]);
    }
  }

  function PopsAt(code: seq<Instr>, k: nat): nat {
    if k < |code| then Pops(code[k]) else 0
  }

  /** Run on an operand stack of height `d`, straight-line `code` never pops more than the stack holds. */
  predicate Fits(code: seq<Instr>, d: int) {
    if code == [] then 0 <= d else Pops(code[0]) <= d && Fits(code[1..], d + Net(code[0]))
  }

  /** Fits for a short literal sequence, instruction by instruction. */
  lemma {:induction false} FitsShort(code: seq<Instr>, d: int)
    requires |code| <= 8 && 0 <= d
    requires PopsAt(code, 0) <= d
    requires PopsAt(code, 1) <= d + NetAt(code, 0)
    requires PopsAt(code, 2) <= d + NetAt(code, 0) + NetAt(code, 1)
    requires PopsAt(code, 3) <= d + NetAt(code, 0) + NetAt(code, 1) + NetAt(code, 2)
    requires PopsAt(code, 4) <= d + NetAt(code, 0) + NetAt(code, 1) + NetAt(code, 2) + NetAt(code, 3)
    requires PopsAt(code, 5) <= d + NetAt(code, 0) + NetAt(code, 1) + NetAt(code, 2) + NetAt(code, 3)
                                  + NetAt(code, 4)
    requires PopsAt(code, 6) <= d + NetAt(code, 0) + NetAt(code, 1) + NetAt(code, 2) + NetAt(code, 3)
                                  + NetAt(code, 4) + NetAt(code, 5)
    requires PopsAt(code, 7) <= d + NetAt(code, 0) + NetAt(code, 1) + NetAt(code, 2) + NetAt(code, 3)
                                  + NetAt(code, 4) + NetAt(code, 5) + NetAt(code, 6)
    ensures Fits(code, d)
  {
    if code != [] {
      FitsShort(code[1..], d + Net(code[0]));
    }
  }

  /** Code that fits never leaves the stack below empty. */
  lemma {:induction false} FitsEffect(code: seq<Instr>, d: int)
    requires Fits(code, d)
    ensures d + Effect(code) >= 0
  {
    if code != [] {
      FitsEffect(code[1..], d + Net(code[0]));
    }
  }

  /** How many instructions in `code` are `i`. */
  function Count(code: seq<Instr>, i: Instr): nat {
    if code == [] then 0 else (if code[0] == i then 1 else 0) + Count(code[1..], i)
  }

  lemma {:induction false} CountAppend(a: seq<Instr>, b: seq<Instr>, i: Instr)
    ensures Count(a + b, i) == Count(a, i) + Count(b, i)
  {
    if a != [] {
      assert (a + b)[1..] == a[1..] + b;
      CountAppend(a[1..], b, i);
    } else {
      assert a + b == b;
    }
  }

  // ---------------------------------------------------------------------
  // Symbolic execution of local/stack shuffles
  // ---------------------------------------------------------------------

  /** Operand stack (top last) and local slots holding symbolic values. */
  datatype Machine<V> = Machine(stack: seq<V>, locals: map<nat, V>)

  /** One step; `None` for an underflow, an unset slot, or an instruction outside the fragment. */
  function Step<V>(i: Instr, m: Machine<V>): Option<Machine<V>> {
    match i
    case ALoad(s) =>
      if s in m.locals then Some(Machine(m.stack + [m.locals[s]], m.locals)) else None
    case AStore(s) =>
      if |m.stack| >= 1
      then Some(Machine(m.stack[..|m.stack| - 1], m.locals[s := m.stack[|m.stack| - 1]]))
      else None
    case Dup =>
      if |m.stack| >= 1 then Some(Machine(m.stack + [m.stack[|m.stack| - 1]], m.locals)) else None
    case Pop =>
      if |m.stack| >= 1 then Some(Machine(m.stack[..|m.stack| - 1], m.locals)) else None
    case _ => None
  }

  function Exec<V>(code: seq<Instr>, m: Machine<V>): Option<Machine<V>> {
    if code == [] then Some(m)
    else match Step(code[0], m)
      case None => None
      case Some(m') => Exec(code[1..], m')
  }

  /** A successful symbolic step changes the stack height exactly as Pops/Pushes say. */
  lemma StepHeight<V>(i: Instr, m: Machine<V>)
    requires Step(i, m).Some?
    ensures |Step(i, m).value.stack| == |m.stack| - Pops(i) + Pushes(i)
  {
  }

  lemma {:induction false} ExecAppend<V>(a: seq<Instr>, b: seq<Instr>, m: Machine<V>)
    requires Exec(a, m).Some?
    ensures Exec(a + b, m) == Exec(b, Exec(a, m).value)
  {
    if a != [] {
      assert (a + b)[1..] == a[1..] + b;
      ExecAppend(a[1..], b, Step(a[0], m).value);
    } else {
      assert a + b == b;
    }
  }

  /** The stack height after successful straight-line execution follows Effect. */
  lemma {:induction false} ExecHeight<V>(code: seq<Instr>, m: Machine<V>)
    requires Exec(code, m).Some?
    ensures |Exec(code, m).value.stack| == |m.stack| + Effect(code)
  {
    if code != [] {
      StepHeight(code[0], m);
      ExecHeight(code[1..], Step(code[0], m).value);
    }
  }
}
