/**
 * The mutable state of `CodeCompiler` as one record, the errors it
 * raises, and the relations its compile methods keep: what "the state
 * only grew" means, the handler-stack transformations of
 * `endExceptionHandlers`/`restartExceptionHandlers`, the slot
 * allocator's bookkeeping, and the name-access instruction shapes.
 *
 * The `Code` emitter class itself (instruction encoding, slot reuse) is
 * not part of this model: instructions are appended to `code`, a label's
 * offset is the length of `code` when it is placed, and slots are handed
 * out fresh from `nextSlot`.
 */
module CompilerState {
  import opened Wrappers
  import opened Syntax
  import opened Bytecode
  import opened Names
  import opened Emitter

  /** The ParseExceptions (and the `module.error` abort) the compiler raises. */
  datatype CompileError =
    | BreakOutsideLoop
    | ContinueOutsideLoop
    | ReturnOutsideFunction
    | ReturnValueInGenerator
    | YieldOutsideFunction
    | YieldInsideTryFinally
    | BareExceptNotLast
    | StringTooLarge
    | NameAccess(reason: NameError)

  /** What visiting a statement returns: null (`NoExit`), `Exit`, or a thrown error. */
  datatype Flow = NoExit | Exit | Abort(error: CompileError)

  /** What compiling an expression or a helper returns: nothing, or a thrown error. */
  datatype Status = Done | Failed(error: CompileError)

  const MaxStringLength: nat := 32767
  const PyObjectType: string := "org/python/core/PyObject"

  /** For each label created so far, the offset it was placed at, if it has been placed. */
  type LabelTable = seq<Option<nat>>

  /**
   * The fields `CodeCompiler` updates as it goes: the instruction log and
   * label table of its `Code`, the exceptionHandlers stack, the loop label
   * stacks and `bcfLevel`, the generator resume table (`yield_count`,
   * `yields`), `list_comprehension_count`, the registered exception-table
   * entries, the slot allocator (next fresh slot, the type of each live
   * temporary, the return local), the aug-assignment temporaries
   * `augtmp1..augtmpN` in that order, and the field `temporary` that
   * `set(node, tmp)` points at the slot whose value it stores.
   */
  datatype State = State(
    code: seq<Instr>,
    labels: LabelTable,
    handlers: seq<Handler>,
    continueLabels: seq<Label>,
    breakLabels: seq<Label>,
    bcfLevel: nat,
    yieldCount: nat,
    yieldLabels: seq<Label>,
    listCompCount: nat,
    tryCatch: seq<Range>,
    nextSlot: nat,
    locals: map<nat, string>,
    returnLocal: Option<nat>,
    augTmps: seq<nat>,
    temporary: nat)

  /** A compiler before `parse`: slots 0 and 1 hold the code object and the frame. */
  function Initial(): State {
    State([], [], [], [], [], 0, 0, [], 0, [], 2, map[], None, [], 0)
  }

  /**
   * The slot allocator hands out slots from 2 up and every live
   * temporary lies below the next fresh slot; the return local is not a
   * temporary; there is one resume label per yield.
   */
  predicate StateOk(st: State) {
    && 2 <= st.nextSlot
    && (forall s :: s in st.locals ==> 2 <= s < st.nextSlot)
    && (st.returnLocal.Some? ==> 2 <= st.returnLocal.value < st.nextSlot && st.returnLocal.value !in st.locals)
    && |st.yieldLabels| == st.yieldCount
  }

  /** The code ends with a goto, return or throw: control cannot fall off its end. */
  predicate EndsInJump(code: seq<Instr>) {
    |code| > 0 && EndsFlow(code[|code| - 1])
  }

  /**
   * What compiling a statement or an expression may do to the state: it
   * appends code, labels, resume labels and exception-table entries, only
   * allocates fresh slots and frees every temporary it took, and leaves the
   * handler stack holding the same handlers, and the loop label stacks and
   * finally floor exactly as they were.
   */
  predicate Grew(a: State, b: State) {
    && a.code <= b.code
    && |a.labels| <= |b.labels|
    && Bodies(a.handlers) == Bodies(b.handlers)
    && a.continueLabels == b.continueLabels
    && a.breakLabels == b.breakLabels
    && a.bcfLevel == b.bcfLevel
    && a.yieldLabels <= b.yieldLabels
    && a.listCompCount <= b.listCompCount
    && a.tryCatch <= b.tryCatch
    && a.nextSlot <= b.nextSlot
    && a.locals == b.locals
    && (a.returnLocal.Some? ==> b.returnLocal == a.returnLocal)
    && (b.temporary == a.temporary || a.nextSlot <= b.temporary)
  }

  /** Growing under a pushed handler, then popping it, is growing. */
  lemma GrewUnderHandler(a: State, h: Handler, b: State, hs: seq<Handler>)
    requires Grew(a.(handlers := a.handlers + [h]), b)
    requires Bodies(hs) == Bodies(a.handlers)
    ensures Grew(a, b.(handlers := hs))
  {
  }

  /**
   * Grew, except that the field `temporary` may also have been pointed at
   * slot `value`, as `set(node, value)` does.
   */
  predicate GrewSetting(a: State, b: State, value: nat) {
    && Grew(a, b.(temporary := a.temporary))
    && (b.temporary == a.temporary || b.temporary == value || a.nextSlot <= b.temporary)
  }

  // ---------------------------------------------------------------------
  // The handler stack
  // ---------------------------------------------------------------------

  /** A handler on the stack: its protected body is open and one range is running. */
  predicate Running(h: Handler) {
    !h.bodyDone && |h.starts| == |h.ends| + 1
  }

  predicate AllRunning(hs: seq<Handler>) {
    forall i :: 0 <= i < |hs| ==> Running(hs[i])
  }

  /** Some handler on the stack belongs to a try/finally: its finally body is present. */
  predicate HasFinally(bs: seq<Option<seq<Stmt>>>) {
    exists i :: 0 <= i < |bs| && bs[i].Some?
  }

  /** The finally bodies on the stack are well formed. */
  predicate BodiesWf(bs: seq<Option<seq<Stmt>>>) {
    forall i :: 0 <= i < |bs| && bs[i].Some? ==> WfSuite(bs[i].value)
  }

  /** endExceptionHandlers: every handler on the stack ends a range at `at`. */
  function CloseRanges(hs: seq<Handler>, at: nat): (r: seq<Handler>)
    ensures |r| == |hs|
  {
    seq(|hs|, i requires 0 <= i < |hs| => hs[i].(ends := hs[i].ends + [at]))
  }

  /** restartExceptionHandlers: every handler on the stack starts a range at `at`. */
  function OpenRanges(hs: seq<Handler>, at: nat): (r: seq<Handler>)
    ensures |r| == |hs|
  {
    seq(|hs|, i requires 0 <= i < |hs| => hs[i].(starts := hs[i].starts + [at]))
  }

  /**
   * Ending and restarting every range keeps the same handlers running,
   * and leaves the code between the two offsets outside all of them: each
   * handler's last closed range ends at `a` and its running one starts at `b`.
   */
  lemma RangesReopened(hs: seq<Handler>, a: nat, b: nat)
    requires AllRunning(hs)
    ensures var r := OpenRanges(CloseRanges(hs, a), b);
      && AllRunning(r)
      && Bodies(r) == Bodies(hs)
      && forall i :: 0 <= i < |hs| ==>
           && r[i].starts == hs[i].starts + [b]
           && r[i].ends == hs[i].ends + [a]
  {
    var r := OpenRanges(CloseRanges(hs, a), b);
    assert Bodies(r) == Bodies(hs);
  }

  /** Popping a handler keeps the rest of the stack running, with the same bodies below. */
  lemma PopKeeps(hs: seq<Handler>)
    requires |hs| > 0 && AllRunning(hs) && BodiesWf(Bodies(hs))
    ensures AllRunning(hs[..|hs| - 1]) && BodiesWf(Bodies(hs[..|hs| - 1]))
    ensures Bodies(hs[..|hs| - 1]) == Bodies(hs)[..|hs| - 1]
    ensures Bodies(hs)[|hs| - 1] == hs[|hs| - 1].finalBody
  {
    var n := |hs| - 1;
    assert Bodies(hs[..n]) == Bodies(hs)[..n];
  }

  /** Pushing a running handler keeps the stack running, with its body on top. */
  lemma PushKeeps(hs: seq<Handler>, h: Handler)
    requires AllRunning(hs) && BodiesWf(Bodies(hs)) && Running(h)
    requires h.finalBody.Some? ==> WfSuite(h.finalBody.value)
    ensures AllRunning(hs + [h]) && BodiesWf(Bodies(hs + [h]))
    ensures Bodies(hs + [h]) == Bodies(hs) + [h.finalBody]
  {
    assert Bodies(hs + [h]) == Bodies(hs) + [h.finalBody];
  }

  // ---------------------------------------------------------------------
  // Slots
  // ---------------------------------------------------------------------

  /** getActiveLocals: for each slot below `n`, the type of the local it holds, if any. */
  function ActiveSlots(n: nat, locals: map<nat, string>, returnLocal: Option<nat>): (v: seq<Option<string>>)
    ensures |v| == n
    ensures forall i :: 0 <= i < n ==> (v[i].Some? <==> i in locals || returnLocal == Some(i))
  {
    seq(n, i => if i in locals then Some(locals[i]) else if returnLocal == Some(i) then Some(PyObjectType) else None)
  }

  /**
   * The slots saveAugTmps allocates, as augtmp1, augtmp2, ...: it takes
   * augtmpN first, so augtmp1 gets the highest slot.
   */
  function AugSlots(next: nat, count: nat): (t: seq<nat>)
    ensures |t| == count
    ensures forall k :: 0 <= k < count ==> t[k] == next + count - 1 - k
  {
    seq(count, k requires 0 <= k < count => next + count - 1 - k)
  }

  /** The aug temporaries are distinct slots, all at or above `next`. */
  lemma AugSlotsFresh(next: nat, count: nat)
    ensures Distinct(AugSlots(next, count))
    ensures forall k :: 0 <= k < count ==> next <= AugSlots(next, count)[k] < next + count
  {
  }

  /** How many operands an augmented target keeps in the aug temporaries: object and name or index, or object and three bounds. */
  function AugCount(t: Expr): nat {
    if t.Slice? then 4 else 2
  }

  /** `locals` with every slot of `t` holding a PyObject. */
  function WithTemps(locals: map<nat, string>, t: seq<nat>): map<nat, string> {
    locals + map s | s in t :: PyObjectType
  }

  /** Taking the aug temporaries at `next` makes live exactly the old locals and the `count` slots from `next`. */
  lemma AugTempsLive(locals: map<nat, string>, next: nat, count: nat)
    ensures forall s :: s in WithTemps(locals, AugSlots(next, count)) <==> s in locals || next <= s < next + count
  {
    var t := AugSlots(next, count);
    forall s | next <= s < next + count
      ensures s in t
    {
      assert t[next + count - 1 - s] == s;
    }
  }

  /** Freeing temporaries that were fresh when taken gives back the locals from before. */
  lemma TempsFreed(locals: map<nat, string>, t: seq<nat>)
    requires forall k :: 0 <= k < |t| ==> t[k] !in locals
    ensures WithTemps(locals, t) - (set s | s in t) == locals
  {
  }

  /** Freeing a temporary that was fresh when taken gives back the locals from before. */
  lemma TempFreed(locals: map<nat, string>, slot: nat, ty: string)
    requires slot !in locals
    ensures locals[slot := ty] - {slot} == locals
  {
  }

  /** Freeing two temporaries taken one after the other gives back the locals from before. */
  lemma TwoTempsFreed(locals: map<nat, string>, a: nat, b: nat, ty: string)
    requires a !in locals && b !in locals && a != b
    ensures locals[a := ty][b := ty] - {a} - {b} == locals
  {
  }

  /**
   * A temporary taken before the aug temporaries and freed after them
   * leaves just the aug temporaries behind.
   */
  lemma TempFreedUnder(locals: map<nat, string>, slot: nat, t: seq<nat>)
    requires slot !in locals && forall k :: 0 <= k < |t| ==> t[k] != slot
    ensures WithTemps(locals[slot := PyObjectType], t) - {slot} == WithTemps(locals, t)
  {
  }

  /** A temporary taken before some slots are freed, and freed after them. */
  lemma TempFreedAfter(locals: map<nat, string>, slot: nat, freed: set<nat>)
    requires slot !in locals
    ensures (locals[slot := PyObjectType] - freed) - {slot} == locals - freed
  {
  }

  /** The method that fetches a target's current value from its operands. */
  function Getter(t: Expr): string {
    if t.Attribute? then "__getattr__" else if t.Subscript? then "__getitem__" else "__getslice__"
  }

  /** The method that stores a value through a target's operands. */
  function Setter(t: Expr): string {
    if t.Attribute? then "__setattr__" else if t.Subscript? then "__setitem__" else "__setslice__"
  }

  /** The method that deletes through a target's operands. */
  function Deleter(t: Expr): string {
    if t.Attribute? then "__delattr__" else if t.Subscript? then "__delitem__" else "__delslice__"
  }

  // ---------------------------------------------------------------------
  // The `temporary` field, as written
  // ---------------------------------------------------------------------

  /**
   * Whether compiling `e` runs `set` on a target of its own: a list
   * comprehension stores its `append` method and its loop targets.
   */
  predicate StoresInside(e: Expr) {
    match e
    case ListComp(_, _) => true
    case BoolOp(_, vs) => exists i :: 0 <= i < |vs| && StoresInside(vs[i])
    case Compare(l, _, cs) => StoresInside(l) || exists i :: 0 <= i < |cs| && StoresInside(cs[i])
    case BinOp(l, _, r) => StoresInside(l) || StoresInside(r)
    case UnaryOp(_, o) => StoresInside(o)
    case Tuple(es) => exists i :: 0 <= i < |es| && StoresInside(es[i])
    case List(es) => exists i :: 0 <= i < |es| && StoresInside(es[i])
    case Subscript(v, i) => StoresInside(v) || StoresInside(i)
    case Slice(v, lo, up, step) =>
      || StoresInside(v)
      || (lo.Some? && StoresInside(lo.value))
      || (up.Some? && StoresInside(up.value))
      || (step.Some? && StoresInside(step.value))
    case Attribute(v, _) => StoresInside(v)
    case Call(f, args, kws) =>
      || StoresInside(f)
      || (exists i :: 0 <= i < |args| && StoresInside(args[i]))
      || (exists i :: 0 <= i < |kws| && StoresInside(kws[i].value))
    case _ => false
  }

  /** Whether some expression of `es` runs a `set` of its own. */
  predicate AnyStores(es: seq<Expr>) {
    exists i :: 0 <= i < |es| && StoresInside(es[i])
  }

  lemma AnyStoresSnoc(es: seq<Expr>, i: nat)
    requires i < |es|
    ensures AnyStores(es[..i + 1]) <==> AnyStores(es[..i]) || StoresInside(es[i])
  {
    assert es[..i + 1][i] == es[i];
    if AnyStores(es[..i + 1]) && !StoresInside(es[i]) {
      var j :| 0 <= j < i + 1 && StoresInside(es[..i + 1][j]);
      assert es[..i][j] == es[j];
    }
    if AnyStores(es[..i]) {
      var j :| 0 <= j < i && StoresInside(es[..i][j]);
      assert es[..i + 1][j] == es[j];
    }
  }

  lemma AnyStoresConcat(a: seq<Expr>, b: seq<Expr>)
    ensures AnyStores(a + b) <==> AnyStores(a) || AnyStores(b)
  {
    if AnyStores(a + b) {
      var j :| 0 <= j < |a + b| && StoresInside((a + b)[j]);
      if j >= |a| {
        assert b[j - |a|] == (a + b)[j];
      }
    }
    if AnyStores(a) {
      var j :| 0 <= j < |a| && StoresInside(a[j]);
      assert (a + b)[j] == a[j];
    }
    if AnyStores(b) {
      var j :| 0 <= j < |b| && StoresInside(b[j]);
      assert (a + b)[|a| + j] == b[j];
    }
  }

  /**
   * Two visits in a row: the field `temporary` is left at a slot taken
   * since the first began when either of them ran a `set`, and is
   * unchanged otherwise.
   */
  lemma TempChain(t0: nat, n0: nat, t1: nat, n1: nat, t2: nat, s1: bool, s2: bool)
    requires n0 <= n1
    requires if s1 then n0 <= t1 else t1 == t0
    requires if s2 then n1 <= t2 else t2 == t1
    ensures if s1 || s2 then n0 <= t2 else t2 == t0
  {
  }

  /** setLastI(idx): store the resume index in the frame's `f_lasti`. */
  function SetLastICode(idx: int): seq<Instr> {
    [ALoad(1), Push(IntConst(idx)), PutField("f_lasti")]
  }

  /** What a return leaves on the stack: the value kept in a local, or None. */
  function ReturnOperand(value: Option<nat>): Instr {
    if value.Some? then ALoad(value.value) else Push(StaticField("None"))
  }

  // ---------------------------------------------------------------------
  // visitName: the code for each kind of access
  // ---------------------------------------------------------------------

  function LoadNameCode(k: LoadKind, name: string): seq<Instr> {
    [ALoad(1)]
    + match k
      case LoadGlobal => [Push(StrConst(name)), Invoke("getglobal", 2, 1)]
      case LoadDeref(env) => [Push(IntConst(env)), Invoke("getderef", 2, 1)]
      case LoadFast(index) => [Push(IntConst(index)), Invoke("getlocal", 2, 1)]
      case LoadByName => [Push(StrConst(name)), Invoke("getname", 2, 1)]
  }

  function StoreNameCode(k: StoreKind, name: string, value: nat): seq<Instr> {
    [ALoad(1)]
    + match k
      case StoreGlobal => [Push(StrConst(name)), ALoad(value), Invoke("setglobal", 3, 0)]
      case StoreByName => [Push(StrConst(name)), ALoad(value), Invoke("setlocal", 3, 0)]
      case StoreDeref(env) => [Push(IntConst(env)), ALoad(value), Invoke("setderef", 3, 0)]
      case StoreFast(index) => [Push(IntConst(index)), ALoad(value), Invoke("setlocal", 3, 0)]
  }

  function DeleteNameCode(k: DeleteKind, name: string): seq<Instr> {
    [ALoad(1)]
    + match k
      case DeleteGlobal => [Push(StrConst(name)), Invoke("delglobal", 2, 0)]
      case DeleteByName => [Push(StrConst(name)), Invoke("dellocal", 2, 0)]
      case DeleteFast(index) => [Push(IntConst(index)), Invoke("dellocal", 2, 0)]
  }

  /** Name code holds no branch. */
  predicate Straight(code: seq<Instr>) {
    forall k :: 0 <= k < |code| ==> !IsBranch(code[k])
  }

  /** A load pushes exactly one value and pops nothing it did not push. */
  lemma LoadNameFits(k: LoadKind, name: string, d: nat)
    ensures Fits(LoadNameCode(k, name), d) && Effect(LoadNameCode(k, name)) == 1
    ensures Straight(LoadNameCode(k, name))
  {
    var c := LoadNameCode(k, name);
    assert |c| == 3 && c[0] == ALoad(1) && c[1].Push? && c[2].Invoke? && c[2].pops == 2 && c[2].pushes == 1;
    FitsShort(c, d);
    EffectShort(c);
  }

  /** A store leaves the stack as it was. */
  lemma StoreNameFits(k: StoreKind, name: string, value: nat, d: nat)
    ensures Fits(StoreNameCode(k, name, value), d) && Effect(StoreNameCode(k, name, value)) == 0
    ensures Straight(StoreNameCode(k, name, value))
  {
    var c := StoreNameCode(k, name, value);
    assert |c| == 4 && c[0] == ALoad(1) && c[1].Push? && c[2] == ALoad(value);
    assert c[3].Invoke? && c[3].pops == 3 && c[3].pushes == 0;
    FitsShort(c, d);
    EffectShort(c);
  }

  /** A delete leaves the stack as it was. */
  lemma DeleteNameFits(k: DeleteKind, name: string, d: nat)
    ensures Fits(DeleteNameCode(k, name), d) && Effect(DeleteNameCode(k, name)) == 0
    ensures Straight(DeleteNameCode(k, name))
  {
    var c := DeleteNameCode(k, name);
    assert |c| == 3 && c[0] == ALoad(1) && c[1].Push? && c[2].Invoke? && c[2].pops == 2 && c[2].pushes == 0;
    FitsShort(c, d);
    EffectShort(c);
  }

  /** The store reads the value from the slot it is given, after loading the frame. */
  lemma StoreNameReadsValue(sk: StoreKind, name: string, value: nat)
    ensures StoreNameCode(sk, name, value)[0] == ALoad(1)
    ensures StoreNameCode(sk, name, value)[2] == ALoad(value)
    ensures Count(StoreNameCode(sk, name, value), ALoad(value)) >= 1
  {
    var c := StoreNameCode(sk, name, value);
    assert c == [ALoad(1)] + c[1..];
    assert c[1..] == [c[1]] + [ALoad(value)] + [c[3]];
    CountAppend([ALoad(1)], c[1..], ALoad(value));
    CountAppend([c[1]], [ALoad(value)] + [c[3]], ALoad(value));
    CountAppend([ALoad(value)], [c[3]], ALoad(value));
  }

  /** The last element of a non-empty stack. */
  function Top(s: seq<Label>): Label
    requires |s| > 0
  {
    s[|s| - 1]
  }

  /** The temporary name `_[k]` of the k-th list comprehension, in decimal. */
  function Decimal(n: nat): (s: string)
    ensures |s| >= 1
    ensures forall i :: 0 <= i < |s| ==> '0' <= s[i] <= '9'
  {
    if n < 10 then [Digit(n)] else Decimal(n / 10) + [Digit(n % 10)]
  }

  function Digit(d: nat): (c: char)
    requires d < 10
    ensures '0' <= c <= '9'
  {
    ['0', '1', '2', '3', '4', '5', '6', '7', '8', '9'][d]
  }

  function ListCompName(k: nat): string {
    "_[" + Decimal(k) + "]"
  }
}
