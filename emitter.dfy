/**
 * The compiler's bookkeeping as values: the entries of the exception
 * handler stack with their ranges and the measure that bounds finally
 * inlining, the exception-table entries `addExceptionHandlers` registers,
 * and the straight-line instruction shapes of the aug-temporary,
 * saved-locals, string-array and closure-array sequences.
 */
module Emitter {
  import opened Wrappers
  import opened Syntax
  import opened Bytecode

  // ---------------------------------------------------------------------
  // Exception handlers
  // ---------------------------------------------------------------------

  /**
   * An entry of the exceptionHandlers stack: the offsets of the start and
   * end labels of the ranges it covers (each label is placed at the moment
   * it is added, so its offset is already fixed), whether its protected
   * body is done, and the finally body of a try/finally (None for a
   * try/except).
   */
  datatype Handler = Handler(starts: seq<nat>, ends: seq<nat>, bodyDone: bool,
                             finalBody: Option<seq<Stmt>>)

  /** What one handler adds to the termination measure: 1, plus the size of its finally body. */
  function BodyWeight(b: Option<seq<Stmt>>): nat {
    if b.Some? then 1 + SuiteSize(b.value) else 1
  }

  function BodiesWeight(bs: seq<Option<seq<Stmt>>>): nat {
    if bs == [] then 0 else BodiesWeight(bs[..|bs| - 1]) + BodyWeight(bs[|bs| - 1])
  }

  /** The finally body of each handler on a stack, innermost last. */
  function Bodies(hs: seq<Handler>): seq<Option<seq<Stmt>>> {
    seq(|hs|, i requires 0 <= i < |hs| => hs[i].finalBody)
  }

  /** The statements of a finally body that inlining it compiles: none without a body. */
  function ReachedBody(b: Option<seq<Stmt>>): seq<Stmt> {
    if b.Some? then b.value[..FirstExit(b.value)] else []
  }

  /**
   * What an exit down to `level` compiles: for each finally body above
   * `level`, innermost first, the statements of it that are compiled.
   */
  function Unwound(bs: seq<Option<seq<Stmt>>>, level: nat): seq<seq<Stmt>> {
    var n := if |bs| > level then |bs| - level else 0;
    seq(n, j requires 0 <= j < n => ReachedBody(bs[|bs| - 1 - j]))
  }

  /**
   * `popped` are the innermost handlers of a stack whose finally bodies are
   * `bs`, innermost first, each with its ranges closed and its body still
   * open, and `compiled[j]` is what inlining `popped[j]` compiled.
   */
  predicate PoppedFrom(popped: seq<Handler>, compiled: seq<seq<Stmt>>, bs: seq<Option<seq<Stmt>>>) {
    && |popped| <= |bs| && |compiled| == |popped|
    && forall j :: 0 <= j < |popped| ==>
         && popped[j].finalBody == bs[|bs| - 1 - j]
         && |popped[j].starts| == |popped[j].ends| && !popped[j].bodyDone
         && compiled[j] == ReachedBody(bs[|bs| - 1 - j])
  }

  /** Popping and inlining the next handler down extends `PoppedFrom`. */
  lemma PoppedFromStep(popped: seq<Handler>, compiled: seq<seq<Stmt>>, bs: seq<Option<seq<Stmt>>>,
                       h: Handler, c: seq<Stmt>)
    requires PoppedFrom(popped, compiled, bs) && |popped| < |bs|
    requires h.finalBody == bs[|bs| - 1 - |popped|] && |h.starts| == |h.ends| && !h.bodyDone
    requires c == ReachedBody(bs[|bs| - 1 - |popped|])
    ensures PoppedFrom(popped + [h], compiled + [c], bs)
  {
  }

  /** The size of all finally bodies a stack could still inline: the compiler's termination measure. */
  function Weight(hs: seq<Handler>): nat {
    BodiesWeight(Bodies(hs))
  }

  /** Pushing a handler adds its own weight; the stack below keeps its weight. */
  lemma WeightPush(hs: seq<Handler>, h: Handler)
    ensures Weight(hs + [h]) == Weight(hs) + BodyWeight(h.finalBody)
  {
    var bs := Bodies(hs + [h]);
    assert bs[..|hs|] == Bodies(hs);
  }

  /** The weight of a stack bounds the weight of any handler in it. */
  lemma {:induction false} WeightBounds(hs: seq<Handler>, k: nat)
    requires k < |hs|
    ensures BodyWeight(hs[k].finalBody) <= Weight(hs)
    ensures Weight(hs[..k]) + BodyWeight(hs[k].finalBody) <= Weight(hs)
  {
    var n := |hs| - 1;
    assert hs == hs[..n] + [hs[n]];
    WeightPush(hs[..n], hs[n]);
    if k < n {
      WeightBounds(hs[..n], k);
      assert hs[..n][..k] == hs[..k];
    } else {
      assert hs[..k] == hs[..n];
    }
  }

  /** Handlers below index j, together with handler j itself, weigh no more than the whole stack. */
  lemma {:induction false} BodiesWeightPrefix(bs: seq<Option<seq<Stmt>>>, j: nat)
    requires j < |bs|
    ensures BodiesWeight(bs[..j]) + BodyWeight(bs[j]) <= BodiesWeight(bs)
  {
    var n := |bs| - 1;
    if j < n {
      BodiesWeightPrefix(bs[..n], j);
      assert bs[..n][..j] == bs[..j];
    }
  }

  // ---------------------------------------------------------------------
  // addExceptionHandlers
  // ---------------------------------------------------------------------

  /** An exception-table entry: code in [start, end) jumps to the `handler` label on a Throwable. */
  datatype Range = Range(start: nat, end: nat, handler: Label)

  /** The entries registered for a closed handler: every pair of non-zero width, in order. */
  function Registered(starts: seq<nat>, ends: seq<nat>, handler: Label): seq<Range>
    requires |starts| == |ends|
  {
    if starts == [] then []
    else
      var n := |starts| - 1;
      Registered(starts[..n], ends[..n], handler)
      + (if starts[n] != ends[n] then [Range(starts[n], ends[n], handler)] else [])
  }

  /** Every registered entry is a pair of the handler whose start and end differ. */
  lemma {:induction false} RegisteredNonEmpty(starts: seq<nat>, ends: seq<nat>, handler: Label, r: Range)
    requires |starts| == |ends| && r in Registered(starts, ends, handler)
    ensures r.handler == handler && r.start != r.end
    ensures exists k :: 0 <= k < |starts| && r.start == starts[k] && r.end == ends[k]
  {
    var n := |starts| - 1;
    if r in Registered(starts[..n], ends[..n], handler) {
      RegisteredNonEmpty(starts[..n], ends[..n], handler, r);
      var k :| 0 <= k < n && r.start == starts[..n][k] && r.end == ends[..n][k];
      assert r.start == starts[k] && r.end == ends[k];
    } else {
      assert r == Range(starts[n], ends[n], handler);
    }
  }

  /** Every pair of the handler with distinct offsets is registered. */
  lemma {:induction false} RegisteredComplete(starts: seq<nat>, ends: seq<nat>, handler: Label, k: nat)
    requires |starts| == |ends| && k < |starts| && starts[k] != ends[k]
    ensures Range(starts[k], ends[k], handler) in Registered(starts, ends, handler)
  {
    var n := |starts| - 1;
    if k < n {
      RegisteredComplete(starts[..n], ends[..n], handler, k);
      assert starts[..n][k] == starts[k] && ends[..n][k] == ends[k];
    }
  }

  // ---------------------------------------------------------------------
  // saveAugTmps / restoreAugTmps
  // ---------------------------------------------------------------------

  /** Store the top |t| stack values, the topmost into t[|t|-1] first. */
  function StoreAll(t: seq<nat>): (code: seq<Instr>)
    ensures |code| == |t|
    ensures forall k :: 0 <= k < |t| ==> code[k] == AStore(t[|t| - 1 - k])
  {
    if t == [] then [] else [AStore(t[|t| - 1])] + StoreAll(t[..|t| - 1])
  }

  /** Load t[0], ..., t[|t|-1] in order. */
  function LoadAll(t: seq<nat>): (code: seq<Instr>)
    ensures |code| == |t|
    ensures forall k :: 0 <= k < |t| ==> code[k] == ALoad(t[k])
  {
    if t == [] then [] else LoadAll(t[..|t| - 1]) + [ALoad(t[|t| - 1])]
  }

  /** saveAugTmps with temporaries augtmp1.. = t[0].. */
  function SaveAugCode(t: seq<nat>): seq<Instr> {
    StoreAll(t) + LoadAll(t)
  }

  /** restoreAugTmps with temporaries augtmp1.. = t[0].. */
  function RestoreAugCode(t: seq<nat>): seq<Instr> {
    LoadAll(t)
  }

  /** The locals after binding t[k] to v[k], the last pair first. */
  function Bind<V>(locals: map<nat, V>, t: seq<nat>, v: seq<V>): map<nat, V>
    requires |t| == |v|
    decreases |t|
  {
    if t == [] then locals else Bind(locals[t[|t| - 1] := v[|v| - 1]], t[..|t| - 1], v[..|v| - 1])
  }

  predicate Distinct(t: seq<nat>) {
    forall i, j :: 0 <= i < j < |t| ==> t[i] != t[j]
  }

  lemma {:induction false} BindLookup<V>(locals: map<nat, V>, t: seq<nat>, v: seq<V>)
    requires |t| == |v| && Distinct(t)
    ensures forall k :: 0 <= k < |t| ==> t[k] in Bind(locals, t, v) && Bind(locals, t, v)[t[k]] == v[k]
    ensures forall s :: s in locals ==> s in Bind(locals, t, v)
    ensures forall s :: s in locals && s !in t ==> Bind(locals, t, v)[s] == locals[s]
    decreases |t|
  {
    if t != [] {
      var n := |t| - 1;
      BindLookup(locals[t[n] := v[n]], t[..n], v[..n]);
      forall k | 0 <= k < |t|
        ensures t[k] in Bind(locals, t, v) && Bind(locals, t, v)[t[k]] == v[k]
      {
        if k < n {
          assert t[..n][k] == t[k];
        } else {
          assert t[n] !in t[..n];
        }
      }
    }
  }

  lemma {:induction false} StoreAllExec<V>(t: seq<nat>, stack: seq<V>, v: seq<V>, locals: map<nat, V>)
    requires |t| == |v|
    ensures Exec(StoreAll(t), Machine(stack + v, locals)) == Some(Machine(stack, Bind(locals, t, v)))
  {
    if t != [] {
      var n := |t| - 1;
      var m := Machine(stack + v, locals);
      assert (stack + v)[..|stack + v| - 1] == stack + v[..n];
      assert Step(AStore(t[n]), m) == Some(Machine(stack + v[..n], locals[t[n] := v[n]]));
      StoreAllExec(t[..n], stack, v[..n], locals[t[n] := v[n]]);
      assert StoreAll(t)[1..] == StoreAll(t[..n]);
    } else {
      assert stack + v == stack;
    }
  }

  lemma {:induction false} LoadAllExec<V>(t: seq<nat>, stack: seq<V>, v: seq<V>, locals: map<nat, V>)
    requires |t| == |v|
    requires forall k :: 0 <= k < |t| ==> t[k] in locals && locals[t[k]] == v[k]
    ensures Exec(LoadAll(t), Machine(stack, locals)) == Some(Machine(stack + v, locals))
  {
    if t != [] {
      var n := |t| - 1;
      LoadAllExec(t[..n], stack, v[..n], locals);
      ExecAppend(LoadAll(t[..n]), [ALoad(t[n])], Machine(stack, locals));
      assert Exec([ALoad(t[n])], Machine(stack + v[..n], locals))
          == Some(Machine(stack + v[..n] + [v[n]], locals));
      assert stack + v[..n] + [v[n]] == stack + v;
    } else {
      assert stack + v == stack;
    }
  }

  /**
   * saveAugTmps leaves the operand stack as it found it, with the values
   * also stored in the temporaries.
   */
  lemma SaveAugRoundTrip<V>(t: seq<nat>, stack: seq<V>, v: seq<V>, locals: map<nat, V>)
    requires |t| == |v| && Distinct(t)
    ensures Exec(SaveAugCode(t), Machine(stack + v, locals)) == Some(Machine(stack + v, Bind(locals, t, v)))
  {
    StoreAllExec(t, stack, v, locals);
    ExecAppend(StoreAll(t), LoadAll(t), Machine(stack + v, locals));
    BindLookup(locals, t, v);
    LoadAllExec(t, stack, v, Bind(locals, t, v));
  }

  /** restoreAugTmps pushes back, in order, the values the temporaries hold. */
  lemma RestoreAugPushes<V>(t: seq<nat>, stack: seq<V>, v: seq<V>, locals: map<nat, V>)
    requires |t| == |v|
    requires forall k :: 0 <= k < |t| ==> t[k] in locals && locals[t[k]] == v[k]
    ensures Exec(RestoreAugCode(t), Machine(stack, locals)) == Some(Machine(stack + v, locals))
  {
    LoadAllExec(t, stack, v, locals);
  }

  /** Saving then, with any stack in between, restoring, pushes the saved values again. */
  lemma AugRoundTrip<V>(t: seq<nat>, stack: seq<V>, v: seq<V>, locals: map<nat, V>, later: seq<V>)
    requires |t| == |v| && Distinct(t)
    ensures var saved := Exec(SaveAugCode(t), Machine(stack + v, locals));
            && saved.Some?
            && Exec(RestoreAugCode(t), Machine(later, saved.value.locals)) == Some(Machine(later + v, saved.value.locals))
  {
    SaveAugRoundTrip(t, stack, v, locals);
    BindLookup(locals, t, v);
    RestoreAugPushes(t, later, v, Bind(locals, t, v));
  }

  // ---------------------------------------------------------------------
  // saveLocals / restoreLocals
  // ---------------------------------------------------------------------

  /** The copy of active local `i` into the saved array in slot `t`. */
  function SaveEntry(i: nat, t: nat): seq<Instr> {
    [ALoad(t), Push(IntConst(i)), ALoad(i), ArrayStore]
  }

  /** The entry as saveLocals writes it: slot 2222 is replaced by a null. */
  function SaveEntryAsWritten(i: nat, t: nat): seq<Instr> {
    [ALoad(t), Push(IntConst(i)), if i == 2222 then Push(Null) else ALoad(i), ArrayStore]
  }

  /** The two agree on every slot but 2222, whose value the written entry never reads. */
  lemma SaveEntrySlot2222(i: nat, t: nat)
    requires t != 2222
    ensures i != 2222 ==> SaveEntryAsWritten(i, t) == SaveEntry(i, t)
    ensures Count(SaveEntryAsWritten(2222, t), ALoad(2222)) == 0
    ensures Count(SaveEntry(2222, t), ALoad(2222)) == 1
  {
    CountNone(SaveEntryAsWritten(2222, t), ALoad(2222));
    var c := SaveEntry(2222, t);
    assert c == [c[0], c[1]] + [ALoad(2222)] + [ArrayStore];
    CountNone([c[0], c[1]], ALoad(2222));
    CountNone([ArrayStore], ALoad(2222));
    CountAppend([c[0], c[1]], [ALoad(2222)], ALoad(2222));
    CountAppend([c[0], c[1]] + [ALoad(2222)], [ArrayStore], ALoad(2222));
  }

  /** The copy of saved array element `i` back into local `i`, cast to its type. */
  function RestoreEntry(i: nat, ty: string, t: nat): seq<Instr> {
    [ALoad(t), Push(IntConst(i)), ArrayLoad, CheckCast(ty), AStore(i)]
  }

  function SaveEntries(active: seq<Option<string>>, t: nat): seq<Instr> {
    if active == [] then []
    else
      var i := |active| - 1;
      SaveEntries(active[..i], t) + (if active[i].Some? then SaveEntry(i, t) else [])
  }

  function RestoreEntries(active: seq<Option<string>>, t: nat): seq<Instr> {
    if active == [] then []
    else
      var i := |active| - 1;
      RestoreEntries(active[..i], t) + (if active[i].Some? then RestoreEntry(i, active[i].value, t) else [])
  }

  function SaveLocalsCode(active: seq<Option<string>>, t: nat): seq<Instr> {
    [Push(IntConst(|active|)), NewArray("java/lang/Object"), AStore(t)]
    + SaveEntries(active, t)
    + [ALoad(1), ALoad(t), PutField("f_savedlocals")]
  }

  function RestoreLocalsCode(active: seq<Option<string>>, t: nat): seq<Instr> {
    [ALoad(1), GetField("f_savedlocals"), AStore(t)] + RestoreEntries(active, t)
  }

  lemma {:induction false} SaveEntriesEffect(active: seq<Option<string>>, t: nat)
    ensures Effect(SaveEntries(active, t)) == 0
  {
    if active != [] {
      var i := |active| - 1;
      SaveEntriesEffect(active[..i], t);
      EffectShort(SaveEntry(i, t));
      EffectShort([]);
      EffectAppend(SaveEntries(active[..i], t), if active[i].Some? then SaveEntry(i, t) else []);
    }
  }

  lemma {:induction false} RestoreEntriesEffect(active: seq<Option<string>>, t: nat)
    ensures Effect(RestoreEntries(active, t)) == 0
  {
    if active != [] {
      var i := |active| - 1;
      RestoreEntriesEffect(active[..i], t);
      if active[i].Some? {
        EffectShort(RestoreEntry(i, active[i].value, t));
      }
      EffectShort([]);
      EffectAppend(RestoreEntries(active[..i], t),
                   if active[i].Some? then RestoreEntry(i, active[i].value, t) else []);
    }
  }

  /** Saving and restoring the locals leave the operand stack as it was. */
  lemma LocalsCodeEffect(active: seq<Option<string>>, t: nat)
    ensures Effect(SaveLocalsCode(active, t)) == 0
    ensures Effect(RestoreLocalsCode(active, t)) == 0
  {
    SaveEntriesEffect(active, t);
    RestoreEntriesEffect(active, t);
    var pre := [Push(IntConst(|active|)), NewArray("java/lang/Object"), AStore(t)];
    var post := [ALoad(1), ALoad(t), PutField("f_savedlocals")];
    var rpre := [ALoad(1), GetField("f_savedlocals"), AStore(t)];
    EffectShort(pre);
    EffectShort(post);
    EffectShort(rpre);
    EffectAppend(pre, SaveEntries(active, t));
    EffectAppend(pre + SaveEntries(active, t), post);
    EffectAppend(rpre, RestoreEntries(active, t));
  }

  /** `piece` occurs contiguously in `code`. */
  predicate Contains(code: seq<Instr>, piece: seq<Instr>) {
    exists k :: 0 <= k <= |code| && piece <= code[k..]
  }

  lemma ContainsAppend(a: seq<Instr>, b: seq<Instr>, piece: seq<Instr>)
    ensures Contains(a, piece) ==> Contains(a + b, piece)
    ensures Contains(b, piece) ==> Contains(a + b, piece)
  {
    if Contains(a, piece) {
      var k :| 0 <= k <= |a| && piece <= a[k..];
      assert (a + b)[k..] == a[k..] + b;
    }
    if Contains(b, piece) {
      var k :| 0 <= k <= |b| && piece <= b[k..];
      assert (a + b)[|a| + k..] == b[k..];
    }
  }

  /** Every active local is copied into the saved array under its own index, and copied back from it. */
  lemma {:induction false} ActiveLocalsSavedAndRestored(active: seq<Option<string>>, t1: nat, t2: nat, i: nat)
    requires i < |active| && active[i].Some?
    ensures Contains(SaveEntries(active, t1), SaveEntry(i, t1))
    ensures Contains(RestoreEntries(active, t2), RestoreEntry(i, active[i].value, t2))
  {
    var n := |active| - 1;
    if i < n {
      ActiveLocalsSavedAndRestored(active[..n], t1, t2, i);
      ContainsAppend(SaveEntries(active[..n], t1), if active[n].Some? then SaveEntry(n, t1) else [], SaveEntry(i, t1));
      ContainsAppend(RestoreEntries(active[..n], t2),
                     if active[n].Some? then RestoreEntry(n, active[n].value, t2) else [],
                     RestoreEntry(i, active[i].value, t2));
    } else {
      assert SaveEntry(i, t1)[0..] == SaveEntry(i, t1);
      assert RestoreEntry(i, active[i].value, t2)[0..] == RestoreEntry(i, active[i].value, t2);
      ContainsAppend(SaveEntries(active[..n], t1), SaveEntry(i, t1), SaveEntry(i, t1));
      ContainsAppend(RestoreEntries(active[..n], t2), RestoreEntry(i, active[i].value, t2),
                     RestoreEntry(i, active[i].value, t2));
    }
  }

  // ---------------------------------------------------------------------
  // makeStrings / makeClosure
  // ---------------------------------------------------------------------

  /** The store of names[i] at index i of the array in slot `t`. */
  function StringEntry(i: nat, name: string, t: nat): seq<Instr> {
    [ALoad(t), Push(IntConst(i)), Push(StrConst(name)), ArrayStore]
  }

  function StringEntries(names: seq<string>, t: nat): seq<Instr> {
    if names == [] then []
    else
      var i := |names| - 1;
      StringEntries(names[..i], t) + StringEntry(i, names[i], t)
  }

  /** makeStrings: a new String[n] holding names[i] at index i, left on the stack. */
  function StringsCode(names: seq<string>, t: nat): seq<Instr> {
    [Push(IntConst(|names|)), NewArray("java/lang/String"), AStore(t)] + StringEntries(names, t) + [ALoad(t)]
  }

  /** The string array code stores each names[i] under index i. */
  lemma {:induction false} StringEntriesShape(names: seq<string>, t: nat)
    ensures Effect(StringEntries(names, t)) == 0
    ensures forall i :: 0 <= i < |names| ==> Contains(StringEntries(names, t), StringEntry(i, names[i], t))
  {
    if names != [] {
      var i := |names| - 1;
      var prev := StringEntries(names[..i], t);
      StringEntriesShape(names[..i], t);
      EffectShort(StringEntry(i, names[i], t));
      EffectAppend(prev, StringEntry(i, names[i], t));
      forall j | 0 <= j < |names|
        ensures Contains(StringEntries(names, t), StringEntry(j, names[j], t))
      {
        if j < i {
          assert names[..i][j] == names[j];
          ContainsAppend(prev, StringEntry(i, names[i], t), StringEntry(j, names[j], t));
        } else {
          assert StringEntry(i, names[i], t)[0..] == StringEntry(i, names[i], t);
          ContainsAppend(prev, StringEntry(i, names[i], t), StringEntry(j, names[j], t));
        }
      }
    }
  }

  /** makeStrings leaves exactly the array on the stack. */
  lemma StringsCodeEffect(names: seq<string>, t: nat)
    ensures Effect(StringsCode(names, t)) == 1
  {
    StringEntriesShape(names, t);
    var pre := [Push(IntConst(|names|)), NewArray("java/lang/String"), AStore(t)];
    EffectShort(pre);
    EffectShort([ALoad(t)]);
    EffectAppend(pre, StringEntries(names, t));
    EffectAppend(pre + StringEntries(names, t), [ALoad(t)]);
  }

  /** The walk from the current frame up `distance - 1` f_back links. */
  function Backs(distance: nat): (code: seq<Instr>)
    ensures |code| == (if distance >= 1 then distance - 1 else 0)
    ensures forall k :: 0 <= k < |code| ==> code[k] == GetField("f_back")
  {
    if distance <= 1 then [] else Backs(distance - 1) + [GetField("f_back")]
  }

  function ClosureEntry(i: nat, env: nat, distance: nat, t: nat): seq<Instr> {
    [ALoad(t), Push(IntConst(i)), ALoad(1)] + Backs(distance)
    + [Push(IntConst(env)), Invoke("getclosure", 2, 1), ArrayStore]
  }

  function ClosureEntries(envs: seq<nat>, distance: nat, t: nat): seq<Instr> {
    if envs == [] then []
    else
      var i := |envs| - 1;
      ClosureEntries(envs[..i], distance, t) + ClosureEntry(i, envs[i], distance, t)
  }

  /** makeClosure: a new PyObject[n] whose i-th cell is the enclosing scope's cell envs[i]. */
  function ClosureCode(envs: seq<nat>, distance: nat, t: nat): seq<Instr> {
    [Push(IntConst(|envs|)), NewArray("org/python/core/PyObject"), AStore(t)]
    + ClosureEntries(envs, distance, t) + [ALoad(t)]
  }

  lemma {:induction false} CountAll(code: seq<Instr>, i: Instr)
    requires forall k :: 0 <= k < |code| ==> code[k] == i
    ensures Count(code, i) == |code|
  {
    if code != [] {
      CountAll(code[1..], i);
    }
  }

  lemma {:induction false} CountNone(code: seq<Instr>, i: Instr)
    requires forall k :: 0 <= k < |code| ==> code[k] != i
    ensures Count(code, i) == 0
  {
    if code != [] {
      CountNone(code[1..], i);
    }
  }

  lemma {:induction false} BacksEffect(distance: nat)
    ensures Effect(Backs(distance)) == 0
  {
    if distance > 1 {
      BacksEffect(distance - 1);
      EffectShort([GetField("f_back")]);
      EffectAppend(Backs(distance - 1), [GetField("f_back")]);
    }
  }

  lemma ClosureEntryShape(i: nat, env: nat, distance: nat, t: nat)
    ensures Effect(ClosureEntry(i, env, distance, t)) == 0
    ensures Count(ClosureEntry(i, env, distance, t), GetField("f_back")) == (if distance >= 1 then distance - 1 else 0)
  {
    var pre := [ALoad(t), Push(IntConst(i)), ALoad(1)];
    var post := [Push(IntConst(env)), Invoke("getclosure", 2, 1), ArrayStore];
    assert ClosureEntry(i, env, distance, t) == pre + Backs(distance) + post;
    assert Effect(pre + Backs(distance) + post) == 0 by {
      BacksEffect(distance);
      EffectShort(pre);
      EffectShort(post);
      EffectAppend(pre, Backs(distance));
      EffectAppend(pre + Backs(distance), post);
    }
    assert Count(pre + Backs(distance) + post, GetField("f_back")) == (if distance >= 1 then distance - 1 else 0) by {
      BacksEffect(distance);
      CountAll(Backs(distance), GetField("f_back"));
      CountNone(pre, GetField("f_back"));
      CountNone(post, GetField("f_back"));
      CountAppend(pre, Backs(distance), GetField("f_back"));
      CountAppend(pre + Backs(distance), post, GetField("f_back"));
    }
  }

  lemma {:induction false} ClosureEntriesShape(envs: seq<nat>, distance: nat, t: nat)
    ensures Effect(ClosureEntries(envs, distance, t)) == 0
    ensures Count(ClosureEntries(envs, distance, t), GetField("f_back"))
            == |envs| * (if distance >= 1 then distance - 1 else 0)
  {
    if envs != [] {
      var i := |envs| - 1;
      ClosureEntriesShape(envs[..i], distance, t);
      ClosureEntryShape(i, envs[i], distance, t);
      EffectAppend(ClosureEntries(envs[..i], distance, t), ClosureEntry(i, envs[i], distance, t));
      CountAppend(ClosureEntries(envs[..i], distance, t), ClosureEntry(i, envs[i], distance, t), GetField("f_back"));
    }
  }

  /**
   * The closure array is the only value left on the stack, and the code
   * walks `distance - 1` frames up once per free variable.
   */
  lemma ClosureCodeShape(envs: seq<nat>, distance: nat, t: nat)
    ensures Effect(ClosureCode(envs, distance, t)) == 1
    ensures Count(ClosureCode(envs, distance, t), GetField("f_back"))
            == |envs| * (if distance >= 1 then distance - 1 else 0)
  {
    var pre := [Push(IntConst(|envs|)), NewArray("org/python/core/PyObject"), AStore(t)];
    ClosureEntriesShape(envs, distance, t);
    EffectShort(pre);
    EffectShort([ALoad(t)]);
    EffectAppend(pre, ClosureEntries(envs, distance, t));
    EffectAppend(pre + ClosureEntries(envs, distance, t), [ALoad(t)]);
    CountNone(pre, GetField("f_back"));
    CountNone([ALoad(t)], GetField("f_back"));
    CountAppend(pre, ClosureEntries(envs, distance, t), GetField("f_back"));
    CountAppend(pre + ClosureEntries(envs, distance, t), [ALoad(t)], GetField("f_back"));
  }
}
