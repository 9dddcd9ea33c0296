/**
 * `CodeCompiler`: the visitor that turns a resolved syntax tree into
 * JVM instructions for one code object.
 *
 * The mutable fields of the Java class (its `Code`, the label stacks,
 * the exception handler stack, the yield table, the slot allocator, the
 * aug-assignment temporaries) are the one record `st`; every method that
 * changes them says exactly how, and every compile method promises that
 * the state only grew (`Grew`), that the operand stack is left as the
 * visit of that node leaves it, and, for statements, that its "exit"
 * result is exactly `Exits` of the statement.  The ghost `depth` is the
 * operand stack height and `labelDepth` the height each label expects.
 */
module Compiler {
  import opened Wrappers
  import opened Syntax
  import opened Bytecode
  import opened Names
  import opened Emitter
  import opened CompilerState

  /** What `parse` is handed: a module, an interactive statement, a function or class suite, or an eval expression. */
  datatype CodeUnit =
    | ModuleUnit(body: seq<Stmt>)
    | InteractiveUnit(body: seq<Stmt>)
    | SuiteUnit(body: seq<Stmt>)
    | ExpressionUnit(value: Expr)

  predicate WfUnit(u: CodeUnit) {
    match u
    case ExpressionUnit(e) => WfExpr(e)
    case _ => WfSuite(u.body)
  }

  /** The number of `makeException` arguments visitRaise passes: type, instance and traceback, as far as present. */
  function RaiseArity(s: Stmt): (n: nat)
    requires s.Raise?
    ensures n <= 3
    ensures n == 0 <==> s.exc.None?
  {
    if s.exc.None? then 0 else if s.inst.None? then 1 else if s.tback.None? then 2 else 3
  }

  /**
   * Where a statement is compiled: `loop` when break and continue may jump
   * (a loop encloses it and the finally bodies they would inline compile),
   * `fin` when a try/finally encloses it, and `ret` when the finally bodies
   * a return would inline compile.
   */
  datatype Ctx = Ctx(loop: bool, fin: bool, ret: bool)

  /** Everything that compiles in context `c` compiles in `d`. */
  predicate Within(c: Ctx, d: Ctx) {
    (c.loop ==> d.loop) && (d.fin ==> c.fin) && (c.ret ==> d.ret)
  }

  /** The context of a body protected by a handler with finally body `fin`. */
  function Protected(c: Ctx, fin: Option<seq<Stmt>>): Ctx {
    if fin.Some? then c.(fin := true) else c
  }

  /** The context of a finally body: no loop, under a try/finally, and no return out of it. */
  const FinallyCtx := Ctx(false, true, false)

  class CodeCompiler {
    const fastLocals: bool
    const isGenerator: bool
    const printResults: bool
    const className: Option<string>
    const symbols: map<string, SymInfo>
    const optimizeGlobals: bool
    const trueDivision: bool

    var st: State
    ghost var depth: int
    ghost var labelDepth: seq<int>

    ghost predicate Valid()
      reads this
    {
      && StateOk(st)
      && 0 <= depth
      && |labelDepth| == |st.labels|
      && AllRunning(st.handlers)
      && BodiesWf(Bodies(st.handlers))
    }

    /** Since the call began: still valid, the state only grew, and no label changed its expected depth. */
    twostate predicate Kept()
      reads this
    {
      Valid() && Grew(old(st), st) && old(labelDepth) <= labelDepth
    }

    /** Kept, except that `set` may have pointed the field `temporary` at slot `value`. */
    twostate predicate KeptSetting(value: nat)
      reads this
    {
      Valid() && GrewSetting(old(st), st, value) && old(labelDepth) <= labelDepth
    }

    /**
     * What visiting an expression did to the field `temporary`: a visit
     * that runs a `set` of its own leaves it at a slot taken during the
     * visit, and any other visit leaves it alone.
     */
    twostate predicate TempSet(stores: bool)
      reads this
    {
      if stores then old(st.nextSlot) <= st.temporary else st.temporary == old(st.temporary)
    }

    /**
     * The compiler for one code object.  Globals are loaded directly
     * (`optimizeGlobals`) only in a function whose scope has neither an
     * unqualified exec nor an import-star.
     */
    constructor(fastLocals: bool, isGenerator: bool, printResults: bool, className: Option<string>,
                symbols: map<string, SymInfo>, hasExec: bool, importStar: bool, trueDivision: bool)
      ensures Valid() && st == Initial() && depth == 0 && labelDepth == []
      ensures this.fastLocals == fastLocals && this.isGenerator == isGenerator
      ensures this.printResults == printResults && this.className == className
      ensures this.symbols == symbols && this.trueDivision == trueDivision
      ensures this.optimizeGlobals == (fastLocals && !hasExec && !importStar)
    {
      this.fastLocals := fastLocals;
      this.isGenerator := isGenerator;
      this.printResults := printResults;
      this.className := className;
      this.symbols := symbols;
      this.optimizeGlobals := fastLocals && !hasExec && !importStar;
      this.trueDivision := trueDivision;
      st := Initial();
      depth := 0;
      labelDepth := [];
    }

    // -------------------------------------------------------------------
    // Emitting code and placing labels
    // -------------------------------------------------------------------

    method Emit(i: Instr)
      requires Valid() && !IsBranch(i) && Pops(i) <= depth
      modifies this
      ensures Valid()
      ensures st == old(st).(code := old(st.code) + [i])
      ensures depth == old(depth) - Pops(i) + Pushes(i) && labelDepth == old(labelDepth)
    {
      st := st.(code := st.code + [i]);
      depth := depth - Pops(i) + Pushes(i);
    }

    /** Straight-line code that never pops more than the stack holds. */
    method EmitSeq(c: seq<Instr>)
      requires Valid() && Straight(c) && Fits(c, depth)
      modifies this
      ensures Valid()
      ensures st == old(st).(code := old(st.code) + c)
      ensures depth == old(depth) + Effect(c) && labelDepth == old(labelDepth)
    {
      FitsEffect(c, depth);
      st := st.(code := st.code + c);
      depth := depth + Effect(c);
    }

    /** A branch to a label that expects the stack height left after the branch pops. */
    method Jump(i: Instr)
      requires Valid() && IsBranch(i) && Pops(i) <= depth
      requires i.target < |labelDepth| && labelDepth[i.target] == depth - Pops(i)
      modifies this
      ensures Valid()
      ensures st == old(st).(code := old(st.code) + [i])
      ensures depth == old(depth) - Pops(i) && labelDepth == old(labelDepth)
    {
      st := st.(code := st.code + [i]);
      depth := depth - Pops(i);
    }

    /** The goto of a break or continue; its target's expected height is not checked. */
    method JumpOut(l: Label)
      requires Valid()
      modifies this
      ensures Valid()
      ensures st == old(st).(code := old(st.code) + [Goto(l)])
      ensures depth == old(depth) && labelDepth == old(labelDepth)
    {
      st := st.(code := st.code + [Goto(l)]);
    }

    /** A new, unplaced label that expects stack height `d`. */
    method NewLabel(ghost d: int) returns (l: Label)
      requires Valid()
      modifies this
      ensures Valid()
      ensures l == |old(st.labels)|
      ensures st == old(st).(labels := old(st.labels) + [None])
      ensures labelDepth == old(labelDepth) + [d] && depth == old(depth)
    {
      l := |st.labels|;
      st := st.(labels := st.labels + [None]);
      labelDepth := labelDepth + [d];
    }

    /**
     * Place a label at the current offset where control also falls
     * through: the fall-through arrives at the height the label's jumps
     * arrive at.
     */
    method Place(l: Label)
      requires Valid() && l < |st.labels| && depth == labelDepth[l]
      modifies this
      ensures Valid()
      ensures st == old(st).(labels := old(st.labels)[l := Some(|old(st.code)|)])
      ensures depth == old(depth) && labelDepth == old(labelDepth)
    {
      st := st.(labels := st.labels[l := Some(|st.code|)]);
    }

    /**
     * Place a label control cannot fall through to, right after a goto,
     * return or throw (a handler entry, the target of a backward jump):
     * the code after it runs at the label's height.
     */
    method PlaceAfterJump(l: Label)
      requires Valid() && l < |st.labels| && labelDepth[l] >= 0
      requires |st.code| > 0 && EndsFlow(st.code[|st.code| - 1])
      modifies this
      ensures Valid()
      ensures st == old(st).(labels := old(st.labels)[l := Some(|old(st.code)|)])
      ensures depth == old(labelDepth)[l] && labelDepth == old(labelDepth)
    {
      st := st.(labels := st.labels[l := Some(|st.code|)]);
      depth := labelDepth[l];
    }

    // -------------------------------------------------------------------
    // Slots
    // -------------------------------------------------------------------

    /** getLocal: a slot no live local holds, remembered with its type. */
    method GetLocal(ty: string) returns (slot: nat)
      requires Valid()
      modifies this
      ensures Valid()
      ensures slot == old(st.nextSlot) && 2 <= slot && slot !in old(st.locals)
      ensures st == old(st).(nextSlot := slot + 1, locals := old(st.locals)[slot := ty])
      ensures depth == old(depth) && labelDepth == old(labelDepth)
    {
      slot := st.nextSlot;
      st := st.(nextSlot := slot + 1, locals := st.locals[slot := ty]);
    }

    /** freeLocal: the slot holds no live local any more. */
    method FreeLocal(slot: nat)
      requires Valid()
      modifies this
      ensures Valid()
      ensures st == old(st).(locals := old(st.locals) - {slot})
      ensures depth == old(depth) && labelDepth == old(labelDepth)
    {
      st := st.(locals := st.locals - {slot});
    }

    /** storeTop: pop the top of the stack into a fresh PyObject temporary. */
    method StoreTop() returns (slot: nat)
      requires Valid() && depth >= 1
      modifies this
      ensures Valid()
      ensures slot == old(st.nextSlot) && 2 <= slot && slot !in old(st.locals)
      ensures st == old(st).(code := old(st.code) + [AStore(slot)], nextSlot := slot + 1,
                             locals := old(st.locals)[slot := PyObjectType])
      ensures depth == old(depth) - 1 && labelDepth == old(labelDepth)
    {
      slot := GetLocal(PyObjectType);
      Emit(AStore(slot));
    }

    /** getReturnLocal: one slot per code object, taken the first time it is asked for. */
    method GetReturnLocal() returns (slot: nat)
      requires Valid()
      modifies this
      ensures Valid()
      ensures old(st.returnLocal).Some? ==> slot == old(st.returnLocal).value && st == old(st)
      ensures old(st.returnLocal).None? ==>
        slot == old(st.nextSlot) && st == old(st).(nextSlot := slot + 1, returnLocal := Some(slot))
      ensures st.returnLocal == Some(slot)
      ensures depth == old(depth) && labelDepth == old(labelDepth)
    {
      if st.returnLocal.Some? {
        slot := st.returnLocal.value;
      } else {
        slot := st.nextSlot;
        st := st.(nextSlot := slot + 1, returnLocal := Some(slot));
      }
    }

    /** setLastI: record the resume index in the frame. */
    method SetLastI(idx: int)
      requires Valid()
      modifies this
      ensures Valid()
      ensures st == old(st).(code := old(st.code) + SetLastICode(idx))
      ensures depth == old(depth) && labelDepth == old(labelDepth)
    {
      var c := SetLastICode(idx);
      assert |c| == 3 && c[0] == ALoad(1) && c[1].Push? && c[2] == PutField("f_lasti");
      FitsShort(c, depth);
      EffectShort(c);
      EmitSeq(c);
    }

    // -------------------------------------------------------------------
    // Loops and the exception handler stack
    // -------------------------------------------------------------------

    /**
     * beginLoop: push a continue and a break label, both expecting height
     * `d`, and make the current handler stack the floor that break and
     * continue unwind to.
     */
    method BeginLoop(ghost d: int) returns (saved: nat)
      requires Valid()
      modifies this
      ensures Valid()
      ensures saved == old(st.bcfLevel)
      ensures st == old(st).(labels := old(st.labels) + [None, None],
                             continueLabels := old(st.continueLabels) + [|old(st.labels)|],
                             breakLabels := old(st.breakLabels) + [|old(st.labels)| + 1],
                             bcfLevel := |old(st.handlers)|)
      ensures labelDepth == old(labelDepth) + [d, d] && depth == old(depth)
    {
      saved := st.bcfLevel;
      var n := |st.labels|;
      st := st.(labels := st.labels + [None, None],
                continueLabels := st.continueLabels + [n],
                breakLabels := st.breakLabels + [n + 1],
                bcfLevel := |st.handlers|);
      labelDepth := labelDepth + [d, d];
    }

    /** finishLoop: pop both label stacks and restore the saved floor. */
    method FinishLoop(saved: nat)
      requires Valid() && |st.continueLabels| > 0 && |st.breakLabels| > 0
      modifies this
      ensures Valid()
      ensures st == old(st).(continueLabels := old(st.continueLabels)[..|old(st.continueLabels)| - 1],
                             breakLabels := old(st.breakLabels)[..|old(st.breakLabels)| - 1],
                             bcfLevel := saved)
      ensures depth == old(depth) && labelDepth == old(labelDepth)
    {
      st := st.(continueLabels := st.continueLabels[..|st.continueLabels| - 1],
                breakLabels := st.breakLabels[..|st.breakLabels| - 1],
                bcfLevel := saved);
    }

    /** inFinallyBody: some handler on the stack belongs to a try/finally. */
    method InFinallyBody() returns (b: bool)
      ensures b == HasFinally(Bodies(st.handlers))
    {
      var i := 0;
      while i < |st.handlers|
        invariant 0 <= i <= |st.handlers|
        invariant forall j :: 0 <= j < i ==> Bodies(st.handlers)[j].None?
      {
        if st.handlers[i].finalBody.Some? {
          assert Bodies(st.handlers)[i].Some?;
          return true;
        }
        i := i + 1;
      }
      return false;
    }

    /** Push a handler whose range is running onto the exceptionHandlers stack. */
    method PushHandler(h: Handler)
      requires Valid() && Running(h) && (h.finalBody.Some? ==> WfSuite(h.finalBody.value))
      modifies this
      ensures Valid()
      ensures st == old(st).(handlers := old(st.handlers) + [h])
      ensures Bodies(st.handlers) == Bodies(old(st.handlers)) + [h.finalBody]
      ensures Weight(st.handlers) == Weight(old(st.handlers)) + BodyWeight(h.finalBody)
      ensures depth == old(depth) && labelDepth == old(labelDepth)
    {
      PushKeeps(st.handlers, h);
      WeightPush(st.handlers, h);
      st := st.(handlers := st.handlers + [h]);
    }

    /** Pop the innermost handler off the exceptionHandlers stack. */
    method PopHandler() returns (h: Handler)
      requires Valid() && |st.handlers| > 0
      modifies this
      ensures Valid()
      ensures h == old(st.handlers)[|old(st.handlers)| - 1] && Running(h)
      ensures h.finalBody.Some? ==> WfSuite(h.finalBody.value)
      ensures Bodies(old(st.handlers)) == Bodies(st.handlers) + [h.finalBody]
      ensures st == old(st).(handlers := old(st.handlers)[..|old(st.handlers)| - 1])
      ensures depth == old(depth) && labelDepth == old(labelDepth)
    {
      var n := |st.handlers| - 1;
      PopKeeps(st.handlers);
      h := st.handlers[n];
      assert Bodies(st.handlers) == Bodies(st.handlers[..n]) + [h.finalBody];
      st := st.(handlers := st.handlers[..n]);
    }

    /** addExceptionHandlers: register every non-empty range of `h` with the handler label. */
    method AddExceptionHandlers(h: Handler, handlerStart: Label)
      requires Valid() && |h.starts| == |h.ends|
      modifies this
      ensures Valid()
      ensures st == old(st).(tryCatch := old(st.tryCatch) + Registered(h.starts, h.ends, handlerStart))
      ensures depth == old(depth) && labelDepth == old(labelDepth)
    {
      var i := 0;
      while i < |h.starts|
        invariant 0 <= i <= |h.starts|
        invariant st == old(st).(tryCatch := old(st.tryCatch) + Registered(h.starts[..i], h.ends[..i], handlerStart))
        invariant depth == old(depth) && labelDepth == old(labelDepth)
      {
        assert h.starts[..i + 1][..i] == h.starts[..i];
        assert h.ends[..i + 1][..i] == h.ends[..i];
        if h.starts[i] != h.ends[i] {
          st := st.(tryCatch := st.tryCatch + [Range(h.starts[i], h.ends[i], handlerStart)]);
        }
        i := i + 1;
      }
      assert h.starts[..i] == h.starts && h.ends[..i] == h.ends;
    }

    // -------------------------------------------------------------------
    // Generators: saving and restoring the locals around a yield
    // -------------------------------------------------------------------

    /** The loop of saveLocals: one array store per active local. */
    method EmitSaveEntries(active: seq<Option<string>>, t: nat)
      requires Valid()
      modifies this
      ensures Valid()
      ensures st == old(st).(code := old(st.code) + SaveEntries(active, t))
      ensures depth == old(depth) && labelDepth == old(labelDepth)
    {
      var i := 0;
      while i < |active|
        invariant 0 <= i <= |active|
        invariant st == old(st).(code := old(st.code) + SaveEntries(active[..i], t))
        invariant depth == old(depth) && labelDepth == old(labelDepth)
      {
        assert active[..i + 1][..i] == active[..i];
        if active[i].Some? {
          st := st.(code := st.code + SaveEntry(i, t));
        }
        i := i + 1;
      }
      assert active[..i] == active;
    }

    /** The loop of restoreLocals: one cast and store back per active local. */
    method EmitRestoreEntries(active: seq<Option<string>>, t: nat)
      requires Valid()
      modifies this
      ensures Valid()
      ensures st == old(st).(code := old(st.code) + RestoreEntries(active, t))
      ensures depth == old(depth) && labelDepth == old(labelDepth)
    {
      var i := 0;
      while i < |active|
        invariant 0 <= i <= |active|
        invariant st == old(st).(code := old(st.code) + RestoreEntries(active[..i], t))
        invariant depth == old(depth) && labelDepth == old(labelDepth)
      {
        assert active[..i + 1][..i] == active[..i];
        if active[i].Some? {
          st := st.(code := st.code + RestoreEntry(i, active[i].value, t));
        }
        i := i + 1;
      }
      assert active[..i] == active;
    }

    /** saveLocals: copy every active local into a new array stored in the frame's f_savedlocals. */
    method SaveLocals() returns (ghost t: nat)
      requires Valid()
      modifies this
      ensures Valid()
      ensures t == old(st.nextSlot)
      ensures st == old(st).(code := old(st.code)
                                     + SaveLocalsCode(ActiveSlots(old(st.nextSlot), old(st.locals), old(st.returnLocal)), t),
                             nextSlot := t + 1)
      ensures depth == old(depth) && labelDepth == old(labelDepth)
    {
      var active := ActiveSlots(st.nextSlot, st.locals, st.returnLocal);
      var c0 := st.code;
      var tmp := GetLocal("[java/lang/Object");
      t := tmp;
      var pre := [Push(IntConst(|active|)), NewArray("java/lang/Object"), AStore(tmp)];
      st := st.(code := st.code + pre);
      EmitSaveEntries(active, tmp);
      var post := [ALoad(1), ALoad(tmp), PutField("f_savedlocals")];
      st := st.(code := st.code + post);
      FreeLocal(tmp);
      assert st.locals == old(st.locals);
      assert st.code == c0 + SaveLocalsCode(active, tmp);
    }

    /**
     * restoreLocals: end every handler's range, copy the saved array back
     * into the active locals, then start a new range for every handler,
     * so the restoring code is protected by none of them.
     */
    method RestoreLocals() returns (ghost t: nat)
      requires Valid()
      modifies this
      ensures Valid()
      ensures t == old(st.nextSlot)
      ensures var a := |old(st.code)|;
              var c := RestoreLocalsCode(ActiveSlots(old(st.nextSlot), old(st.locals), old(st.returnLocal)), t);
              st == old(st).(code := old(st.code) + c, nextSlot := t + 1,
                             handlers := OpenRanges(CloseRanges(old(st.handlers), a), a + |c|))
      ensures depth == old(depth) && labelDepth == old(labelDepth)
    {
      var a := |st.code|;
      var hs := st.handlers;
      var active := ActiveSlots(st.nextSlot, st.locals, st.returnLocal);
      var c0 := st.code;
      st := st.(code := st.code + [ALoad(1), GetField("f_savedlocals")]);
      var tmp := GetLocal("[java/lang/Object");
      t := tmp;
      st := st.(code := st.code + [AStore(tmp)]);
      EmitRestoreEntries(active, tmp);
      FreeLocal(tmp);
      assert st.locals == old(st.locals);
      assert st.code == c0 + RestoreLocalsCode(active, tmp);
      RangesReopened(hs, a, |st.code|);
      st := st.(handlers := OpenRanges(CloseRanges(hs, a), |st.code|));
    }

    /**
     * The suspension point of a yield: record the resume index, return the
     * value on the stack, and place the label the generator resumes at.
     */
    method Suspend() returns (restart: Label)
      requires Valid() && depth >= 1
      modifies this
      ensures Valid()
      ensures restart == |old(st.labels)|
      ensures st == old(st).(code := old(st.code) + SetLastICode(old(st.yieldCount) + 1) + [Instr.Return],
                             yieldCount := old(st.yieldCount) + 1,
                             yieldLabels := old(st.yieldLabels) + [restart],
                             labels := old(st.labels) + [Some(|old(st.code)| + 4)])
      ensures depth == old(depth) - 1 && labelDepth == old(labelDepth) + [old(depth) - 1]
    {
      restart := |st.labels|;
      st := st.(code := st.code + SetLastICode(st.yieldCount + 1) + [Instr.Return],
                yieldCount := st.yieldCount + 1,
                yieldLabels := st.yieldLabels + [restart],
                labels := st.labels + [Some(|st.code| + 4)]);
      depth := depth - 1;
      labelDepth := labelDepth + [depth];
    }

    // -------------------------------------------------------------------
    // Aug-assignment temporaries, string and closure arrays
    // -------------------------------------------------------------------

    /**
     * saveAugTmps: pop the top `count` values into fresh temporaries
     * augtmp1..augtmpN (the topmost into augtmpN) and push them back in
     * order, so they stay both on the stack and in the temporaries.
     */
    method SaveAugTmps(count: nat)
      requires Valid() && 1 <= count <= 4 && count <= depth
      modifies this
      ensures Valid()
      ensures var t := AugSlots(old(st.nextSlot), count);
              st == old(st).(code := old(st.code) + SaveAugCode(t), augTmps := t,
                             nextSlot := old(st.nextSlot) + count,
                             locals := WithTemps(old(st.locals), t))
      ensures depth == old(depth) && labelDepth == old(labelDepth)
    {
      var t := AugSlots(st.nextSlot, count);
      AugSlotsFresh(st.nextSlot, count);
      AugTempsLive(st.locals, st.nextSlot, count);
      st := st.(code := st.code + SaveAugCode(t), augTmps := t,
                nextSlot := st.nextSlot + count, locals := WithTemps(st.locals, t));
    }

    /** restoreAugTmps: push augtmp1..augtmpN back and free them. */
    method RestoreAugTmps(count: nat)
      requires Valid() && |st.augTmps| == count
      modifies this
      ensures Valid()
      ensures st == old(st).(code := old(st.code) + RestoreAugCode(old(st.augTmps)),
                             locals := old(st.locals) - (set s | s in old(st.augTmps)))
      ensures depth == old(depth) + count && labelDepth == old(labelDepth)
    {
      st := st.(code := st.code + RestoreAugCode(st.augTmps),
                locals := st.locals - (set s | s in st.augTmps));
      depth := depth + count;
    }

    /** The loop of makeStrings: one array store per name. */
    method EmitStringEntries(names: seq<string>, t: nat)
      requires Valid()
      modifies this
      ensures Valid()
      ensures st == old(st).(code := old(st.code) + StringEntries(names, t))
      ensures depth == old(depth) && labelDepth == old(labelDepth)
    {
      var i := 0;
      while i < |names|
        invariant 0 <= i <= |names|
        invariant st == old(st).(code := old(st.code) + StringEntries(names[..i], t))
        invariant depth == old(depth) && labelDepth == old(labelDepth)
      {
        assert names[..i + 1][..i] == names[..i];
        st := st.(code := st.code + StringEntry(i, names[i], t));
        i := i + 1;
      }
      assert names[..i] == names;
    }

    /** makeStrings: a new String array holding `names`, left on the stack. */
    method MakeStrings(names: seq<string>) returns (ghost t: nat)
      requires Valid()
      modifies this
      ensures Valid()
      ensures t == old(st.nextSlot)
      ensures st == old(st).(code := old(st.code) + StringsCode(names, t), nextSlot := t + 1)
      ensures depth == old(depth) + 1 && labelDepth == old(labelDepth)
    {
      var c0 := st.code;
      var tmp := GetLocal("[java/lang/String");
      t := tmp;
      st := st.(code := st.code + [Push(IntConst(|names|)), NewArray("java/lang/String"), AStore(tmp)]);
      EmitStringEntries(names, tmp);
      st := st.(code := st.code + [ALoad(tmp)]);
      FreeLocal(tmp);
      assert st.locals == old(st.locals);
      assert st.code == c0 + StringsCode(names, tmp);
      StringsCodeEffect(names, tmp);
      depth := depth + 1;
    }

    /** The loop of makeClosure: one cell lookup and array store per free variable. */
    method EmitClosureEntries(envs: seq<nat>, distance: nat, t: nat)
      requires Valid()
      modifies this
      ensures Valid()
      ensures st == old(st).(code := old(st.code) + ClosureEntries(envs, distance, t))
      ensures depth == old(depth) && labelDepth == old(labelDepth)
    {
      var i := 0;
      while i < |envs|
        invariant 0 <= i <= |envs|
        invariant st == old(st).(code := old(st.code) + ClosureEntries(envs[..i], distance, t))
        invariant depth == old(depth) && labelDepth == old(labelDepth)
      {
        assert envs[..i + 1][..i] == envs[..i];
        st := st.(code := st.code + ClosureEntry(i, envs[i], distance, t));
        i := i + 1;
      }
      assert envs[..i] == envs;
    }

    /**
     * makeClosure: when the scope has free variables, a new PyObject array
     * holding, for each, the cell `envs[i]` of the frame `distance` levels up.
     */
    method MakeClosure(envs: seq<nat>, distance: nat) returns (made: bool, ghost t: nat)
      requires Valid()
      modifies this
      ensures Valid()
      ensures made == (|envs| > 0)
      ensures !made ==> st == old(st) && depth == old(depth)
      ensures made ==> (&& t == old(st.nextSlot)
                        && st == old(st).(code := old(st.code) + ClosureCode(envs, distance, t), nextSlot := t + 1)
                        && depth == old(depth) + 1)
      ensures labelDepth == old(labelDepth)
    {
      if |envs| == 0 {
        return false, 0;
      }
      var c0 := st.code;
      var tmp := GetLocal("[org/python/core/PyObject");
      t := tmp;
      st := st.(code := st.code + [Push(IntConst(|envs|)), NewArray("org/python/core/PyObject"), AStore(tmp)]);
      EmitClosureEntries(envs, distance, tmp);
      st := st.(code := st.code + [ALoad(tmp)]);
      FreeLocal(tmp);
      assert st.locals == old(st.locals);
      assert st.code == c0 + ClosureCode(envs, distance, tmp);
      depth := depth + 1;
      made := true;
    }

    // -------------------------------------------------------------------
    // Names
    // -------------------------------------------------------------------

    /** The name visitName looks up: the identifier itself in a function, else its private-mangled form. */
    function NameOf(id: string): string {
      if fastLocals then id else Mangle(className, id)
    }

    function SymbolOf(name: string): Option<SymInfo> {
      if name in symbols then Some(symbols[name]) else None
    }

    // -------------------------------------------------------------------
    // When compiling succeeds: the reference the error results must match
    // -------------------------------------------------------------------

    /** visitName has a store instruction for `id`. */
    predicate Storable(id: string) {
      StoreAccess(SymbolOf(NameOf(id)), fastLocals).Ok?
    }

    /** visitName has a delete instruction for `id`. */
    predicate Deletable(id: string) {
      DeleteAccess(SymbolOf(NameOf(id)), fastLocals).Ok?
    }

    /**
     * An expression compiles without an error: no string constant is
     * longer than 32767 characters, every name it stores has a store
     * instruction, and a list comprehension stands outside a function,
     * where its `_[k]` name is stored and deleted by name.
     */
    predicate ExprOk(e: Expr) {
      match e
      case Str(s) => |s| <= MaxStringLength
      case Unicode(s) => |s| <= MaxStringLength
      case BoolOp(_, vs) => forall i :: 0 <= i < |vs| ==> ExprOk(vs[i])
      case Compare(l, _, cs) => ExprOk(l) && forall i :: 0 <= i < |cs| ==> ExprOk(cs[i])
      case BinOp(l, _, r) => ExprOk(l) && ExprOk(r)
      case UnaryOp(_, x) => ExprOk(x)
      case Tuple(es) => forall i :: 0 <= i < |es| ==> ExprOk(es[i])
      case List(es) => forall i :: 0 <= i < |es| ==> ExprOk(es[i])
      case ListComp(elt, gens) => !fastLocals && ExprOk(elt) && forall i :: 0 <= i < |gens| ==> ComprehensionOk(gens[i])
      case Subscript(v, i) => ExprOk(v) && ExprOk(i)
      case Slice(v, lo, up, st) => ExprOk(v) && OptOk(lo) && OptOk(up) && OptOk(st)
      case Attribute(v, _) => ExprOk(v)
      case Call(f, args, kws) =>
        && ExprOk(f) && (forall i :: 0 <= i < |args| ==> ExprOk(args[i]))
        && (forall i :: 0 <= i < |kws| ==> ExprOk(kws[i].value))
      case _ => true
    }

    predicate OptOk(o: Option<Expr>) {
      match o
      case None => true
      case Some(x) => ExprOk(x)
    }

    predicate ExprsOk(es: seq<Expr>) {
      forall i :: 0 <= i < |es| ==> ExprOk(es[i])
    }

    predicate ComprehensionOk(g: Comprehension) {
      TargetOk(g.target) && ExprOk(g.iter) && forall i :: 0 <= i < |g.ifs| ==> ExprOk(g.ifs[i])
    }

    /** A target in store context compiles: its names can be stored, its operands compile. */
    predicate TargetOk(t: Expr) {
      match t
      case Name(id) => Storable(id)
      case Attribute(v, _) => ExprOk(v)
      case Subscript(v, i) => ExprOk(v) && ExprOk(i)
      case Slice(v, lo, up, st) => ExprOk(v) && OptOk(lo) && OptOk(up) && OptOk(st)
      case Tuple(es) => forall i :: 0 <= i < |es| ==> TargetOk(es[i])
      case List(es) => forall i :: 0 <= i < |es| ==> TargetOk(es[i])
      case _ => false
    }

    /** A target in delete context compiles: its names can be deleted, its operands compile. */
    predicate DelOk(t: Expr) {
      match t
      case Name(id) => Deletable(id)
      case Tuple(es) => forall i :: 0 <= i < |es| ==> DelOk(es[i])
      case List(es) => forall i :: 0 <= i < |es| ==> DelOk(es[i])
      case _ => ExprOk(t)
    }

    /**
     * A statement compiles without an error in context `c`: break and
     * continue inside a loop, yield inside a function and outside every
     * try/finally, return inside a function and without a value in a
     * generator, a bare except only as the last clause, every expression
     * and target compiling, and a finally body compiling in any context.
     */
    predicate StmtOk(s: Stmt, c: Ctx) {
      match s
      case ExprStmt(e) => ExprOk(e)
      case Yield(v) => fastLocals && !c.fin && OptOk(v)
      case Assign(ts, v) => ExprOk(v) && forall i :: 0 <= i < |ts| ==> TargetOk(ts[i])
      case AugAssign(t, _, v) => (if t.Name? then Storable(t.id) else ExprOk(t)) && ExprOk(v)
      case Delete(ts) => forall i :: 0 <= i < |ts| ==> DelOk(ts[i])
      case Break => c.loop
      case Continue => c.loop
      case Return(v) => fastLocals && (v.Some? ==> !isGenerator && ExprOk(v.value)) && c.ret
      case Raise(a, b, d) => OptOk(a) && OptOk(b) && OptOk(d)
      case If(t, b, e) => ExprOk(t) && SuiteOk(b, c) && ElseOk(e, c)
      case While(t, b, e) => ExprOk(t) && SuiteOk(b, c.(loop := true)) && ElseOk(e, c)
      case For(tg, it, b, e) => TargetOk(tg) && ExprOk(it) && SuiteOk(b, c.(loop := true)) && ElseOk(e, c)
      case TryExcept(b, cs, e) => SuiteOk(b, c) && ClausesOk(cs, c) && ElseOk(e, c)
      case TryFinally(b, f) => SuiteOk(b, c.(fin := true)) && SuiteOk(f, FinallyCtx)
      case Import(names) => forall i :: 0 <= i < |names| ==> Storable(ImportAlias(names[i]))
      case Pass => true
      case Global => true
    }

    predicate SuiteOk(ss: seq<Stmt>, c: Ctx) {
      forall i :: 0 <= i < |ss| ==> StmtOk(ss[i], c)
    }

    predicate ElseOk(e: Else, c: Ctx) {
      match e
      case NoElse => true
      case Else(b) => SuiteOk(b, c)
    }

    predicate ClausesOk(cs: seq<ExceptClause>, c: Ctx) {
      forall i :: 0 <= i < |cs| ==> ClauseOk(cs[i], i == |cs| - 1, c)
    }

    /** An except clause compiles: it names a type unless it is the last one. */
    predicate ClauseOk(cl: ExceptClause, last: bool, c: Ctx) {
      && (last || cl.kind.Some?) && OptOk(cl.kind)
      && (cl.name.Some? ==> TargetOk(cl.name.value)) && SuiteOk(cl.body, c)
    }

    /** The finally bodies of a handler stack, from index `from` on, compile in any context. */
    predicate BodiesOk(bs: seq<Option<seq<Stmt>>>, from: nat)
      decreases |bs|
    {
      || |bs| <= from
      || (&& BodiesOk(bs[..|bs| - 1], from)
          && (bs[|bs| - 1].Some? ==> SuiteOk(bs[|bs| - 1].value, FinallyCtx)))
    }

    /** Every finally body of a stack from `from` on compiles exactly when each one does. */
    lemma {:induction false} BodiesOkEach(bs: seq<Option<seq<Stmt>>>, from: nat)
      ensures BodiesOk(bs, from) <==> forall i :: from <= i < |bs| && bs[i].Some? ==> SuiteOk(bs[i].value, FinallyCtx)
      decreases |bs|
    {
      if |bs| > from {
        var bs' := bs[..|bs| - 1];
        BodiesOkEach(bs', from);
        assert forall i :: 0 <= i < |bs'| ==> bs'[i] == bs[i];
      }
    }

    /** Above the floor, the innermost finally body compiles, and so do those below it. */
    lemma BodiesOkTop(bs: seq<Option<seq<Stmt>>>, from: nat)
      requires |bs| > from && BodiesOk(bs, from)
      ensures BodiesOk(bs, |bs| - 1) && BodiesOk(bs[..|bs| - 1], from)
    {
      assert BodiesOk(bs[..|bs| - 1], |bs| - 1);
    }

    /** The finally bodies of a prefix of a stack compile when those of the stack do. */
    lemma {:induction false} BodiesOkPrefix(bs: seq<Option<seq<Stmt>>>, n: nat, from: nat)
      requires n <= |bs| && BodiesOk(bs, from)
      ensures BodiesOk(bs[..n], from)
      decreases |bs| - n
    {
      if n < |bs| {
        var bs' := bs[..|bs| - 1];
        BodiesOkPrefix(bs', n, from);
        assert bs'[..n] == bs[..n];
      } else {
        assert bs[..n] == bs;
      }
    }

    /** The context a compiler state gives the statement compiled next. */
    function CtxOf(t: State): Ctx {
      Ctx(t.breakLabels != [] && t.continueLabels != [] && BodiesOk(Bodies(t.handlers), t.bcfLevel),
          HasFinally(Bodies(t.handlers)), BodiesOk(Bodies(t.handlers), 0))
    }

    /**
     * Pushing a handler whose finally body (if any) compiles anywhere
     * keeps the finally bodies compiling, and puts the code under a
     * try/finally exactly when the handler has a finally body.
     */
    lemma PushedCtx(t: State, h: Handler, body: seq<Stmt>)
      requires h.finalBody.Some? ==> SuiteOk(h.finalBody.value, FinallyCtx)
      requires SuiteOk(body, Protected(CtxOf(t), h.finalBody))
      ensures SuiteOk(body, CtxOf(t.(handlers := t.handlers + [h])))
    {
      var bs := Bodies(t.handlers);
      var bs' := Bodies(t.handlers + [h]);
      assert bs' == bs + [h.finalBody];
      assert bs'[..|bs|] == bs;
      if h.finalBody.Some? {
        assert bs'[|bs|].Some?;
      }
      if HasFinally(bs) {
        var i :| 0 <= i < |bs| && bs[i].Some?;
        assert bs'[i].Some?;
      }
      if HasFinally(bs') && h.finalBody.None? {
        var i :| 0 <= i < |bs'| && bs'[i].Some?;
        assert bs[i].Some?;
      }
      SuiteOkWithin(body, Protected(CtxOf(t), h.finalBody), CtxOf(t.(handlers := t.handlers + [h])));
    }

    /** A code unit compiles: an eval expression outside a generator, or a suite at the top of a code object. */
    predicate UnitOk(u: CodeUnit) {
      match u
      case ExpressionUnit(e) => !isGenerator && ExprOk(e)
      case _ => SuiteOk(u.body, CtxOf(Initial()))
    }

    /** Inside a loop just begun, with its floor at the top of the handler stack, break and continue compile. */
    lemma EnteredLoop(t: State)
      requires t.breakLabels != [] && t.continueLabels != [] && t.bcfLevel == |t.handlers|
      ensures CtxOf(t).loop
    {
    }

    /** What compiles in a context compiles in every context that allows more. */
    lemma {:induction false} StmtOkWithin(s: Stmt, c: Ctx, d: Ctx)
      requires StmtOk(s, c) && Within(c, d)
      ensures StmtOk(s, d)
      decreases s, 1
    {
      match s
      case If(_, b, e) =>
        SuiteOkWithin(b, c, d);
        ElseOkWithin(e, c, d);
      case While(_, b, e) =>
        SuiteOkWithin(b, c.(loop := true), d.(loop := true));
        ElseOkWithin(e, c, d);
      case For(_, _, b, e) =>
        SuiteOkWithin(b, c.(loop := true), d.(loop := true));
        ElseOkWithin(e, c, d);
      case TryExcept(b, cs, e) =>
        SuiteOkWithin(b, c, d);
        ElseOkWithin(e, c, d);
        forall i | 0 <= i < |cs|
          ensures ClauseOk(cs[i], i == |cs| - 1, d)
        {
          assert ClauseOk(cs[i], i == |cs| - 1, c);
          SuiteOkWithin(cs[i].body, c, d);
        }
      case TryFinally(b, _) =>
        SuiteOkWithin(b, c.(fin := true), d.(fin := true));
      case _ =>
    }

    lemma {:induction false} SuiteOkWithin(ss: seq<Stmt>, c: Ctx, d: Ctx)
      requires SuiteOk(ss, c) && Within(c, d)
      ensures SuiteOk(ss, d)
      decreases ss, 2
    {
      forall i | 0 <= i < |ss|
        ensures StmtOk(ss[i], d)
      {
        StmtOkWithin(ss[i], c, d);
      }
    }

    lemma {:induction false} ElseOkWithin(e: Else, c: Ctx, d: Ctx)
      requires ElseOk(e, c) && Within(c, d)
      ensures ElseOk(e, d)
      decreases e, 2
    {
      if e.Else? {
        SuiteOkWithin(e.suite, c, d);
      }
    }

    /** A comprehension's if-clauses wrapped around a statement compile when both do. */
    lemma {:induction false} WrapIfsOk(ifs: seq<Expr>, inner: Stmt, c: Ctx)
      requires (forall i :: 0 <= i < |ifs| ==> ExprOk(ifs[i])) && StmtOk(inner, c)
      ensures StmtOk(WrapIfs(ifs, inner), c)
      decreases |ifs|
    {
      if ifs != [] {
        WrapIfsOk(ifs[1..], inner, c);
      }
    }

    /** The loop nest of a comprehension whose parts compile compiles, in any context. */
    lemma {:induction false} DesugarOk(body: Stmt, gens: seq<Comprehension>, c: Ctx)
      requires body.ExprStmt? && ExprOk(body.value)
      requires forall i :: 0 <= i < |gens| ==> ComprehensionOk(gens[i])
      ensures StmtOk(Desugar(body, gens), c)
      decreases |gens|
    {
      if gens != [] {
        var c' := c.(loop := true);
        DesugarOk(body, gens[1..], c');
        WrapIfsOk(gens[0].ifs, Desugar(body, gens[1..]), c');
      }
    }

    /** visitName, load context. */
    method LoadName(id: string)
      requires Valid()
      modifies this
      ensures Valid()
      ensures st == old(st).(code := old(st.code)
                               + LoadNameCode(LoadAccess(SymbolOf(NameOf(id)), fastLocals, optimizeGlobals), NameOf(id)))
      ensures depth == old(depth) + 1 && labelDepth == old(labelDepth)
    {
      var name := NameOf(id);
      var k := LoadAccess(SymbolOf(name), fastLocals, optimizeGlobals);
      LoadNameFits(k, name, depth);
      EmitSeq(LoadNameCode(k, name));
    }

    /** visitName, store context: the value is read from slot `value`. */
    method StoreName(id: string, value: nat) returns (r: Status)
      requires Valid()
      modifies this
      ensures Valid() && depth == old(depth) && labelDepth == old(labelDepth)
      ensures var a := StoreAccess(SymbolOf(NameOf(id)), fastLocals);
              && (r.Failed? <==> a.Err?)
              && (a.Err? ==> r == Failed(NameAccess(a.error)) && st == old(st))
              && (a.Ok? ==> st == old(st).(code := old(st.code) + StoreNameCode(a.value, NameOf(id), value)))
    {
      var name := NameOf(id);
      match StoreAccess(SymbolOf(name), fastLocals)
      case Err(e) =>
        r := Failed(NameAccess(e));
      case Ok(k) =>
        StoreNameFits(k, name, value, depth);
        EmitSeq(StoreNameCode(k, name, value));
        r := Done;
    }

    /** visitName, delete context. */
    method DeleteName(id: string) returns (r: Status)
      requires Valid()
      modifies this
      ensures Valid() && depth == old(depth) && labelDepth == old(labelDepth)
      ensures var a := DeleteAccess(SymbolOf(NameOf(id)), fastLocals);
              && (r.Failed? <==> a.Err?)
              && (a.Err? ==> r == Failed(NameAccess(a.error)) && st == old(st))
              && (a.Ok? ==> st == old(st).(code := old(st.code) + DeleteNameCode(a.value, NameOf(id))))
    {
      var name := NameOf(id);
      match DeleteAccess(SymbolOf(name), fastLocals)
      case Err(e) =>
        r := Failed(NameAccess(e));
      case Ok(k) =>
        DeleteNameFits(k, name, depth);
        EmitSeq(DeleteNameCode(k, name));
        r := Done;
    }

    /** visitStr and visitUnicode: a constant of at most 32767 characters. */
    method LoadString(s: string, unicode: bool) returns (r: Status)
      requires Valid()
      modifies this
      ensures Valid() && labelDepth == old(labelDepth)
      ensures r.Failed? <==> |s| > MaxStringLength
      ensures r.Failed? ==> r.error == StringTooLarge && st == old(st) && depth == old(depth)
      ensures r.Done? ==> && st == old(st).(code := old(st.code) + [Push(if unicode then PyUnicode(s) else PyString(s))])
                          && depth == old(depth) + 1
    {
      if |s| > MaxStringLength {
        return Failed(StringTooLarge);
      }
      Emit(Push(if unicode then PyUnicode(s) else PyString(s)));
      r := Done;
    }
    /** A name in load context, as the expression visitors use it. */
    method VisitNameLoad(id: string)
      requires Valid()
      modifies this
      ensures Kept() && depth == old(depth) + 1
      ensures st.temporary == old(st.temporary)
    {
      LoadName(id);
    }

    /** A name in store context, as the target visitors use it. */
    method VisitNameStore(id: string, value: nat) returns (r: Status)
      requires Valid()
      modifies this
      ensures r.Done? ==> Kept() && depth == old(depth)
      ensures r.Done? <==> Storable(id)
    {
      r := StoreName(id, value);
    }

    /** A name in delete context, as the target visitors use it. */
    method VisitNameDelete(id: string) returns (r: Status)
      requires Valid()
      modifies this
      ensures r.Done? ==> Kept() && depth == old(depth)
      ensures r.Done? <==> Deletable(id)
    {
      r := DeleteName(id);
    }

    // -------------------------------------------------------------------
    // Expressions: each leaves its value on the stack
    // -------------------------------------------------------------------

    /** visit(node) in load context: names, constants, and the operator and compound visitors. */
    method CompileExpr(e: Expr) returns (r: Status)
      requires Valid() && WfExpr(e)
      modifies this
      decreases Weight(st.handlers) + ExprSize(e), 11
      ensures r.Done? ==> Kept() && depth == old(depth) + 1
      ensures ExprOk(e) ==> r.Done?
      ensures r.Done? ==> TempSet(StoresInside(e))
    {
      if e.Name? {
        VisitNameLoad(e.id);
        r := Done;
      } else if e.Num? {
        Emit(Push(PyInteger(e.n)));
        r := Done;
      } else if e.Str? || e.Unicode? {
        r := LoadString(e.s, e.Unicode?);
      } else if e.BoolOp? || e.Compare? || e.BinOp? || e.UnaryOp? {
        r := CompileOperator(e);
      } else {
        r := CompileCompound(e);
      }
    }

    method CompileOperator(e: Expr) returns (r: Status)
      requires Valid() && (e.BoolOp? || e.Compare? || e.BinOp? || e.UnaryOp?) && WfExpr(e)
      modifies this
      decreases Weight(st.handlers) + ExprSize(e), 10
      ensures r.Done? ==> Kept() && depth == old(depth) + 1
      ensures ExprOk(e) ==> r.Done?
      ensures r.Done? ==> TempSet(StoresInside(e))
    {
      if e.BoolOp? {
        r := VisitBoolOp(e);
      } else if e.Compare? {
        r := VisitCompare(e);
      } else if e.BinOp? {
        r := VisitBinOp(e);
      } else {
        r := VisitUnaryOp(e);
      }
    }

    method CompileCompound(e: Expr) returns (r: Status)
      requires Valid() && WfExpr(e)
      requires e.Tuple? || e.List? || e.ListComp? || e.Subscript? || e.Slice? || e.Attribute? || e.Call?
      modifies this
      decreases Weight(st.handlers) + ExprSize(e), 10
      ensures r.Done? ==> Kept() && depth == old(depth) + 1
      ensures ExprOk(e) ==> r.Done?
      ensures r.Done? ==> TempSet(StoresInside(e))
    {
      if e.Tuple? || e.List? {
        r := VisitSequence(e);
      } else if e.ListComp? {
        r := VisitListComp(e);
      } else if e.Call? {
        r := VisitCall(e);
      } else {
        r := LoadTarget(e);
      }
    }

    /**
     * visitBoolOp: each operand but the last is tested with a copy kept on
     * the stack; `or` stops at the first true one, `and` at the first false
     * one, and the value it stops at is the result.
     */
    method VisitBoolOp(e: Expr) returns (r: Status)
      requires Valid() && e.BoolOp? && WfExpr(e)
      modifies this
      decreases Weight(st.handlers) + ExprSize(e), 9
      ensures r.Done? ==> Kept() && depth == old(depth) + 1
      ensures ExprOk(e) ==> r.Done?
      ensures r.Done? ==> TempSet(StoresInside(e))
    {
      var vs := e.values;
      var end := NewLabel(depth + 1);
      ExprsSizeElem(vs, 0);
      r := CompileExpr(vs[0]);
      if r.Failed? {
        return;
      }
      AnyStoresSnoc(vs, 0);
      assert vs[..0] == [];
      var i := 1;
      while i < |vs|
        invariant 1 <= i <= |vs| && r.Done?
        invariant Kept() && depth == old(depth) + 1
        invariant end < |labelDepth| && labelDepth[end] == old(depth) + 1
        invariant TempSet(AnyStores(vs[..i]))
        invariant ExprOk(e) ==> forall j :: 0 <= j < |vs| ==> ExprOk(vs[j])
      {
        ExprsSizeElem(vs, i);
        ghost var t1, n1 := st.temporary, st.nextSlot;
        r := BoolOpStep(e.bop, vs[i], end);
        if r.Failed? {
          return;
        }
        TempChain(old(st.temporary), old(st.nextSlot), t1, n1, st.temporary, AnyStores(vs[..i]), StoresInside(vs[i]));
        AnyStoresSnoc(vs, i);
        i := i + 1;
      }
      assert vs[..i] == vs;
      Place(end);
    }

    /** One link of a boolean chain: test a copy of the value so far, leave with it, or drop it for the next operand. */
    method BoolOpStep(op: BoolOperator, v: Expr, end: Label) returns (r: Status)
      requires Valid() && WfExpr(v) && depth >= 1
      requires end < |labelDepth| && labelDepth[end] == depth
      modifies this
      decreases Weight(st.handlers) + ExprSize(v) + 1, 8
      ensures r.Done? ==> Kept() && depth == old(depth)
      ensures ExprOk(v) ==> r.Done?
      ensures r.Done? ==> TempSet(StoresInside(v))
    {
      Emit(Dup);
      Emit(Invoke("__nonzero__", 1, 1));
      if op == Or {
        Jump(IfNe(end));
      } else {
        Jump(IfEq(end));
      }
      Emit(Pop);
      r := CompileExpr(v);
    }

    /**
     * visitCompare: a chain `a op1 b op2 c ...` compares neighbours left to
     * right, keeping the right operand in tmp1 for the next comparison and
     * the last result in tmp2; the first false result ends the chain.
     */
    method VisitCompare(e: Expr) returns (r: Status)
      requires Valid() && e.Compare? && WfExpr(e)
      modifies this
      decreases Weight(st.handlers) + ExprSize(e), 9
      ensures r.Done? ==> Kept() && depth == old(depth) + 1
      ensures ExprOk(e) ==> r.Done?
      ensures r.Done? ==> TempSet(StoresInside(e))
    {
      var tmp1 := GetLocal(PyObjectType);
      var tmp2 := GetLocal(PyObjectType);
      r := CompareChain(e, tmp1, tmp2);
      if r.Failed? {
        return;
      }
      FreeLocal(tmp1);
      FreeLocal(tmp2);
      TwoTempsFreed(old(st.locals), tmp1, tmp2, PyObjectType);
    }

    /** The comparisons of a chain, with its two temporaries taken. */
    method CompareChain(e: Expr, tmp1: nat, tmp2: nat) returns (r: Status)
      requires Valid() && e.Compare? && WfExpr(e)
      modifies this
      decreases Weight(st.handlers) + ExprSize(e), 8
      ensures r.Done? ==> Kept() && depth == old(depth) + 1
      ensures ExprOk(e) ==> r.Done?
      ensures r.Done? ==> TempSet(StoresInside(e))
    {
      var ops, cs := e.ops, e.comparators;
      var n := |ops|;
      var end := NewLabel(depth);
      r := CompileExpr(e.left);
      if r.Failed? {
        return;
      }
      r := CompareSteps(e, tmp1, tmp2, end);
      if r.Failed? {
        return;
      }
      ExprsSizeElem(cs, n - 1);
      r := CompileExpr(cs[n - 1]);
      if r.Failed? {
        return;
      }
      Emit(Invoke(CmpopName(ops[n - 1]), 2, 1));
      if n > 1 {
        ChainEnd(tmp2, end);
      }
    }

    /** Every comparison of a chain but the last, each leaving the chain when false. */
    method CompareSteps(e: Expr, tmp1: nat, tmp2: nat, end: Label) returns (r: Status)
      requires Valid() && e.Compare? && WfExpr(e) && depth >= 1
      requires end < |labelDepth| && labelDepth[end] == depth - 1
      modifies this
      decreases Weight(st.handlers) + ExprsSize(e.comparators) + 1, 7
      ensures r.Done? ==> Kept() && depth == old(depth)
      ensures ExprOk(e) ==> r.Done?
      ensures r.Done? ==> TempSet(AnyStores(e.comparators[..|e.ops| - 1]))
    {
      var ops, cs := e.ops, e.comparators;
      var i := 0;
      r := Done;
      assert cs[..0] == [];
      while i < |ops| - 1
        invariant 0 <= i <= |ops| - 1 && r.Done?
        invariant Kept() && depth == old(depth)
        invariant end < |labelDepth| && labelDepth[end] == old(depth) - 1
        invariant TempSet(AnyStores(cs[..i]))
      {
        ExprsSizeElem(cs, i);
        ghost var t1, n1 := st.temporary, st.nextSlot;
        r := CompareStep(ops[i], cs[i], tmp1, tmp2, end);
        if r.Failed? {
          return;
        }
        TempChain(old(st.temporary), old(st.nextSlot), t1, n1, st.temporary, AnyStores(cs[..i]), StoresInside(cs[i]));
        AnyStoresSnoc(cs, i);
        i := i + 1;
      }
    }

    /** The end of a chain of several comparisons: the last result kept, the end label placed, the result reloaded. */
    method ChainEnd(tmp2: nat, end: Label)
      requires Valid() && depth >= 1 && end < |labelDepth| && labelDepth[end] == depth - 1
      modifies this
      ensures Valid() && depth == old(depth) && labelDepth == old(labelDepth)
      ensures st == old(st).(code := old(st.code) + [AStore(tmp2), ALoad(tmp2)],
                             labels := old(st.labels)[end := Some(|old(st.code)| + 1)])
    {
      Emit(AStore(tmp2));
      Place(end);
      Emit(ALoad(tmp2));
    }

    /** One comparison of a chain that is not its last: a false result leaves the chain. */
    method CompareStep(op: CmpOp, c: Expr, tmp1: nat, tmp2: nat, end: Label) returns (r: Status)
      requires Valid() && WfExpr(c) && depth >= 1
      requires end < |labelDepth| && labelDepth[end] == depth - 1
      modifies this
      decreases Weight(st.handlers) + ExprSize(c) + 1, 6
      ensures r.Done? ==> Kept() && depth == old(depth)
      ensures ExprOk(c) ==> r.Done?
      ensures r.Done? ==> TempSet(StoresInside(c))
    {
      r := CompileExpr(c);
      if r.Failed? {
        return;
      }
      Emit(Dup);
      Emit(AStore(tmp1));
      Emit(Invoke(CmpopName(op), 2, 1));
      ChainTest(tmp1, tmp2, end);
    }

    /** The test after a comparison of a chain: a false result leaves it, a true one reloads the right operand. */
    method ChainTest(tmp1: nat, tmp2: nat, end: Label)
      requires Valid() && depth >= 1 && end < |labelDepth| && labelDepth[end] == depth - 1
      modifies this
      ensures Valid() && depth == old(depth) && labelDepth == old(labelDepth)
      ensures st == old(st).(code := old(st.code) + [Dup, AStore(tmp2), Invoke("__nonzero__", 1, 1),
                                                     IfEq(end), ALoad(tmp1)])
    {
      Emit(Dup);
      Emit(AStore(tmp2));
      Emit(Invoke("__nonzero__", 1, 1));
      Jump(IfEq(end));
      Emit(ALoad(tmp1));
    }

    /** visitBinOp: both operands, then the operator's method (`_truediv` for `/` under true division). */
    method VisitBinOp(e: Expr) returns (r: Status)
      requires Valid() && e.BinOp? && WfExpr(e)
      modifies this
      decreases Weight(st.handlers) + ExprSize(e), 9
      ensures r.Done? ==> Kept() && depth == old(depth) + 1
      ensures ExprOk(e) ==> r.Done?
      ensures r.Done? ==> TempSet(StoresInside(e))
    {
      r := CompileExpr(e.left);
      if r.Failed? {
        return;
      }
      r := CompileExpr(e.right);
      if r.Failed? {
        return;
      }
      Emit(Invoke(BinOpName(e.binop, trueDivision), 2, 1));
    }

    /** visitUnaryOp: the operand, then the operator's method. */
    method VisitUnaryOp(e: Expr) returns (r: Status)
      requires Valid() && e.UnaryOp? && WfExpr(e)
      modifies this
      decreases Weight(st.handlers) + ExprSize(e), 9
      ensures r.Done? ==> Kept() && depth == old(depth) + 1
      ensures ExprOk(e) ==> r.Done?
      ensures r.Done? ==> TempSet(StoresInside(e))
    {
      r := CompileExpr(e.operand);
      if r.Failed? {
        return;
      }
      Emit(Invoke(UnaryOpName(e.uop), 1, 1));
    }

    /** visitTuple and visitList in load context: a new PyTuple or PyList built from an array. */
    method VisitSequence(e: Expr) returns (r: Status)
      requires Valid() && (e.Tuple? || e.List?) && WfExpr(e)
      modifies this
      decreases Weight(st.handlers) + ExprSize(e), 9
      ensures r.Done? ==> Kept() && depth == old(depth) + 1
      ensures ExprOk(e) ==> r.Done?
      ensures r.Done? ==> TempSet(StoresInside(e))
    {
      var cls := if e.Tuple? then "org/python/core/PyTuple" else "org/python/core/PyList";
      Emit(New(cls));
      Emit(Dup);
      r := MakeArray(e.elts);
      if r.Failed? {
        return;
      }
      Emit(Invoke("<init>", 2, 0));
    }

    /**
     * makeArray: a new PyObject array holding the values of `es` in order,
     * or the shared empty array when there are none.
     */
    method MakeArray(es: seq<Expr>) returns (r: Status)
      requires Valid() && forall i :: 0 <= i < |es| ==> WfExpr(es[i])
      modifies this
      decreases Weight(st.handlers) + ExprsSize(es) + 1, 1
      ensures r.Done? ==> Kept() && depth == old(depth) + 1
      ensures es == [] ==> r.Done? && st == old(st).(code := old(st.code) + [Push(StaticField("EmptyObjects"))])
      ensures ExprsOk(es) ==> r.Done?
      ensures r.Done? ==> TempSet(AnyStores(es))
    {
      if |es| == 0 {
        Emit(Push(StaticField("EmptyObjects")));
        return Done;
      }
      var tmp := NewObjectArray(|es|);
      r := FillArray(es, tmp);
      if r.Failed? {
        return;
      }
      Emit(ALoad(tmp));
      FreeLocal(tmp);
      TempFreed(old(st.locals), tmp, "[org/python/core/PyObject");
    }

    /** A new PyObject array of `n` elements, kept in a fresh temporary. */
    method NewObjectArray(n: nat) returns (tmp: nat)
      requires Valid()
      modifies this
      ensures Valid() && depth == old(depth) && labelDepth == old(labelDepth)
      ensures tmp == old(st.nextSlot) && tmp !in old(st.locals)
      ensures st == old(st).(code := old(st.code) + [Push(IntConst(n)), NewArray("org/python/core/PyObject"), AStore(tmp)],
                             nextSlot := tmp + 1, locals := old(st.locals)[tmp := "[org/python/core/PyObject"])
    {
      tmp := GetLocal("[org/python/core/PyObject");
      Emit(Push(IntConst(n)));
      Emit(NewArray("org/python/core/PyObject"));
      Emit(AStore(tmp));
    }

    /** The loop of makeArray: element i is evaluated and stored at index i of the array in `tmp`. */
    method FillArray(es: seq<Expr>, tmp: nat) returns (r: Status)
      requires Valid() && forall i :: 0 <= i < |es| ==> WfExpr(es[i])
      modifies this
      decreases Weight(st.handlers) + ExprsSize(es) + 1, 0
      ensures r.Done? ==> Kept() && depth == old(depth)
      ensures ExprsOk(es) ==> r.Done?
      ensures r.Done? ==> TempSet(AnyStores(es))
    {
      var i := 0;
      assert es[..0] == [];
      while i < |es|
        invariant 0 <= i <= |es|
        invariant Kept() && depth == old(depth)
        invariant TempSet(AnyStores(es[..i]))
      {
        Emit(ALoad(tmp));
        Emit(Push(IntConst(i)));
        ExprsSizeElem(es, i);
        ghost var t1, n1 := st.temporary, st.nextSlot;
        r := CompileExpr(es[i]);
        if r.Failed? {
          return;
        }
        Emit(ArrayStore);
        TempChain(old(st.temporary), old(st.nextSlot), t1, n1, st.temporary, AnyStores(es[..i]), StoresInside(es[i]));
        AnyStoresSnoc(es, i);
        i := i + 1;
      }
      assert es[..i] == es;
      r := Done;
    }

    /** Explicit arguments: each value pushed in order. */
    method PushEach(es: seq<Expr>) returns (r: Status)
      requires Valid() && forall i :: 0 <= i < |es| ==> WfExpr(es[i])
      modifies this
      decreases Weight(st.handlers) + ExprsSize(es) + 1, 0
      ensures r.Done? ==> Kept() && depth == old(depth) + |es|
      ensures ExprsOk(es) ==> r.Done?
      ensures r.Done? ==> TempSet(AnyStores(es))
    {
      var i := 0;
      assert es[..0] == [];
      while i < |es|
        invariant 0 <= i <= |es|
        invariant Kept() && depth == old(depth) + i
        invariant TempSet(AnyStores(es[..i]))
      {
        ExprsSizeElem(es, i);
        ghost var t1, n1 := st.temporary, st.nextSlot;
        r := CompileExpr(es[i]);
        if r.Failed? {
          return;
        }
        TempChain(old(st.temporary), old(st.nextSlot), t1, n1, st.temporary, AnyStores(es[..i]), StoresInside(es[i]));
        AnyStoresSnoc(es, i);
        i := i + 1;
      }
      assert es[..i] == es;
      r := Done;
    }

    /** A new empty list and its bound `append` method, both left on the stack. */
    method NewAppender() returns (tmp: string)
      requires Valid()
      modifies this
      ensures Valid() && depth == old(depth) + 2 && labelDepth == old(labelDepth)
      ensures tmp == ListCompName(old(st.listCompCount) + 1)
      ensures st == old(st).(code := old(st.code) + [New("org/python/core/PyList"), Dup, Invoke("<init>", 1, 0),
                                                     Dup, Push(StrConst("append")), Invoke("__getattr__", 2, 1)],
                             listCompCount := old(st.listCompCount) + 1)
    {
      Emit(New("org/python/core/PyList"));
      Emit(Dup);
      Emit(Invoke("<init>", 1, 0));
      Emit(Dup);
      Emit(Push(StrConst("append")));
      Emit(Invoke("__getattr__", 2, 1));
      st := st.(listCompCount := st.listCompCount + 1);
      tmp := ListCompName(st.listCompCount);
    }

    /**
     * visitListComp: a new list whose bound `append` is stored under the
     * next `_[k]` name, the comprehension rewritten into nested for and if
     * statements appending each element, then the name deleted.
     */
    method VisitListComp(e: Expr) returns (r: Status)
      requires Valid() && e.ListComp? && WfExpr(e)
      modifies this
      decreases Weight(st.handlers) + ExprSize(e), 9
      ensures r.Done? ==> Kept() && depth == old(depth) + 1
      ensures r.Done? ==> st.listCompCount > old(st.listCompCount)
      ensures ExprOk(e) ==> r.Done?
      ensures r.Done? ==> TempSet(true)
    {
      var tmp := NewAppender();
      r := SetTop(Name(tmp));
      if r.Failed? {
        return;
      }
      r := AppendLoops(e, tmp);
      if r.Failed? {
        return;
      }
      r := Delete(Name(tmp));
    }

    /** The comprehension rewritten into loops that append each element through the name `tmp`. */
    method AppendLoops(e: Expr, tmp: string) returns (r: Status)
      requires Valid() && e.ListComp? && WfExpr(e)
      modifies this
      decreases Weight(st.handlers) + ExprSize(e), 8
      ensures r.Done? ==> Kept() && depth == old(depth)
      ensures ExprOk(e) ==> r.Done?
    {
      var body := Desugar(AppendCall(tmp, e.elt), e.generators);
      ListCompRewrite(tmp, e.elt, e.generators);
      if ExprOk(e) {
        DesugarOk(AppendCall(tmp, e.elt), e.generators, CtxOf(st));
      }
      var f := CompileStmt(body);
      if f.Abort? {
        return Failed(f.error);
      }
      r := Done;
    }

    /** visitAttribute, visitSubscript and Slice in load context: the operands, then the getter. */
    method LoadTarget(e: Expr) returns (r: Status)
      requires Valid() && (e.Attribute? || e.Subscript? || e.Slice?) && IsTarget(e)
      modifies this
      decreases Weight(st.handlers) + ExprSize(e), 9
      ensures r.Done? ==> Kept() && depth == old(depth) + 1
      ensures ExprOk(e) ==> r.Done?
      ensures r.Done? ==> TempSet(StoresInside(e))
    {
      r := TargetOperands(e);
      if r.Failed? {
        return;
      }
      Emit(Invoke(Getter(e), AugCount(e), 1));
    }

    /** The operands of an attribute, subscript or slice, which every context pushes alike. */
    method TargetOperands(e: Expr) returns (r: Status)
      requires Valid() && (e.Attribute? || e.Subscript? || e.Slice?) && IsTarget(e)
      modifies this
      decreases Weight(st.handlers) + ExprSize(e), 8
      ensures r.Done? ==> Kept() && depth == old(depth) + AugCount(e)
      ensures ExprOk(e) ==> r.Done?
      ensures r.Done? ==> TempSet(StoresInside(e))
    {
      if e.Attribute? {
        r := AttributeOperands(e);
      } else if e.Subscript? {
        r := SubscriptOperands(e);
      } else {
        r := SliceOperands(e);
      }
    }

    /** Attribute: the object, then its attribute name, private-mangled inside a class. */
    method AttributeOperands(e: Expr) returns (r: Status)
      requires Valid() && e.Attribute? && WfExpr(e.value)
      modifies this
      decreases Weight(st.handlers) + ExprSize(e), 7
      ensures r.Done? ==> Kept() && depth == old(depth) + 2
      ensures ExprOk(e) ==> r.Done?
      ensures r.Done? ==> TempSet(StoresInside(e))
    {
      r := CompileExpr(e.value);
      if r.Failed? {
        return;
      }
      Emit(Push(StrConst(Mangle(className, e.attr))));
    }

    /** Subscript: the object, then the index. */
    method SubscriptOperands(e: Expr) returns (r: Status)
      requires Valid() && e.Subscript? && WfExpr(e.value) && WfExpr(e.index)
      modifies this
      decreases Weight(st.handlers) + ExprSize(e), 7
      ensures r.Done? ==> Kept() && depth == old(depth) + 2
      ensures ExprOk(e) ==> r.Done?
      ensures r.Done? ==> TempSet(StoresInside(e))
    {
      r := CompileExpr(e.value);
      if r.Failed? {
        return;
      }
      r := CompileExpr(e.index);
    }

    /** Slice: the sliced value and its three bounds, a null for each bound left out. */
    method SliceOperands(e: Expr) returns (r: Status)
      requires Valid() && e.Slice? && WfExpr(e)
      modifies this
      decreases Weight(st.handlers) + ExprSize(e), 7
      ensures r.Done? ==> Kept() && depth == old(depth) + 4
      ensures ExprOk(e) ==> r.Done?
      ensures r.Done? ==> TempSet(StoresInside(e))
    {
      r := CompileExpr(e.value);
      if r.Failed? {
        return;
      }
      r := OptOperand(e.lower);
      if r.Failed? {
        return;
      }
      r := OptOperand(e.upper);
      if r.Failed? {
        return;
      }
      r := OptOperand(e.step);
    }

    /** An optional operand: its value, or a null when it is absent. */
    method OptOperand(o: Option<Expr>) returns (r: Status)
      requires Valid() && WfOpt(o)
      modifies this
      decreases Weight(st.handlers) + OptSize(o) + 1, 0
      ensures r.Done? ==> Kept() && depth == old(depth) + 1
      ensures o.None? ==> r.Done? && st == old(st).(code := old(st.code) + [Push(Null)])
      ensures OptOk(o) ==> r.Done?
      ensures r.Done? ==> TempSet(o.Some? && StoresInside(o.value))
    {
      if o.Some? {
        r := CompileExpr(o.value);
      } else {
        Emit(Push(Null));
        r := Done;
      }
    }

    /**
     * visitCall: a call of an attribute without keywords becomes a single
     * `invoke` of the named method; otherwise the callee is evaluated and
     * called with its arguments.
     */
    method VisitCall(e: Expr) returns (r: Status)
      requires Valid() && e.Call? && WfExpr(e)
      modifies this
      decreases Weight(st.handlers) + ExprSize(e), 9
      ensures r.Done? ==> Kept() && depth == old(depth) + 1
      ensures ExprOk(e) ==> r.Done?
      ensures r.Done? ==> TempSet(StoresInside(e))
    {
      if |e.keywords| == 0 && e.func.Attribute? {
        r := InvokeMethod(e);
        return;
      }
      r := CompileExpr(e.func);
      if r.Failed? {
        return;
      }
      r := CallArguments(e);
    }

    /**
     * The arguments of `__call__` on the callee below them: up to four
     * explicit values, an argument array, or an array of positional and
     * keyword values and an array of the keyword names.
     */
    method CallArguments(e: Expr) returns (r: Status)
      requires Valid() && e.Call? && WfExpr(e) && depth >= 1
      modifies this
      decreases Weight(st.handlers) + ExprSize(e), 8
      ensures r.Done? ==> Kept() && depth == old(depth)
      ensures ExprsOk(e.args) && ExprsOk(KeywordValues(e.keywords)) ==> r.Done?
      ensures r.Done? ==> TempSet(AnyStores(e.args) || AnyStores(KeywordValues(e.keywords)))
    {
      var args, kws := e.args, e.keywords;
      if |kws| > 0 {
        r := KeywordArguments(args, kws);
      } else if |args| <= 4 {
        r := PushEach(args);
        if r.Failed? {
          return;
        }
        Emit(Invoke("__call__", |args| + 1, 1));
      } else {
        r := MakeArray(args);
        if r.Failed? {
          return;
        }
        Emit(Invoke("__call__", 2, 1));
      }
    }

    /** A call with keywords: one array of every value, positional first, and one of the keyword names. */
    method KeywordArguments(args: seq<Expr>, kws: seq<Keyword>) returns (r: Status)
      requires Valid() && depth >= 1
      requires (forall i :: 0 <= i < |args| ==> WfExpr(args[i])) && (forall i :: 0 <= i < |kws| ==> WfExpr(kws[i].value))
      modifies this
      decreases Weight(st.handlers) + ExprsSize(args) + KeywordsSize(kws) + 1, 7
      ensures r.Done? ==> Kept() && depth == old(depth)
      ensures ExprsOk(args) && ExprsOk(KeywordValues(kws)) ==> r.Done?
      ensures r.Done? ==> TempSet(AnyStores(args) || AnyStores(KeywordValues(kws)))
    {
      KeywordOperands(args, kws);
      AnyStoresConcat(args, KeywordValues(kws));
      r := MakeArray(args + KeywordValues(kws));
      if r.Failed? {
        return;
      }
      ghost var t := MakeStrings(KeywordNames(kws));
      Emit(Invoke("__call__", 3, 1));
    }

    /** Invoke: `obj.name(args)` as obj.invoke(name, ...) with up to two explicit arguments or an array. */
    method InvokeMethod(e: Expr) returns (r: Status)
      requires Valid() && e.Call? && e.func.Attribute? && |e.keywords| == 0 && WfExpr(e)
      modifies this
      decreases Weight(st.handlers) + ExprSize(e), 8
      ensures r.Done? ==> Kept() && depth == old(depth) + 1
      ensures ExprOk(e) ==> r.Done?
      ensures r.Done? ==> TempSet(StoresInside(e))
    {
      var args := e.args;
      r := AttributeOperands(e.func);
      if r.Failed? {
        return;
      }
      r := MethodArguments(args);
    }

    /** The arguments of `invoke` on the object and the method name below them: up to two values, or an array. */
    method MethodArguments(args: seq<Expr>) returns (r: Status)
      requires Valid() && depth >= 2 && forall i :: 0 <= i < |args| ==> WfExpr(args[i])
      modifies this
      decreases Weight(st.handlers) + ExprsSize(args) + 1, 7
      ensures r.Done? ==> Kept() && depth == old(depth) - 1
      ensures ExprsOk(args) ==> r.Done?
      ensures r.Done? ==> TempSet(AnyStores(args))
    {
      if |args| <= 2 {
        r := PushEach(args);
        if r.Failed? {
          return;
        }
        Emit(Invoke("invoke", |args| + 2, 1));
      } else {
        r := MakeArray(args);
        if r.Failed? {
          return;
        }
        Emit(Invoke("invoke", 3, 1));
      }
    }

    // -------------------------------------------------------------------
    // Store, delete and augmented contexts
    // -------------------------------------------------------------------

    /** set(node, tmp): point the field `temporary` at `value`, then store the value held there into the target. */
    method Store(t: Expr, value: nat) returns (r: Status)
      requires Valid() && IsTarget(t)
      modifies this
      decreases Weight(st.handlers) + ExprSize(t), 12
      ensures r.Done? ==> KeptSetting(value) && depth == old(depth)
      ensures r.Done? ==> st.temporary == value || old(st.nextSlot) <= st.temporary
      ensures TargetOk(t) ==> r.Done?
    {
      st := st.(temporary := value);
      if t.Name? {
        r := VisitNameStore(t.id, value);
      } else if t.Tuple? || t.List? {
        r := SeqSet(t.elts, value);
      } else {
        r := StoreTarget(t, value);
      }
    }

    /**
     * An attribute, subscript or slice in store context: the operands, then
     * the setter called with the value read from slot `value` itself, so a
     * store nested in the operands cannot redirect it.
     */
    method StoreTarget(t: Expr, value: nat) returns (r: Status)
      requires Valid() && (t.Attribute? || t.Subscript? || t.Slice?) && IsTarget(t)
      modifies this
      decreases Weight(st.handlers) + ExprSize(t), 9
      ensures r.Done? ==> Kept() && depth == old(depth)
      ensures r.Done? ==> |st.code| >= 2 && st.code[|st.code| - 2..] == [ALoad(value), Invoke(Setter(t), AugCount(t) + 1, 0)]
      ensures TargetOk(t) ==> r.Done?
    {
      r := TargetOperands(t);
      if r.Failed? {
        return;
      }
      Emit(ALoad(value));
      Emit(Invoke(Setter(t), AugCount(t) + 1, 0));
    }

    /**
     * set(node, tmp) on an attribute, subscript or slice as written: the
     * field `temporary` is pointed at `value`, the operands are visited, and
     * the setter is called with the slot the field holds by then.  When no
     * list comprehension is among the operands that is `value`; when one
     * is, it is a slot the comprehension's own `set` took during the visit.
     */
    method SetAsWritten(t: Expr, value: nat) returns (r: Status, loaded: nat)
      requires Valid() && (t.Attribute? || t.Subscript? || t.Slice?) && IsTarget(t)
      modifies this
      ensures r.Done? ==> KeptSetting(value) && depth == old(depth)
      ensures r.Done? ==> |st.code| >= 2 && st.code[|st.code| - 2..] == [ALoad(loaded), Invoke(Setter(t), AugCount(t) + 1, 0)]
      ensures r.Done? && !StoresInside(t) ==> loaded == value
      ensures r.Done? && StoresInside(t) ==> old(st.nextSlot) <= loaded
      ensures ExprOk(t) ==> r.Done?
    {
      st := st.(temporary := value);
      r := TargetOperands(t);
      if r.Failed? {
        return r, 0;
      }
      loaded := st.temporary;
      Emit(ALoad(loaded));
      Emit(Invoke(Setter(t), AugCount(t) + 1, 0));
    }

    /** set(node): pop the value into a temporary, store it, then clear and free the temporary. */
    method SetTop(t: Expr) returns (r: Status)
      requires Valid() && IsTarget(t) && depth >= 1
      modifies this
      decreases Weight(st.handlers) + ExprSize(t), 13
      ensures r.Done? ==> Kept() && depth == old(depth) - 1
      ensures TargetOk(t) ==> r.Done?
      ensures r.Done? ==> old(st.nextSlot) <= st.temporary
    {
      var tmp := StoreTop();
      r := Store(t, tmp);
      if r.Failed? {
        return;
      }
      Emit(Push(Null));
      Emit(AStore(tmp));
      FreeLocal(tmp);
      TempFreed(old(st.locals), tmp, PyObjectType);
    }

    /** seqSet: unpack the value into exactly |es| items, kept in an array temporary. */
    method SeqSet(es: seq<Expr>, value: nat) returns (r: Status)
      requires Valid() && forall i :: 0 <= i < |es| ==> IsTarget(es[i])
      modifies this
      decreases Weight(st.handlers) + ExprsSize(es), 15
      ensures r.Done? ==> Kept() && depth == old(depth)
      ensures (forall i :: 0 <= i < |es| ==> TargetOk(es[i])) ==> r.Done?
    {
      Emit(ALoad(value));
      Emit(Push(IntConst(|es|)));
      Emit(Invoke("unpackSequence", 2, 1));
      var tmp := GetLocal("[org/python/core/PyObject");
      Emit(AStore(tmp));
      r := SetEach(es, tmp);
      if r.Failed? {
        return;
      }
      FreeLocal(tmp);
      TempFreed(old(st.locals), tmp, "[org/python/core/PyObject");
    }

    /** The loop of seqSet: item i of the array in `tmp` is set into target i. */
    method SetEach(es: seq<Expr>, tmp: nat) returns (r: Status)
      requires Valid() && forall i :: 0 <= i < |es| ==> IsTarget(es[i])
      modifies this
      decreases Weight(st.handlers) + ExprsSize(es), 14
      ensures r.Done? ==> Kept() && depth == old(depth)
      ensures (forall i :: 0 <= i < |es| ==> TargetOk(es[i])) ==> r.Done?
    {
      var i := 0;
      while i < |es|
        invariant 0 <= i <= |es|
        invariant Kept() && depth == old(depth)
      {
        Emit(ALoad(tmp));
        Emit(Push(IntConst(i)));
        Emit(ArrayLoad);
        ExprsSizeElem(es, i);
        r := SetTop(es[i]);
        if r.Failed? {
          return;
        }
        i := i + 1;
      }
      r := Done;
    }

    /** visitAssign with several targets: each is set from slot `value`, the last target first. */
    method StoreTargets(ts: seq<Expr>, value: nat) returns (r: Status)
      requires Valid() && forall i :: 0 <= i < |ts| ==> IsTarget(ts[i])
      modifies this
      decreases Weight(st.handlers) + ExprsSize(ts), 14
      ensures r.Done? ==> KeptSetting(value) && depth == old(depth)
      ensures (forall i :: 0 <= i < |ts| ==> TargetOk(ts[i])) ==> r.Done?
    {
      var i := |ts|;
      while i > 0
        invariant 0 <= i <= |ts|
        invariant KeptSetting(value) && depth == old(depth)
      {
        i := i - 1;
        ExprsSizeElem(ts, i);
        r := Store(ts[i], value);
        if r.Failed? {
          return;
        }
      }
      r := Done;
    }

    /** A target in delete context. */
    method Delete(t: Expr) returns (r: Status)
      requires Valid() && IsTarget(t)
      modifies this
      decreases Weight(st.handlers) + ExprSize(t), 12
      ensures r.Done? ==> Kept() && depth == old(depth)
      ensures DelOk(t) ==> r.Done?
    {
      if t.Name? {
        r := VisitNameDelete(t.id);
      } else if t.Tuple? || t.List? {
        r := DeleteAll(t.elts);
      } else {
        r := DeleteTarget(t);
      }
    }

    /** An attribute, subscript or slice in delete context: the operands, then the deleter. */
    method DeleteTarget(t: Expr) returns (r: Status)
      requires Valid() && (t.Attribute? || t.Subscript? || t.Slice?) && IsTarget(t)
      modifies this
      decreases Weight(st.handlers) + ExprSize(t), 9
      ensures r.Done? ==> Kept() && depth == old(depth)
      ensures ExprOk(t) ==> r.Done?
    {
      r := TargetOperands(t);
      if r.Failed? {
        return;
      }
      Emit(Invoke(Deleter(t), AugCount(t), 0));
    }

    /** visitDelete and seqDel: delete each target in order. */
    method DeleteAll(ts: seq<Expr>) returns (r: Status)
      requires Valid() && forall i :: 0 <= i < |ts| ==> IsTarget(ts[i])
      modifies this
      decreases Weight(st.handlers) + ExprsSize(ts), 14
      ensures r.Done? ==> Kept() && depth == old(depth)
      ensures (forall i :: 0 <= i < |ts| ==> DelOk(ts[i])) ==> r.Done?
    {
      var i := 0;
      while i < |ts|
        invariant 0 <= i <= |ts|
        invariant Kept() && depth == old(depth)
      {
        ExprsSizeElem(ts, i);
        r := Delete(ts[i]);
        if r.Failed? {
          return;
        }
        i := i + 1;
      }
      r := Done;
    }

    /**
     * The augmented-load visit of a target: a name is simply loaded; an
     * attribute, subscript or slice evaluates its operands, keeps them in
     * the aug temporaries (2, 2 or 4 of them) and fetches the current value.
     */
    method AugLoad(t: Expr) returns (r: Status)
      requires Valid() && IsAugTarget(t)
      modifies this
      decreases Weight(st.handlers) + ExprSize(t), 12
      ensures r.Done? ==> && Valid() && depth == old(depth) + 1 && old(labelDepth) <= labelDepth
                          && Grew(old(st), st.(locals := old(st.locals)))
      ensures r.Done? && t.Name? ==> st.locals == old(st.locals)
      ensures r.Done? && !t.Name? ==> && |st.augTmps| == AugCount(t)
                                      && (forall k :: 0 <= k < |st.augTmps| ==> st.augTmps[k] !in old(st.locals))
                                      && st.locals == WithTemps(old(st.locals), st.augTmps)
      ensures r.Done? && !t.Name? ==> var tail := SaveAugCode(st.augTmps) + [Invoke(Getter(t), AugCount(t), 1)];
                                      |st.code| >= |tail| && st.code[|st.code| - |tail|..] == tail
      ensures t.Name? || ExprOk(t) ==> r.Done?
    {
      if t.Name? {
        VisitNameLoad(t.id);
        return Done;
      }
      r := TargetOperands(t);
      if r.Failed? {
        return;
      }
      ghost var operands := st.code;
      SaveAugTmps(AugCount(t));
      Emit(Invoke(Getter(t), AugCount(t), 1));
      ghost var tail := SaveAugCode(st.augTmps) + [Invoke(Getter(t), AugCount(t), 1)];
      assert st.code == operands + tail;
    }

    /**
     * The augmented-store visit of a target, with the field `temporary`
     * pointed at slot `value`: a name is stored from it; otherwise the saved
     * operands are pushed back from the aug temporaries, which are freed,
     * and the new value is set.
     */
    method AugStore(t: Expr, value: nat) returns (r: Status)
      requires Valid() && IsAugTarget(t)
      requires !t.Name? ==> |st.augTmps| == AugCount(t)
      modifies this
      ensures r.Done? ==> && Valid() && depth == old(depth) && old(labelDepth) <= labelDepth
                          && Grew(old(st), st.(locals := old(st.locals), temporary := old(st.temporary)))
                          && (st.temporary == value || old(st.nextSlot) <= st.temporary)
      ensures t.Name? ==> r.Done? ==> st.locals == old(st.locals)
      ensures !t.Name? ==> r.Done? && st.locals == old(st.locals) - (set s | s in old(st.augTmps))
      ensures !t.Name? ==> st.code == old(st.code) + RestoreAugCode(old(st.augTmps))
                                                 + [ALoad(value), Invoke(Setter(t), AugCount(t) + 1, 0)]
      ensures t.Name? ==> (r.Done? <==> Storable(t.id))
    {
      st := st.(temporary := value);
      if t.Name? {
        r := VisitNameStore(t.id, value);
        return;
      }
      RestoreAugTmps(AugCount(t));
      Emit(ALoad(value));
      Emit(Invoke(Setter(t), AugCount(t) + 1, 0));
      r := Done;
    }


    // -------------------------------------------------------------------
    // Statements: each leaves the stack as it found it, and reports Exit
    // exactly when control cannot fall through it
    // -------------------------------------------------------------------

    /**
     * suite: compile statements until one of them exits; `compiled` is
     * the statements compiled, which stop at the first that exits.
     */
    method CompileSuite(ss: seq<Stmt>) returns (f: Flow, ghost compiled: seq<Stmt>)
      requires Valid() && WfSuite(ss)
      modifies this
      decreases Weight(st.handlers) + SuiteSize(ss), 20
      ensures !f.Abort? ==> Kept() && depth == old(depth) && (f == Exit <==> SuiteExits(ss))
      ensures !f.Abort? ==> compiled == ss[..FirstExit(ss)]
      ensures f == Exit ==> EndsInJump(st.code)
      ensures SuiteOk(ss, CtxOf(old(st))) ==> !f.Abort?
    {
      compiled := [];
      var i := 0;
      while i < |ss|
        invariant 0 <= i <= |ss|
        invariant Kept() && depth == old(depth)
        invariant forall j :: 0 <= j < i ==> !Exits(ss[j])
        invariant compiled == ss[..i]
      {
        SuiteSizeElem(ss, i);
        f := CompileStmt(ss[i]);
        if f.Abort? {
          return;
        }
        compiled := compiled + [ss[i]];
        if f == Exit {
          FirstExitPrefix(ss, i);
          return;
        }
        i := i + 1;
      }
      FirstExitPrefix(ss, i);
      f := NoExit;
    }

    /** The else-suite of an if, a loop or a try/except, when there is one. */
    method ElseSuite(e: Else) returns (f: Flow)
      requires Valid() && WfOptSuite(e)
      modifies this
      decreases Weight(st.handlers) + OptSuiteSize(e), 21
      ensures !f.Abort? ==> Kept() && depth == old(depth)
      ensures e.NoElse? ==> f == NoExit && st == old(st) && depth == old(depth) && labelDepth == old(labelDepth)
      ensures e.Else? && !f.Abort? ==> (f == Exit <==> SuiteExits(e.suite))
      ensures f == Exit ==> EndsInJump(st.code)
      ensures ElseOk(e, CtxOf(old(st))) ==> !f.Abort?
    {
      if e.NoElse? {
        return NoExit;
      }
      ghost var compiled;
      f, compiled := CompileSuite(e.suite);
    }

    /** visit(node) for a statement. */
    method CompileStmt(s: Stmt) returns (f: Flow)
      requires Valid() && WfStmt(s)
      modifies this
      decreases Weight(st.handlers) + StmtSize(s), 19
      ensures !f.Abort? ==> Kept() && depth == old(depth) && (f == Exit <==> Exits(s))
      ensures f == Exit ==> EndsInJump(st.code)
      ensures StmtOk(s, CtxOf(old(st))) ==> !f.Abort?
    {
      if s.ExprStmt? || s.Assign? || s.AugAssign? || s.Delete? || s.Import? || s.Pass? || s.Global? {
        f := CompileSimpleStmt(s);
      } else if s.Yield? || s.Break? || s.Continue? || s.Return? || s.Raise? {
        f := CompileJumpStmt(s);
      } else {
        f := CompileBlockStmt(s);
      }
    }

    /** Statements that only evaluate and store: they always fall through. */
    method CompileSimpleStmt(s: Stmt) returns (f: Flow)
      requires Valid() && WfStmt(s)
      requires s.ExprStmt? || s.Assign? || s.AugAssign? || s.Delete? || s.Import? || s.Pass? || s.Global?
      modifies this
      decreases Weight(st.handlers) + StmtSize(s), 18
      ensures !f.Abort? ==> Kept() && depth == old(depth) && f == NoExit
      ensures StmtOk(s, CtxOf(old(st))) ==> !f.Abort?
    {
      if s.ExprStmt? {
        f := VisitExprStmt(s);
      } else if s.Assign? {
        f := VisitAssign(s);
      } else if s.AugAssign? {
        f := VisitAugAssign(s);
      } else if s.Delete? {
        var r := DeleteAll(s.dels);
        f := if r.Failed? then Abort(r.error) else NoExit;
      } else if s.Import? {
        f := VisitImport(s);
      } else {
        f := NoExit;
      }
    }

    /** Statements that leave the code object or the loop: yield, break, continue, return, raise. */
    method CompileJumpStmt(s: Stmt) returns (f: Flow)
      requires Valid() && WfStmt(s) && (s.Yield? || s.Break? || s.Continue? || s.Return? || s.Raise?)
      modifies this
      decreases Weight(st.handlers) + StmtSize(s), 18
      ensures !f.Abort? ==> Kept() && depth == old(depth) && (f == Exit <==> Exits(s))
      ensures f == Exit ==> EndsInJump(st.code)
      ensures StmtOk(s, CtxOf(old(st))) ==> !f.Abort?
    {
      if s.Yield? {
        f := VisitYield(s);
      } else if s.Break? {
        ghost var inlined;
        f, inlined := VisitBreak(s);
      } else if s.Continue? {
        ghost var inlined;
        f, inlined := VisitContinue(s);
      } else if s.Return? {
        ghost var inlined;
        f, inlined := VisitReturn(s, false);
      } else {
        f := VisitRaise(s);
      }
    }

    /** Statements with suites: if, while, for, try/except, try/finally. */
    method CompileBlockStmt(s: Stmt) returns (f: Flow)
      requires Valid() && WfStmt(s) && (s.If? || s.While? || s.For? || s.TryExcept? || s.TryFinally?)
      modifies this
      decreases Weight(st.handlers) + StmtSize(s), 18
      ensures !f.Abort? ==> Kept() && depth == old(depth) && (f == Exit <==> Exits(s))
      ensures f == Exit ==> EndsInJump(st.code)
      ensures StmtOk(s, CtxOf(old(st))) ==> !f.Abort?
    {
      if s.If? {
        f := VisitIf(s);
      } else if s.While? {
        f := VisitWhile(s);
      } else if s.For? {
        f := VisitFor(s);
      } else if s.TryExcept? {
        f := VisitTryExcept(s);
      } else {
        f := VisitTryFinally(s);
      }
    }

    /** visitExpr: the value is printed in interactive mode and dropped otherwise. */
    method VisitExprStmt(s: Stmt) returns (f: Flow)
      requires Valid() && s.ExprStmt? && WfStmt(s)
      modifies this
      decreases Weight(st.handlers) + StmtSize(s), 17
      ensures !f.Abort? ==> Kept() && depth == old(depth) && f == NoExit
      ensures StmtOk(s, CtxOf(old(st))) ==> !f.Abort?
    {
      var r := CompileExpr(s.value);
      if r.Failed? {
        return Abort(r.error);
      }
      if printResults {
        Emit(Invoke("printResult", 1, 0));
      } else {
        Emit(Pop);
      }
      f := NoExit;
    }

    /** visitAssign: one target is set from the stack; several share one temporary, set last target first. */
    method VisitAssign(s: Stmt) returns (f: Flow)
      requires Valid() && s.Assign? && WfStmt(s)
      modifies this
      decreases Weight(st.handlers) + StmtSize(s), 17
      ensures !f.Abort? ==> Kept() && depth == old(depth) && f == NoExit
      ensures StmtOk(s, CtxOf(old(st))) ==> !f.Abort?
    {
      var ts := s.targets;
      var r := CompileExpr(s.rhs);
      if r.Failed? {
        return Abort(r.error);
      }
      if |ts| == 1 {
        ExprsSizeElem(ts, 0);
        r := SetTop(ts[0]);
      } else {
        var tmp := StoreTop();
        r := StoreTargets(ts, tmp);
        if r.Failed? {
          return Abort(r.error);
        }
        FreeLocal(tmp);
        TempFreed(old(st.locals), tmp, PyObjectType);
      }
      if r.Failed? {
        return Abort(r.error);
      }
      f := NoExit;
    }

    /**
     * visitAugAssign: the new value is computed from the target's current
     * value, whose operands are kept, and stored back through them.
     */
    method VisitAugAssign(s: Stmt) returns (f: Flow)
      requires Valid() && s.AugAssign? && WfStmt(s)
      modifies this
      decreases Weight(st.handlers) + StmtSize(s), 17
      ensures !f.Abort? ==> Kept() && depth == old(depth) && f == NoExit
      ensures StmtOk(s, CtxOf(old(st))) ==> !f.Abort?
    {
      var r := AugCompute(s);
      if r.Failed? {
        return Abort(r.error);
      }
      ghost var aug := st.augTmps;
      r := AugWriteBack(s.target);
      if r.Failed? {
        return Abort(r.error);
      }
      if !s.target.Name? {
        TempsFreed(old(st.locals), aug);
      }
      f := NoExit;
    }

    /**
     * The first half of visitAugAssign: the operand into a temporary, the
     * target's current value (its operands kept in the aug temporaries),
     * and the in-place operator applied; the temporary is freed.
     */
    method AugCompute(s: Stmt) returns (r: Status)
      requires Valid() && s.AugAssign? && WfStmt(s)
      modifies this
      decreases Weight(st.handlers) + StmtSize(s), 16
      ensures r.Done? ==> && Valid() && depth == old(depth) + 1 && old(labelDepth) <= labelDepth
                          && Grew(old(st), st.(locals := old(st.locals)))
      ensures r.Done? && s.target.Name? ==> st.locals == old(st.locals)
      ensures r.Done? && !s.target.Name? ==>
                && |st.augTmps| == AugCount(s.target)
                && (forall k :: 0 <= k < |st.augTmps| ==> st.augTmps[k] !in old(st.locals))
                && st.locals == WithTemps(old(st.locals), st.augTmps)
      ensures ExprOk(s.operand) && (s.target.Name? || ExprOk(s.target)) ==> r.Done?
    {
      var tmp;
      r, tmp := OperandToTemp(s.operand);
      if r.Failed? {
        return;
      }
      r := AugLoad(s.target);
      if r.Failed? {
        return;
      }
      ApplyInPlace(tmp, AugOpName(s.aop, trueDivision));
      FreeLocal(tmp);
      if s.target.Name? {
        TempFreed(old(st.locals), tmp, PyObjectType);
      } else {
        TempFreedUnder(old(st.locals), tmp, st.augTmps);
      }
    }

    /** The in-place operator `name` applied to the value on the stack and the operand kept in `tmp`. */
    method ApplyInPlace(tmp: nat, name: string)
      requires Valid() && depth >= 1
      modifies this
      ensures Valid() && depth == old(depth) && labelDepth == old(labelDepth)
      ensures st == old(st).(code := old(st.code) + [ALoad(tmp), Invoke(name, 2, 1)])
    {
      Emit(ALoad(tmp));
      Emit(Invoke(name, 2, 1));
    }

    /** The value of `e` into a fresh PyObject temporary. */
    method OperandToTemp(e: Expr) returns (r: Status, tmp: nat)
      requires Valid() && WfExpr(e)
      modifies this
      decreases Weight(st.handlers) + ExprSize(e), 12
      ensures r.Done? ==> && Valid() && depth == old(depth) && old(labelDepth) <= labelDepth
                          && Grew(old(st), st.(locals := old(st.locals)))
                          && tmp !in old(st.locals) && st.locals == old(st.locals)[tmp := PyObjectType]
      ensures ExprOk(e) ==> r.Done?
    {
      r := CompileExpr(e);
      if r.Failed? {
        return r, 0;
      }
      tmp := StoreTop();
    }

    /** The second half of visitAugAssign: the result into a temporary, stored back through the target. */
    method AugWriteBack(t: Expr) returns (r: Status)
      requires Valid() && IsAugTarget(t) && depth >= 1
      requires !t.Name? ==> |st.augTmps| == AugCount(t)
      modifies this
      ensures r.Done? ==> && Valid() && depth == old(depth) - 1 && old(labelDepth) <= labelDepth
                          && Grew(old(st), st.(locals := old(st.locals)))
      ensures r.Done? && t.Name? ==> st.locals == old(st.locals)
      ensures r.Done? && !t.Name? ==> st.locals == old(st.locals) - (set s | s in old(st.augTmps))
      ensures (t.Name? ==> Storable(t.id)) ==> r.Done?
    {
      var tmp := StoreTop();
      r := AugStore(t, tmp);
      if r.Failed? {
        return;
      }
      FreeLocal(tmp);
      if t.Name? {
        TempFreed(old(st.locals), tmp, PyObjectType);
      } else {
        TempFreedAfter(old(st.locals), tmp, set s | s in old(st.augTmps));
      }
    }

    /** visitYield: save the locals, return the value with the resume index set, and restore them on resume. */
    method VisitYield(s: Stmt) returns (f: Flow)
      requires Valid() && s.Yield? && WfStmt(s)
      modifies this
      decreases Weight(st.handlers) + StmtSize(s), 17
      ensures !fastLocals ==> f == Abort(YieldOutsideFunction)
      ensures fastLocals && HasFinally(Bodies(old(st.handlers))) ==> f == Abort(YieldInsideTryFinally)
      ensures !f.Abort? ==> && Kept() && depth == old(depth) && f == NoExit
                            && st.yieldCount > old(st.yieldCount)
                            && Contains(st.code, SetLastICode(st.yieldCount) + [Instr.Return])
      ensures StmtOk(s, CtxOf(old(st))) ==> !f.Abort?
    {
      if !fastLocals {
        return Abort(YieldOutsideFunction);
      }
      var inFinally := InFinallyBody();
      if inFinally {
        return Abort(YieldInsideTryFinally);
      }
      ghost var t1 := SaveLocals();
      if s.yielded.Some? {
        var r := CompileExpr(s.yielded.value);
        if r.Failed? {
          return Abort(r.error);
        }
      } else {
        Emit(Push(StaticField("None")));
      }
      YieldAndResume();
      f := NoExit;
    }

    /**
     * The value on the stack is yielded: the code returns it with the new
     * resume index set, and the resume label is followed by the code that
     * restores the locals.
     */
    method YieldAndResume()
      requires Valid() && depth >= 1
      modifies this
      ensures Valid() && depth == old(depth) - 1 && old(labelDepth) <= labelDepth && Grew(old(st), st)
      ensures st.yieldCount == old(st.yieldCount) + 1
      ensures Contains(st.code, SetLastICode(st.yieldCount) + [Instr.Return])
    {
      ghost var before := st.code;
      var restart := Suspend();
      ghost var piece := SetLastICode(st.yieldCount) + [Instr.Return];
      ghost var t2 := RestoreLocals();
      ghost var tail := st.code[|before|..];
      assert st.code == before + tail;
      assert piece <= tail[0..];
      ContainsAppend(before, tail, piece);
    }

    /** visitBreak: unwind the finally bodies down to the loop's floor and jump to the loop's break label. */
    method VisitBreak(s: Stmt) returns (f: Flow, ghost inlined: seq<seq<Stmt>>)
      requires Valid() && s.Break?
      modifies this
      decreases Weight(st.handlers) + StmtSize(s), 17
      ensures old(st.breakLabels) == [] ==> f == Abort(BreakOutsideLoop)
      ensures !f.Abort? ==> && Kept() && depth == old(depth) && f == NoExit
                            && |st.breakLabels| > 0 && |st.code| > 0
                            && st.code[|st.code| - 1] == Goto(Top(st.breakLabels))
      ensures !f.Abort? ==> inlined == Unwound(Bodies(old(st.handlers)), old(st.bcfLevel))
      ensures StmtOk(s, CtxOf(old(st))) ==> !f.Abort?
    {
      if |st.breakLabels| == 0 {
        return Abort(BreakOutsideLoop), [];
      }
      var r;
      r, inlined := DoFinallysDownTo(st.bcfLevel);
      if r.Failed? {
        return Abort(r.error), inlined;
      }
      JumpOut(Top(st.breakLabels));
      f := NoExit;
    }

    /** visitContinue: as break, to the loop's continue label; control does not fall through. */
    method VisitContinue(s: Stmt) returns (f: Flow, ghost inlined: seq<seq<Stmt>>)
      requires Valid() && s.Continue?
      modifies this
      decreases Weight(st.handlers) + StmtSize(s), 17
      ensures old(st.continueLabels) == [] ==> f == Abort(ContinueOutsideLoop)
      ensures !f.Abort? ==> && Kept() && depth == old(depth) && f == Exit
                            && |st.continueLabels| > 0 && |st.code| > 0
                            && st.code[|st.code| - 1] == Goto(Top(st.continueLabels))
      ensures !f.Abort? ==> inlined == Unwound(Bodies(old(st.handlers)), old(st.bcfLevel))
      ensures StmtOk(s, CtxOf(old(st))) ==> !f.Abort?
    {
      if |st.continueLabels| == 0 {
        return Abort(ContinueOutsideLoop), [];
      }
      var r;
      r, inlined := DoFinallysDownTo(st.bcfLevel);
      if r.Failed? {
        return Abort(r.error), inlined;
      }
      JumpOut(Top(st.continueLabels));
      f := Exit;
    }

    /**
     * visitReturn: the value is kept in the return local while every
     * enclosing finally body is inlined, then the code returns it (or None)
     * with the resume index set to -1.
     */
    method VisitReturn(s: Stmt, inEval: bool) returns (f: Flow, ghost inlined: seq<seq<Stmt>>)
      requires Valid() && s.Return? && WfStmt(s)
      modifies this
      decreases Weight(st.handlers) + StmtSize(s), 17
      ensures !inEval && !fastLocals ==> f == Abort(ReturnOutsideFunction)
      ensures (inEval || fastLocals) && s.result.Some? && isGenerator ==> f == Abort(ReturnValueInGenerator)
      ensures !f.Abort? ==> && Kept() && depth == old(depth) && f == Exit
                            && |st.code| >= 2 && st.code[|st.code| - 1] == Instr.Return
                            && (s.result.Some? ==> && st.returnLocal.Some?
                                                   && st.code[|st.code| - 2] == ALoad(st.returnLocal.value))
                            && (s.result.None? ==> st.code[|st.code| - 2] == Push(StaticField("None")))
      ensures !f.Abort? ==> && |inlined| == |old(st.handlers)|
                            && inlined == Unwound(Bodies(old(st.handlers)), 0)
      ensures (inEval || fastLocals) && (s.result.Some? ==> !isGenerator && ExprOk(s.result.value)) && BodiesOk(Bodies(old(st.handlers)), 0) ==> !f.Abort?
    {
      if !inEval && !fastLocals {
        return Abort(ReturnOutsideFunction), [];
      }
      var tmp := 0;
      if s.result.Some? {
        if isGenerator {
          return Abort(ReturnValueInGenerator), [];
        }
        var r;
        r, tmp := ReturnValue(s.result.value);
        if r.Failed? {
          return Abort(r.error), [];
        }
      }
      var r;
      r, inlined := DoFinallysDownTo(0);
      if r.Failed? {
        return Abort(r.error), inlined;
      }
      EmitReturn(if s.result.Some? then Some(tmp) else None);
      f := Exit;
    }

    /** The end of a return: the resume index set to -1, then the value in `value` (or None) returned. */
    method EmitReturn(value: Option<nat>)
      requires Valid()
      modifies this
      ensures Valid() && depth == old(depth) && labelDepth == old(labelDepth)
      ensures st == old(st).(code := old(st.code) + SetLastICode(-1) + [ReturnOperand(value), Instr.Return])
    {
      SetLastI(-1);
      Emit(ReturnOperand(value));
      Emit(Instr.Return);
    }

    /** The returned value, stored in the code object's return local. */
    method ReturnValue(e: Expr) returns (r: Status, slot: nat)
      requires Valid() && WfExpr(e)
      modifies this
      decreases Weight(st.handlers) + ExprSize(e), 12
      ensures r.Done? ==> && Kept() && depth == old(depth) && st.returnLocal == Some(slot)
                          && |st.code| > 0 && st.code[|st.code| - 1] == AStore(slot)
      ensures ExprOk(e) ==> r.Done?
    {
      r := CompileExpr(e);
      if r.Failed? {
        return r, 0;
      }
      slot := GetReturnLocal();
      Emit(AStore(slot));
    }

    /** visitRaise: the parts present, then makeException with that many arguments, thrown. */
    method VisitRaise(s: Stmt) returns (f: Flow)
      requires Valid() && s.Raise? && WfStmt(s)
      modifies this
      decreases Weight(st.handlers) + StmtSize(s), 17
      ensures !f.Abort? ==> && Kept() && depth == old(depth) && f == Exit
                            && |st.code| >= 2 && st.code[|st.code| - 1] == Throw
                            && st.code[|st.code| - 2] == Invoke("makeException", RaiseArity(s), 1)
      ensures StmtOk(s, CtxOf(old(st))) ==> !f.Abort?
    {
      var r := RaiseOperands(s);
      if r.Failed? {
        return Abort(r.error);
      }
      Emit(Invoke("makeException", RaiseArity(s), 1));
      Emit(Throw);
      f := Exit;
    }

    /** The type, instance and traceback of a raise, as far as they are present. */
    method RaiseOperands(s: Stmt) returns (r: Status)
      requires Valid() && s.Raise? && WfStmt(s)
      modifies this
      decreases Weight(st.handlers) + StmtSize(s), 16
      ensures r.Done? ==> Kept() && depth == old(depth) + RaiseArity(s)
      ensures OptOk(s.exc) && OptOk(s.inst) && OptOk(s.tback) ==> r.Done?
    {
      r := Done;
      if s.exc.Some? {
        r := CompileExpr(s.exc.value);
      }
      if r.Done? && s.inst.Some? {
        r := CompileExpr(s.inst.value);
      }
      if r.Done? && s.tback.Some? {
        r := CompileExpr(s.tback.value);
      }
    }

    /** visitImport: each module imported and bound to its alias, or to the first component of its dotted name. */
    method VisitImport(s: Stmt) returns (f: Flow)
      requires Valid() && s.Import?
      modifies this
      decreases Weight(st.handlers) + StmtSize(s), 17
      ensures !f.Abort? ==> Kept() && depth == old(depth) && f == NoExit
      ensures StmtOk(s, CtxOf(old(st))) ==> !f.Abort?
    {
      var names := s.names;
      var i := 0;
      while i < |names|
        invariant 0 <= i <= |names|
        invariant Kept() && depth == old(depth)
      {
        var a := names[i];
        Emit(Push(StrConst(a.name)));
        Emit(ALoad(1));
        Emit(Invoke(if a.asname.Some? then "importOneAs" else "importOne", 2, 1));
        var r := SetTop(Name(ImportAlias(a)));
        if r.Failed? {
          return Abort(r.error);
        }
        i := i + 1;
      }
      f := NoExit;
    }

    /** A test: the value's truth, and a branch to `target` when it is `jumpIfTrue`. */
    method CompileTest(e: Expr, jumpIfTrue: bool, target: Label) returns (r: Status)
      requires Valid() && WfExpr(e) && target < |labelDepth| && labelDepth[target] == depth
      modifies this
      decreases Weight(st.handlers) + ExprSize(e), 12
      ensures r.Done? ==> Kept() && depth == old(depth)
      ensures ExprOk(e) ==> r.Done?
    {
      r := CompileExpr(e);
      if r.Failed? {
        return;
      }
      Emit(Invoke("__nonzero__", 1, 1));
      if jumpIfTrue {
        Jump(IfNe(target));
      } else {
        Jump(IfEq(target));
      }
    }

    /** visitIf: the end-of-if label exists only when there is an else-suite. */
    method VisitIf(s: Stmt) returns (f: Flow)
      requires Valid() && s.If? && WfStmt(s)
      modifies this
      decreases Weight(st.handlers) + StmtSize(s), 17
      ensures !f.Abort? ==> Kept() && depth == old(depth) && (f == Exit <==> Exits(s))
      ensures f == Exit ==> EndsInJump(st.code)
      ensures StmtOk(s, CtxOf(old(st))) ==> !f.Abort?
    {
      var endOfIf := 0;
      if s.orelse.Else? {
        endOfIf := NewLabel(depth);
      }
      f := DoTest(s, endOfIf);
      if f.Abort? || s.orelse.NoElse? {
        return;
      }
      Place(endOfIf);
    }

    /**
     * doTest: the test, a branch past the body when false, the body with a
     * jump to the end of the if when it can fall through and there is an
     * else-suite, then the else-suite.  The if exits only when both suites do.
     */
    method DoTest(s: Stmt, endOfIf: Label) returns (f: Flow)
      requires Valid() && s.If? && WfStmt(s)
      requires s.orelse.Else? ==> endOfIf < |labelDepth| && labelDepth[endOfIf] == depth
      modifies this
      decreases Weight(st.handlers) + StmtSize(s), 16
      ensures !f.Abort? ==> Kept() && depth == old(depth) && (f == Exit <==> Exits(s))
      ensures f == Exit ==> EndsInJump(st.code)
      ensures StmtOk(s, CtxOf(old(st))) ==> !f.Abort?
    {
      var endOfSuite := NewLabel(depth);
      var r := CompileTest(s.test, false, endOfSuite);
      if r.Failed? {
        return Abort(r.error);
      }
      var exit;
      ghost var compiled;
      exit, compiled := CompileSuite(s.body);
      if exit.Abort? {
        return exit;
      }
      if s.orelse.NoElse? {
        Place(endOfSuite);
        return NoExit;
      }
      assert Weight(st.handlers) == Weight(old(st.handlers)) by {
        assert Bodies(st.handlers) == Bodies(old(st.handlers));
      }
      f := ElseBranch(s, exit, endOfSuite, endOfIf);
    }

    /** The else part of doTest: a body that falls through jumps past the else-suite, which follows the body's end. */
    method ElseBranch(s: Stmt, bodyExit: Flow, endOfSuite: Label, endOfIf: Label) returns (f: Flow)
      requires Valid() && s.If? && WfStmt(s) && s.orelse.Else? && !bodyExit.Abort?
      requires endOfSuite < |labelDepth| && labelDepth[endOfSuite] == depth
      requires endOfIf < |labelDepth| && labelDepth[endOfIf] == depth
      modifies this
      decreases Weight(st.handlers) + StmtSize(s), 15
      ensures !f.Abort? ==> && Kept() && depth == old(depth)
                            && (f == Exit <==> bodyExit == Exit && SuiteExits(s.orelse.suite))
      ensures f == Exit ==> EndsInJump(st.code)
      ensures ElseOk(s.orelse, CtxOf(old(st))) ==> !f.Abort?
    {
      if bodyExit == NoExit {
        Jump(Goto(endOfIf));
      }
      Place(endOfSuite);
      assert StmtSize(s) > OptSuiteSize(s.orelse);
      var elseExit := ElseSuite(s.orelse);
      if elseExit.Abort? {
        return elseExit;
      }
      f := if elseExit != NoExit then bodyExit else NoExit;
    }

    /** visitWhile: jump to the test at the bottom; the body runs while the test holds, then the else-suite. */
    method VisitWhile(s: Stmt) returns (f: Flow)
      requires Valid() && s.While? && WfStmt(s)
      modifies this
      decreases Weight(st.handlers) + StmtSize(s), 17
      ensures !f.Abort? ==> Kept() && depth == old(depth) && f == NoExit
      ensures StmtOk(s, CtxOf(old(st))) ==> !f.Abort?
    {
      var saved := BeginLoop(depth);
      EnteredLoop(st);
      var breakLoop := Top(st.breakLabels);
      var r := WhileLoop(s);
      if r.Failed? {
        return Abort(r.error);
      }
      FinishLoop(saved);
      assert st.continueLabels == old(st.continueLabels) && st.breakLabels == old(st.breakLabels);
      assert Weight(st.handlers) == Weight(old(st.handlers)) by {
        assert Bodies(st.handlers) == Bodies(old(st.handlers));
      }
      assert StmtSize(s) > OptSuiteSize(s.loopElse);
      f := LoopElse(s.loopElse, breakLoop);
      if f.Abort? {
        return;
      }
      f := NoExit;
    }

    /** After finishLoop: the loop's else-suite, then its break label. */
    method LoopElse(e: Else, breakLoop: Label) returns (f: Flow)
      requires Valid() && WfOptSuite(e) && breakLoop < |labelDepth| && labelDepth[breakLoop] == depth
      modifies this
      decreases Weight(st.handlers) + OptSuiteSize(e), 22
      ensures !f.Abort? ==> && Kept() && depth == old(depth) && f == NoExit
                            && |st.labels| > breakLoop && st.labels[breakLoop] == Some(|st.code|)
      ensures ElseOk(e, CtxOf(old(st))) ==> !f.Abort?
    {
      f := ElseSuite(e);
      if f.Abort? {
        return;
      }
      Place(breakLoop);
      f := NoExit;
    }

    /** The loop of visitWhile, between beginLoop and finishLoop. */
    method WhileLoop(s: Stmt) returns (r: Status)
      requires Valid() && s.While? && WfStmt(s) && |st.continueLabels| > 0
      requires Top(st.continueLabels) < |labelDepth| && labelDepth[Top(st.continueLabels)] == depth
      modifies this
      decreases Weight(st.handlers) + StmtSize(s), 16
      ensures r.Done? ==> Kept() && depth == old(depth)
      ensures ExprOk(s.cond) && SuiteOk(s.loopBody, CtxOf(old(st))) ==> r.Done?
    {
      var continueLoop := Top(st.continueLabels);
      var startLoop := NewLabel(depth);
      Jump(Goto(continueLoop));
      Place(startLoop);
      var exit;
      ghost var compiled;
      exit, compiled := CompileSuite(s.loopBody);
      if exit.Abort? {
        return Failed(exit.error);
      }
      Place(continueLoop);
      r := CompileTest(s.cond, true, startLoop);
    }

    /**
     * visitFor: the iterator in one temporary and each item in another;
     * the loop test at the bottom fetches the next item and runs the body
     * again while there is one, then the else-suite.
     */
    method VisitFor(s: Stmt) returns (f: Flow)
      requires Valid() && s.For? && WfStmt(s)
      modifies this
      decreases Weight(st.handlers) + StmtSize(s), 17
      ensures !f.Abort? ==> Kept() && depth == old(depth) && f == NoExit
      ensures StmtOk(s, CtxOf(old(st))) ==> !f.Abort?
    {
      var saved := BeginLoop(depth);
      var breakLoop := Top(st.breakLabels);
      var iterTmp := GetLocal(PyObjectType);
      var exprTmp := GetLocal(PyObjectType);
      EnteredLoop(st);
      assert CtxOf(st) == CtxOf(old(st)).(loop := true);
      var r := ForLoop(s, iterTmp, exprTmp);
      if r.Failed? {
        return Abort(r.error);
      }
      FinishLoop(saved);
      assert st.continueLabels == old(st.continueLabels) && st.breakLabels == old(st.breakLabels);
      assert Weight(st.handlers) == Weight(old(st.handlers)) by {
        assert Bodies(st.handlers) == Bodies(old(st.handlers));
      }
      assert StmtSize(s) > OptSuiteSize(s.forElse);
      f := LoopElse(s.forElse, breakLoop);
      if f.Abort? {
        return;
      }
      FreeLocal(iterTmp);
      FreeLocal(exprTmp);
      TwoTempsFreed(old(st.locals), iterTmp, exprTmp, PyObjectType);
      f := NoExit;
    }

    /** The loop of visitFor, between beginLoop and finishLoop, with both temporaries taken. */
    method ForLoop(s: Stmt, iterTmp: nat, exprTmp: nat) returns (r: Status)
      requires Valid() && s.For? && WfStmt(s) && |st.continueLabels| > 0
      requires Top(st.continueLabels) < |labelDepth| && labelDepth[Top(st.continueLabels)] == depth
      modifies this
      decreases Weight(st.handlers) + StmtSize(s), 16
      ensures r.Done? ==> KeptSetting(exprTmp) && depth == old(depth)
      ensures TargetOk(s.target) && ExprOk(s.iter) && SuiteOk(s.forBody, CtxOf(old(st))) ==> r.Done?
    {
      var continueLoop := Top(st.continueLabels);
      var startLoop := NewLabel(depth);
      var nextLoop := NewLabel(depth);
      r := ForIter(s.iter, iterTmp, nextLoop);
      if r.Failed? {
        return;
      }
      Place(startLoop);
      r := Store(s.target, exprTmp);
      if r.Failed? {
        return;
      }
      var exit;
      ghost var compiled;
      exit, compiled := CompileSuite(s.forBody);
      if exit.Abort? {
        return Failed(exit.error);
      }
      ForAdvance(iterTmp, exprTmp, continueLoop, nextLoop, startLoop);
    }

    /** The iterator of the sequence into `iterTmp`, then a jump to the loop test. */
    method ForIter(e: Expr, iterTmp: nat, next: Label) returns (r: Status)
      requires Valid() && WfExpr(e) && next < |labelDepth| && labelDepth[next] == depth
      modifies this
      decreases Weight(st.handlers) + ExprSize(e), 12
      ensures r.Done? ==> Kept() && depth == old(depth)
      ensures ExprOk(e) ==> r.Done?
    {
      r := CompileExpr(e);
      if r.Failed? {
        return;
      }
      Emit(Invoke("__iter__", 1, 1));
      Emit(AStore(iterTmp));
      Jump(Goto(next));
    }

    /** The loop test of visitFor, where continue and the first pass land: the next item into `exprTmp`, and back to the body while it is not null. */
    method ForAdvance(iterTmp: nat, exprTmp: nat, continueLoop: Label, next: Label, start: Label)
      requires Valid() && start < |labelDepth| && labelDepth[start] == depth
      requires continueLoop < |labelDepth| && labelDepth[continueLoop] == depth
      requires next < |labelDepth| && labelDepth[next] == depth
      modifies this
      ensures Valid() && depth == old(depth) && labelDepth == old(labelDepth)
      ensures st == old(st).(code := old(st.code) + [ALoad(iterTmp), Invoke("__iternext__", 1, 1),
                                                     AStore(exprTmp), ALoad(exprTmp), IfNonNull(start)],
                             labels := old(st.labels)[continueLoop := Some(|old(st.code)|)]
                                                     [next := Some(|old(st.code)|)])
    {
      Place(continueLoop);
      Place(next);
      Emit(ALoad(iterTmp));
      Emit(Invoke("__iternext__", 1, 1));
      Emit(AStore(exprTmp));
      Emit(ALoad(exprTmp));
      Jump(IfNonNull(start));
    }

    /**
     * A protected body: a handler carrying `fin` is pushed with a range
     * starting here, the body is compiled under it, and the handler is
     * popped with its last range ending here.
     */
    method ProtectedSuite(body: seq<Stmt>, fin: Option<seq<Stmt>>) returns (h: Handler, f: Flow)
      requires Valid() && WfSuite(body) && (fin.Some? ==> WfSuite(fin.value))
      modifies this
      decreases Weight(st.handlers) + SuiteSize(body) + BodyWeight(fin) + 1, 15
      ensures !f.Abort? ==> Kept() && depth == old(depth) && (f == Exit <==> SuiteExits(body))
      ensures f == Exit ==> EndsInJump(st.code)
      ensures !f.Abort? ==> && h.finalBody == fin && !h.bodyDone && |h.starts| == |h.ends|
                            && (fin.Some? ==> WfSuite(fin.value))
      ensures (fin.Some? ==> SuiteOk(fin.value, FinallyCtx)) && SuiteOk(body, Protected(CtxOf(old(st)), fin)) ==> !f.Abort?
    {
      h := Handler([|st.code|], [], false, fin);
      EnterProtected(h, body);
      ghost var compiled;
      f, compiled := CompileSuite(body);
      if f.Abort? {
        return;
      }
      h := LeaveProtected(old(st), h);
    }

    /** The handler of a protected body pushed, with a range starting here. */
    method EnterProtected(h: Handler, body: seq<Stmt>)
      requires Valid() && h == Handler([|st.code|], [], false, h.finalBody)
      requires h.finalBody.Some? ==> WfSuite(h.finalBody.value)
      modifies this
      ensures Valid() && depth == old(depth) && labelDepth == old(labelDepth)
      ensures st == old(st).(handlers := old(st.handlers) + [h])
      ensures Weight(st.handlers) == Weight(old(st.handlers)) + BodyWeight(h.finalBody)
      ensures ((h.finalBody.Some? ==> SuiteOk(h.finalBody.value, FinallyCtx))
               && SuiteOk(body, Protected(CtxOf(old(st)), h.finalBody)))
              ==> SuiteOk(body, CtxOf(st))
    {
      if (h.finalBody.Some? ==> SuiteOk(h.finalBody.value, FinallyCtx)) && SuiteOk(body, Protected(CtxOf(st), h.finalBody)) {
        PushedCtx(st, h, body);
      }
      PushHandler(h);
    }

    /** The handler pushed as `h0` over `outer` popped, its last range ending here. */
    method LeaveProtected(ghost outer: State, ghost h0: Handler) returns (h: Handler)
      requires Valid() && Grew(outer.(handlers := outer.handlers + [h0]), st)
      modifies this
      ensures Valid() && depth == old(depth) && labelDepth == old(labelDepth)
      ensures Grew(outer, st) && st.code == old(st.code)
      ensures h.finalBody == h0.finalBody && !h.bodyDone && |h.starts| == |h.ends|
    {
      ghost var inner := Bodies(st.handlers);
      ghost var mid := st;
      h := PopHandler();
      assert inner == Bodies(outer.handlers) + [h0.finalBody];
      assert Bodies(st.handlers) == inner[..|inner| - 1];
      GrewUnderHandler(outer, h0, mid, st.handlers);
      h := h.(ends := h.ends + [|st.code|]);
    }

    /**
     * visitTryExcept: the body under a handler; on an exception, the frame
     * records it and the clauses are tried; the else-suite runs only when
     * the body completes.  The handler's ranges are then registered.
     */
    method VisitTryExcept(s: Stmt) returns (f: Flow)
      requires Valid() && s.TryExcept? && WfStmt(s)
      modifies this
      decreases Weight(st.handlers) + StmtSize(s), 17
      ensures !f.Abort? ==> Kept() && depth == old(depth) && f == NoExit
      ensures !f.Abort? ==> forall i :: 0 <= i < |s.clauses| - 1 ==> s.clauses[i].kind.Some?
      ensures StmtOk(s, CtxOf(old(st))) ==> !f.Abort?
    {
      var handlerStart := NewLabel(depth + 1);
      var handlerEnd := NewLabel(depth);
      var h, exit := ProtectedSuite(s.tryBody, None);
      if exit.Abort? {
        return exit;
      }
      if exit == NoExit {
        Jump(Goto(handlerEnd));
      }
      assert CtxOf(st) == CtxOf(old(st));
      var r := ExceptHandler(s, h, handlerStart, handlerEnd);
      if r.Failed? {
        return Abort(r.error);
      }
      f := NoExit;
    }

    /** The handler of a try/except, entered with the exception on the stack; its ranges are registered last. */
    method ExceptHandler(s: Stmt, h: Handler, handlerStart: Label, handlerEnd: Label) returns (r: Status)
      requires Valid() && s.TryExcept? && WfStmt(s) && |h.starts| == |h.ends|
      requires handlerStart < |labelDepth| && handlerEnd < |labelDepth|
      requires labelDepth[handlerStart] >= 1 && labelDepth[handlerEnd] == labelDepth[handlerStart] - 1
      requires EndsInJump(st.code)
      modifies this
      decreases Weight(st.handlers) + StmtSize(s), 16
      ensures r.Done? ==> Kept() && depth == old(labelDepth)[handlerEnd]
      ensures r.Done? ==> forall i :: 0 <= i < |s.clauses| - 1 ==> s.clauses[i].kind.Some?
      ensures ClausesOk(s.clauses, CtxOf(old(st))) && ElseOk(s.tryElse, CtxOf(old(st))) ==> r.Done?
    {
      PlaceAfterJump(handlerStart);
      var exc := EnterHandler();
      r := ExceptClauses(s, exc, handlerEnd);
      if r.Failed? {
        return;
      }
      FreeLocal(exc);
      AddExceptionHandlers(h, handlerStart);
      TempFreed(old(st.locals), exc, "java/lang/Throwable");
    }

    /** The handler's entry: the frame records the exception, which is kept in a fresh local. */
    method EnterHandler() returns (exc: nat)
      requires Valid() && depth >= 1
      modifies this
      ensures Valid() && depth == old(depth) - 1 && labelDepth == old(labelDepth)
      ensures exc == old(st.nextSlot) && exc !in old(st.locals)
      ensures st == old(st).(code := old(st.code) + [ALoad(1), Invoke("setException", 2, 1), AStore(exc)],
                             nextSlot := exc + 1, locals := old(st.locals)[exc := "java/lang/Throwable"])
    {
      Emit(ALoad(1));
      Emit(Invoke("setException", 2, 1));
      exc := GetLocal("java/lang/Throwable");
      Emit(AStore(exc));
    }

    /** The clauses, and the else-suite between the end of the handler and the end of the else. */
    method ExceptClauses(s: Stmt, exc: nat, handlerEnd: Label) returns (r: Status)
      requires Valid() && s.TryExcept? && WfStmt(s)
      requires handlerEnd < |labelDepth| && labelDepth[handlerEnd] == depth
      modifies this
      decreases Weight(st.handlers) + StmtSize(s), 15
      ensures r.Done? ==> Kept() && depth == old(depth)
      ensures r.Done? ==> forall i :: 0 <= i < |s.clauses| - 1 ==> s.clauses[i].kind.Some?
      ensures ClausesOk(s.clauses, CtxOf(old(st))) && ElseOk(s.tryElse, CtxOf(old(st))) ==> r.Done?
    {
      if s.tryElse.NoElse? {
        r := ExceptionTest(s.clauses, exc, handlerEnd);
        if r.Failed? {
          return;
        }
        Place(handlerEnd);
      } else {
        var elseEnd := NewLabel(depth);
        r := ExceptionTest(s.clauses, exc, elseEnd);
        if r.Failed? {
          return;
        }
        Place(handlerEnd);
        assert Weight(st.handlers) == Weight(old(st.handlers)) by {
          assert Bodies(st.handlers) == Bodies(old(st.handlers));
        }
        assert StmtSize(s) > SuiteSize(s.tryElse.suite);
        var exit;
        ghost var compiled;
        exit, compiled := CompileSuite(s.tryElse.suite);
        if exit.Abort? {
          return Failed(exit.error);
        }
        Place(elseEnd);
      }
    }

    /**
     * exceptionTest: each clause in turn; if none matches, the exception
     * is thrown again.  Every clause but the last must name a type.
     */
    method ExceptionTest(cs: seq<ExceptClause>, exc: nat, endLabel: Label) returns (r: Status)
      requires Valid() && forall i :: 0 <= i < |cs| ==> WfClause(cs[i])
      requires endLabel < |labelDepth| && labelDepth[endLabel] == depth
      modifies this
      decreases Weight(st.handlers) + ClausesSize(cs), 16
      ensures r.Done? ==> Kept() && depth == old(depth)
      ensures r.Done? ==> forall i :: 0 <= i < |cs| - 1 ==> cs[i].kind.Some?
      ensures ClausesOk(cs, CtxOf(old(st))) ==> r.Done?
    {
      var i := 0;
      while i < |cs|
        invariant 0 <= i <= |cs|
        invariant Kept() && depth == old(depth)
        invariant labelDepth[endLabel] == old(depth)
        invariant forall j :: 0 <= j < i && j < |cs| - 1 ==> cs[j].kind.Some?
      {
        ClauseSizeElem(cs, i);
        r := CatchClause(cs[i], i == |cs| - 1, exc, endLabel);
        if r.Failed? {
          return;
        }
        i := i + 1;
      }
      Emit(ALoad(exc));
      Emit(Throw);
      r := Done;
    }

    /**
     * One clause of exceptionTest: match the exception against its type (a
     * bare except matches anything and must be last), bind the exception's
     * value to its name, run its body and leave the handler.
     */
    method CatchClause(c: ExceptClause, last: bool, exc: nat, endLabel: Label) returns (r: Status)
      requires Valid() && WfClause(c)
      requires endLabel < |labelDepth| && labelDepth[endLabel] == depth
      modifies this
      decreases Weight(st.handlers) + OptSize(c.kind) + OptSize(c.name) + SuiteSize(c.body) + 1, 15
      ensures r.Done? ==> Kept() && depth == old(depth)
      ensures r.Done? ==> last || c.kind.Some?
      ensures !last && c.kind.None? ==> r == Failed(BareExceptNotLast)
      ensures ClauseOk(c, last, CtxOf(old(st))) ==> r.Done?
    {
      var endOfSelf := NewLabel(depth);
      if c.kind.Some? {
        r := MatchClause(c.kind.value, exc, endOfSelf);
        if r.Failed? {
          return;
        }
      } else if !last {
        return Failed(BareExceptNotLast);
      }
      r := ClauseBody(c, exc, endLabel);
      if r.Failed? {
        return;
      }
      Place(endOfSelf);
    }

    /** A matched clause: the exception's value bound to its name, its body, then out of the handler. */
    method ClauseBody(c: ExceptClause, exc: nat, endLabel: Label) returns (r: Status)
      requires Valid() && WfClause(c)
      requires endLabel < |labelDepth| && labelDepth[endLabel] == depth
      modifies this
      decreases Weight(st.handlers) + OptSize(c.name) + SuiteSize(c.body) + 1, 14
      ensures r.Done? ==> Kept() && depth == old(depth)
      ensures (c.name.Some? ==> TargetOk(c.name.value)) && SuiteOk(c.body, CtxOf(old(st))) ==> r.Done?
    {
      if c.name.Some? {
        r := BindClause(c.name.value, exc);
        if r.Failed? {
          return;
        }
      }
      var exit;
      ghost var compiled;
      exit, compiled := CompileSuite(c.body);
      if exit.Abort? {
        return Failed(exit.error);
      }
      Jump(Goto(endLabel));
      r := Done;
    }

    /** A clause's type test: past the clause when the exception does not match. */
    method MatchClause(kind: Expr, exc: nat, endOfSelf: Label) returns (r: Status)
      requires Valid() && WfExpr(kind) && endOfSelf < |labelDepth| && labelDepth[endOfSelf] == depth
      modifies this
      decreases Weight(st.handlers) + ExprSize(kind), 12
      ensures r.Done? ==> Kept() && depth == old(depth)
      ensures ExprOk(kind) ==> r.Done?
    {
      Emit(ALoad(exc));
      r := CompileExpr(kind);
      if r.Failed? {
        return;
      }
      Emit(Invoke("matchException", 2, 1));
      Jump(IfEq(endOfSelf));
    }

    /** A clause's name: the exception's value is set into it. */
    method BindClause(name: Expr, exc: nat) returns (r: Status)
      requires Valid() && IsTarget(name)
      modifies this
      decreases Weight(st.handlers) + ExprSize(name) + 1, 13
      ensures r.Done? ==> Kept() && depth == old(depth)
      ensures TargetOk(name) ==> r.Done?
    {
      Emit(ALoad(exc));
      Emit(GetField("value"));
      r := SetTop(name);
    }

    /**
     * visitTryFinally: the body under a handler that carries the finally
     * body; the finally body is inlined after a body that completes, on
     * every exception (which is then rethrown), and, through
     * doFinallysDownTo, on every break, continue and return inside it.
     */
    method VisitTryFinally(s: Stmt) returns (f: Flow)
      requires Valid() && s.TryFinally? && WfStmt(s)
      modifies this
      decreases Weight(st.handlers) + StmtSize(s), 17
      ensures !f.Abort? ==> Kept() && depth == old(depth) && f == NoExit
      ensures StmtOk(s, CtxOf(old(st))) ==> !f.Abort?
    {
      var excLocal := GetLocal("java/lang/Throwable");
      var handlerStart := NewLabel(depth + 1);
      var finallyEnd := NewLabel(depth);
      Emit(Push(Null));
      Emit(AStore(excLocal));
      f := TryFinallyBody(s, excLocal, handlerStart, finallyEnd);
      if f.Abort? {
        return;
      }
      FreeLocal(excLocal);
      TempFreed(old(st.locals), excLocal, "java/lang/Throwable");
    }

    /** visitTryFinally with its exception local taken. */
    method TryFinallyBody(s: Stmt, excLocal: nat, handlerStart: Label, finallyEnd: Label) returns (f: Flow)
      requires Valid() && s.TryFinally? && WfStmt(s)
      requires handlerStart < |labelDepth| && labelDepth[handlerStart] == depth + 1
      requires finallyEnd < |labelDepth| && labelDepth[finallyEnd] == depth
      modifies this
      decreases Weight(st.handlers) + StmtSize(s), 16
      ensures !f.Abort? ==> Kept() && depth == old(depth) && f == NoExit
      ensures StmtOk(s, CtxOf(old(st))) ==> !f.Abort?
    {
      var h, exit := ProtectedSuite(s.protected, Some(s.finalbody));
      if exit.Abort? {
        return exit;
      }
      h := h.(bodyDone := true);
      var r;
      if exit == NoExit {
        r := CompletedBody(h, finallyEnd);
        if r.Failed? {
          return Abort(r.error);
        }
      }
      r := FinallyHandler(h, excLocal, handlerStart);
      if r.Failed? {
        return Abort(r.error);
      }
      Place(finallyEnd);
      AddExceptionHandlers(h, handlerStart);
      f := NoExit;
    }

    /** A protected body that completes: the finally body inlined, then past the handler. */
    method CompletedBody(h: Handler, finallyEnd: Label) returns (r: Status)
      requires Valid() && h.bodyDone && (h.finalBody.Some? ==> WfSuite(h.finalBody.value))
      requires finallyEnd < |labelDepth| && labelDepth[finallyEnd] == depth
      modifies this
      decreases Weight(st.handlers) + BodyWeight(h.finalBody), 1
      ensures r.Done? ==> Kept() && depth == old(depth) && EndsInJump(st.code)
      ensures (h.finalBody.Some? ==> SuiteOk(h.finalBody.value, FinallyCtx)) ==> r.Done?
    {
      var h2;
      ghost var compiled;
      h2, r, compiled := InlineFinally(h);
      if r.Failed? {
        return;
      }
      Jump(Goto(finallyEnd));
    }

    /** The handler of a try/finally: keep the exception, add the traceback, inline the finally body, rethrow. */
    method FinallyHandler(h: Handler, exc: nat, handlerStart: Label) returns (r: Status)
      requires Valid() && h.bodyDone && (h.finalBody.Some? ==> WfSuite(h.finalBody.value))
      requires handlerStart < |labelDepth| && labelDepth[handlerStart] >= 1
      requires EndsInJump(st.code)
      modifies this
      decreases Weight(st.handlers) + BodyWeight(h.finalBody), 1
      ensures r.Done? ==> Kept() && depth == old(labelDepth)[handlerStart] - 1
      ensures (h.finalBody.Some? ==> SuiteOk(h.finalBody.value, FinallyCtx)) ==> r.Done?
    {
      PlaceAfterJump(handlerStart);
      KeepException(exc);
      var h2;
      ghost var compiled;
      h2, r, compiled := InlineFinally(h);
      if r.Failed? {
        return;
      }
      Rethrow(exc);
    }

    /** The exception on the stack into `exc`, with the frame's traceback added to it. */
    method KeepException(exc: nat)
      requires Valid() && depth >= 1
      modifies this
      ensures Valid() && depth == old(depth) - 1 && labelDepth == old(labelDepth)
      ensures st == old(st).(code := old(st.code) + [AStore(exc), ALoad(exc), ALoad(1), Invoke("addTraceback", 2, 0)])
    {
      Emit(AStore(exc));
      Emit(ALoad(exc));
      Emit(ALoad(1));
      Emit(Invoke("addTraceback", 2, 0));
    }

    /** The exception kept in `exc`, thrown again. */
    method Rethrow(exc: nat)
      requires Valid()
      modifies this
      ensures Valid() && depth == old(depth) && labelDepth == old(labelDepth)
      ensures st == old(st).(code := old(st.code) + [ALoad(exc), CheckCast("java/lang/Throwable"), Throw])
    {
      Emit(ALoad(exc));
      Emit(CheckCast("java/lang/Throwable"));
      Emit(Throw);
    }

    /**
     * inlineFinally: a handler whose body is still open ends its running
     * range here, so the inlined code is not covered by it; a finally
     * handler's body is then compiled in place.
     */
    method InlineFinally(h: Handler) returns (h2: Handler, r: Status, ghost compiled: seq<Stmt>)
      requires Valid() && (h.finalBody.Some? ==> WfSuite(h.finalBody.value))
      modifies this
      decreases Weight(st.handlers) + BodyWeight(h.finalBody), 0
      ensures h2 == if h.bodyDone then h else h.(ends := h.ends + [|old(st.code)|])
      ensures r.Done? ==> Kept() && depth == old(depth)
      ensures r.Done? ==> compiled == ReachedBody(h.finalBody)
      ensures h.finalBody.None? ==> r.Done? && st == old(st) && depth == old(depth)
      ensures (h.finalBody.Some? ==> SuiteOk(h.finalBody.value, FinallyCtx)) ==> r.Done?
    {
      compiled := [];
      h2 := h;
      if !h.bodyDone {
        h2 := h.(ends := h.ends + [|st.code|]);
      }
      if h.finalBody.Some? {
        if SuiteOk(h.finalBody.value, FinallyCtx) {
          SuiteOkWithin(h.finalBody.value, FinallyCtx, CtxOf(st));
        }
        var exit;
        exit, compiled := CompileSuite(h.finalBody.value);
        if exit.Abort? {
          return h2, Failed(exit.error), compiled;
        }
      }
      r := Done;
    }

    /** reenterProtectedBody: the handler starts a new range here. */
    method ReenterProtectedBody(h: Handler) returns (h2: Handler)
      ensures h2 == h.(starts := h.starts + [|st.code|])
    {
      h2 := h.(starts := h.starts + [|st.code|]);
    }

    /**
     * doFinallysDownTo: pop the handlers above `level`, innermost first,
     * inlining each one's finally code with only the handlers below it in
     * force, then push them back in their old order, each starting a new
     * range after the inlined code.
     */
    method DoFinallysDownTo(level: nat) returns (r: Status, ghost inlined: seq<seq<Stmt>>)
      requires Valid()
      modifies this
      decreases Weight(st.handlers), 3
      ensures r.Done? ==> Kept() && depth == old(depth) && |st.handlers| == |old(st.handlers)|
      ensures r.Done? ==> inlined == Unwound(Bodies(old(st.handlers)), level)
      ensures |old(st.handlers)| <= level ==> r.Done? && st == old(st) && depth == old(depth)
      ensures BodiesOk(Bodies(old(st.handlers)), level) ==> r.Done?
    {
      ghost var B := Bodies(st.handlers);
      var popped;
      popped, r, inlined := UnwindFinallys(level);
      if r.Failed? {
        return;
      }
      ReenterAll(popped, B);
    }

    /** The first loop of doFinallysDownTo: pop and inline, innermost first. */
    method UnwindFinallys(level: nat) returns (popped: seq<Handler>, r: Status, ghost compiled: seq<seq<Stmt>>)
      requires Valid()
      modifies this
      decreases Weight(st.handlers), 2
      ensures r.Done? ==> && Valid() && depth == old(depth) && old(labelDepth) <= labelDepth
                          && Grew(old(st), st.(handlers := old(st.handlers)))
                          && |st.handlers| + |popped| == |old(st.handlers)|
                          && |st.handlers| == (if |old(st.handlers)| <= level then |old(st.handlers)| else level)
                          && Bodies(st.handlers) == Bodies(old(st.handlers))[..|st.handlers|]
                          && PoppedFrom(popped, compiled, Bodies(old(st.handlers)))
      ensures |old(st.handlers)| <= level ==> r.Done? && st == old(st) && depth == old(depth) && popped == []
      ensures BodiesOk(Bodies(old(st.handlers)), level) ==> r.Done?
    {
      ghost var B := Bodies(st.handlers);
      ghost var n := |st.handlers|;
      assert B[..n] == B;
      popped := [];
      compiled := [];
      while |st.handlers| > level
        invariant Valid() && depth == old(depth) && old(labelDepth) <= labelDepth
        invariant Grew(old(st), st.(handlers := old(st.handlers)))
        invariant |st.handlers| + |popped| == n && |st.handlers| <= n
        invariant level <= |st.handlers| || |st.handlers| == n
        invariant Bodies(st.handlers) == B[..|st.handlers|]
        invariant PoppedFrom(popped, compiled, B)
        invariant n <= level ==> st == old(st) && popped == []
        invariant Weight(st.handlers) <= Weight(old(st.handlers))
        invariant BodiesOk(B, level) ==> BodiesOk(B[..|st.handlers|], level)
        decreases |st.handlers|
      {
        ghost var k := |st.handlers| - 1;
        if BodiesOk(B, level) {
          BodiesOkTop(B[..k + 1], level);
        }
        var h;
        ghost var one;
        h, r, one := UnwindOne();
        if r.Failed? {
          return;
        }
        assert B[..k + 1][..k] == B[..k];
        PoppedFromStep(popped, compiled, B, h, one);
        popped := popped + [h];
        compiled := compiled + [one];
      }
      r := Done;
    }

    /** One step of the first loop: the innermost handler popped, its range ended, its finally code inlined. */
    method UnwindOne() returns (h2: Handler, r: Status, ghost compiled: seq<Stmt>)
      requires Valid() && |st.handlers| > 0
      modifies this
      decreases Weight(st.handlers), 1
      ensures r.Done? ==> && Valid() && depth == old(depth) && old(labelDepth) <= labelDepth
                          && Grew(old(st).(handlers := st.handlers), st)
                          && Bodies(st.handlers) == Bodies(old(st.handlers))[..|old(st.handlers)| - 1]
                          && h2.finalBody == Bodies(old(st.handlers))[|old(st.handlers)| - 1]
                          && |h2.starts| == |h2.ends| && !h2.bodyDone
                          && Weight(st.handlers) <= Weight(old(st.handlers))
                          && compiled == ReachedBody(Bodies(old(st.handlers))[|old(st.handlers)| - 1])
      ensures BodiesOk(Bodies(old(st.handlers)), |old(st.handlers)| - 1) ==> r.Done?
    {
      ghost var B := Bodies(st.handlers);
      var k := |st.handlers| - 1;
      var h := PopHandler();
      BodiesWeightPrefix(B, k);
      h2, r, compiled := InlineFinally(h);
    }

    /** The second loop of doFinallysDownTo: push the popped handlers back, outermost first, each restarted. */
    method ReenterAll(popped: seq<Handler>, ghost B: seq<Option<seq<Stmt>>>)
      requires Valid() && |B| == |st.handlers| + |popped| && Bodies(st.handlers) == B[..|st.handlers|]
      requires BodiesWf(B)
      requires forall j :: 0 <= j < |popped| ==>
                 && popped[j].finalBody == B[|B| - 1 - j]
                 && |popped[j].starts| == |popped[j].ends| && !popped[j].bodyDone
      modifies this
      ensures Valid() && depth == old(depth) && labelDepth == old(labelDepth)
      ensures st.(handlers := old(st.handlers)) == old(st) && Bodies(st.handlers) == B
      ensures popped == [] ==> st == old(st)
    {
      var rest := popped;
      while |rest| > 0
        invariant Valid() && depth == old(depth) && labelDepth == old(labelDepth)
        invariant st.(handlers := old(st.handlers)) == old(st)
        invariant |rest| == |popped| ==> st == old(st)
        invariant |st.handlers| + |rest| == |B| && Bodies(st.handlers) == B[..|st.handlers|]
        invariant rest == popped[..|rest|]
      {
        var h := rest[|rest| - 1];
        rest := rest[..|rest| - 1];
        var h2 := ReenterProtectedBody(h);
        assert B[..|st.handlers|] + [B[|st.handlers|]] == B[..|st.handlers| + 1];
        PushHandler(h2);
      }
      assert B[..|B|] == B;
    }

    // -------------------------------------------------------------------
    // parse: the code unit, then the return that ends the code object
    // -------------------------------------------------------------------

    /** traverse over a statement list: every statement is compiled, whatever it returns. */
    method CompileEach(ss: seq<Stmt>) returns (f: Flow)
      requires Valid() && WfSuite(ss)
      modifies this
      ensures !f.Abort? ==> Kept() && depth == old(depth) && f == NoExit
      ensures SuiteOk(ss, CtxOf(old(st))) ==> !f.Abort?
    {
      var i := 0;
      while i < |ss|
        invariant 0 <= i <= |ss|
        invariant Kept() && depth == old(depth)
      {
        f := CompileStmt(ss[i]);
        if f.Abort? {
          return;
        }
        i := i + 1;
      }
      f := NoExit;
    }

    /** visitModule: the docstring and the file name as globals, then every statement. */
    method VisitModule(body: seq<Stmt>, fileName: Option<string>) returns (f: Flow)
      requires Valid() && WfSuite(body)
      modifies this
      ensures !f.Abort? ==> Kept() && depth == old(depth) && f == NoExit
      ensures SuiteOk(body, CtxOf(old(st))) ==> !f.Abort?
    {
      if |body| > 0 && SuiteOk(body, CtxOf(st)) {
        assert StmtOk(body[0], CtxOf(st));
      }
      var r := ModuleGlobals(body, fileName);
      if r.Failed? {
        return Abort(r.error);
      }
      f := CompileEach(body);
    }

    /** The globals visitModule sets first: `__doc__` from a leading string statement, and `__file__`. */
    method ModuleGlobals(body: seq<Stmt>, fileName: Option<string>) returns (r: Status)
      requires Valid()
      modifies this
      ensures r.Done? ==> Kept() && depth == old(depth)
      ensures (|body| > 0 && body[0].ExprStmt? ==> ExprOk(body[0].value)) ==> r.Done?
    {
      r := Done;
      if |body| > 0 && body[0].ExprStmt? && body[0].value.Str? {
        Emit(ALoad(1));
        Emit(Push(StrConst("__doc__")));
        r := LoadString(body[0].value.s, false);
        if r.Failed? {
          return;
        }
        Emit(Invoke("setglobal", 3, 0));
      }
      if fileName.Some? {
        Emit(ALoad(1));
        Emit(Push(StrConst("__file__")));
        Emit(Push(PyString(fileName.value)));
        Emit(Invoke("setglobal", 3, 0));
      }
    }

    /** visitExpression: an eval expression is compiled as a return of its value. */
    method VisitExpression(e: Expr) returns (f: Flow)
      requires Valid() && WfExpr(e)
      modifies this
      ensures isGenerator ==> f == Abort(ReturnValueInGenerator)
      ensures !f.Abort? ==> Kept() && depth == old(depth) && f == Exit
      ensures !isGenerator && ExprOk(e) && BodiesOk(Bodies(old(st.handlers)), 0) ==> !f.Abort?
    {
      if isGenerator {
        return Abort(ReturnValueInGenerator);
      }
      ghost var inlined;
      f, inlined := VisitReturn(Stmt.Return(Some(e)), true);
    }

    /**
     * parse: compile the unit into a fresh compiler; a class body ends by
     * returning its locals, any other unit that can fall off its end
     * returns None with the resume index set to -1.
     */
    method Parse(u: CodeUnit, classBody: bool, fileName: Option<string>) returns (exit: Flow)
      requires Valid() && WfUnit(u) && st == Initial() && depth == 0
      modifies this
      ensures u.ExpressionUnit? && isGenerator ==> exit == Abort(ReturnValueInGenerator)
      ensures !exit.Abort? ==> && Valid() && depth == old(depth) && st.handlers == []
                               && (exit == Exit <==> (u.ExpressionUnit? || (u.SuiteUnit? && SuiteExits(u.body))))
      ensures !exit.Abort? && classBody ==>
        |st.code| >= 3 && st.code[|st.code| - 3..] == [ALoad(1), Invoke("getf_locals", 1, 1), Instr.Return]
      ensures !exit.Abort? && !classBody && exit == NoExit ==>
        |st.code| >= 5 && st.code[|st.code| - 5..] == SetLastICode(-1) + [Push(StaticField("None")), Instr.Return]
      ensures UnitOk(u) ==> !exit.Abort?
    {
      match u {
        case ModuleUnit(body) =>
          exit := VisitModule(body, fileName);
        case InteractiveUnit(body) =>
          exit := CompileEach(body);
        case SuiteUnit(body) =>
          ghost var compiled;
          exit, compiled := CompileSuite(body);
        case ExpressionUnit(e) =>
          exit := VisitExpression(e);
      }
      if exit.Abort? {
        return;
      }
      ghost var c0 := st.code;
      if classBody {
        ReturnLocals();
        ghost var tail := [ALoad(1), Invoke("getf_locals", 1, 1), Instr.Return];
        assert st.code[|st.code| - 3..] == tail;
      } else if exit == NoExit {
        EmitReturn(None);
        ghost var tail := SetLastICode(-1) + [Push(StaticField("None")), Instr.Return];
        assert |tail| == 5;
        assert st.code == c0 + tail;
        assert st.code[|st.code| - 5..] == tail;
      }
    }

    /** The end of a class body: its frame's locals returned. */
    method ReturnLocals()
      requires Valid()
      modifies this
      ensures Valid() && depth == old(depth) && labelDepth == old(labelDepth)
      ensures st == old(st).(code := old(st.code) + [ALoad(1), Invoke("getf_locals", 1, 1), Instr.Return])
    {
      Emit(ALoad(1));
      Emit(Invoke("getf_locals", 1, 1));
      Emit(Instr.Return);
    }
  }

  /** The target of `a[[x for x in s][0]] = v`. */
  function ClobberingTarget(): Expr {
    Subscript(Name("a"), Subscript(ListComp(Name("x"), [Comprehension(Name("x"), Name("s"), [])]), Num(0)))
  }

  /**
   * `a[[x for x in s][0]] = v` at module level, as written: with the value
   * popped into slot `value`, the store succeeds, and the code it leaves
   * ends with the subscript's setter called on slot `loaded`, the one the
   * list comprehension's `set` left in `temporary`, not on `value`.
   */
  method ClobberedStore() returns (value: nat, r: Status, code: seq<Instr>, loaded: nat)
    ensures r.Done?
    ensures |code| >= 2 && code[|code| - 2..] == [ALoad(loaded), Invoke("__setitem__", 3, 0)]
    ensures loaded != value
  {
    var c := new CodeCompiler(false, false, false, None, map[], false, false, false);
    c.Emit(Push(Null));
    value := c.StoreTop();
    r, loaded := c.SetAsWritten(ClobberingTarget(), value);
    code := c.st.code;
  }
}
