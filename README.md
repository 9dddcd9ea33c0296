# Jython code compiler backend and zxJDBC fetch strategies

This project models two parts of Jython.

**The `CodeCompiler`.** It walks a resolved Python syntax tree and
appends JVM instructions for one code object. Besides the instructions,
it does a good deal of its own bookkeeping:

- **Exception ranges.** Every enclosing `try` is a handler on a stack.
  The handler holds paired start and end labels and a "body done" flag.
- **Finally bodies.** A finally body is inlined again on every
  `break`, `continue` and `return` that leaves it. Each time, the
  enclosing ranges are cut around the inlined code.
- **Loops.** Loops keep continue and break label stacks, plus the
  handler-stack "floor" those statements unwind to.
- **Generators.** A yield saves and restores the locals, and the code
  that restores them is kept outside every range.
- **Expressions.** Short-circuiting boolean and comparison chains join
  at one label. Augmented assignment keeps the target's operands in
  temporaries between the load and the store.
- **Pure decisions.** Private-name mangling, the operator method-name
  tables, how a name is loaded, stored or deleted given its scope flags,
  and the name an `import` binds.

**The zxJDBC cursor's fetch strategies.** A static fetch reads every
result set up front and slices through the first. A dynamic fetch holds
one JDBC result set and pulls rows from it on demand.

The modules:

| module | contents |
|---|---|
| `Syntax` | The tree as datatypes, with sizes (the compiler's termination measure) and well-formedness. `Exits` is the reference for "does not fall through". The list-comprehension rewrite. |
| `Bytecode` | The abstract instructions with their stack effects. A symbolic machine for straight-line local/stack shuffles. |
| `Names` | Mangling, the operator tables, name access and the import alias. |
| `Emitter` | The code shapes of the loops in `saveLocals`, `restoreLocals`, `makeStrings`, `makeClosure` and `saveAugTmps`/`restoreAugTmps`, with their properties. The handler-range registration. |
| `CompilerState` | The compiler's mutable fields as one record. What "the state only grew" means. The handler-stack transformations. |
| `Compiler` | The class `CodeCompiler`, whose methods update that record in place. |
| `Fetch` | The classes `StaticFetch` and `DynamicFetch`. |

The compiler's methods track three things:

- **`depth`.** A ghost field holding the operand-stack height.
- **`labelDepth`.** The height each label expects. Every jump to a
  label leaves that height. A label placed where control falls through
  requires it too (`Place`). Only a label placed right after a goto,
  return or throw takes its height from the label (`PlaceAfterJump`).
- **Flow result.** Every statement method returns `NoExit`, `Exit` or a
  compile error. When it does not fail, the result is exactly `Exits` of
  the statement.

Every compile method also promises `Kept()`:

- The state stays valid.
- The state only grew: code, resume labels and exception-table entries
  are only appended, and slots are only allocated fresh.
- Every temporary it took is freed.
- The handler stack holds the same finally bodies as before.
- The loop label stacks and the finally floor are exactly as before.

Every compile method also says when it succeeds. `ExprOk`, `TargetOk`
and `DelOk` say when an expression or target compiles. `StmtOk` says
when a statement compiles in a context. The context comes from the
compiler state (`CtxOf`): whether a loop encloses the statement and its
finally bodies compile, whether a try/finally encloses it, and whether
every enclosing finally body compiles for a return. Under those
conditions the method never reports an error.

The field `temporary` is kept as the source keeps it. Each store method
says where it can leave it (`TempSet`, `KeptSetting`).

All paths below are relative to the repository root.

## Model

| member | source | states |
|---|---|---|
| Compiler.CodeCompiler.constructor | src/org/python/compiler/CodeCompiler.java:135-145 | A fresh compiler has an empty instruction log and empty stacks, with slots 0 and 1 taken. It loads globals directly only in a function without exec or import-star. |
| Compiler.CodeCompiler.StoreTop | src/org/python/compiler/CodeCompiler.java:166-170 | The top of the stack is popped into a slot no live local holds, which is then live as a PyObject. |
| Compiler.CodeCompiler.SetLastI | src/org/python/compiler/CodeCompiler.java:156-160 | Exactly the store of the index into the frame's `f_lasti` is appended. Nothing else changes. |
| Compiler.CodeCompiler.BeginLoop | src/org/python/compiler/CodeCompiler.java:869-875 | Pushes one fresh label on each of the continue and break stacks. Sets the finally floor to the handler-stack size and returns the old floor. |
| Compiler.CodeCompiler.FinishLoop | src/org/python/compiler/CodeCompiler.java:877-881 | Pops both label stacks and restores the saved floor. Across a loop, all three are unchanged (`Kept`). |
| Compiler.CodeCompiler.InFinallyBody | src/org/python/compiler/CodeCompiler.java:558-567 | True exactly when some handler on the stack belongs to a try/finally. |
| Compiler.CodeCompiler.AddExceptionHandlers | src/org/python/compiler/CodeCompiler.java:1987-2000 | Appends exactly `Registered(starts, ends, label)` to the exception table: the pairs with different offsets, in order. |
| Emitter.RegisteredNonEmpty | src/org/python/compiler/CodeCompiler.java:1987-2000 | Every registered entry belongs to the handler, is one of its start/end pairs, and is not zero-width. |
| Emitter.RegisteredComplete | src/org/python/compiler/CodeCompiler.java:1987-2000 | Every pair of the handler with different offsets is registered. |
| CompilerState.RangesReopened | src/org/python/compiler/CodeCompiler.java:602-622 | Ending then restarting every range keeps each handler running and adds one end and one start. The code between the two offsets is covered by no handler. |
| Compiler.CodeCompiler.SaveLocals | src/org/python/compiler/CodeCompiler.java:624-649 | Appends the array of every active local (the slot-2222 quirk is left out) and its store into `f_savedlocals`. |
| Compiler.CodeCompiler.RestoreLocals | src/org/python/compiler/CodeCompiler.java:569-593 | Every handler's range ends before the restoring code and restarts after it. The stack height is unchanged. |
| Emitter.ActiveLocalsSavedAndRestored | src/org/python/compiler/CodeCompiler.java:624-649 | Every active local is copied into the saved array under its own index, and copied back from that index with its type. |
| Emitter.LocalsCodeEffect | src/org/python/compiler/CodeCompiler.java:569-649 | Saving and restoring the locals each leave the operand stack height unchanged. |
| Emitter.SaveEntrySlot2222 | src/org/python/compiler/CodeCompiler.java:638-640 | The written entry agrees with the plain copy on every slot but 2222. For slot 2222 it never reads the local. |
| Compiler.CodeCompiler.VisitYield | src/org/python/compiler/CodeCompiler.java:531-556 | Rejected outside a function, and inside any try/finally. Otherwise the statement falls through, keeping the stack and state discipline. Never aborts when `StmtOk` holds in the context the state gives (`CtxOf`). |
| Compiler.CodeCompiler.YieldAndResume | src/org/python/compiler/CodeCompiler.java:531-556 | The resume count goes up by exactly one. The code sets `f_lasti` to the new count before returning the value, so resume ids run 1, 2, 3 and one resume label is recorded per yield (`StateOk`). |
| Compiler.CodeCompiler.SaveAugTmps | src/org/python/compiler/CodeCompiler.java:205-228 | The top `count` values are stored into `count` fresh temporaries, topmost into the last, and pushed back. The temporaries are recorded in order. |
| Compiler.CodeCompiler.RestoreAugTmps | src/org/python/compiler/CodeCompiler.java:231-246 | Appends exactly the reload of the aug temporaries, in order. Pushes `count` values and frees the temporaries. |
| CompilerState.AugSlotsFresh | src/org/python/compiler/CodeCompiler.java:205-228 | The aug temporaries are distinct fresh slots. |
| Emitter.SaveAugRoundTrip | src/org/python/compiler/CodeCompiler.java:205-228 | Run on the symbolic machine, saving leaves the stack exactly as it was and binds each temporary to its value. |
| Emitter.RestoreAugPushes | src/org/python/compiler/CodeCompiler.java:231-246 | Restoring pushes exactly the values the temporaries hold, in order. |
| Emitter.AugRoundTrip | src/org/python/compiler/CodeCompiler.java:205-246 | Save, then anything that keeps the temporaries, then restore: the same values are pushed again in the same order. |
| Compiler.CodeCompiler.MakeStrings | src/org/python/compiler/CodeCompiler.java:1333-1348 | Appends exactly `StringsCode(names)`. One array is left on the stack. |
| Emitter.StringEntriesShape | src/org/python/compiler/CodeCompiler.java:1340-1346 | Each `names[i]` is stored at index `i` of the array, with no net stack effect. |
| Emitter.StringsCodeEffect | src/org/python/compiler/CodeCompiler.java:1333-1348 | The string-array code leaves exactly one value on the stack. |
| Compiler.CodeCompiler.MakeClosure | src/org/python/compiler/CodeCompiler.java:356-383 | Emits nothing and reports false without free variables. Otherwise it appends the closure array code and leaves one value. |
| Emitter.ClosureCodeShape | src/org/python/compiler/CodeCompiler.java:356-383 | The closure array is the only value left, and the code walks `distance - 1` frames up (`f_back`) once per free variable. |
| Compiler.CodeCompiler.MakeArray | src/org/python/compiler/CodeCompiler.java:317-342 | Pushes one value. With no elements that value is the shared empty array and nothing else is emitted. Succeeds whenever every element satisfies `ExprOk`. |
| Compiler.CodeCompiler.CompileExpr | src/org/python/compiler/CodeCompiler.java:1182-1672 | Every expression in load context pushes exactly one value. It keeps the state discipline: no temporary stays live, and the loop labels and finally floor are unchanged. It succeeds whenever `ExprOk` holds: no string constant over 32767 characters, every stored name has a store instruction, and no list comprehension inside a function. |
| Compiler.CodeCompiler.VisitBoolOp | src/org/python/compiler/CodeCompiler.java:1182-1201 | Pushes exactly one value and keeps the state discipline (`Kept`). Every short-circuit jump and the fall-through after the last operand reach the end label at the same height: `Place` requires the fall-through height to be the label's. Succeeds whenever `ExprOk` holds for it. |
| Compiler.CodeCompiler.VisitCompare | src/org/python/compiler/CodeCompiler.java:1204-1235 | Pushes exactly one value. The jumps out of the chain and its fall-through reach the join label at the same height (`Place`). Both temporaries are freed again, because `Kept` keeps the live locals. Succeeds whenever `ExprOk` holds for it. |
| Compiler.CodeCompiler.ChainEnd | src/org/python/compiler/CodeCompiler.java:1227-1231 | With several comparisons, the last result goes through `tmp2` around the join label. |
| Compiler.CodeCompiler.ChainTest | src/org/python/compiler/CodeCompiler.java:1217-1221 | Appends exactly what follows each inner comparison: the copy into `tmp2`, the truth test leaving the chain, and the reload of the right operand. |
| Compiler.CodeCompiler.VisitBinOp | src/org/python/compiler/CodeCompiler.java:1254-1278 | Net stack effect +1 (two operands in, one result out). Succeeds whenever `ExprOk` holds for it. |
| Compiler.CodeCompiler.VisitUnaryOp | src/org/python/compiler/CodeCompiler.java:1280-1291 | Net stack effect +1. Succeeds whenever `ExprOk` holds for it. |
| Compiler.CodeCompiler.VisitSequence | src/org/python/compiler/CodeCompiler.java:1612-1636 | A tuple or list in load context pushes exactly one value. Succeeds whenever `ExprOk` holds for it. |
| Compiler.CodeCompiler.VisitListComp | src/org/python/compiler/CodeCompiler.java:1641-1672 | Pushes exactly one value and raises the comprehension counter. The live locals are as before (`Kept`). Succeeds whenever `ExprOk` holds for it. |
| Compiler.CodeCompiler.NewAppender | src/org/python/compiler/CodeCompiler.java:1642-1653 | The list and its bound `append` are both left on the stack. The name used is `_[k]` for the incremented counter `k`. |
| Syntax.ListCompRewrite | src/org/python/compiler/CodeCompiler.java:1657-1667 | The nested For/If statements a comprehension is rewritten into are well formed and smaller than the comprehension. |
| Compiler.CodeCompiler.LoadTarget | src/org/python/compiler/CodeCompiler.java:1459-1582 | An attribute, subscript or slice in load context pushes exactly one value. Succeeds whenever `ExprOk` holds for it. |
| Compiler.CodeCompiler.AttributeOperands | src/org/python/compiler/CodeCompiler.java:1559-1560 | Pushes exactly two operands, the object and the attribute name. Succeeds whenever `ExprOk` holds for it. |
| Compiler.CodeCompiler.SubscriptOperands | src/org/python/compiler/CodeCompiler.java:1513-1514 | Pushes exactly two operands, the object and the index. Succeeds whenever `ExprOk` holds for it. |
| Compiler.CodeCompiler.SliceOperands | src/org/python/compiler/CodeCompiler.java:1465-1477 | Pushes exactly four operands: the object and three bounds. Succeeds whenever `ExprOk` holds for it. |
| Compiler.CodeCompiler.OptOperand | src/org/python/compiler/CodeCompiler.java:1466-1469 | An absent bound is exactly one null. A present one succeeds whenever it satisfies `ExprOk`. |
| Compiler.CodeCompiler.VisitCall | src/org/python/compiler/CodeCompiler.java:1384-1455 | A call pushes exactly one value. Succeeds whenever `ExprOk` holds for it. |
| Compiler.CodeCompiler.InvokeMethod | src/org/python/compiler/CodeCompiler.java:1352-1378 | A method call by name pushes exactly one value. Succeeds whenever `ExprOk` holds for it. |
| Compiler.CodeCompiler.PushEach | src/org/python/compiler/CodeCompiler.java:1422-1446 | Pushes exactly one value per explicit argument. Succeeds whenever every argument satisfies `ExprOk`. |
| Compiler.CodeCompiler.StoreTarget | src/org/python/compiler/CodeCompiler.java:1573-1578 | The operands are visited, then the setter is called right after a load of the value's own slot, so a store nested in the operands cannot redirect it. Succeeds whenever `TargetOk` holds. This is the corrected form of the reads at lines 1494, 1531 and 1577 (see Findings). |
| Compiler.CodeCompiler.SetAsWritten | src/org/python/compiler/CodeCompiler.java:1503-1533 | `set(node, tmp)` on a subscript (or attribute, or slice) as written: the setter reads the slot left in `temporary` after the operands. That is the value's slot when no operand stores, and otherwise a slot taken during the operands. |
| Compiler.ClobberedStore | src/org/python/compiler/CodeCompiler.java:196-202 | For `a[[x for x in s][0]] = v` at module level, the store as written succeeds, and its code ends with `__setitem__` called on a slot `loaded` that is not the value's slot. |
| Compiler.CodeCompiler.Store | src/org/python/compiler/CodeCompiler.java:196-202 | Storing from a slot into any target has no net stack effect and keeps the state discipline. Succeeds whenever `TargetOk` holds: stored names have a store instruction and the operands compile. |
| Compiler.CodeCompiler.SetTop | src/org/python/compiler/CodeCompiler.java:186-192 | Consumes the top value. The temporary it takes is freed again. Succeeds whenever `TargetOk` holds. |
| Compiler.CodeCompiler.SeqSet | src/org/python/compiler/CodeCompiler.java:1585-1602 | Unpacking into targets has no net stack effect. Its array temporary is freed. Succeeds whenever every target satisfies `TargetOk`. |
| Compiler.CodeCompiler.Delete | src/org/python/compiler/CodeCompiler.java:492-496 | Deleting any target (a name, a tuple or list of targets, an attribute, subscript or slice) has no net stack effect and keeps the state discipline. Succeeds whenever `DelOk` holds: deleted names have a delete instruction and the operands compile. |
| Compiler.CodeCompiler.DeleteAll | src/org/python/compiler/CodeCompiler.java:1604-1609 | Deleting a list of targets has no net stack effect. Succeeds whenever every target satisfies `DelOk`. |
| Compiler.CodeCompiler.AugLoad | src/org/python/compiler/CodeCompiler.java:1509-1519 | Pushes the current value. For a non-name target, the operands are followed by exactly the save of `AugCount` (2 or 4) operands into the aug temporaries and the getter call. Succeeds for a name, and for any other target whenever `ExprOk` holds. |
| Compiler.CodeCompiler.AugStore | src/org/python/compiler/CodeCompiler.java:1509-1511 | For a non-name target it appends exactly the reload of the saved operands, the load of the value and the setter call. It always succeeds there and frees exactly the aug temporaries. For a name it succeeds exactly when the name has a store instruction. |
| Compiler.CodeCompiler.LoadName | src/org/python/compiler/CodeCompiler.java:1831-1865 | Appends exactly the load code `LoadAccess` picks from the symbol's flags. Stack +1. |
| Compiler.CodeCompiler.StoreName | src/org/python/compiler/CodeCompiler.java:1866-1893 | Appends the store code `StoreAccess` picks. Fails, changing nothing, exactly when that is an error. |
| Compiler.CodeCompiler.DeleteName | src/org/python/compiler/CodeCompiler.java:1894-1916 | Appends the delete code `DeleteAccess` picks. Deleting a cell variable in a function is an error. |
| Compiler.CodeCompiler.LoadString | src/org/python/compiler/CodeCompiler.java:1920-1938 | Fails with "string too large" exactly when the literal exceeds 32767 characters. Otherwise it pushes the constant. |
| CompilerState.LoadNameFits | src/org/python/compiler/CodeCompiler.java:1831-1865 | Every load kind pushes exactly one value, with no branch and no underflow. |
| CompilerState.StoreNameFits | src/org/python/compiler/CodeCompiler.java:1866-1893 | Every store kind leaves the stack height unchanged. |
| CompilerState.DeleteNameFits | src/org/python/compiler/CodeCompiler.java:1894-1916 | Every delete kind leaves the stack height unchanged. |
| CompilerState.StoreNameReadsValue | src/org/python/compiler/CodeCompiler.java:1866-1893 | The store loads the frame, then reads the value from the slot it is given. |
| Names.GlobalAccessAgrees | src/org/python/compiler/CodeCompiler.java:1830-1916 | A global is loaded, stored and deleted through the globals in every scope. |
| Names.CellAccessAgrees | src/org/python/compiler/CodeCompiler.java:1842-1884 | In a function, a cell variable is loaded and stored through the same cell, and cannot be deleted. |
| Names.FastAccessAgrees | src/org/python/compiler/CodeCompiler.java:1847-1912 | In a function, a bound local is loaded, stored and deleted through the same frame slot. |
| Names.NamedAccessAgrees | src/org/python/compiler/CodeCompiler.java:1862-1902 | Outside functions, a plain name goes through the locals by name. |
| Names.GetName | src/org/python/compiler/CodeCompiler.java:1793-1804 | The loop computes exactly `GetNameAsWritten`, including its failure on an all-underscore class name. |
| Names.GetNameAgrees | src/org/python/compiler/CodeCompiler.java:1793-1804 | Wherever getName returns, it returns the intended mangled name. |
| Names.MangleEndsWithName | src/org/python/compiler/CodeCompiler.java:1801 | Mangling only ever puts a prefix in front of the name. |
| Names.ManglePrefix | src/org/python/compiler/CodeCompiler.java:1797-1801 | A private name becomes `_` + class name without leading underscores + name. The result's second character is not `_`. |
| Names.MangleIdempotent | src/org/python/compiler/CodeCompiler.java:1793-1804 | Mangling an already-mangled name changes nothing. |
| Names.CmpopNameInjective | src/org/python/compiler/CodeCompiler.java:1237-1252 | Distinct comparison operators call distinct methods. |
| Names.BinOpNameInjective | src/org/python/compiler/CodeCompiler.java:1254-1278 | Distinct binary operators call distinct methods, under either division mode. |
| Names.UnaryOpNameInjective | src/org/python/compiler/CodeCompiler.java:1280-1291 | Distinct unary operators call distinct methods. |
| Names.AugNameFollowsBinName | src/org/python/compiler/CodeCompiler.java:1304-1320 | Every in-place method is `__i` + the binary method's name without `_` + `__`, including true division. |
| Names.ImportAliasIsFirstComponent | src/org/python/compiler/CodeCompiler.java:714-717 | Without `as`, the bound name is a prefix of the dotted name. It is the whole name or stops at a dot, and has no dot itself. |
| Compiler.CodeCompiler.VisitImport | src/org/python/compiler/CodeCompiler.java:703-725 | An import statement falls through with no net stack effect. Never aborts when `StmtOk` holds in the context the state gives (`CtxOf`). |
| Compiler.CodeCompiler.CompileSuite | src/org/python/compiler/CodeCompiler.java:1172-1180 | Compiles exactly the statements up to and including the first that does not fall through (`FirstExit`), and no further. Reports `Exit` exactly when one of its statements does not fall through, and then its code ends with a goto, return or throw. Never aborts when every statement satisfies `StmtOk` (`SuiteOk`). |
| Syntax.FirstExitSpec | src/org/python/compiler/CodeCompiler.java:1172-1180 | The statements a suite compiles stop exactly at the first that does not fall through. None before it exits. It exits exactly when the suite does. Without one, every statement is compiled. |
| Compiler.CodeCompiler.CompileStmt | src/org/python/compiler/CodeCompiler.java:1172-1180 | Any statement reports `Exit` exactly when `Exits` holds for it, with no net stack effect. When it reports `Exit`, its code ends with a goto, return or throw. It never aborts when `StmtOk` holds in the context the state gives (`CtxOf`): break and continue inside a loop whose finally bodies compile, yield in a function outside every try/finally, return in a function (without a value in a generator), a bare except only last, every expression and target compiling. |
| Compiler.CodeCompiler.ElseSuite | src/org/python/compiler/CodeCompiler.java:1159 | An absent else-suite changes nothing. A present one exits exactly when the suite does. Never aborts when the suite satisfies `SuiteOk`. |
| Compiler.CodeCompiler.VisitExprStmt | src/org/python/compiler/CodeCompiler.java:423-433 | Falls through with no net stack effect, whether the value is printed or dropped. Never aborts when `StmtOk` holds in the context the state gives (`CtxOf`). |
| Compiler.CodeCompiler.VisitAssign | src/org/python/compiler/CodeCompiler.java:435-448 | One or several targets: falls through with no net stack effect and frees the shared temporary. Never aborts when `StmtOk` holds in the context the state gives (`CtxOf`). |
| Compiler.CodeCompiler.StoreTargets | src/org/python/compiler/CodeCompiler.java:441-446 | Storing one value into several targets has no net stack effect. Succeeds whenever every target satisfies `TargetOk`. |
| Compiler.CodeCompiler.VisitAugAssign | src/org/python/compiler/CodeCompiler.java:1293-1330 | Falls through with no net stack effect. Every temporary is freed, the aug temporaries included. Never aborts when `StmtOk` holds in the context the state gives (`CtxOf`). |
| Compiler.CodeCompiler.AugCompute | src/org/python/compiler/CodeCompiler.java:1296-1322 | Leaves the new value on the stack. For a non-name target, only the aug temporaries remain live. Succeeds whenever the operand and the target compile. |
| Compiler.CodeCompiler.AugWriteBack | src/org/python/compiler/CodeCompiler.java:1324-1327 | Consumes the value and frees exactly the aug temporaries. Succeeds whenever a name target has a store instruction. |
| Compiler.CodeCompiler.VisitBreak | src/org/python/compiler/CodeCompiler.java:503-513 | Rejected outside a loop. Otherwise it compiles the finally bodies above the loop's floor, innermost first (`Unwound`), reports `NoExit` as the source does, and ends with a `goto` to the innermost break label. Never aborts inside a loop whose finally bodies compile. |
| Compiler.CodeCompiler.VisitContinue | src/org/python/compiler/CodeCompiler.java:515-525 | Rejected outside a loop. Otherwise it compiles the finally bodies above the loop's floor, innermost first, reports `Exit`, and ends with a `goto` to the innermost continue label. Never aborts inside a loop whose finally bodies compile. |
| Compiler.CodeCompiler.VisitReturn | src/org/python/compiler/CodeCompiler.java:656-681 | Rejected outside a function unless in eval. A value is rejected in a generator. Otherwise it compiles every enclosing finally body, innermost first, down to level 0 (`Unwound`), reports `Exit` and ends by returning the return local, or None without a value. Never aborts when the value and every finally body compile. |
| Compiler.CodeCompiler.ReturnValue | src/org/python/compiler/CodeCompiler.java:666-668 | The returned value ends in the code object's return local. Succeeds whenever `ExprOk` holds for the value. |
| Compiler.CodeCompiler.EmitReturn | src/org/python/compiler/CodeCompiler.java:672-679 | `f_lasti` is set to -1, then the return local (or None) is returned. |
| Compiler.CodeCompiler.VisitRaise | src/org/python/compiler/CodeCompiler.java:685-699 | Reports `Exit` with no net stack effect. Ends with `makeException` of `RaiseArity` operands, then a throw. Never aborts when `StmtOk` holds in the context the state gives (`CtxOf`). |
| Compiler.RaiseArity | src/org/python/compiler/CodeCompiler.java:685-699 | At most three operands. None exactly when the raise is bare. |
| Compiler.CodeCompiler.RaiseOperands | src/org/python/compiler/CodeCompiler.java:687-696 | Pushes exactly `RaiseArity` values. Succeeds whenever each present operand satisfies `ExprOk`. |
| Compiler.CodeCompiler.VisitIf | src/org/python/compiler/CodeCompiler.java:858-867 | Reports `Exit` exactly when there is an else-suite and both suites exit. Never aborts when `StmtOk` holds in the context the state gives (`CtxOf`). |
| Compiler.CodeCompiler.DoTest | src/org/python/compiler/CodeCompiler.java:833-856 | One test and its suite, with the rest of the chain as its else part. Reports `Exit` exactly when `Exits` holds for the if statement, with no net stack effect. Never aborts when `StmtOk` holds in the context the state gives (`CtxOf`). |
| Compiler.CodeCompiler.CompileTest | src/org/python/compiler/CodeCompiler.java:838-842 | A test and its conditional jump leave the stack height unchanged. Succeeds whenever `ExprOk` holds for the test. |
| Compiler.CodeCompiler.VisitWhile | src/org/python/compiler/CodeCompiler.java:884-915 | A while loop falls through, keeping the label stacks and floor. Never aborts when `StmtOk` holds in the context the state gives (`CtxOf`). |
| Compiler.CodeCompiler.VisitFor | src/org/python/compiler/CodeCompiler.java:920-976 | A for loop falls through. Both its temporaries are freed. Never aborts when `StmtOk` holds in the context the state gives (`CtxOf`). |
| Compiler.CodeCompiler.ForAdvance | src/org/python/compiler/CodeCompiler.java:949-960 | Places the continue and next labels, then appends exactly the `__iternext__` test that jumps back to the start. |
| Compiler.CodeCompiler.ProtectedSuite | src/org/python/compiler/CodeCompiler.java:1127-1134 | Reports `Exit` exactly when the body exits. Returns its handler with as many range ends as starts, carrying the finally body. Never aborts when the body and the finally body compile in their contexts. |
| Compiler.CodeCompiler.VisitTryExcept | src/org/python/compiler/CodeCompiler.java:1120-1166 | Falls through. Every clause but the last names a type. The handler entry is placed only where the body's code ends with a goto, return or throw, so control reaches it only by an exception. Never aborts when `StmtOk` holds in the context the state gives (`CtxOf`). |
| Compiler.CodeCompiler.ExceptionTest | src/org/python/compiler/CodeCompiler.java:980-1016 | No net stack effect. Every clause but the last names a type, because a bare clause anywhere else fails. Succeeds whenever every clause satisfies `ClauseOk`. |
| Compiler.CodeCompiler.CatchClause | src/org/python/compiler/CodeCompiler.java:990-1014 | A bare clause that is not last is an error. Otherwise the clause keeps the stack height. Succeeds whenever `ClauseOk` holds. |
| Compiler.CodeCompiler.VisitTryFinally | src/org/python/compiler/CodeCompiler.java:1019-1074 | Falls through. The exception local is freed. Never aborts when `StmtOk` holds in the context the state gives (`CtxOf`). |
| Compiler.CodeCompiler.FinallyHandler | src/org/python/compiler/CodeCompiler.java:1054-1065 | Entered with the exception on the stack, it leaves the height below it. Its entry is placed only after a goto, return or throw. Succeeds whenever the finally body compiles. |
| Compiler.CodeCompiler.KeepException | src/org/python/compiler/CodeCompiler.java:1055-1060 | Exactly: store the exception, then add the traceback. |
| Compiler.CodeCompiler.Rethrow | src/org/python/compiler/CodeCompiler.java:1063-1065 | Exactly: reload, cast and throw. |
| Compiler.CodeCompiler.InlineFinally | src/org/python/compiler/CodeCompiler.java:1076-1088 | An open handler gets exactly one new end at the current offset, a closed one none. A finally body is compiled, exactly up to its first statement that does not fall through (`ReachedBody`). Without a finally body nothing is emitted. Succeeds whenever the finally body compiles. |
| Compiler.CodeCompiler.ReenterProtectedBody | src/org/python/compiler/CodeCompiler.java:1090-1095 | The handler gets exactly one new start at the current offset. |
| Compiler.CodeCompiler.DoFinallysDownTo | src/org/python/compiler/CodeCompiler.java:1103-1117 | Compiles, for each handler above `level`, innermost first, exactly the statements of its finally body that inlining reaches (`Unwound`). Ends with the same handlers and bodies. At or below the level, nothing changes. Succeeds whenever those finally bodies compile (`BodiesOk`). |
| Compiler.CodeCompiler.UnwindFinallys | src/org/python/compiler/CodeCompiler.java:1105-1110 | Pops exactly the handlers above `level`, innermost first, each carrying its finally body, and compiles each one's finally body (`PoppedFrom`). The stack is left at `level` handlers (or as it was, if no higher). The handlers below keep their bodies. |
| Compiler.CodeCompiler.ReenterAll | src/org/python/compiler/CodeCompiler.java:1112-1116 | The popped handlers are pushed back in their old order. Nothing else changes. |
| Compiler.CodeCompiler.VisitModule | src/org/python/compiler/CodeCompiler.java:286-306 | A module body falls through with no net stack effect. Never aborts when the body satisfies `SuiteOk`. |
| Compiler.CodeCompiler.VisitExpression | src/org/python/compiler/CodeCompiler.java:308-314 | An eval expression is a return of its value, and an error in a generator. Never aborts outside a generator when the expression satisfies `ExprOk` and every finally body compiles. |
| Compiler.CodeCompiler.Parse | src/org/python/compiler/CodeCompiler.java:249-279 | The handler stack ends empty. A class body ends by returning its locals. A unit that falls off its end returns None with `f_lasti` -1. Never aborts when the unit satisfies `UnitOk`. |
| Compiler.CodeCompiler.ReturnLocals | src/org/python/compiler/CodeCompiler.java:268-270 | Exactly: return the frame's locals. |
| Fetch.CreateResult | com/ziclix/python/sql/Fetch.java:237-255 | Fails exactly when an unskipped column cannot be read. Otherwise the row is `RowValues`, one value per described column. |
| Fetch.RowValuesSkips | com/ziclix/python/sql/Fetch.java:242-249 | A column is None exactly when its 1-based index is skipped. Otherwise it is the converted datum. |
| Fetch.CreateResults | com/ziclix/python/sql/Fetch.java:215-227 | Fails exactly when some row is unreadable. Otherwise every row, in order. |
| Fetch.StaticFetch.constructor | com/ziclix/python/sql/Fetch.java:300-306 | Description None, row count -1, counter -1, no result sets. |
| Fetch.StaticFetch.Add | com/ziclix/python/sql/Fetch.java:325-350 | A missing set, or one without metadata, changes nothing. The description is set only while it is None. A readable set is appended. The row count follows the first set, not the one just added. |
| Fetch.StaticFetch.FetchMany | com/ziclix/python/sql/Fetch.java:387-409 | None when no rows remain. Otherwise the next `size` rows (`size <= 0` meaning the row count), advancing the counter by that many. |
| Fetch.ConsecutiveFetches | com/ziclix/python/sql/Fetch.java:401-405 | Fetching `a` then `b` rows hands out the same rows as fetching `a + b`. |
| Fetch.StaticFetch.FetchAll | com/ziclix/python/sql/Fetch.java:362-364 | Every remaining row of the current set, or None. Afterwards none remain. |
| Fetch.StaticFetch.FetchOne | com/ziclix/python/sql/Fetch.java:110-119 | The next row, advancing the counter by one, or None when none remain, leaving the counter where it was. |
| Fetch.StaticFetch.NextSet | com/ziclix/python/sql/Fetch.java:416-429 | With two or more sets it drops the first and resets the counter. Otherwise nothing changes. |
| Fetch.StaticFetch.Close | com/ziclix/python/sql/Fetch.java:434-439 | Counter -1 and no result sets. |
| Fetch.Taken | com/ziclix/python/sql/Fetch.java:517-519 | How many rows one dynamic fetch consumes. Never more than remain. |
| Fetch.DynamicFetch.constructor | com/ziclix/python/sql/Fetch.java:460-462 | Description None, row count -1, no result set held. |
| Fetch.DynamicFetch.Add | com/ziclix/python/sql/Fetch.java:482-500 | An error while a set is held. Otherwise it holds the set, and sets the description only if still None. |
| Fetch.DynamicFetch.FetchManyRows | com/ziclix/python/sql/Fetch.java:508-532 | None with nothing held. Otherwise it consumes `Taken` rows and the row count goes -1, 1, 2, …. An empty batch is None. A bad row fails after being consumed. |
| Fetch.DynamicFetch.FetchMany | com/ziclix/python/sql/Fetch.java:565-567 | Consumes `Taken(size, false, n)` rows of the `n` remaining: at most `size`, or every row when `size` is negative. Returns exactly their converted values (`RowsValues`), None for an empty batch. Fails exactly when one of them is unreadable, having consumed the rows up to that one. |
| Fetch.DynamicFetch.FetchAll | com/ziclix/python/sql/Fetch.java:558-560 | Consumes every remaining row and returns exactly their converted values (`RowsValues`), None when there were none. Fails exactly when one is unreadable, having consumed the rows up to that one. |
| Fetch.DynamicFetch.FetchOne | com/ziclix/python/sql/Fetch.java:110-119 | The next row, converted, or None at the end. Succeeds exactly when there is no row or the next row is readable. An unreadable row fails after being consumed, with the row count unchanged. |
| Fetch.DynamicFetch.NextSet | com/ziclix/python/sql/Fetch.java:537-539 | Never reports a further set. |
| Fetch.DynamicFetch.Close | com/ziclix/python/sql/Fetch.java:544-553 | Nothing is held afterwards. A no-op when nothing was held. |

## Left out

- **Bytecode encoding, line numbers, constant pool.**
  - Instructions are abstract.
  - `setline` is observational.
  - `module.PyCode` and the `module.PyInteger`/`PyString` constants are calls into code not shown.
- **`Code`.** Code is not part of this model. Its slot reuse and `getActiveLocals` numbering become a fresh-slot allocator and `ActiveSlots`.
- **Scope analysis.** Scope flags and free-variable lists are inputs, not computed.
- **Runtime behaviour of the emitted calls.** Calls such as `__nonzero__`, `_add`, `unpackSequence`, `matchException` and `__iternext__` are opaque `Invoke`s. What is proved is stack height, label structure and ranges.
- **Unmodelled statements and expressions.**
  - `print`, `exec`, `assert`, `from … import`, function and class definitions, lambda, dict, repr, ellipsis, extended slices.
  - Keyword, `*args` and `**kwargs` forms of calls beyond positional arguments and keywords.
  - Float, long and complex literals.
  - `visitGeneratorExp`, which emits nothing.
- **Yield.** Yield appears only as a statement (no value pushed back).
- **Fetch's JDBC plumbing.** `createDescription`'s type switch, the `DataHandler` conversion (an uninterpreted `Converted`), warnings and error wrapping. The description is the list of column types.
- Compiler.CodeCompiler.DoFinallysDownTo: does not state that each unwound handler gets one end and one restart; `InlineFinally` and `ReenterProtectedBody` state that per handler.
- Compiler.CodeCompiler.VisitBreak: the `goto`'s target height is not checked (`JumpOut`).
- Compiler.CodeCompiler.VisitContinue: same as `VisitBreak`.
- Compiler.CodeCompiler.CompileExpr: the success conditions (`ExprOk`, `TargetOk`, `DelOk`, `StmtOk`, `UnitOk`) are shown sufficient for every compile method, not necessary. Only the error cases the contracts name (break outside a loop, yield in a try/finally, a bare except not last, a name without a store instruction, …) are tied to their exact error.
- Compiler.CodeCompiler.VisitListComp: success is guaranteed only outside a function. Inside one, the `_[k]` name's slot depends on the scope table, which is an input.
- Compiler.CodeCompiler.DoTest: does not state that the jump to the end of the if is emitted only when the then-suite falls through.
- Compiler.CodeCompiler.VisitTryExcept: handler entry is modelled as one value on the stack. It does not state that a label is placed at most once. `Grew` tracks the label table by length.
- Compiler.CodeCompiler.CompileExpr: states the stack effect and state discipline of every expression, not its instruction sequence.
- Compiler.CodeCompiler.SaveLocals: uses the plain copy for every slot. The `i == 2222` entry of the source is `SaveEntryAsWritten`, related to it by `Emitter.SaveEntrySlot2222`.
- Fetch.StaticFetch.FetchMany: the counter is an unbounded integer. The Java `int` wrap-around is modelled separately (see Findings).
- Fetch.DynamicFetch.FetchManyRows: the row count is unbounded. A Java `int` would wrap after 2^31 rows.

## Findings

| source | as written | input that shows it | evidently intended | confidence | as-written member | corrected member |
|---|---|---|---|---|---|---|
| src/org/python/compiler/CodeCompiler.java:1798-1800 | The loop skipping the class name's leading underscores has no bound. | A private name `__x` inside `class _`: `charAt` runs past the end. | Leave the name unmangled, as CPython does. | not executed | Names.GetNameCrashes | Names.MangleIdempotent |
| src/org/python/compiler/CodeCompiler.java:1531 | Attribute, subscript and slice stores read the value from the field `temporary` after visiting their operands. A list comprehension in those operands overwrites the field with its own temporary, already cleared. | `a[[x for x in s][0]] = v` | The setter receives the assigned value. | not executed | Compiler.ClobberedStore | Compiler.CodeCompiler.StoreTarget |
| com/ziclix/python/sql/Fetch.java:404 | `counter += size` in Java `int` arithmetic. | `fetchmany(Integer.MAX_VALUE)` with two rows already fetched wraps the counter to `Integer.MIN_VALUE`. The slice then ends below its start, and the next call slices from a negative start. | Hand out the remaining rows. | not executed | Fetch.CounterWraps | Fetch.StaticFetch.FetchMany |

How the findings are modelled:

- **`getName`.** `Names.GetNameAsWritten` is the loop as written; `Names.GetName` computes exactly it. `Names.Mangle` is the intended mangling and is what the compiler uses. `Names.GetNameAgrees` shows the two coincide wherever the original returns.
- **`temporary`.** The compiler state keeps the field. `Compiler.CodeCompiler.SetAsWritten` is the store as written: it reads the field after the operands, and its contract says the slot read is the value's only when no operand stores (`StoresInside`). `Compiler.ClobberedStore` compiles `a[[x for x in s][0]] = v` with it and gets a slot other than the value's. `Compiler.CodeCompiler.StoreTarget`, which the compiler uses, loads the value's own slot.
- **Fetch counter.** The wrap-around is `Fetch.AdvanceAsWritten`. `Fetch.StaticFetch.FetchMany` keeps an unbounded counter, and `Fetch.ConsecutiveFetches` shows that successive fetches hand out the rows in order.
