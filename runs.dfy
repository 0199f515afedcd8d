/** What holds of whole calls of forth_run: the histories only grow, the return codes,
    the refusal of an invalidated object, the harmlessness of the fuel bound, and the
    bootstrap loop that keeps the return stack balanced. */
module Runs {
  import opened Cells
  import opened Text
  import opened Machine
  import opened Opcodes

  lemma ExtendsTrans(a: Vm, b: Vm, c: Vm)
    requires Extends(a, b) && Extends(b, c)
    ensures Extends(a, c)
  {
  }

  /** Over any number of dispatches the histories only grow, and forth_run returns 0, or
      -1 with the object invalidated. */
  lemma {:induction false} LoopHistory(vm: Vm, r: Regs, fuel: nat)
    requires vm.Valid()
    ensures var e := Loop(vm, r, fuel);
      Extends(vm, e.vm)
      && (e.status.Returned? ==> e.status.code == 0 || (e.status.code == -1 && e.vm.invalid))
    decreases fuel, 0
  {
    if fuel > 0 && InArena(r.I) && Fetched(vm, r).x != 0 {
      var e := Dispatch(vm, Fetched(vm, r));
      ContinueHistory(e, fuel - 1);
      ExtendsTrans(vm, e.vm, Continue(e, fuel - 1).vm);
    }
  }

  lemma {:induction false} ContinueHistory(e: Effect, fuel: nat)
    requires e.vm.Valid() && HaltsWell(e)
    ensures var end := Continue(e, fuel);
      Extends(e.vm, end.vm)
      && (end.status.Returned? ==> end.status.code == 0 || (end.status.code == -1 && end.vm.invalid))
    decreases fuel, 1
  {
    if e.outcome.Next? {
      LoopHistory(e.vm, e.r, fuel);
    }
  }

  /** One round of the loop from a fetch of a nonzero token. */
  lemma LoopUnfolds(vm: Vm, r: Regs, fuel: nat)
    requires vm.Valid() && fuel > 0 && InArena(r.I) && vm.m[r.I] != 0
    ensures Loop(vm, r, fuel) == Continue(Dispatch(vm, Fetched(vm, r)), fuel - 1)
  {
  }

  /** A fetched token of 0 ends the loop, and forth_run returns 0 with nothing changed. */
  lemma ZeroTokenEnds(vm: Vm, r: Regs, fuel: nat)
    requires vm.Valid() && fuel > 0 && InArena(r.I) && vm.m[r.I] == 0
    ensures Loop(vm, r, fuel) == RunEnd(vm, Returned(0))
  {
  }

  /** The fuel bound changes nothing once it suffices: a run that ends within fuel
      dispatches ends the same way with more. */
  lemma {:induction false} MoreFuel(vm: Vm, r: Regs, fuel: nat, more: nat)
    requires vm.Valid() && fuel <= more && !Loop(vm, r, fuel).status.OutOfFuel?
    ensures Loop(vm, r, more) == Loop(vm, r, fuel)
    decreases fuel, 0
  {
    if InArena(r.I) && vm.m[r.I] != 0 {
      LoopUnfolds(vm, r, fuel);
      LoopUnfolds(vm, r, more);
      ContinueMoreFuel(Dispatch(vm, Fetched(vm, r)), fuel - 1, more - 1);
    }
  }

  lemma {:induction false} ContinueMoreFuel(e: Effect, fuel: nat, more: nat)
    requires e.vm.Valid() && fuel <= more && !Continue(e, fuel).status.OutOfFuel?
    ensures Continue(e, more) == Continue(e, fuel)
    decreases fuel, 1
  {
    if e.outcome.Next? {
      MoreFuel(e.vm, e.r, fuel, more);
    }
  }

  /** forth_run keeps the histories growing and returns only 0 or -1; after it returns
      -1 the object is invalid, and every later call is refused with -1, changing nothing
      but the report. */
  lemma RunCodes(vm: Vm, start: Regs, fuel: nat, later: nat)
    requires vm.Valid()
    ensures var e := ForthRun(vm, start, fuel);
      Extends(vm, e.vm)
      && (e.status.Returned? ==> e.status.code == 0 || e.status.code == -1)
      && (e.status == Returned(-1) ==>
            e.vm.invalid
            && ForthRun(e.vm, start, later) == RunEnd(e.vm.(diags := e.vm.diags + [InvalidObject]), Returned(-1)))
  {
    if !vm.invalid {
      LoopHistory(vm, start, fuel);
    }
  }

  /** A dispatch that goes on normally is followed by the next fetch. */
  lemma LoopNext(vm: Vm, r: Regs, e: Effect, fuel: nat)
    requires vm.Valid() && fuel >= 1 && InArena(r.I) && vm.m[r.I] != 0
    requires e == Dispatch(vm, Fetched(vm, r)) && e.outcome.Next?
    ensures Loop(vm, r, fuel) == Loop(e.vm, e.r, fuel - 1)
  {
    LoopUnfolds(vm, r, fuel);
  }

  /** The cell at x holding READ's opcode dispatches READ. */
  lemma DispatchRead(vm: Vm, r: Regs)
    requires vm.Valid() && InArena(r.x) && vm.m[r.x] == Code(Read)
    ensures Dispatch(vm, r) == ReadWord(vm, r.(x := r.x + 1))
  {
    DispatchDecodes(vm, r, Read);
  }

  lemma DispatchRun(vm: Vm, r: Regs)
    requires vm.Valid() && InArena(r.x) && vm.m[r.x] == Code(Op.Run)
    requires var rp := Wrap(vm.m[RSTK] as int + 1); InArena(rp) && rp != RSTK
    ensures var rp := Wrap(vm.m[RSTK] as int + 1);
      Dispatch(vm, r) == Go(vm.(m := vm.m[RSTK := rp][rp := r.I]), r.(x := r.x + 1, I := r.x + 1))
  {
    DispatchDecodes(vm, r, Op.Run);
    assert Exec(Op.Run, vm, r.(x := r.x + 1)) == ExecControl(Op.Run, vm, r.(x := r.x + 1));
  }

  /** The bootstrap word [READ, RUN, 32, 33] at 32, with I at its RUN (after a READ that
      went on normally, LoopNext): the RUN at 33 raises the return stack pointer by the
      one READ's tail call took, saves 36 there, and calls 32 again with I back at 34.
      So the outer interpreter runs forever in constant return stack. */
  lemma BootRun(vm: Vm, r: Regs, fuel: nat)
    requires vm.Valid() && fuel >= 1 && r.I == BOOT + 3
    requires vm.m[BOOT + 1] == Code(Op.Run) && vm.m[BOOT + 3] == BOOT + 1
    requires var rp := Wrap(vm.m[RSTK] as int + 1); InArena(rp) && rp != RSTK
    ensures var rp := Wrap(vm.m[RSTK] as int + 1);
      Loop(vm, r, fuel) == Loop(vm.(m := vm.m[RSTK := rp][rp := BOOT + 4]), r.(x := BOOT + 2, I := BOOT + 2), fuel - 1)
  {
    LoopUnfolds(vm, r, fuel);
    DispatchRun(vm, Fetched(vm, r));
  }

  /** The bootstrap cycle: a READ that goes on normally, keeps the bootstrap cells and the
      instruction pointer (a number, or a word not found), then RUN; the return stack
      pointer is back where it was, and the loop is at 34 again. */
  lemma {:induction false} BootCycle(vm: Vm, r: Regs, e: Effect, fuel: nat)
    requires vm.Valid() && fuel >= 2 && r.I == BOOT + 2
    requires vm.m[BOOT] == Code(Read) && vm.m[BOOT + 2] == BOOT
    requires InArena(vm.m[RSTK]) && vm.m[RSTK] != RSTK
    requires e == Dispatch(vm, r.(x := BOOT, I := BOOT + 3)) && e.outcome.Next? && e.r.I == BOOT + 3
    requires e.vm.m[BOOT + 1] == Code(Op.Run) && e.vm.m[BOOT + 3] == BOOT + 1
    requires e.vm.m[RSTK] == Wrap(vm.m[RSTK] as int - 1)
    ensures var rp := vm.m[RSTK];
      Loop(vm, r, fuel) ==
        Loop(e.vm.(m := e.vm.m[RSTK := rp][rp := BOOT + 4]), e.r.(x := BOOT + 2, I := BOOT + 2), fuel - 2)
  {
    assert Fetched(vm, r) == r.(x := BOOT, I := BOOT + 3);
    LoopNext(vm, r, e, fuel);
    WrapInverse(vm.m[RSTK], 1);
    BootRun(e.vm, e.r, fuel - 1);
  }
}
