/** What the opcodes of forth_run do to the data stack, the return stack, the arena
    and the streams, and how pairs of them undo each other. */
module Opcodes {
  import opened Cells
  import opened Text
  import opened Blocks
  import opened Machine

  /** The cells an opcode adds to the data stack when it goes on normally (READ and DIV
      depend on more than the opcode and have lemmas of their own). */
  function StackDelta(op: Op): int
    requires !op.Read? && !op.Div?
  {
    match op
    case Push | Quote | Dup | Key | FromR => 1
    case Store => -2
    case Sub | Add | Mul | Less | Equal | Emit | Comma | Drop | Jmpz | PNum | ToR | BSave | BLoad => -1
    case Compile | Run | Define | Immediate | Comment | Load | Exit | Jmp | Swap | Tail => 0
  }

  /** Every opcode other than READ and DIV moves the data stack pointer by its fixed
      delta, and of them only DEFINE can make forth_run return. */
  lemma StackEffect(op: Op, vm: Vm, r: Regs)
    requires vm.Valid() && !op.Read? && !op.Div?
    ensures var e := Exec(op, vm, r);
      (e.outcome.Halt? ==> op.Define?) && (e.outcome.Next? ==> e.r.S == r.S + StackDelta(op))
  {
    if IsControl(op) {
      ExecIsControl(op, vm, r);
      ControlStackEffect(op, vm, r);
    } else if IsCompiler(op) {
      ExecIsCompiler(op, vm, r);
      CompilerStackEffect(op, vm, r);
    } else if IsData(op) {
      ExecIsData(op, vm, r);
      DataStackEffect(op, vm, r);
    } else {
      ExecIsIo(op, vm, r);
      IoStackEffect(op, vm, r);
    }
  }

  lemma ControlStackEffect(op: Op, vm: Vm, r: Regs)
    requires vm.Valid() && IsControl(op)
    ensures var e := ExecControl(op, vm, r);
      e.outcome.Next? ==> e.r.S == r.S + StackDelta(op)
  {
  }

  lemma CompilerStackEffect(op: Op, vm: Vm, r: Regs)
    requires vm.Valid() && IsCompiler(op)
    ensures var e := ExecCompiler(op, vm, r);
      (e.outcome.Halt? ==> op.Define?) && (e.outcome.Next? ==> e.r.S == r.S + StackDelta(op))
  {
  }

  lemma DataStackEffect(op: Op, vm: Vm, r: Regs)
    requires vm.Valid() && IsData(op) && !op.Div?
    ensures var e := ExecData(op, vm, r);
      e.outcome.Next? ==> e.r.S == r.S + StackDelta(op)
  {
  }

  lemma IoStackEffect(op: Op, vm: Vm, r: Regs)
    requires vm.Valid() && !op.Read? && !IsControl(op) && !IsCompiler(op) && !IsData(op)
    ensures var e := ExecIo(op, vm, r);
      e.outcome.Next? ==> e.r.S == r.S + StackDelta(op)
  {
  }

  /** Exec of an opcode of a group is that group's function. */
  lemma ExecIsControl(op: Op, vm: Vm, r: Regs)
    requires vm.Valid() && IsControl(op)
    ensures Exec(op, vm, r) == ExecControl(op, vm, r)
  {
  }

  lemma ExecIsCompiler(op: Op, vm: Vm, r: Regs)
    requires vm.Valid() && IsCompiler(op)
    ensures Exec(op, vm, r) == ExecCompiler(op, vm, r)
  {
  }

  lemma ExecIsData(op: Op, vm: Vm, r: Regs)
    requires vm.Valid() && IsData(op)
    ensures Exec(op, vm, r) == ExecData(op, vm, r)
  {
  }

  lemma ExecIsIo(op: Op, vm: Vm, r: Regs)
    requires vm.Valid() && !op.Read? && !IsControl(op) && !IsCompiler(op) && !IsData(op)
    ensures Exec(op, vm, r) == ExecIo(op, vm, r)
  {
  }

  /** PUSH, QUOTE, DUP and KEY save the old top in the cell just above the second
      element, and change no other cell. */
  lemma PushSavesTop(op: Op, vm: Vm, r: Regs)
    requires vm.Valid() && (op.Push? || op.Quote? || op.Dup? || op.Key?)
    ensures var e := Exec(op, vm, r);
      (e.outcome.Next? <==> InArena(r.S + 1) && (op.Push? || op.Quote? ==> InArena(r.I)))
      && (e.outcome.Next? ==> e.vm.m == vm.m[r.S + 1 := r.f] && e.r.S == r.S + 1)
  {
  }

  /** PUSH and QUOTE take the cell after the instruction pointer as the new top and
      step over it. */
  lemma LiteralInline(op: Op, vm: Vm, r: Regs)
    requires vm.Valid() && (op.Push? || op.Quote?) && InArena(r.S + 1) && InArena(r.I)
    ensures var e := Exec(op, vm, r);
      e.outcome.Next? && e.r.I == Wrap(r.I + 1)
      && e.r.f == (if r.I == r.S + 1 then r.f else vm.m[r.I])
  {
  }

  /** DROP, EMIT, PNUM and JMPZ pop: the second element becomes the top and the arena is
      unchanged. */
  lemma PopTakesSecond(op: Op, vm: Vm, r: Regs)
    requires vm.Valid() && (op.Drop? || op.Emit? || op.PNum? || op.Jmpz?)
    requires InArena(r.S) && (op.Jmpz? && r.f == 0 ==> InArena(r.I))
    ensures var e := Exec(op, vm, r);
      e.outcome.Next? && e.r.f == vm.m[r.S] && e.r.S == r.S - 1 && e.vm.m == vm.m
  {
  }

  /** The binary opcodes replace the two top elements by Alu of them and touch nothing
      else; they fail only on a stack pointer outside the arena. */
  lemma BinaryOp(op: Op, vm: Vm, r: Regs)
    requires vm.Valid() && IsBinary(op)
    ensures var e := Exec(op, vm, r);
      (e.outcome.Next? <==> InArena(r.S))
      && (e.outcome.Next? ==> e.vm == vm && e.r == r.(f := Alu(op, vm.m[r.S], r.f), S := r.S - 1))
  {
  }

  /** SUB undoes ADD modulo 2^16: "a b + b -" leaves a. */
  lemma AddThenSub(a: Cell, b: Cell)
    ensures Alu(Sub, Alu(Add, a, b), b) == a
  {
    WrapInverse(a, b);
  }

  /** DIV by a non-zero top is the quotient of unsigned division. */
  lemma DivQuotient(vm: Vm, r: Regs)
    requires vm.Valid() && r.f != 0 && InArena(r.S)
    ensures var e := Exec(Div, vm, r);
      e.outcome.Next? && e.vm == vm && e.r.S == r.S - 1
      && e.r.f * r.f <= vm.m[r.S] < (e.r.f + 1) * r.f
  {
    var q := vm.m[r.S] / r.f;
    assert vm.m[r.S] == q * r.f + vm.m[r.S] % r.f;
  }

  /** DIV by zero does not fault and does not pop: it reports the division, and the top
      becomes what the report's fprintf returned. */
  lemma DivByZeroReported(vm: Vm, r: Regs)
    requires vm.Valid() && r.f == 0
    ensures Exec(Div, vm, r) == Effect(vm.(diags := vm.diags + [DivByZero]), r.(f := vm.warnValue), Next)
  {
  }

  /** LOAD reads any cell value as an address (CK masks it into the arena) and never
      reaches undefined behaviour. */
  lemma LoadTotal(vm: Vm, r: Regs)
    requires vm.Valid()
    ensures var e := Exec(Load, vm, r);
      e == Effect(vm, r.(f := vm.m[CK(r.f)]), Next)
      && (r.f < CORESZ ==> e.r.f == vm.m[r.f])
  {
  }

  /** STORE writes the second element at the masked address and pops both; a LOAD of
      the same address then reads the stored value back. */
  lemma StoreThenLoad(vm: Vm, r: Regs, a: Cell)
    requires vm.Valid() && InArena(r.S) && InArena(r.S - 1) && CK(a) == CK(r.f)
    ensures var e := Exec(Store, vm, r);
      e.outcome.Next? && e.r.S == r.S - 2
      && e.vm.m == vm.m[CK(r.f) := vm.m[r.S]]
      && Exec(Load, e.vm, e.r.(f := a)).r.f == vm.m[r.S]
  {
  }

  /** SWAP exchanges the two top elements, so two SWAPs change nothing. */
  lemma SwapTwice(vm: Vm, r: Regs)
    requires vm.Valid() && InArena(r.S)
    ensures var e1 := Exec(Swap, vm, r);
      e1.outcome.Next? && e1.r.f == vm.m[r.S] && e1.vm.m[r.S] == r.f && e1.r.S == r.S
      && Exec(Swap, e1.vm, e1.r) == Effect(vm, r, Next)
  {
    var e1 := Exec(Swap, vm, r);
    assert e1.vm.m[r.S := e1.r.f] == vm.m;
  }

  /** DUP then DROP gives back the stack; only the cell above it keeps the copy. */
  lemma DupThenDrop(vm: Vm, r: Regs)
    requires vm.Valid() && InArena(r.S + 1)
    ensures var e1 := Exec(Dup, vm, r);
      var e2 := Exec(Drop, e1.vm, e1.r);
      e1.outcome.Next? && e2 == Effect(vm.(m := vm.m[r.S + 1 := r.f]), r, Next)
  {
  }

  /** A call to x (RUN) followed by EXIT comes back to the instruction after the call
      with the return stack pointer as it was. RUN pushes the return address on the
      return stack and jumps to the word's body. */
  lemma RunThenExit(vm: Vm, r: Regs, x': Cell)
    requires vm.Valid()
    requires InArena(Wrap(vm.m[RSTK] as int + 1)) && Wrap(vm.m[RSTK] as int + 1) != RSTK
    ensures var rp := Wrap(vm.m[RSTK] as int + 1);
      var e1 := Exec(Op.Run, vm, r);
      var e2 := Exec(Exit, e1.vm, e1.r.(x := x'));
      e1.outcome.Next? && e1.r.I == r.x && e1.vm.m[RSTK] == rp && e1.vm.m[rp] == r.I
      && e2.outcome.Next? && e2.r.I == r.I
      && e2.vm.m == vm.m[rp := r.I]
  {
    var e1 := Exec(Op.Run, vm, r);
    ExecIsControl(Op.Run, vm, r);
    ExecIsControl(Exit, e1.vm, e1.r.(x := x'));
    RunExitControl(vm, r, x');
  }

  lemma RunExitControl(vm: Vm, r: Regs, x': Cell)
    requires vm.Valid()
    requires InArena(Wrap(vm.m[RSTK] as int + 1)) && Wrap(vm.m[RSTK] as int + 1) != RSTK
    ensures var rp := Wrap(vm.m[RSTK] as int + 1);
      var e1 := ExecControl(Op.Run, vm, r);
      var e2 := ExecControl(Exit, e1.vm, e1.r.(x := x'));
      e1.outcome.Next? && e1.r.I == r.x && e1.vm.m[RSTK] == rp && e1.vm.m[rp] == r.I
      && e2.outcome.Next? && e2.r.I == r.I
      && e2.vm.m == vm.m[rp := r.I]
  {
    var rp := Wrap(vm.m[RSTK] as int + 1);
    WrapInverse(vm.m[RSTK], 1);
    var e1 := ExecControl(Op.Run, vm, r);
    assert e1.vm.m[RSTK := Wrap(rp as int - 1)] == vm.m[rp := r.I];
  }

  /** >R followed by R> gives back the data stack, and the return stack pointer is as it
      was, when the data stack cell does not alias the return stack's. */
  lemma ToRThenFromR(vm: Vm, r: Regs)
    requires vm.Valid() && InArena(r.S)
    requires InArena(Wrap(vm.m[RSTK] as int + 1)) && Wrap(vm.m[RSTK] as int + 1) != RSTK
    requires r.S != RSTK && r.S != Wrap(vm.m[RSTK] as int + 1)
    ensures var rp := Wrap(vm.m[RSTK] as int + 1);
      var e1 := Exec(ToR, vm, r);
      var e2 := Exec(FromR, e1.vm, e1.r);
      e1.outcome.Next? && e1.vm.m[rp] == r.f && e1.r.S == r.S - 1
      && e2 == Effect(vm.(m := vm.m[rp := r.f]), r, Next)
  {
    var e1 := Exec(ToR, vm, r);
    ExecIsControl(ToR, vm, r);
    ExecIsControl(FromR, e1.vm, e1.r);
    ToRFromRControl(vm, r);
  }

  lemma ToRFromRControl(vm: Vm, r: Regs)
    requires vm.Valid() && InArena(r.S)
    requires InArena(Wrap(vm.m[RSTK] as int + 1)) && Wrap(vm.m[RSTK] as int + 1) != RSTK
    requires r.S != RSTK && r.S != Wrap(vm.m[RSTK] as int + 1)
    ensures var rp := Wrap(vm.m[RSTK] as int + 1);
      var e1 := ExecControl(ToR, vm, r);
      var e2 := ExecControl(FromR, e1.vm, e1.r);
      e1.outcome.Next? && e1.vm.m[rp] == r.f && e1.r.S == r.S - 1
      && e2 == Effect(vm.(m := vm.m[rp := r.f]), r, Next)
  {
    var rp := Wrap(vm.m[RSTK] as int + 1);
    WrapInverse(vm.m[RSTK], 1);
    var e1 := ExecControl(ToR, vm, r);
    var m1 := e1.vm.m[r.S := e1.r.f];
    assert m1[RSTK] == rp && m1[rp] == r.f;
    assert m1[RSTK := Wrap(rp as int - 1)] == vm.m[rp := r.f];
  }


  /** JMPZ branches by the offset in the next cell when the top is zero and otherwise
      steps over that cell; either way it pops. */
  lemma JmpzBranches(vm: Vm, r: Regs)
    requires vm.Valid() && InArena(r.S) && InArena(r.I)
    ensures var e := Exec(Jmpz, vm, r);
      e.outcome.Next? && e.r.S == r.S - 1
      && ((e.r.I as int - r.I - (if r.f == 0 then vm.m[r.I] else 1)) % 0x10000 == 0)
  {
  }

  /** EMIT writes the low byte of the top, then pops. */
  lemma EmitWrites(vm: Vm, r: Regs)
    requires vm.Valid() && InArena(r.S)
    ensures var e := Exec(Emit, vm, r);
      e.vm.out == vm.out + [r.f % 256] && e.r.f == vm.m[r.S]
  {
  }

  /** PNUM writes the top as a numeral, in hexadecimal when the HEX register is set and
      in decimal otherwise, without leading zeros, then pops. */
  lemma PNumWrites(vm: Vm, r: Regs)
    requires vm.Valid() && InArena(r.S)
    ensures var e := Exec(PNum, vm, r);
      var base := if vm.m[HEX] != 0 then 16 else 10;
      var digits := e.vm.out[|vm.out|..];
      vm.out <= e.vm.out && 1 <= |digits|
      && DigitsValue(digits, base) == r.f
      && (digits[0] == ZERO <==> r.f == 0)
      && e.r.f == vm.m[r.S]
  {
    var e := Exec(PNum, vm, r);
    var base := if vm.m[HEX] != 0 then 16 else 10;
    NumeralValue(r.f, base);
    assert e.vm.out[|vm.out|..] == Numeral(r.f, base);
  }

  /** KEY pushes the next input byte and consumes it; at the end of the input it pushes
      EOF truncated to a cell, and the input stays at its end. */
  lemma KeyReads(vm: Vm, r: Regs)
    requires vm.Valid() && InArena(r.S + 1)
    ensures var e := Exec(Key, vm, r);
      e.outcome.Next?
      && (vm.pos < |vm.inp| ==> e.r.f == vm.inp[vm.pos] && e.vm.pos == vm.pos + 1)
      && (vm.pos == |vm.inp| ==> e.r.f == 0xFFFF && e.vm.pos == vm.pos)
  {
  }

  /** SAVE and LOAD take the arena offset from the second element. A file is isOpen
      exactly when the request is valid and the host's file system opens it, and only
      an isOpen file is recorded; the result is 0 exactly when a whole block was moved.
      SAVE, and a LOAD that opens no file, leave the arena and the store unchanged. */
  lemma BlockOps(op: Op, vm: Vm, r: Regs)
    requires vm.Valid() && (op.BSave? || op.BLoad?) && InArena(r.S)
    ensures var e := Exec(op, vm, r);
      var ok := BlockRequestOk(vm.m[r.S], if op.BSave? then 'w' else 'r');
      var isOpen := ok && vm.used < |vm.transfers| && vm.transfers[vm.used].Moved?;
      e.outcome.Next? && e.r.S == r.S - 1
      && (e.r.f == 0 <==> isOpen && |vm.transfers[vm.used].bytes| >= BLKSZ)
      && (e.r.f != 0 ==> e.r.f == 0xFFFF)
      && (isOpen ==> e.vm.files == vm.files + [FileRequest(BlockFileName(r.f), vm.m[r.S], op.BSave?)])
      && (!isOpen ==> e.vm.files == vm.files)
      && (op.BSave? || !isOpen ==> e.vm.m == vm.m && e.vm.s == vm.s)
      && e.vm == BlockIo(vm, vm.m[r.S], r.f, if op.BSave? then 'w' else 'r').0
  {
  }

  /** Copying bytes in sets exactly the bytes from k to k + |bs| to bs and keeps every
      other byte of the arena. */
  lemma {:induction false} CopyInReads(vm: Vm, k: nat, bs: seq<byte>, j: int)
    requires vm.Valid() && k + |bs| <= 2 * CORESZ && 0 <= j < 2 * CORESZ
    ensures ArenaByte(CopyIn(vm, k, bs), j) == if k <= j < k + |bs| then bs[j - k] else ArenaByte(vm, j)
    decreases |bs|
  {
    if bs != [] {
      CopyInReads(vm, k, bs[..|bs| - 1], j);
    }
  }

  /** A load from an opened file puts the bytes fread delivered, at most a block of
      them, at the arena bytes from the offset on, and leaves every other byte as it was. */
  lemma LoadCopies(vm: Vm, k: Cell, id: Cell, j: int)
    requires vm.Valid() && 0 <= j < 2 * CORESZ
    requires BlockRequestOk(k, 'r') && vm.used < |vm.transfers| && vm.transfers[vm.used].Moved?
    ensures var bs := vm.transfers[vm.used].bytes;
      ArenaByte(BlockIo(vm, k, id, 'r').0, j) == if k <= j < k + Count(bs) then bs[j - k] else ArenaByte(vm, j)
  {
    var bs := vm.transfers[vm.used].bytes;
    var vm1 := vm.(used := vm.used + 1, files := vm.files + [FileRequest(BlockFileName(id), k, false)]);
    assert BlockIo(vm, k, id, 'r').0 == CopyIn(vm1, k, bs[..Count(bs)]);
    CopyInReads(vm1, k, bs[..Count(bs)], j);
    assert ArenaByte(vm1, j) == ArenaByte(vm, j);
  }

  /** A cell outside the opcode set is reported, invalidates the object and makes
      forth_run return -1, changing nothing else. */
  lemma UnknownInstruction(vm: Vm, r: Regs)
    requires vm.Valid() && InArena(r.x) && vm.m[r.x] >= LAST
    ensures Dispatch(vm, r) ==
      Effect(vm.(invalid := true, diags := vm.diags + [Diag.UnknownInstruction]), r.(x := r.x + 1), Halt(-1))
  {
  }

  /** A dispatch at a cell that holds an opcode runs that opcode with x past it. */
  lemma DispatchDecodes(vm: Vm, r: Regs, op: Op)
    requires vm.Valid() && InArena(r.x) && vm.m[r.x] == Code(op)
    ensures Dispatch(vm, r) == Exec(op, vm, r.(x := r.x + 1))
  {
    var c := vm.m[r.x];
    assert Decode(c) == Some(op) by {
      assert c == Code(op);
    }
  }
  /** Compiling, a found word whose code cell is COMPILE is dispatched at that cell,
      which appends the address of the word's body, w + 3, to the dictionary. */
  lemma CompilingAppendsBody(vm: Vm, r: Regs, w: Cell)
    requires vm.Valid() && vm.m[STATE] != 0 && w + 3 < CORESZ && vm.m[w + 2] == Code(Compile)
    requires CanAppend(vm)
    ensures EntryPoint(vm, w) == w + 2
    ensures Dispatch(vm, r.(x := EntryPoint(vm, w))) == Go(Append(vm, w + 3), r.(x := w + 3))
  {
    DispatchDecodes(vm, r.(x := w + 2), Compile);
  }

  /** Interpreting, a found word whose code cell is COMPILE is dispatched at the cell
      after it, so a primitive [link, name, COMPILE, op] runs op. */
  lemma InterpretingRunsBody(vm: Vm, r: Regs, w: Cell, op: Op)
    requires vm.Valid() && vm.m[STATE] == 0 && w + 3 < CORESZ && vm.m[w + 2] == Code(Compile)
    requires vm.m[w + 3] == Code(op)
    ensures EntryPoint(vm, w) == w + 3
    ensures Dispatch(vm, r.(x := EntryPoint(vm, w))) == Exec(op, vm, r.(x := w + 4))
  {
    DispatchDecodes(vm, r.(x := w + 3), op);
  }

  /** On any stack whose second element a is in the arena, with top b: SUB, ADD and MUL
      leave a - b, a + b and a * b modulo 2^16 as the new top; LESS leaves 1 exactly when
      a > b and EQUAL exactly when a == b, and 0 otherwise. Each pops one element and
      changes nothing else of the object. */
  lemma AluMeaning(vm: Vm, r: Regs)
    requires vm.Valid() && InArena(r.S)
    ensures var a, b := vm.m[r.S], r.f;
      var sub, add, mul := Exec(Sub, vm, r), Exec(Add, vm, r), Exec(Mul, vm, r);
      sub.outcome.Next? && sub.vm == vm && sub.r.S == r.S - 1 && (sub.r.f - (a - b)) % 0x10000 == 0
      && add.outcome.Next? && add.vm == vm && add.r.S == r.S - 1 && (add.r.f - (a + b)) % 0x10000 == 0
      && mul.outcome.Next? && mul.vm == vm && mul.r.S == r.S - 1 && (mul.r.f - a * b) % 0x10000 == 0
    ensures var a, b := vm.m[r.S], r.f;
      var less, equal := Exec(Less, vm, r), Exec(Equal, vm, r);
      less.outcome.Next? && less.vm == vm && less.r.S == r.S - 1
      && less.r.f <= 1 && (less.r.f == 1 <==> a > b)
      && equal.outcome.Next? && equal.vm == vm && equal.r.S == r.S - 1
      && equal.r.f <= 1 && (equal.r.f == 1 <==> a == b)
  {
    BinaryOp(Sub, vm, r);
    BinaryOp(Add, vm, r);
    BinaryOp(Mul, vm, r);
    BinaryOp(Less, vm, r);
    BinaryOp(Equal, vm, r);
  }
}
