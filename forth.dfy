/** The C object itself: the arena and the string store are arrays updated in place,
    and compile_word, forth_init and forth_run are methods proved to do what the
    functional model in Machine says. */
module Forth {
  import opened Cells
  import opened Text
  import opened Dictionary
  import opened Blocks
  import opened Machine
  import opened Opcodes
  import opened Compiler

  class ForthObj {
    const m: array<Cell>              // the arena, registers first
    const s: array<byte>              // the string store, kept apart from the arena (in C, its bytes from 16384 on)
    var L: Cell
    var t: Cell
    var invalid: bool
    const inp: seq<byte>
    var pos: nat
    var out: seq<byte>
    var diags: seq<Diag>
    const transfers: seq<Transfer>
    var used: nat
    var files: seq<FileRequest>
    const warnValue: Cell
    /** o->x, o->S, o->I and o->f: forth_run copies them into its locals and never
        writes them back. forth_init sets S and I; x and f keep calloc's zero. S is an
        index into the arena. */
    const x: Cell
    var S: int
    const I: Cell
    const f: Cell

    predicate Valid()
      reads this
    {
      m.Length == CORESZ && s.Length == STRSZ && pos <= |inp|
    }

    /** The object as the value the functional model works on. */
    function Abs(): (vm: Vm)
      reads this, m, s
      requires Valid()
      ensures vm.Valid()
    {
      Vm(m[..], s[..], L, t, invalid, inp, pos, out, diags, transfers, used, files, warnValue)
    }

    /** The registers forth_run starts from. */
    function Start(): Regs
      reads this
    {
      Regs(x, S, I, f)
    }

    /** forth_init(in, out) with calloc succeeding: the registers, the bootstrap word
        [READ, RUN, 32, 33] at 32, the entries ":", "immediate" and "#", the primitives
        "read" .. "load" compiled as [L, t, COMPILE, opcode], and the return stack. */
    constructor Init(inp: seq<byte>, transfers: seq<Transfer>, warnValue: Cell)
      ensures Valid() && fresh(m) && fresh(s)
      ensures Abs() == InitVm(inp, transfers, warnValue) && Start() == INIT_REGS
    {
      var a := new Cell[CORESZ](i => 0);
      s := new byte[STRSZ](i => 0);
      assert a[..] == Blank(inp, transfers, warnValue).m;
      a[DICTIONARY] := 32;
      L := 1;
      t := 32;
      var i := ForthObj.BootWord(a);
      I := i;
      m := a;
      this.inp, this.transfers, this.warnValue := inp, transfers, warnValue;
      invalid, pos, out, diags, used, files := false, 0, [], [], 0, [];
      x, S, f := 0, 0, 0;
      new;
      Populate();
    }

    /** The rest of forth_init once the bootstrap word is laid out: the three core
        entries, the primitives, the return stack pointer and S. */
    method Populate()
      requires Valid() && Abs() == Boot(Blank(inp, transfers, warnValue))
      modifies this`L, this`t, this`pos, this`S, m, s
      ensures Valid() && Abs() == InitVm(inp, transfers, warnValue) && S == CORESZ - 2 * STKSZ
    {
      ghost var v1 := Abs();
      assert v1.m[DICTIONARY] == BOOT + 4 && v1.t == 32;
      CoreWords();
      ghost var v2 := Abs();
      assert v2.m[DICTIONARY] == BOOT + 13 && v2.t <= 32 + 3 * (MAXWORD + 1);
      NamesFit();
      InstallNames();
      ghost var v3 := Abs();
      Registers();
      InitFrom(inp, transfers, warnValue, Blank(inp, transfers, warnValue), v1, v2, v3);
    }

    /** forth_init's layout assembled from its steps. */
    static lemma InitFrom(inp: seq<byte>, transfers: seq<Transfer>, warnValue: Cell, v0: Vm, v1: Vm, v2: Vm, v3: Vm)
      requires v0 == Blank(inp, transfers, warnValue) && v1 == Boot(v0)
      requires v1.m[DICTIONARY] == BOOT + 4 && v1.t == 32
      requires v2 == Machine.CoreWords(v1)
      requires v2.m[DICTIONARY] == BOOT + 13 && v2.t <= 32 + 3 * (MAXWORD + 1) && |NAMES| == 25
      requires v3 == InstallPrimitives(v2, |NAMES|)
      ensures InitVm(inp, transfers, warnValue) == v3.(m := v3.m[RSTK := CORESZ - STKSZ])
    {
    }

    /** o->m[RSTK] = CORESZ - STKSZ and S = m + CORESZ - 2 * STKSZ. */
    method Registers()
      requires Valid()
      modifies m, this`S
      ensures Valid() && Abs() == old(Abs()).(m := old(m[..])[RSTK := CORESZ - STKSZ])
      ensures S == CORESZ - 2 * STKSZ
    {
      m[RSTK] := CORESZ - STKSZ;
      S := CORESZ - 2 * STKSZ;
    }

    /** compile_word(o, DEFINE, ":"), compile_word(o, IMMEDIATE, "immediate") and
        compile_word(o, COMMENT, "#"). */
    method CoreWords()
      requires Valid() && 1 <= m[DICTIONARY] && m[DICTIONARY] + 9 <= STRCELL
      requires t + 3 * (MAXWORD + 1) <= STRSZ
      modifies this`L, this`t, this`pos, m, s
      ensures Valid() && Abs() == Machine.CoreWords(old(Abs()))
    {
      var r := CompileWord(Code(Define), Some(Ascii(":")));
      r := CompileWord(Code(Immediate), Some(Ascii("immediate")));
      r := CompileWord(Code(Comment), Some(Ascii("#")));
    }

    /** The start of forth_init after m[0] = 32: the word [READ, RUN, 32, 33] with the
        instruction pointer at its third cell. */
    static method BootWord(a: array<Cell>) returns (i: Cell)
      requires a.Length == CORESZ && a[DICTIONARY] == BOOT
      modifies a
      ensures i == BOOT + 2
      ensures a[..] == old(a[..])[DICTIONARY := BOOT + 4][BOOT := Code(Read)][BOOT + 1 := Code(Op.Run)]
                                 [BOOT + 2 := BOOT][BOOT + 3 := BOOT + 1]
    {
      var w := a[DICTIONARY];
      ForthObj.Push(a, Code(Read));
      ForthObj.Push(a, Code(Op.Run));
      i := a[DICTIONARY];
      ForthObj.Push(a, w);
      ForthObj.Push(a, i - 1);
    }

    /** m[m[0]++] = v on an arena not yet inside an object. */
    static method Push(a: array<Cell>, v: Cell)
      requires a.Length == CORESZ && 1 <= a[DICTIONARY] < STRCELL
      modifies a
      ensures a[..] == old(a[..])[DICTIONARY := old(a[DICTIONARY]) + 1][old(a[DICTIONARY]) := v]
    {
      var d := a[DICTIONARY];
      a[DICTIONARY] := d + 1;
      a[d] := v;
    }

    /** The loop of forth_init over names: compile_word(o, COMPILE, names[i]) followed
        by m[m[0]++] = w++, with w from READ on. */
    method InstallNames()
      requires Valid() && 1 <= m[DICTIONARY] && m[DICTIONARY] + 4 * |NAMES| <= STRCELL
      requires t + (MAXWORD + 1) * |NAMES| <= STRSZ
      modifies this`L, this`t, this`pos, m, s
      ensures Valid() && Abs() == InstallPrimitives(old(Abs()), |NAMES|)
    {
      ghost var v := Abs();
      var i := 0;
      var w := Code(Read);
      while i < |NAMES|
        invariant Valid() && 0 <= i <= |NAMES| && w == Code(Read) + i
        invariant Abs() == InstallPrimitives(v, i)
      {
        NamesFit();
        assert |Ascii(NAMES[i])| <= MAXWORD;
        InstallStep(v, i);
        var r := CompileWord(Code(Compile), Some(Ascii(NAMES[i])));
        AppendCell(w);
        w, i := w + 1, i + 1;
      }
    }

    /** One round of the names loop is one more primitive of InstallPrimitives. */
    static lemma InstallStep(v: Vm, i: nat)
      requires v.Valid() && i < |NAMES|
      requires 1 <= v.m[DICTIONARY] && v.m[DICTIONARY] + 4 * |NAMES| <= STRCELL
      requires v.t + (MAXWORD + 1) * |NAMES| <= STRSZ
      requires |Ascii(NAMES[i])| <= MAXWORD
      ensures var b := InstallPrimitives(v, i);
        var c := Machine.CompileWord(b, Code(Compile), Some(Ascii(NAMES[i]))).vm;
        CanCompile(b) && CanAppend(c) && InstallPrimitives(v, i + 1) == Append(c, Code(Read) + i)
    {
    }

    /** m[m[0]++] = v. */
    method AppendCell(v: Cell)
      requires Valid() && CanAppend(Abs())
      modifies m
      ensures Valid() && Abs() == Append(old(Abs()), v)
    {
      var d := m[DICTIONARY];
      m[DICTIONARY] := d + 1;
      m[d] := v;
    }

    /** strcpy or fscanf writing the bytes b from offset k of the string store. */
    method StoreBytes(k: nat, b: seq<byte>)
      requires Valid() && k + |b| <= STRSZ
      modifies s
      ensures Valid() && Abs() == old(Abs()).(s := WriteBytes(old(s[..]), k, b))
    {
      var i := 0;
      while i < |b|
        invariant 0 <= i <= |b|
        invariant forall j :: 0 <= j < STRSZ ==> s[j] == if k <= j < k + i then b[j - k] else old(s[j])
      {
        s[k + i] := b[i];
        i := i + 1;
      }
      assert s[..] == WriteBytes(old(s[..]), k, b);
    }

    /** compile_word(o, code, str): the header [L, t, code] at the dictionary pointer,
        the name stored at t, and t moved past it. */
    method CompileWord(code: Cell, name: Option<seq<byte>>) returns (r: int)
      requires Valid() && CanCompile(Abs()) && (name.Some? ==> |name.value| <= MAXWORD)
      modifies this`L, this`t, this`pos, m, s
      ensures Valid()
      ensures var c := Machine.CompileWord(old(Abs()), code, name); Abs() == c.vm && r == c.r
    {
      ghost var v0 := Abs();
      Header(code);
      ghost var v1 := Abs();
      ghost var i1 := I;
      r := StoreName(name);
      ghost var v2 := Abs();
      PassName();
      ghost var n := Machine.StoreName(v0.s, v0.t, v0.inp, v0.pos, name);
      CompiledFrom(v0, code, name, v1.m, n);
    }

    /** compile_word's result assembled from its two halves. */
    static lemma CompiledFrom(vm: Vm, code: Cell, name: Option<seq<byte>>, hm: seq<Cell>, n: Named)
      requires vm.Valid() && CanCompile(vm) && (name.Some? ==> |name.value| <= MAXWORD)
      requires hm == HeaderCells(vm.m, vm.L, vm.t, code)
      requires n == Machine.StoreName(vm.s, vm.t, vm.inp, vm.pos, name)
      ensures Machine.CompileWord(vm, code, name)
        == Compiled(vm.(m := hm, L := vm.m[DICTIONARY], s := n.s, pos := n.pos,
                        t := Wrap(vm.t + CStrLen(n.s, vm.t) + 1)), n.r)
    {
    }

    /** t += strlen(o->s + t) + 1. */
    method PassName()
      requires Valid()
      modifies this`t
      ensures Valid() && Abs() == old(Abs()).(t := Wrap(old(t) + CStrLen(s[..], old(t)) + 1))
    {
      t := Wrap(t + CStrLen(s[..], t) + 1);
    }

    /** The three cells m[m[0]++] = L, t, code, with L moved to the first of them. */
    method Header(code: Cell)
      requires Valid() && CanCompile(Abs())
      modifies this`L, m
      ensures Valid()
      ensures Abs() == old(Abs()).(m := HeaderCells(old(m[..]), old(L), t, code), L := old(m[DICTIONARY]))
    {
      ghost var d := m[DICTIONARY];
      AppendCell(L);
      L := m[DICTIONARY] - 1;
      AppendCell(t);
      AppendCell(code);
      assert m[..] == HeaderCells(old(m[..]), old(L), t, code);
    }

    /** The name half of compile_word: strcpy of str, or fscanf("%31s"), into the store
        at t. */
    method StoreName(name: Option<seq<byte>>) returns (r: int)
      requires Valid() && t + MAXWORD + 1 <= STRSZ && (name.Some? ==> |name.value| <= MAXWORD)
      modifies this`pos, s
      ensures Valid()
      ensures var n := Machine.StoreName(old(s[..]), t, inp, old(pos), name);
        Abs() == old(Abs()).(s := n.s, pos := n.pos) && r == n.r
    {
      r := 0;
      match name {
        case Some(str) =>
          StoreBytes(t, CStr(str, 0) + [NUL]);
        case None =>
          match ScanWord(inp, pos) {
            case None =>
              pos := |inp|;
              r := EOF;
            case Some(tok) =>
              StoreBytes(t, tok.word + [NUL]);
              pos := tok.next;
              r := 1;
          }
      }
    }

    // ------------------------------------------------------------- forth_run

    /** m[i] = v. */
    method Put(i: int, v: Cell)
      requires Valid() && InArena(i)
      modifies m
      ensures Valid() && Abs() == old(Abs()).(m := old(m[..])[i := v])
    {
      m[i] := v;
    }

    /** f = *S--. */
    method PopTop(r: Regs) returns (r': Regs, o: Outcome)
      requires Valid()
      ensures var e := Pop(Abs(), r); r' == e.r && o == e.outcome
    {
      if !InArena(r.S) {
        return r, Undefined;
      }
      return r.(f := m[r.S], S := r.S - 1), Next;
    }

    /** The cases of the switch that move the instruction pointer or the return stack. */
    method StepControl(op: Op, r: Regs) returns (r': Regs, o: Outcome)
      requires Valid() && IsControl(op)
      modifies m
      ensures Valid()
      ensures Effect(Abs(), r', o) == ExecControl(op, old(Abs()), r)
    {
      if op.Run? || op.Exit? || op.FromR? || op.ToR? || op.Tail? {
        r', o := StepReturn(op, r);
      } else {
        r', o := StepJump(op, r);
      }
    }

    /** PUSH, QUOTE, JMP and JMPZ: the instruction pointer and the data stack. */
    method StepJump(op: Op, r: Regs) returns (r': Regs, o: Outcome)
      requires Valid() && (op.Push? || op.Quote? || op.Jmp? || op.Jmpz?)
      modifies m
      ensures Valid()
      ensures Effect(Abs(), r', o) == ExecControl(op, old(Abs()), r)
    {
      match op
      case Push | Quote =>
        if !InArena(r.S + 1) || !InArena(r.I) {
          return r, Undefined;
        }
        Put(r.S + 1, r.f);
        return r.(S := r.S + 1, f := m[r.I], I := Wrap(r.I + 1)), Next;
      case Jmp =>
        if !InArena(r.I) {
          return r, Undefined;
        }
        return r.(I := Wrap(r.I + m[r.I])), Next;
      case Jmpz =>
        if r.f == 0 && !InArena(r.I) {
          return r, Undefined;
        }
        var i := if r.f == 0 then Wrap(r.I + m[r.I]) else Wrap(r.I + 1);
        r', o := PopTop(r.(I := i));
    }

    /** RUN, EXIT, R>, >R and TAIL: the return stack. */
    method StepReturn(op: Op, r: Regs) returns (r': Regs, o: Outcome)
      requires Valid() && (op.Run? || op.Exit? || op.FromR? || op.ToR? || op.Tail?)
      modifies m
      ensures Valid()
      ensures Effect(Abs(), r', o) == ExecControl(op, old(Abs()), r)
    {
      match op
      case Run =>
        var rp := Wrap(m[RSTK] as int + 1);
        if !InArena(rp) || rp == RSTK {
          return r, Undefined;
        }
        Put(RSTK, rp);
        Put(rp, r.I);
        return r.(I := r.x), Next;
      case Exit =>
        var rp := m[RSTK];
        if !InArena(rp) {
          return r, Undefined;
        }
        var i := m[rp];
        Put(RSTK, Wrap(rp as int - 1));
        return r.(I := i), Next;
      case FromR =>
        if !InArena(r.S + 1) {
          return r, Undefined;
        }
        Put(r.S + 1, r.f);
        var rp := m[RSTK];
        if !InArena(rp) {
          return r, Undefined;
        }
        var v := m[rp];
        Put(RSTK, Wrap(rp as int - 1));
        return r.(S := r.S + 1, f := v), Next;
      case ToR =>
        var rp := Wrap(m[RSTK] as int + 1);
        if !InArena(rp) || rp == RSTK {
          return r, Undefined;
        }
        Put(RSTK, rp);
        Put(rp, r.f);
        r', o := PopTop(r);
      case Tail =>
        Put(RSTK, Wrap(m[RSTK] as int - 1));
        return r, Next;
    }

    /** The cases of the switch that extend the dictionary or skip input. */
    method StepCompiler(op: Op, r: Regs) returns (r': Regs, o: Outcome)
      requires Valid() && IsCompiler(op)
      modifies this`L, this`t, this`pos, this`invalid, m, s
      ensures Valid()
      ensures Effect(Abs(), r', o) == ExecCompiler(op, old(Abs()), r)
    {
      r' := r;
      match op
      case Compile =>
        if !(1 <= m[DICTIONARY] < STRCELL) {
          return r, Undefined;
        }
        AppendCell(r.x);
        o := Next;
      case Define =>
        o := DefineStep(r);
      case Immediate =>
        o := ImmediateStep(r);
      case Comment =>
        SkipComment();
        o := Next;
      case Comma =>
        if !(1 <= m[DICTIONARY] < STRCELL) {
          return r, Undefined;
        }
        AppendCell(r.f);
        r', o := PopTop(r);
    }

    /** DEFINE: m[STATE] = 1, a header for the next word of the input with code COMPILE,
        and RUN after it; at the end of the input the object is invalidated and
        forth_run returns -1. */
    method DefineStep(r: Regs) returns (o: Outcome)
      requires Valid()
      modifies this`L, this`t, this`pos, this`invalid, m, s
      ensures Valid()
      ensures Effect(Abs(), r, o) == DefineWord(old(Abs()), r)
    {
      Put(STATE, 1);
      if !(1 <= m[DICTIONARY] && m[DICTIONARY] + 3 <= STRCELL && t + MAXWORD + 1 <= STRSZ) {
        return Undefined;
      }
      var c := CompileWord(Code(Compile), None);
      if c < 0 {
        invalid := true;
        return Halt(-1);
      }
      if !(1 <= m[DICTIONARY] < STRCELL) {
        return Undefined;
      }
      AppendCell(Code(Op.Run));
      o := Next;
    }

    /** IMMEDIATE: *m -= 2; m[m[0]++] = RUN. */
    method ImmediateStep(r: Regs) returns (o: Outcome)
      requires Valid()
      modifies m
      ensures Valid()
      ensures Effect(Abs(), r, o) == MakeImmediate(old(Abs()), r)
    {
      Put(DICTIONARY, Wrap(m[DICTIONARY] as int - 2));
      if !(1 <= m[DICTIONARY] < STRCELL) {
        return Undefined;
      }
      AppendCell(Code(Op.Run));
      o := Next;
    }

    /** COMMENT: fgetc until a newline, a zero byte or the end of the input. */
    method SkipComment()
      requires Valid()
      modifies this`pos
      ensures Valid() && pos == SkipLine(inp, old(pos))
    {
      while true
        invariant Valid() && old(pos) <= pos && SkipLine(inp, old(pos)) == SkipLine(inp, pos)
        decreases |inp| - pos
      {
        var c := GetC(inp, pos);
        if c == EOF {
          return;
        }
        pos := pos + 1;
        if c == 0 || c == NEWLINE as int {
          return;
        }
      }
    }

    /** The cases of the switch that compute on the data stack and the arena. */
    method StepData(op: Op, r: Regs) returns (r': Regs, o: Outcome)
      requires Valid() && IsData(op)
      modifies m, this`diags
      ensures Valid()
      ensures Effect(Abs(), r', o) == ExecData(op, old(Abs()), r)
    {
      if op.Store? || op.Swap? || op.Dup? || op.Drop? {
        r', o := StepStack(op, r);
      } else {
        r', o := StepArith(op, r);
      }
    }

    /** @, the binary operators and /: the top computed from the second element or the
        arena. */
    method StepArith(op: Op, r: Regs) returns (r': Regs, o: Outcome)
      requires Valid() && (op.Load? || IsBinary(op) || op.Div?)
      modifies this`diags
      ensures Valid()
      ensures Effect(Abs(), r', o) == ExecData(op, old(Abs()), r)
    {
      match op
      case Load =>
        return r.(f := m[CK(r.f)]), Next;
      case Sub | Add | Mul | Less | Equal =>
        if !InArena(r.S) {
          return r, Undefined;
        }
        return r.(f := Alu(op, m[r.S], r.f), S := r.S - 1), Next;
      case Div =>
        r', o := StepDiv(r);
    }

    /** DIV: f = f ? *S-- / f : WARN("div 0"), 0. */
    method StepDiv(r: Regs) returns (r': Regs, o: Outcome)
      requires Valid()
      modifies this`diags
      ensures Valid()
      ensures Effect(Abs(), r', o) == ExecData(Div, old(Abs()), r)
    {
      if r.f == 0 {
        diags := diags + [DivByZero];
        return r.(f := warnValue), Next;
      }
      if !InArena(r.S) {
        return r, Undefined;
      }
      return r.(f := m[r.S] / r.f, S := r.S - 1), Next;
    }

    /** !, SWAP, DUP and DROP: the data stack and the cells it names. */
    method StepStack(op: Op, r: Regs) returns (r': Regs, o: Outcome)
      requires Valid() && (op.Store? || op.Swap? || op.Dup? || op.Drop?)
      modifies m
      ensures Valid()
      ensures Effect(Abs(), r', o) == ExecData(op, old(Abs()), r)
    {
      match op
      case Store =>
        if !InArena(r.S) || !InArena(r.S - 1) {
          return r, Undefined;
        }
        Put(CK(r.f), m[r.S]);
        return r.(f := m[r.S - 1], S := r.S - 2), Next;
      case Swap =>
        if !InArena(r.S) {
          return r, Undefined;
        }
        var w := r.f;
        var v := m[r.S];
        Put(r.S, w);
        return r.(f := v), Next;
      case Dup =>
        if !InArena(r.S + 1) {
          return r, Undefined;
        }
        Put(r.S + 1, r.f);
        return r.(S := r.S + 1), Next;
      case Drop =>
        r', o := PopTop(r);
    }

    /** The cases of the switch that use the streams or the block files. */
    method StepIo(op: Op, r: Regs) returns (r': Regs, o: Outcome)
      requires Valid() && IsIo(op)
      modifies m, s, this`pos, this`out, this`diags, this`used, this`files
      ensures Valid()
      ensures Effect(Abs(), r', o) == ExecIo(op, old(Abs()), r)
    {
      match op
      case Emit =>
        out := out + [r.f % 256];
        r', o := PopTop(r);
      case Key =>
        if !InArena(r.S + 1) {
          return r, Undefined;
        }
        Put(r.S + 1, r.f);
        var c := GetC(inp, pos);
        if c != EOF {
          pos := pos + 1;
        }
        return r.(S := r.S + 1, f := Wrap(c)), Next;
      case PNum =>
        out := out + Numeral(r.f, if m[HEX] != 0 then 16 else 10);
        r', o := PopTop(r);
      case BSave | BLoad =>
        if !InArena(r.S) {
          return r, Undefined;
        }
        var n := Block(m[r.S], r.f, if op.BSave? then 'w' else 'r');
        return r.(S := r.S - 1, f := Wrap(n)), Next;
    }

    /** blockio(m, poffset, id, rw), with the host deciding each transfer's outcome; a
        load copies the bytes fread delivers into the arena one at a time. */
    method Block(poffset: Cell, id: Cell, rw: char) returns (n: int)
      requires Valid()
      modifies this`diags, this`used, this`files, m, s
      ensures Valid()
      ensures var res := BlockIo(old(Abs()), poffset, id, rw); Abs() == res.0 && n == res.1
    {
      if !BlockRequestOk(poffset, rw) {
        diags := diags + [BadBlockRequest];
        return -1;
      }
      var name := BlockFileName(id);
      var outcome := if used < |transfers| then transfers[used] else NoFile;
      used := used + 1;
      match outcome
      case NoFile =>
        diags := diags + [NoBlockFile];
        n := -1;
      case Moved(bytes) =>
        files := files + [FileRequest(name, poffset, rw == 'w')];
        var count := Count(bytes);
        if rw == 'r' {
          CopyBlock(poffset, bytes[..count]);
        }
        n := if count == BLKSZ then 0 else -1;
    }

    /** The bytes fread delivers, stored in order from arena byte k on. */
    method CopyBlock(k: nat, bs: seq<byte>)
      requires Valid() && k + |bs| <= 2 * CORESZ
      modifies m, s
      ensures Valid() && Abs() == CopyIn(old(Abs()), k, bs)
    {
      ghost var vm := Abs();
      var i := 0;
      while i < |bs|
        invariant 0 <= i <= |bs| && Valid()
        invariant Abs() == CopyIn(vm, k, bs[..i])
      {
        PutByte(k + i, bs[i]);
        assert bs[..i + 1][..i] == bs[..i];
        i := i + 1;
      }
      assert bs[..i] == bs;
    }

    /** One byte of the arena written through a byte pointer, on a little-endian host. */
    method PutByte(j: int, b: byte)
      requires Valid() && 0 <= j < 2 * CORESZ
      modifies m, s
      ensures Valid() && Abs() == StoreByte(old(Abs()), j, b)
    {
      if j < STROFF {
        var c := m[j / 2];
        m[j / 2] := if j % 2 == 0 then c / 256 * 256 + b else b * 256 + c % 256;
      } else {
        s[j - STROFF] := b;
      }
    }

    /** READ: the tail call m[RSTK]--, then fscanf("%31s") into the buffer at offset 0 of
        the string store; at the end of the input forth_run returns 0. A word found in the
        dictionary is dispatched at once (goto INNER): goto is then set, and the switch on
        the new x does what READ's dispatch does. The goto consumes input. */
    method StepRead(r: Regs) returns (r': Regs, o: Outcome, goto: bool)
      requires Valid()
      modifies this`pos, this`diags, m, s
      ensures Valid()
      ensures goto ==> ReadWord(old(Abs()), r) == Dispatch(Abs(), r') && old(pos) < pos
      ensures !goto ==> Effect(Abs(), r', o) == ReadWord(old(Abs()), r)
    {
      ghost var vm := Abs();
      var found := Scan();
      if !found {
        ReadAtEnd(vm, r);
        return r, Halt(0), false;
      }
      ReadStep(vm, r);
      r', o, goto := StepInterpret(r);
    }

    /** m[RSTK]--, then fscanf(in, "%31s", s): found is false at the end of the input. */
    method Scan() returns (found: bool)
      requires Valid()
      modifies this`pos, m, s
      ensures Valid() && found == ScanWord(inp, old(pos)).Some?
      ensures found ==> Abs() == ReadState(old(Abs()))
      ensures !found ==> Abs() == old(Abs()).(m := old(m[..])[RSTK := Wrap(old(m[RSTK]) as int - 1)], pos := |inp|)
    {
      Put(RSTK, Wrap(m[RSTK] as int - 1));
      match ScanWord(inp, pos)
      case None =>
        pos := |inp|;
        found := false;
      case Some(tok) =>
        StoreBytes(0, tok.word + [NUL]);
        pos := tok.next;
        found := true;
    }

    /** What READ does with the word in the buffer: find it; a word found at w is
        dispatched at w + 2, or at w + 3 when interpreting a word whose code cell is
        COMPILE; a word only the sentinel is named by is a number or is reported. */
    method StepInterpret(r: Regs) returns (r': Regs, o: Outcome, goto: bool)
      requires Valid()
      modifies this`diags, m
      ensures Valid()
      ensures goto ==> Interpret(old(Abs()), r) == Dispatch(Abs(), r') && Abs() == old(Abs())
      ensures !goto ==> Effect(Abs(), r', o) == Interpret(old(Abs()), r)
    {
      match Find(m[..], s[..], L, CORESZ)
      case None =>
        return r, Undefined, false;
      case Some(w) =>
        if w != 1 {
          if w + 2 >= CORESZ {
            return r, Undefined, false;
          }
          var x := Entry(w);
          return r.(x := x), Next, true;
        }
        r', o := StepNumber(r);
        goto := false;
    }

    /** x = w + 2, and x++ when interpreting and m[x] is COMPILE. */
    method Entry(w: Cell) returns (x: Cell)
      requires Valid() && w + 2 < CORESZ
      ensures x == EntryPoint(Abs(), w)
    {
      x := w + 2;
      if m[STATE] == 0 && m[x] == Code(Compile) {
        x := x + 1;
      }
    }

    /** A word not in the dictionary: isnum, then [2, strtol(word)] compiled, or the
        value pushed, or "not a word or number" reported. */
    method StepNumber(r: Regs) returns (r': Regs, o: Outcome)
      requires Valid()
      modifies this`diags, m
      ensures Valid()
      ensures Effect(Abs(), r', o) == Number(old(Abs()), r)
    {
      var word := CStr(s[..], 0);
      if !IsNum(word) {
        diags := diags + [NotAWord];
        return r, Next;
      }
      if m[STATE] != 0 {
        if !(1 <= m[DICTIONARY] < STRCELL) || m[DICTIONARY] + 1 >= STRCELL {
          return r, Undefined;
        }
        AppendCell(2);
        AppendCell(Literal(word));
        return r, Next;
      }
      if !InArena(r.S + 1) {
        return r, Undefined;
      }
      Put(r.S + 1, r.f);
      return r.(S := r.S + 1, f := Literal(word)), Next;
    }

    /** switch (m[x++]) on the token x. */
    method Step(r: Regs) returns (r': Regs, o: Outcome, goto: bool)
      requires Valid()
      modifies this`L, this`t, this`pos, this`invalid, this`out, this`diags, this`used, this`files, m, s
      ensures Valid()
      ensures goto ==> Dispatch(old(Abs()), r) == Dispatch(Abs(), r') && old(pos) < pos
      ensures !goto ==> Effect(Abs(), r', o) == Dispatch(old(Abs()), r)
    {
      if !InArena(r.x) {
        return r, Undefined, false;
      }
      var r1 := r.(x := r.x + 1);
      goto := false;
      match Decode(m[r.x])
      case None =>
        invalid := true;
        diags := diags + [UnknownInstruction];
        return r1, Halt(-1), false;
      case Some(op) =>
        DecodeCode(m[r.x]);
        DispatchDecodes(Abs(), r, op);
        if op.Read? {
          r', o, goto := StepRead(r1);
        } else if IsControl(op) {
          ExecIsControl(op, Abs(), r1);
          r', o := StepControl(op, r1);
        } else if IsCompiler(op) {
          ExecIsCompiler(op, Abs(), r1);
          r', o := StepCompiler(op, r1);
        } else if IsData(op) {
          ExecIsData(op, Abs(), r1);
          r', o := StepData(op, r1);
        } else {
          ExecIsIo(op, Abs(), r1);
          r', o := StepIo(op, r1);
        }
    }

    /** forth_run(o): an invalidated object is refused with -1; otherwise the registers
        are copied from the object and `for (; (x = m[I++]); ) INNER: switch ...` runs,
        with at most fuel dispatches. The registers are never written back. */
    method Run(fuel: nat) returns (status: Status)
      requires Valid()
      modifies this`L, this`t, this`pos, this`invalid, this`out, this`diags, this`used, this`files, m, s
      ensures Valid()
      ensures var e := ForthRun(old(Abs()), old(Start()), fuel); Abs() == e.vm && status == e.status
    {
      if invalid {
        diags := diags + [InvalidObject];
        return Returned(-1);
      }
      ghost var v0, r0 := Abs(), Start();
      var r := Start();
      var n := fuel;
      var inner := false;
      while true
        invariant Valid()
        invariant inner ==> Loop(v0, r0, fuel) == Continue(Dispatch(Abs(), r), n)
        invariant !inner ==> Loop(v0, r0, fuel) == Loop(Abs(), r, n)
        decreases n, if inner then |inp| - pos + 1 else 0
      {
        if !inner {
          if n == 0 {
            return OutOfFuel;
          }
          if !InArena(r.I) {
            return Stuck;
          }
          r := r.(x := m[r.I], I := Wrap(r.I + 1));
          if r.x == 0 {
            return Returned(0);
          }
          n, inner := n - 1, true;
        } else {
          var r', o, goto := Step(r);
          r := r';
          if !goto {
            match o
            case Next =>
              inner := false;
            case Halt(c) =>
              return Returned(c);
            case Undefined =>
              return Stuck;
          }
        }
      }
    }
  }
}
