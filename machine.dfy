/** The virtual machine as values: the state the C object keeps between calls of
    forth_run, the locals of forth_run, and what compile_word, each opcode of the
    dispatch switch, the dispatch loop and forth_init do to them. */
module Machine {
  import opened Cells
  import opened Text
  import opened Dictionary
  import opened Blocks

  /** Diagnostics the WARN macro writes to stderr; only their kind is kept. */
  datatype Diag = InvalidObject | NotAWord | DivByZero | BadBlockRequest | NoBlockFile | UnknownInstruction

  /** What the host's file system does with one block transfer: fopen succeeds and fwrite
      or fread moves some bytes (for a load, these are the bytes read from the file; for
      a save only their number matters), or the file cannot be opened. */
  datatype Transfer = Moved(bytes: seq<byte>) | NoFile

  /** A block file blockio opened: its name, the arena byte offset and the direction. */
  datatype FileRequest = FileRequest(name: string, offset: Cell, write: bool)

  /** What persists in the C object from one call of forth_run to the next. */
  datatype Vm = Vm(
    m: seq<Cell>,                     // the arena
    s: seq<byte>,                     // the string store
    L: Cell,                          // address of the newest dictionary entry
    t: Cell,                          // next free offset in the string store
    invalid: bool,                    // the object was invalidated
    inp: seq<byte>, pos: nat,         // the input stream and how much of it was read
    out: seq<byte>,                   // what was written to the output stream
    diags: seq<Diag>,                 // what was written to stderr
    transfers: seq<Transfer>, used: nat,  // outcomes the host gives block transfers, and how many were used
    files: seq<FileRequest>,          // the block files opened
    warnValue: Cell                   // what WARN's fprintf returns, truncated to a cell
  ) {
    predicate Valid() {
      |m| == CORESZ && |s| == STRSZ && pos <= |inp|
    }
  }

  /** The locals of forth_run: the execution token x, the data stack pointer S (an index
      into the arena; the cell at S is the second element of the stack), the
      instruction pointer I and the cached top of the stack f. */
  datatype Regs = Regs(x: Cell, S: int, I: Cell, f: Cell)

  /** How one dispatch ends: go on to fetch the next token, make forth_run return a
      value, or reach an operation whose behaviour C leaves undefined (an index outside
      the arena, a register written twice in one expression, a dictionary append into
      the string store). */
  datatype Outcome = Next | Halt(code: int) | Undefined

  datatype Effect = Effect(vm: Vm, r: Regs, outcome: Outcome)

  /** b is a later state of the same object than a: the streams and the host's transfer
      outcomes are the same, the input was read forward, what was written to the output,
      to stderr and to the file system was only added to, and an invalidated object stays
      invalid. */
  predicate Extends(a: Vm, b: Vm) {
    b.inp == a.inp && a.pos <= b.pos && b.transfers == a.transfers && a.used <= b.used
    && b.warnValue == a.warnValue
    && a.out <= b.out && a.diags <= b.diags && a.files <= b.files
    && (a.invalid ==> b.invalid)
  }

  /** forth_run returns 0 at the end of the input or -1 with the object invalidated. */
  predicate HaltsWell(e: Effect) {
    e.outcome.Halt? ==> e.outcome.code == 0 || (e.outcome.code == -1 && e.vm.invalid)
  }

  function Go(vm: Vm, r: Regs): Effect { Effect(vm, r, Next) }

  function Ub(vm: Vm, r: Regs): Effect { Effect(vm, r, Undefined) }

  // ------------------------------------------------------------ the dictionary

  /** m[m[0]++] = v is defined (m[0] is neither the pointer itself nor outside the
      arena) and stays below the string store. */
  predicate CanAppend(vm: Vm)
    requires vm.Valid()
  {
    1 <= vm.m[DICTIONARY] < STRCELL
  }

  /** m[m[0]++] = v: the cell at the dictionary pointer becomes v and the pointer moves on. */
  function Append(vm: Vm, v: Cell): (r: Vm)
    requires vm.Valid() && CanAppend(vm)
    ensures r.Valid() && r.m[vm.m[0]] == v && r.m[0] == vm.m[0] + 1
    ensures forall i :: 0 <= i < CORESZ && i != 0 && i != vm.m[0] ==> r.m[i] == vm.m[i]
    ensures r == vm.(m := r.m)
  {
    vm.(m := vm.m[DICTIONARY := vm.m[DICTIONARY] + 1][vm.m[DICTIONARY] := v])
  }

  /** compile_word can write a header: three cells below the string store, and room in
      the store for a word of MAXWORD bytes and its terminator. */
  predicate CanCompile(vm: Vm)
    requires vm.Valid()
  {
    1 <= vm.m[DICTIONARY] && vm.m[DICTIONARY] + 3 <= STRCELL && vm.t + MAXWORD + 1 <= STRSZ
  }

  /** What compile_word leaves behind, and what it returns (fscanf's result, or 0 for a
      literal name). */
  datatype Compiled = Compiled(vm: Vm, r: int)

  /** Where compile_word's name goes: the store with the name written at t, the input
      position after it, and what compile_word returns (0 for a literal name, fscanf's
      result otherwise). */
  datatype Named = Named(s: seq<byte>, pos: nat, r: int)

  /** The name half of compile_word: strcpy of the literal name, or fscanf("%31s") of
      the next word of the input, into the store at t. At the end of the input nothing is
      stored and the result is EOF. */
  function StoreName(s: seq<byte>, t: Cell, inp: seq<byte>, pos: nat, name: Option<seq<byte>>): (n: Named)
    requires |s| == STRSZ && pos <= |inp| && t + MAXWORD + 1 <= STRSZ
    requires name.Some? ==> |name.value| <= MAXWORD
    ensures |n.s| == STRSZ && pos <= n.pos <= |inp|
    ensures n.r == EOF <==> name.None? && ScanWord(inp, pos).None?
    ensures n.r == EOF ==> n.s == s && n.pos == |inp|
    ensures n.r != EOF ==> CStrLen(n.s, t) <= MAXWORD
    ensures name.Some? ==> n.r == 0 && n.pos == pos
  {
    match name
    case Some(str) =>
      var b := CStr(str, 0);
      StoredLength(s, t, b);
      Named(WriteBytes(s, t, b + [NUL]), pos, 0)
    case None =>
      match ScanWord(inp, pos)
      case None => Named(s, |inp|, EOF)
      case Some(tok) =>
        StoredLength(s, t, tok.word);
        Named(WriteBytes(s, t, tok.word + [NUL]), tok.next, 1)
  }

  /** compile_word(o, code, str): append the header [L, t, code] at the dictionary
      pointer d, make it the newest entry, and store its name at offset t of the string
      store (StoreName). t then moves past the name and its terminator; at the end of
      the input it moves past whatever string was already there. */
  function CompileWord(vm: Vm, code: Cell, name: Option<seq<byte>>): (c: Compiled)
    requires vm.Valid() && CanCompile(vm)
    requires name.Some? ==> |name.value| <= MAXWORD
    ensures c.vm.Valid() && c.vm.m[DICTIONARY] == vm.m[DICTIONARY] + 3 && Extends(vm, c.vm)
    ensures c.vm.invalid == vm.invalid && (c.r == EOF <==> name.None? && c.vm.pos == |vm.inp| && ScanWord(vm.inp, vm.pos).None?)
    ensures c.r != EOF ==> vm.t < c.vm.t <= vm.t + MAXWORD + 1
    ensures name.Some? ==> c.r == 0
  {
    var d := vm.m[DICTIONARY];
    var n := StoreName(vm.s, vm.t, vm.inp, vm.pos, name);
    Compiled(vm.(m := HeaderCells(vm.m, vm.L, vm.t, code), L := d, s := n.s, pos := n.pos,
                 t := Wrap(vm.t + CStrLen(n.s, vm.t) + 1)), n.r)
  }

  /** The arena after m[m[0]++] = L; m[m[0]++] = t; m[m[0]++] = code. */
  function HeaderCells(m: seq<Cell>, L: Cell, t: Cell, code: Cell): (m': seq<Cell>)
    requires |m| == CORESZ && 1 <= m[DICTIONARY] && m[DICTIONARY] + 3 <= CORESZ
    ensures |m'| == CORESZ
  {
    var d := m[DICTIONARY];
    m[DICTIONARY := d + 3][d := L][d + 1 := t][d + 2 := code]
  }

  // ----------------------------------------------------------------- blockio

  /** Byte j of the arena's 2 * CORESZ bytes on a little-endian host: below STROFF the
      low and high bytes of the cells, from STROFF on the string store. */
  function ArenaByte(vm: Vm, j: int): byte
    requires vm.Valid() && 0 <= j < 2 * CORESZ
  {
    if j < STROFF then (if j % 2 == 0 then vm.m[j / 2] % 256 else vm.m[j / 2] / 256)
    else vm.s[j - STROFF]
  }

  /** Byte j of the arena set to b: only that byte changes. */
  function StoreByte(vm: Vm, j: int, b: byte): (vm': Vm)
    requires vm.Valid() && 0 <= j < 2 * CORESZ
    ensures vm'.Valid() && vm' == vm.(m := vm'.m, s := vm'.s)
    ensures ArenaByte(vm', j) == b
    ensures forall i :: 0 <= i < 2 * CORESZ && i != j ==> ArenaByte(vm', i) == ArenaByte(vm, i)
  {
    if j < STROFF then
      var c := vm.m[j / 2];
      vm.(m := vm.m[j / 2 := if j % 2 == 0 then c / 256 * 256 + b else b * 256 + c % 256])
    else vm.(s := vm.s[j - STROFF := b])
  }

  /** fread(p + k, 1, |bs|, file) delivering bs: the bytes are stored from byte k on, in
      order. Opcodes.CopyInReads states the bytes of the result. */
  function CopyIn(vm: Vm, k: nat, bs: seq<byte>): (vm': Vm)
    requires vm.Valid() && k + |bs| <= 2 * CORESZ
    ensures vm'.Valid() && vm' == vm.(m := vm'.m, s := vm'.s)
    decreases |bs|
  {
    if bs == [] then vm
    else StoreByte(CopyIn(vm, k, bs[..|bs| - 1]), k + |bs| - 1, bs[|bs| - 1])
  }

  /** The number of bytes fwrite or fread moves: what the host moved, at most BLKSZ. */
  function Count(bytes: seq<byte>): (n: nat)
    ensures n <= BLKSZ && n <= |bytes|
    ensures n == BLKSZ <==> |bytes| >= BLKSZ
  {
    if |bytes| < BLKSZ then |bytes| else BLKSZ
  }

  /** blockio(m, poffset, id, rw) with the file system left to the host: a malformed
      request is refused with -1 and a diagnostic; otherwise the block file is named from
      id and the host's next transfer decides the outcome. A file that cannot be opened
      gives -1 and a diagnostic; an opened file is recorded, a load copies the bytes
      read into the arena, and the result is 0 exactly when a whole block was moved. */
  function BlockIo(vm: Vm, poffset: Cell, id: Cell, rw: char): (res: (Vm, int))
    requires vm.Valid()
    ensures res.0.Valid() && Extends(vm, res.0) && (res.1 == 0 || res.1 == -1)
    ensures rw != 'r' ==> res.0.m == vm.m && res.0.s == vm.s
  {
    if !BlockRequestOk(poffset, rw) then (vm.(diags := vm.diags + [BadBlockRequest]), -1)
    else
      var outcome := if vm.used < |vm.transfers| then vm.transfers[vm.used] else NoFile;
      match outcome
      case NoFile => (vm.(used := vm.used + 1, diags := vm.diags + [NoBlockFile]), -1)
      case Moved(bytes) =>
        var n := Count(bytes);
        var vm1 := vm.(used := vm.used + 1,
                       files := vm.files + [FileRequest(BlockFileName(id), poffset, rw == 'w')]);
        (if rw == 'r' then CopyIn(vm1, poffset, bytes[..n]) else vm1, if n == BLKSZ then 0 else -1)
  }

  // ----------------------------------------------------------------- opcodes

  /** f = *S--: the second element becomes the top. */
  function Pop(vm: Vm, r: Regs): (e: Effect)
    requires vm.Valid()
    ensures e.vm == vm
  {
    if !InArena(r.S) then Ub(vm, r) else Go(vm, r.(f := vm.m[r.S], S := r.S - 1))
  }

  /** *++S = f: the top is saved below the new top, which the caller then sets. */
  function PushTop(vm: Vm, r: Regs): (e: Effect)
    requires vm.Valid()
    ensures e.vm.Valid()
  {
    if !InArena(r.S + 1) then Ub(vm, r) else Go(vm.(m := vm.m[r.S + 1 := r.f]), r.(S := r.S + 1))
  }

  /** The opcodes that combine the second element with the top. */
  predicate IsBinary(op: Op) {
    op.Sub? || op.Add? || op.Mul? || op.Less? || op.Equal?
  }

  /** What a binary opcode leaves on top, for second element a and top b: arithmetic
      modulo 2^16, and the two comparisons as written (LESS is a > b). */
  function Alu(op: Op, a: Cell, b: Cell): Cell
    requires IsBinary(op)
  {
    match op
    case Sub => Wrap(a - b)
    case Add => Wrap(a + b)
    case Mul => Wrap(a * b)
    case Less => if a > b then 1 else 0
    case Equal => if a == b then 1 else 0
  }

  /** One opcode of the dispatch switch, with x already past the opcode's cell. */
  function Exec(op: Op, vm: Vm, r: Regs): (e: Effect)
    requires vm.Valid()
    ensures e.vm.Valid() && Extends(vm, e.vm) && HaltsWell(e)
    decreases |vm.inp| - vm.pos, 1
  {
    if op.Read? then ReadWord(vm, r)
    else if IsControl(op) then ExecControl(op, vm, r)
    else if IsCompiler(op) then ExecCompiler(op, vm, r)
    else if IsData(op) then ExecData(op, vm, r)
    else ExecIo(op, vm, r)
  }

  /** The opcodes that move the instruction pointer or the return stack. */
  predicate IsControl(op: Op) {
    op.Push? || op.Quote? || op.Run? || op.Exit? || op.FromR? || op.ToR? || op.Jmp? || op.Jmpz? || op.Tail?
  }

  function ExecControl(op: Op, vm: Vm, r: Regs): (e: Effect)
    requires vm.Valid() && IsControl(op)
    ensures e.vm.Valid() && Extends(vm, e.vm)
    ensures e.outcome.Next? || e.outcome.Undefined?
  {
    var m := vm.m;
    match op
    case Push | Quote =>
      if !InArena(r.S + 1) || !InArena(r.I) then Ub(vm, r)
      else
        var m' := m[r.S + 1 := r.f];
        Go(vm.(m := m'), r.(S := r.S + 1, f := m'[r.I], I := Wrap(r.I + 1)))
    case Run =>
      var rp := Wrap(m[RSTK] as int + 1);
      if !InArena(rp) || rp == RSTK then Ub(vm, r)
      else Go(vm.(m := m[RSTK := rp][rp := r.I]), r.(I := r.x))
    case Exit =>
      var rp := m[RSTK];
      if !InArena(rp) then Ub(vm, r)
      else Go(vm.(m := m[RSTK := Wrap(rp as int - 1)]), r.(I := m[rp]))
    case FromR =>
      if !InArena(r.S + 1) then Ub(vm, r)
      else
        var m1 := m[r.S + 1 := r.f];
        var rp := m1[RSTK];
        if !InArena(rp) then Ub(vm.(m := m1), r)
        else Go(vm.(m := m1[RSTK := Wrap(rp as int - 1)]), r.(S := r.S + 1, f := m1[rp]))
    case ToR =>
      var rp := Wrap(m[RSTK] as int + 1);
      if !InArena(rp) || rp == RSTK then Ub(vm, r)
      else Pop(vm.(m := m[RSTK := rp][rp := r.f]), r)
    case Jmp =>
      if !InArena(r.I) then Ub(vm, r) else Go(vm, r.(I := Wrap(r.I + m[r.I])))
    case Jmpz =>
      if r.f == 0 && !InArena(r.I) then Ub(vm, r)
      else Pop(vm, r.(I := if r.f == 0 then Wrap(r.I + m[r.I]) else Wrap(r.I + 1)))
    case Tail =>
      Go(vm.(m := m[RSTK := Wrap(m[RSTK] as int - 1)]), r)
  }

  /** The opcodes that extend the dictionary or skip input (READ is dispatched apart). */
  predicate IsCompiler(op: Op) {
    op.Compile? || op.Define? || op.Immediate? || op.Comment? || op.Comma?
  }

  function ExecCompiler(op: Op, vm: Vm, r: Regs): (e: Effect)
    requires vm.Valid() && IsCompiler(op)
    ensures e.vm.Valid() && Extends(vm, e.vm) && HaltsWell(e)
  {
    var m := vm.m;
    match op
    case Compile =>
      if !CanAppend(vm) then Ub(vm, r) else Go(Append(vm, r.x), r)
    case Define => DefineWord(vm, r)
    case Immediate => MakeImmediate(vm, r)
    case Comment =>
      Go(vm.(pos := SkipLine(vm.inp, vm.pos)), r)
    case Comma =>
      if !CanAppend(vm) then Ub(vm, r) else Pop(Append(vm, r.f), r)
  }

  /** DEFINE: compiling mode on, then a header for the next word of the input with code
      COMPILE, followed by RUN; at the end of the input the object is invalidated. */
  function DefineWord(vm: Vm, r: Regs): (e: Effect)
    requires vm.Valid()
    ensures e.vm.Valid() && Extends(vm, e.vm) && HaltsWell(e)
    ensures e.outcome.Halt? ==> e.outcome.code == -1 && ScanWord(vm.inp, vm.pos).None?
  {
    var vm1 := vm.(m := vm.m[STATE := 1]);
    if !CanCompile(vm1) then Ub(vm1, r)
    else
      var c := CompileWord(vm1, Code(Compile), None);
      if c.r < 0 then Effect(c.vm.(invalid := true), r, Halt(-1))
      else if !CanAppend(c.vm) then Ub(c.vm, r)
      else Go(Append(c.vm, Code(Op.Run)), r)
  }

  /** IMMEDIATE: the dictionary pointer steps back two cells, onto the code cell of the
      newest header, and RUN is written there. */
  function MakeImmediate(vm: Vm, r: Regs): (e: Effect)
    requires vm.Valid()
    ensures e.vm.Valid() && Extends(vm, e.vm) && !e.outcome.Halt? && e.r == r
  {
    var vm1 := vm.(m := vm.m[DICTIONARY := Wrap(vm.m[DICTIONARY] as int - 2)]);
    if !CanAppend(vm1) then Ub(vm1, r) else Go(Append(vm1, Code(Op.Run)), r)
  }

  /** The opcodes that compute on the data stack and the arena. */
  predicate IsData(op: Op) {
    op.Load? || op.Store? || IsBinary(op) || op.Div? || op.Swap? || op.Dup? || op.Drop?
  }

  function ExecData(op: Op, vm: Vm, r: Regs): (e: Effect)
    requires vm.Valid() && IsData(op)
    ensures e.vm.Valid() && Extends(vm, e.vm)
    ensures e.outcome.Next? || e.outcome.Undefined?
  {
    var m := vm.m;
    match op
    case Load =>
      Go(vm, r.(f := m[CK(r.f)]))
    case Store =>
      if !InArena(r.S) || !InArena(r.S - 1) then Ub(vm, r)
      else
        var m' := m[CK(r.f) := m[r.S]];
        Go(vm.(m := m'), r.(f := m'[r.S - 1], S := r.S - 2))
    case Sub | Add | Mul | Less | Equal =>
      if !InArena(r.S) then Ub(vm, r) else Go(vm, r.(f := Alu(op, m[r.S], r.f), S := r.S - 1))
    case Div =>
      if r.f == 0 then Go(vm.(diags := vm.diags + [DivByZero]), r.(f := vm.warnValue))
      else if !InArena(r.S) then Ub(vm, r)
      else Go(vm, r.(f := m[r.S] / r.f, S := r.S - 1))
    case Swap =>
      if !InArena(r.S) then Ub(vm, r) else Go(vm.(m := m[r.S := r.f]), r.(f := m[r.S]))
    case Dup =>
      PushTop(vm, r)
    case Drop =>
      Pop(vm, r)
  }

  /** The opcodes that talk to the streams or the block files. */
  predicate IsIo(op: Op) {
    op.Emit? || op.Key? || op.PNum? || op.BSave? || op.BLoad?
  }

  function ExecIo(op: Op, vm: Vm, r: Regs): (e: Effect)
    requires vm.Valid() && IsIo(op)
    ensures e.vm.Valid() && Extends(vm, e.vm)
    ensures e.outcome.Next? || e.outcome.Undefined?
  {
    var m := vm.m;
    match op
    case Emit =>
      Pop(vm.(out := vm.out + [r.f % 256]), r)
    case Key =>
      if !InArena(r.S + 1) then Ub(vm, r)
      else
        var c := GetC(vm.inp, vm.pos);
        Go(vm.(m := m[r.S + 1 := r.f], pos := if c == EOF then vm.pos else vm.pos + 1),
           r.(S := r.S + 1, f := Wrap(c)))
    case PNum =>
      Pop(vm.(out := vm.out + Numeral(r.f, if m[HEX] != 0 then 16 else 10)), r)
    case BSave | BLoad =>
      if !InArena(r.S) then Ub(vm, r)
      else
        var res := BlockIo(vm, m[r.S], r.f, if op.BSave? then 'w' else 'r');
        Go(res.0, r.(S := r.S - 1, f := Wrap(res.1)))
  }

  /** The READ case: a tail call (the return stack pointer drops by one), then one word of
      the input, read into the buffer at offset 0 of the string store. At the end of the
      input forth_run returns 0. */
  function ReadWord(vm: Vm, r: Regs): (e: Effect)
    requires vm.Valid()
    ensures e.vm.Valid() && Extends(vm, e.vm) && HaltsWell(e)
    decreases |vm.inp| - vm.pos, 0
  {
    var vm1 := vm.(m := vm.m[RSTK := Wrap(vm.m[RSTK] as int - 1)]);
    match ScanWord(vm1.inp, vm1.pos)
    case None => Effect(vm1.(pos := |vm1.inp|), r, Halt(0))
    case Some(tok) => Interpret(vm1.(s := WriteBytes(vm1.s, 0, tok.word + [NUL]), pos := tok.next), r)
  }

  /** What READ does with the word in the buffer. A word found in the dictionary at w is
      dispatched at once (goto INNER): at its code cell w + 2, or at w + 3 when
      interpreting and the code cell is COMPILE. The nesting is finite: every READ
      consumes input. A word only the sentinel is named by is handled by Number. */
  function Interpret(vm: Vm, r: Regs): (e: Effect)
    requires vm.Valid()
    ensures e.vm.Valid() && Extends(vm, e.vm) && HaltsWell(e)
    decreases |vm.inp| - vm.pos, 3
  {
    match Find(vm.m, vm.s, vm.L, CORESZ)
    case None => Ub(vm, r)
    case Some(w) =>
      if w != 1 then
        if w + 2 >= CORESZ then Ub(vm, r)
        else
          Dispatch(vm, r.(x := EntryPoint(vm, w)))
      else Number(vm, r)
  }

  /** Where READ dispatches the entry w: its code cell, or the cell after it when
      interpreting a word whose code cell is COMPILE. */
  function EntryPoint(vm: Vm, w: Cell): (x: Cell)
    requires vm.Valid() && w + 2 < CORESZ
  {
    if vm.m[STATE] == 0 && vm.m[w + 2] == Code(Compile) then w + 3 else w + 2
  }

  /** A word in the buffer that is not in the dictionary: a number is pushed when
      interpreting and compiled as [2, value] when compiling (token 2 names cell 2, which
      holds 0, the PUSH opcode); anything else is reported and skipped. */
  function Number(vm: Vm, r: Regs): (e: Effect)
    requires vm.Valid()
    ensures e.vm.Valid() && Extends(vm, e.vm) && !e.outcome.Halt?
  {
    var word := CStr(vm.s, 0);
    if !IsNum(word) then Go(vm.(diags := vm.diags + [NotAWord]), r)
    else if vm.m[STATE] != 0 then
      if !CanAppend(vm) || vm.m[DICTIONARY] + 1 >= STRCELL then Ub(vm, r)
      else Go(Append(Append(vm, 2), Literal(word)), r)
    else if !InArena(r.S + 1) then Ub(vm, r)
    else Go(vm.(m := vm.m[r.S + 1 := r.f]), r.(S := r.S + 1, f := Literal(word)))
  }

  /** switch (m[x++]): the opcode at x, or for a cell outside the opcode set a diagnostic,
      invalidation and -1. */
  function Dispatch(vm: Vm, r: Regs): (e: Effect)
    requires vm.Valid()
    ensures e.vm.Valid() && Extends(vm, e.vm) && HaltsWell(e)
    decreases |vm.inp| - vm.pos, 2
  {
    if !InArena(r.x) then Ub(vm, r)
    else
      var r1 := r.(x := r.x + 1);
      match Decode(vm.m[r.x])
      case None => Effect(vm.(invalid := true, diags := vm.diags + [UnknownInstruction]), r1, Halt(-1))
      case Some(op) => Exec(op, vm, r1)
  }

  // --------------------------------------------------------------- forth_run

  /** How a call of forth_run ends: it returned a value, it reached undefined behaviour,
      or the fuel ran out first (the C loop need not stop). */
  datatype Status = Returned(code: int) | Stuck | OutOfFuel

  datatype RunEnd = RunEnd(vm: Vm, status: Status)

  /** The registers after the fetch `x = m[I++]`. */
  function Fetched(vm: Vm, r: Regs): Regs
    requires vm.Valid() && InArena(r.I)
  {
    r.(x := vm.m[r.I], I := Wrap(r.I + 1))
  }

  /** The loop `for (; (x = m[I++]); ) INNER: switch ...`, with at most fuel dispatches.
      A fetched token of 0 ends the loop and forth_run returns 0. */
  function Loop(vm: Vm, r: Regs, fuel: nat): (e: RunEnd)
    requires vm.Valid()
    ensures e.vm.Valid()
    decreases fuel, 0
  {
    if fuel == 0 then RunEnd(vm, OutOfFuel)
    else if !InArena(r.I) then RunEnd(vm, Stuck)
    else
      var r1 := Fetched(vm, r);
      if r1.x == 0 then RunEnd(vm, Returned(0))
      else Continue(Dispatch(vm, r1), fuel - 1)
  }

  /** After one dispatch: the next round of the loop, or the end of the call. */
  function Continue(e: Effect, fuel: nat): (end: RunEnd)
    requires e.vm.Valid()
    ensures end.vm.Valid()
    decreases fuel, 1
  {
    match e.outcome
    case Next => Loop(e.vm, e.r, fuel)
    case Halt(c) => RunEnd(e.vm, Returned(c))
    case Undefined => RunEnd(e.vm, Stuck)
  }

  /** forth_run: an invalidated object is refused with -1 (and stays invalid); otherwise
      the loop starts from the registers the object was created with. The locals are
      never written back, so every call starts from the same registers. */
  function ForthRun(vm: Vm, start: Regs, fuel: nat): (e: RunEnd)
    requires vm.Valid()
    ensures e.vm.Valid()
  {
    if vm.invalid then RunEnd(vm.(diags := vm.diags + [InvalidObject]), Returned(-1))
    else Loop(vm, start, fuel)
  }

  // --------------------------------------------------------------- forth_init

  /** The names of the primitives READ .. BLOAD, in opcode order. */
  const NAMES: seq<string> := [
    "read", "@", "!", "-", "+", "*", "/", "<", "exit", "emit", "key", "r>", ">r", "j", "jz",
    ".", "'", ",", "=", "swap", "dup", "drop", "tail", "save", "load"]

  /** Every primitive's name fits the reader's field width. */
  lemma NamesFit()
    ensures |NAMES| == 25 && forall i :: 0 <= i < |NAMES| ==> 1 <= |NAMES[i]| <= MAXWORD
  {
  }

  /** Address of the bootstrap read/recurse loop, and where the first call starts. */
  const BOOT: int := 32

  /** The registers the object is created with: S at the bottom of the data stack,
      I at the recursive call of the bootstrap loop. */
  const INIT_REGS: Regs := Regs(0, CORESZ - 2 * STKSZ, BOOT + 2, 0)

  /** The zeroed object calloc returns, connected to its streams. */
  function Blank(inp: seq<byte>, transfers: seq<Transfer>, warnValue: Cell): (vm: Vm)
    ensures vm.Valid()
  {
    Vm(seq(CORESZ, i => 0), seq(STRSZ, i => 0), 0, 0, false, inp, 0, [], [], transfers, 0, [], warnValue)
  }

  /** The first steps of forth_init: the dictionary starts at 32, L at the sentinel 1,
      the string store at offset 32 (after the reader's buffer), and the bootstrap word
      [READ, RUN, 32, 33] is laid out at 32..35. */
  function Boot(vm: Vm): (r: Vm)
    requires vm.Valid()
    ensures r.Valid()
  {
    vm.(m := vm.m[DICTIONARY := BOOT + 4][BOOT := Code(Read)][BOOT + 1 := Code(Op.Run)]
                 [BOOT + 2 := BOOT][BOOT + 3 := BOOT + 1],
        L := 1, t := 32)
  }

  /** The first n primitives of NAMES, each compiled as [L, t, COMPILE, READ + i]. */
  function InstallPrimitives(vm: Vm, n: nat): (r: Vm)
    requires vm.Valid() && n <= |NAMES|
    requires 1 <= vm.m[DICTIONARY] && vm.m[DICTIONARY] + 4 * n <= STRCELL
    requires vm.t + (MAXWORD + 1) * n <= STRSZ
    ensures r.Valid() && r.m[DICTIONARY] == vm.m[DICTIONARY] + 4 * n
    ensures r.t <= vm.t + (MAXWORD + 1) * n
    decreases n
  {
    if n == 0 then vm
    else
      var v := InstallPrimitives(vm, n - 1);
      NamesFit();
      var c := CompileWord(v, Code(Compile), Some(Ascii(NAMES[n - 1])));
      Append(c.vm, Code(Read) + n - 1)
  }

  /** forth_init: the bootstrap word, the entries ":", "immediate" and "#" whose code
      cells are DEFINE, IMMEDIATE and COMMENT, the primitives, and the return stack
      pointer at CORESZ - STKSZ. */
  function InitVm(inp: seq<byte>, transfers: seq<Transfer>, warnValue: Cell): (vm: Vm)
    ensures vm.Valid()
  {
    var v0 := Boot(Blank(inp, transfers, warnValue));
    var v3 := CoreWords(v0);
    var v4 := InstallPrimitives(v3, |NAMES|);
    v4.(m := v4.m[RSTK := CORESZ - STKSZ])
  }

  /** The three entries compiled before the primitives: ":" (DEFINE), "immediate"
      (IMMEDIATE) and "#" (COMMENT). */
  function CoreWords(vm: Vm): (r: Vm)
    requires vm.Valid() && 1 <= vm.m[DICTIONARY] && vm.m[DICTIONARY] + 9 <= STRCELL
    requires vm.t + 3 * (MAXWORD + 1) <= STRSZ
    ensures r.Valid() && r.m[DICTIONARY] == vm.m[DICTIONARY] + 9 && r.t <= vm.t + 3 * (MAXWORD + 1)
  {
    var v1 := CompileWord(vm, Code(Define), Some(Ascii(":"))).vm;
    var v2 := CompileWord(v1, Code(Immediate), Some(Ascii("immediate"))).vm;
    CompileWord(v2, Code(Comment), Some(Ascii("#"))).vm
  }
}
