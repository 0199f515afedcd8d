/** What compile_word, DEFINE, IMMEDIATE and the READ outer interpreter do to the
    dictionary, and how READ resolves a word. */
module Compiler {
  import opened Cells
  import opened Text
  import opened Dictionary
  import opened Machine
  import opened Opcodes

  /** compile_word lays out the header [L, t, code] at the dictionary pointer d and makes
      d the newest entry; no other cell and no byte of the store below t changes, and
      nothing is written to the output, to stderr or to the file system. */
  lemma CompileWordLayout(vm: Vm, code: Cell, name: Option<seq<byte>>)
    requires vm.Valid() && CanCompile(vm) && (name.Some? ==> |name.value| <= MAXWORD)
    ensures var c, d := CompileWord(vm, code, name), vm.m[DICTIONARY];
      c.vm.m[d] == vm.L && c.vm.m[d + 1] == vm.t && c.vm.m[d + 2] == code && c.vm.L == d
      && (forall i :: 0 <= i < CORESZ && i != DICTIONARY && !(d <= i < d + 3) ==> c.vm.m[i] == vm.m[i])
      && (forall i :: 0 <= i < vm.t ==> c.vm.s[i] == vm.s[i])
      && c.vm.out == vm.out && c.vm.diags == vm.diags && c.vm.files == vm.files
  {
    StoreNameAbove(vm, name);
  }

  /** The store below t is left alone by the name compile_word stores. */
  lemma StoreNameAbove(vm: Vm, name: Option<seq<byte>>)
    requires vm.Valid() && vm.t + MAXWORD + 1 <= STRSZ && (name.Some? ==> |name.value| <= MAXWORD)
    ensures forall i :: 0 <= i < vm.t ==> StoreName(vm.s, vm.t, vm.inp, vm.pos, name).s[i] == vm.s[i]
  {
  }

  /** A literal name reads back from the store at t, and the input is not touched. */
  lemma CompileWordLiteral(vm: Vm, code: Cell, name: seq<byte>)
    requires vm.Valid() && CanCompile(vm) && |name| <= MAXWORD
    ensures var c := CompileWord(vm, code, Some(name));
      c.r == 0 && c.vm.pos == vm.pos && CStr(c.vm.s, vm.t) == CStr(name, 0)
  {
    StoreNameLiteral(vm, name);
  }

  lemma StoreNameLiteral(vm: Vm, name: seq<byte>)
    requires vm.Valid() && vm.t + MAXWORD + 1 <= STRSZ && |name| <= MAXWORD
    ensures CStr(StoreName(vm.s, vm.t, vm.inp, vm.pos, Some(name)).s, vm.t) == CStr(name, 0)
  {
    StoredReadsBack(vm.s, vm.t, CStr(name, 0));
  }

  /** Without a literal name, the next word of the input becomes the name, reads back
      from the store at t, and the input moves past it. */
  lemma CompileWordToken(vm: Vm, code: Cell)
    requires vm.Valid() && CanCompile(vm) && ScanWord(vm.inp, vm.pos).Some?
    ensures var c, tok := CompileWord(vm, code, None), ScanWord(vm.inp, vm.pos).value;
      c.r == 1 && c.vm.pos == tok.next && CStr(c.vm.s, vm.t) == CStr(tok.word, 0)
  {
    StoreNameToken(vm);
  }

  lemma StoreNameToken(vm: Vm)
    requires vm.Valid() && vm.t + MAXWORD + 1 <= STRSZ && ScanWord(vm.inp, vm.pos).Some?
    ensures CStr(StoreName(vm.s, vm.t, vm.inp, vm.pos, None).s, vm.t) == CStr(ScanWord(vm.inp, vm.pos).value.word, 0)
  {
    StoredCStr(vm.s, vm.t, ScanWord(vm.inp, vm.pos).value.word);
  }

  /** At the end of the input compile_word returns EOF and stores nothing. */
  lemma CompileWordEof(vm: Vm, code: Cell)
    requires vm.Valid() && CanCompile(vm) && ScanWord(vm.inp, vm.pos).None?
    ensures var c := CompileWord(vm, code, None);
      c.r == EOF && c.vm.s == vm.s && c.vm.pos == |vm.inp|
  {
  }

  /** compile_word extends a walkable dictionary: the new entry links to the old newest
      one, so its chain is the new entry followed by the old chain. */
  lemma CompileKeepsChain(vm: Vm, code: Cell, name: Option<seq<byte>>)
    requires vm.Valid() && CanCompile(vm) && (name.Some? ==> |name.value| <= MAXWORD)
    requires Walkable(vm.m, STRSZ, vm.L) && vm.L + 2 < vm.m[DICTIONARY]
    ensures var c, d := CompileWord(vm, code, name), vm.m[DICTIONARY];
      Walkable(c.vm.m, STRSZ, c.vm.L) && c.vm.L + 2 < c.vm.m[DICTIONARY]
      && Chain(c.vm.m, STRSZ, c.vm.L) == [d] + Chain(vm.m, STRSZ, vm.L)
  {
    var c, d := CompileWord(vm, code, name), vm.m[DICTIONARY];
    CompileWordLayout(vm, code, name);
    WalkableFrame(vm.m, c.vm.m, STRSZ, vm.L);
  }

  /** Reading a word into the buffer at offset 0 does not rename any word whose name is
      stored past the buffer. */
  lemma TokenKeepsNames(s: seq<byte>, word: seq<byte>, k: nat)
    requires |s| == STRSZ && |word| <= MAXWORD && MAXWORD < k
    ensures CStr(WriteBytes(s, 0, word + [NUL]), k) == CStr(s, k)
  {
    if k <= |s| {
      CStrSuffix(WriteBytes(s, 0, word + [NUL]), s, k);
    }
  }

  /** The name compile_word stored for a new entry is the word READ puts in the buffer
      when that name is the next word of the input. */
  lemma CompiledNameRead(vm: Vm, code: Cell, name: seq<byte>)
    requires vm.Valid() && CanCompile(vm) && 1 <= |name| <= MAXWORD && NoNul(name)
    requires MAXWORD < vm.t
    requires var c := CompileWord(vm, code, Some(name)).vm;
      ScanWord(c.inp, c.pos).Some? && ScanWord(c.inp, c.pos).value.word == name
    ensures var c := CompileWord(vm, code, Some(name)).vm;
      var d, vm2 := vm.m[DICTIONARY], ReadState(c);
      vm2.L == d && d + 2 < CORESZ && NameMatches(vm2.m, vm2.s, d)
  {
    var c, d := CompileWord(vm, code, Some(name)).vm, vm.m[DICTIONARY];
    assert c.L == d && c.m[d + 1] == vm.t by {
      CompileWordLayout(vm, code, Some(name));
    }
    assert CStr(c.s, vm.t) == name by {
      CompileWordLiteral(vm, code, name);
      NoNulCStr(name, 0);
    }
    ReadFindsName(c, d, vm.t, name);
  }

  /** The newest entry d, named name at offset t past the buffer, matches the buffer
      once READ has read name into it. */
  lemma ReadFindsName(c: Vm, d: int, t: Cell, name: seq<byte>)
    requires c.Valid() && ScanWord(c.inp, c.pos).Some? && ScanWord(c.inp, c.pos).value.word == name
    requires 1 <= d && d + 2 < CORESZ && c.L == d && c.m[d + 1] == t
    requires MAXWORD < t && |name| <= MAXWORD && NoNul(name) && CStr(c.s, t) == name
    ensures var vm2 := ReadState(c); vm2.L == d && NameMatches(vm2.m, vm2.s, d)
  {
    var vm2 := ReadState(c);
    StoredReadsBack(c.s, 0, name);
    TokenKeepsNames(c.s, name, t);
    assert vm2.m[d + 1] == t;
  }

  /** A word compiled with a literal name shadows every older word of that name: when the
      next word of the input is that name, READ dispatches the new entry, at its code
      cell or, when interpreting a COMPILE word, just after it. */
  lemma NewestShadows(vm: Vm, code: Cell, name: seq<byte>, r: Regs)
    requires vm.Valid() && CanCompile(vm) && 1 <= |name| <= MAXWORD && NoNul(name)
    requires MAXWORD < vm.t && vm.m[DICTIONARY] != 1
    requires var c := CompileWord(vm, code, Some(name)).vm;
      ScanWord(c.inp, c.pos).Some? && ScanWord(c.inp, c.pos).value.word == name
    ensures var c, d := CompileWord(vm, code, Some(name)).vm, vm.m[DICTIONARY];
      d + 2 < CORESZ && ReadWord(c, r) == Dispatch(ReadState(c), r.(x := EntryPoint(ReadState(c), d)))
  {
    var c, d := CompileWord(vm, code, Some(name)).vm, vm.m[DICTIONARY];
    CompiledNameRead(vm, code, name);
    ReadStep(c, r);
    var vm2 := ReadState(c);
    assert Find(vm2.m, vm2.s, d, CORESZ) == Some(d);
    InterpretFound(vm2, r, d);
  }

  /** A header compiled by compile_word followed by one appended cell v. */
  lemma HeaderThenAppend(vm: Vm, code: Cell, name: Option<seq<byte>>, v: Cell)
    requires vm.Valid() && CanCompile(vm) && (name.Some? ==> |name.value| <= MAXWORD)
    requires vm.m[DICTIONARY] + 4 <= STRCELL
    ensures var c, d := CompileWord(vm, code, name), vm.m[DICTIONARY];
      CanAppend(c.vm)
      && Append(c.vm, v).m[d..d + 4] == [vm.L, vm.t, code, v]
      && Append(c.vm, v).m[DICTIONARY] == d + 4
      && (forall i :: 0 <= i < CORESZ && i != DICTIONARY && !(d <= i < d + 4) ==> Append(c.vm, v).m[i] == vm.m[i])
  {
    CompileWordLayout(vm, code, name);
  }

  /** The opcode DEFINE is DefineWord, and IMMEDIATE is MakeImmediate. */
  lemma ExecDefine(vm: Vm, r: Regs)
    requires vm.Valid()
    ensures Exec(Define, vm, r) == DefineWord(vm, r)
  {
    assert Exec(Define, vm, r) == ExecCompiler(Define, vm, r);
  }

  lemma ExecImmediate(vm: Vm, r: Regs)
    requires vm.Valid()
    ensures Exec(Immediate, vm, r) == MakeImmediate(vm, r)
  {
    assert Exec(Immediate, vm, r) == ExecCompiler(Immediate, vm, r);
  }

  /** DEFINE with a word left in the input is compile_word of that word with code
      COMPILE, in compiling mode, followed by an appended RUN. */
  lemma DefineSteps(vm: Vm, r: Regs)
    requires vm.Valid() && 1 <= vm.m[DICTIONARY] && vm.m[DICTIONARY] + 4 <= STRCELL
    requires vm.t + MAXWORD + 1 <= STRSZ && ScanWord(vm.inp, vm.pos).Some?
    ensures var vm1 := vm.(m := vm.m[STATE := 1]);
      var c := CompileWord(vm1, Code(Compile), None);
      c.r == 1 && CanAppend(c.vm) && DefineWord(vm, r) == Go(Append(c.vm, Code(Op.Run)), r)
  {
  }

  /** The header DEFINE appends: with a word left in the input, the entry [L, t,
      COMPILE, RUN] is laid out at the dictionary pointer d, becomes the newest, carries
      that word as its name, and compiling mode is on. */
  lemma DefineAppendsHeader(vm: Vm, r: Regs)
    requires vm.Valid() && HEX < vm.m[DICTIONARY] && vm.m[DICTIONARY] + 4 <= STRCELL
    requires vm.t + MAXWORD + 1 <= STRSZ && ScanWord(vm.inp, vm.pos).Some?
    ensures var e, d, tok := DefineWord(vm, r), vm.m[DICTIONARY], ScanWord(vm.inp, vm.pos).value;
      e.outcome.Next? && e.r == r
      && e.vm.m[d..d + 4] == [vm.L, vm.t, Code(Compile), Code(Op.Run)]
      && e.vm.m[DICTIONARY] == d + 4 && e.vm.L == d && e.vm.m[STATE] == 1
      && CStr(e.vm.s, vm.t) == CStr(tok.word, 0)
  {
    var vm1 := vm.(m := vm.m[STATE := 1]);
    DefineSteps(vm, r);
    CompileWordLayout(vm1, Code(Compile), None);
    CompileWordToken(vm1, Code(Compile));
    HeaderThenAppend(vm1, Code(Compile), None, Code(Op.Run));
  }

  /** DEFINE at the end of the input invalidates the object and makes forth_run
      return -1. */
  lemma DefineAtEnd(vm: Vm, r: Regs)
    requires vm.Valid() && 1 <= vm.m[DICTIONARY] && vm.m[DICTIONARY] + 3 <= STRCELL
    requires vm.t + MAXWORD + 1 <= STRSZ && ScanWord(vm.inp, vm.pos).None?
    ensures var e := DefineWord(vm, r);
      e.outcome == Halt(-1) && e.vm.invalid && e.vm.pos == |vm.inp|
  {
    var vm1 := vm.(m := vm.m[STATE := 1]);
    var c := CompileWord(vm1, Code(Compile), None);
    assert c.r == EOF;
  }

  /** IMMEDIATE with the dictionary pointer d at least two cells past the first cell:
      RUN goes to d - 2 and the pointer ends at d - 1. */
  lemma ImmediateRewrites(vm: Vm, r: Regs)
    requires vm.Valid() && 3 <= vm.m[DICTIONARY] <= STRCELL + 1
    ensures var d := vm.m[DICTIONARY];
      MakeImmediate(vm, r) == Go(vm.(m := vm.m[DICTIONARY := d - 1][d - 2 := Code(Op.Run)]), r)
  {
  }

  /** IMMEDIATE rewrites the code cell of the header DEFINE just laid out to RUN, so that
      READ runs the word even while compiling; the dictionary pointer ends one cell
      before where DEFINE left it. */
  lemma ImmediateAfterDefine(vm: Vm, r: Regs)
    requires vm.Valid() && HEX < vm.m[DICTIONARY] && vm.m[DICTIONARY] + 4 <= STRCELL
    requires vm.t + MAXWORD + 1 <= STRSZ && ScanWord(vm.inp, vm.pos).Some?
    ensures var e1, d := DefineWord(vm, r), vm.m[DICTIONARY];
      var e2 := MakeImmediate(e1.vm, e1.r);
      e2.outcome.Next? && e2.vm.m[d..d + 3] == [vm.L, vm.t, Code(Op.Run)]
      && e2.vm.m[DICTIONARY] == d + 3 && e2.vm.L == d
  {
    DefineAppendsHeader(vm, r);
    var e1 := DefineWord(vm, r);
    ImmediateOnHeader(e1.vm, e1.r, vm.m[DICTIONARY], vm.L, vm.t);
  }

  /** IMMEDIATE right after a header [a, b, code, RUN] at d. */
  lemma ImmediateOnHeader(vm: Vm, r: Regs, d: int, a: Cell, b: Cell)
    requires vm.Valid() && HEX < d && d + 4 <= STRCELL && vm.m[DICTIONARY] == d + 4
    requires vm.m[d..d + 4] == [a, b, Code(Compile), Code(Op.Run)]
    ensures var e := MakeImmediate(vm, r);
      e.outcome.Next? && e.vm.m[d..d + 3] == [a, b, Code(Op.Run)]
      && e.vm.m[DICTIONARY] == d + 3 && e.vm.L == vm.L
  {
    assert vm.m[d..d + 4][0] == vm.m[d];
    assert vm.m[d..d + 4][1] == vm.m[d + 1];
    ImmediateRewrites(vm, r);
  }

  /** READ dispatches a found entry w other than the sentinel at once. */
  lemma InterpretFound(vm: Vm, r: Regs, w: Cell)
    requires vm.Valid() && Find(vm.m, vm.s, vm.L, CORESZ) == Some(w) && w != 1 && w + 2 < CORESZ
    ensures Interpret(vm, r) == Dispatch(vm, r.(x := EntryPoint(vm, w)))
  {
  }

  /** When find returns the sentinel, READ takes the word for a number. */
  lemma InterpretNotFound(vm: Vm, r: Regs)
    requires vm.Valid() && Find(vm.m, vm.s, vm.L, CORESZ) == Some(1)
    ensures Interpret(vm, r) == Number(vm, r)
  {
  }

  /** READ's dictionary search on a walkable dictionary whose sentinel is named by the
      buffer: with k the newest entry of the chain named by the word in the buffer, READ
      takes the word for a number when k is the sentinel, and otherwise dispatches k at
      its code cell or, when interpreting a word whose code cell is COMPILE, just after
      it. */
  lemma InterpretFindsNewest(vm: Vm, r: Regs)
    requires vm.Valid() && Walkable(vm.m, STRSZ, vm.L) && vm.m[2] == 0
    ensures var es, e := Chain(vm.m, STRSZ, vm.L), Interpret(vm, r);
      var k := FirstNamed(vm.m, vm.s, es, 0);
      k < |es| && (es[k] == 1 ==> e == Number(vm, r))
      && (es[k] != 1 ==> es[k] + 2 < CORESZ && e == Dispatch(vm, r.(x := EntryPoint(vm, es[k]))))
  {
    var es := Chain(vm.m, STRSZ, vm.L);
    FindIsFirstNamed(vm.m, vm.s, vm.L, CORESZ);
    var k := FirstNamed(vm.m, vm.s, es, 0);
    if es[k] == 1 {
      InterpretNotFound(vm, r);
    } else {
      InterpretFound(vm, r, es[k]);
    }
  }

  /** A word no entry is named by: a word that is not a number is reported and skipped;
      a number is pushed when interpreting, and compiled as [2, value] when compiling. */
  lemma NumberNotANumber(vm: Vm, r: Regs)
    requires vm.Valid() && !IsNum(CStr(vm.s, 0))
    ensures Number(vm, r) == Go(vm.(diags := vm.diags + [NotAWord]), r)
  {
  }

  /** Interpreting, a number goes on the data stack: the old top is spilled to m[S+1]. */
  lemma NumberPushes(vm: Vm, r: Regs)
    requires vm.Valid() && IsNum(CStr(vm.s, 0)) && vm.m[STATE] == 0 && InArena(r.S + 1)
    ensures Number(vm, r) ==
      Go(vm.(m := vm.m[r.S + 1 := r.f]), r.(S := r.S + 1, f := Literal(CStr(vm.s, 0))))
  {
  }

  /** Compiling, a number becomes the two cells [2, value] appended to the dictionary.
      CompiledNumberPushes states when they push the value. */
  lemma NumberCompiles(vm: Vm, r: Regs)
    requires vm.Valid() && IsNum(CStr(vm.s, 0)) && vm.m[STATE] != 0
    requires 1 <= vm.m[DICTIONARY] && vm.m[DICTIONARY] + 2 <= STRCELL
    ensures var d, e := vm.m[DICTIONARY], Number(vm, r);
      e.outcome.Next? && e.r == r
      && e.vm.m == vm.m[DICTIONARY := d + 2][d := 2][d + 1 := Literal(CStr(vm.s, 0))]
  {
    var d := vm.m[DICTIONARY];
    var vm1 := Append(vm, 2);
    assert vm1.m == vm.m[DICTIONARY := d + 1][d := 2];
  }

  /** The compiled cells [2, value] run as a push of the value when the fake word at
      cell 2 still holds PUSH (0, as forth_init leaves it) and the cells were not laid over
      it: token 2 dispatches PUSH, which spills the old top to S + 1, takes the value from
      the next cell and steps I past it. */
  lemma CompiledNumberPushes(vm: Vm, r: Regs, r2: Regs)
    requires vm.Valid() && IsNum(CStr(vm.s, 0)) && vm.m[STATE] != 0
    requires 3 <= vm.m[DICTIONARY] && vm.m[DICTIONARY] + 2 <= STRCELL && vm.m[2] == Code(Push)
    requires InArena(r2.S + 1) && r2.S != vm.m[DICTIONARY]
    ensures var d, e := vm.m[DICTIONARY], Number(vm, r);
      var run := Dispatch(e.vm, r2.(x := 2, I := d + 1));
      run.outcome.Next?
      && run.r == r2.(x := 3, I := d + 2, S := r2.S + 1, f := Literal(CStr(vm.s, 0)))
      && run.vm == e.vm.(m := e.vm.m[r2.S + 1 := r2.f])
  {
    var d, e := vm.m[DICTIONARY], Number(vm, r);
    assert e.vm.Valid() && e.vm.m[2] == Code(Push) && e.vm.m[d + 1] == Literal(CStr(vm.s, 0)) by {
      NumberCompiles(vm, r);
    }
    FakeWordPushes(e.vm, r2, d + 1);
  }

  /** A dispatch of token 2 whose cell holds PUSH pushes the cell at I. */
  lemma FakeWordPushes(vm: Vm, r: Regs, i: Cell)
    requires vm.Valid() && vm.m[2] == Code(Push) && InArena(r.S + 1) && InArena(i) && i != r.S + 1
    requires i + 1 < CORESZ
    ensures Dispatch(vm, r.(x := 2, I := i)) ==
      Go(vm.(m := vm.m[r.S + 1 := r.f]), r.(x := 3, I := i + 1, S := r.S + 1, f := vm.m[i]))
  {
    DispatchDecodes(vm, r.(x := 2, I := i), Push);
  }

  /** The state READ hands to Interpret: the return stack pointer dropped by one, the
      word in the buffer, and the input past the word. */
  function ReadState(vm: Vm): (vm2: Vm)
    requires vm.Valid() && ScanWord(vm.inp, vm.pos).Some?
    ensures vm2.Valid()
  {
    var tok := ScanWord(vm.inp, vm.pos).value;
    vm.(m := vm.m[RSTK := Wrap(vm.m[RSTK] as int - 1)],
        s := WriteBytes(vm.s, 0, tok.word + [NUL]), pos := tok.next)
  }

  /** READ with a word left in the input is Interpret of ReadState. */
  lemma ReadStep(vm: Vm, r: Regs)
    requires vm.Valid() && ScanWord(vm.inp, vm.pos).Some?
    ensures ReadWord(vm, r) == Interpret(ReadState(vm), r)
  {
  }

  /** ReadState keeps the dictionary chain READ started from and the name of each entry
      stored past the buffer, and its buffer holds the word read. */
  lemma ReadStateKeeps(vm: Vm)
    requires vm.Valid() && Walkable(vm.m, STRSZ, vm.L) && ScanWord(vm.inp, vm.pos).Some?
    ensures var vm2, tok := ReadState(vm), ScanWord(vm.inp, vm.pos).value;
      Walkable(vm2.m, STRSZ, vm2.L) && Chain(vm2.m, STRSZ, vm2.L) == Chain(vm.m, STRSZ, vm.L)
      && CStr(vm2.s, 0) == CStr(tok.word, 0)
      && (forall k :: MAXWORD < k ==> CStr(vm2.s, k) == CStr(vm.s, k))
      && (forall i :: 2 <= i < CORESZ ==> vm2.m[i] == vm.m[i])
  {
    var vm2, tok := ReadState(vm), ScanWord(vm.inp, vm.pos).value;
    WalkableFrame(vm.m, vm2.m, STRSZ, vm.L);
    StoredCStr(vm.s, 0, tok.word);
    forall k | MAXWORD < k ensures CStr(vm2.s, k) == CStr(vm.s, k) {
      TokenKeepsNames(vm.s, tok.word, k);
    }
  }

  /** READ at the end of the input makes forth_run return 0 after the tail call. */
  lemma ReadAtEnd(vm: Vm, r: Regs)
    requires vm.Valid() && ScanWord(vm.inp, vm.pos).None?
    ensures ReadWord(vm, r) ==
      Effect(vm.(m := vm.m[RSTK := Wrap(vm.m[RSTK] as int - 1)], pos := |vm.inp|), r, Halt(0))
  {
  }

  /** What READ does with a number the dictionary does not hold (ReadNotFound), while
      interpreting: it is pushed, the old top spilled to m[S+1]; the instruction pointer
      is kept and the arena is READ's (ReadState) with that spill. */
  lemma ReadUnknownNumber(vm: Vm, r: Regs)
    requires vm.Valid() && vm.m[STATE] == 0 && InArena(r.S + 1) && ScanWord(vm.inp, vm.pos).Some?
    requires IsNum(CStr(ReadState(vm).s, 0))
    ensures var e := Number(ReadState(vm), r);
      e.outcome.Next? && e.r == r.(S := r.S + 1, f := Literal(CStr(ReadState(vm).s, 0)))
      && e.vm.diags == vm.diags && e.vm.m == ReadState(vm).m[r.S + 1 := r.f]
  {
    NumberPushes(ReadState(vm), r);
  }

  /** What READ does with a word that is neither in the dictionary (ReadNotFound) nor
      a number: it is reported, and the arena is READ's (ReadState). */
  lemma ReadUnknownWord(vm: Vm, r: Regs)
    requires vm.Valid() && ScanWord(vm.inp, vm.pos).Some? && !IsNum(CStr(ReadState(vm).s, 0))
    ensures var e := Number(ReadState(vm), r);
      e.outcome.Next? && e.r == r && e.vm.diags == vm.diags + [NotAWord]
      && e.vm.m == ReadState(vm).m
  {
    NumberNotANumber(ReadState(vm), r);
  }

  /** READ changes only the return stack pointer in the arena. */
  lemma ReadStateArena(vm: Vm)
    requires vm.Valid() && ScanWord(vm.inp, vm.pos).Some?
    ensures ReadState(vm).m == vm.m[RSTK := Wrap(vm.m[RSTK] as int - 1)]
  {
  }

  /** READ of a word the dictionary does not hold hands the word to Number. */
  lemma ReadNotFound(vm: Vm, r: Regs)
    requires vm.Valid() && InArena(r.x) && vm.m[r.x] == Code(Read) && ScanWord(vm.inp, vm.pos).Some?
    requires var vm2 := ReadState(vm); Find(vm2.m, vm2.s, vm2.L, CORESZ) == Some(1)
    ensures Dispatch(vm, r) == Number(ReadState(vm), r.(x := r.x + 1))
    ensures CStr(ReadState(vm).s, 0) == CStr(ScanWord(vm.inp, vm.pos).value.word, 0)
  {
    var r1 := r.(x := r.x + 1);
    DispatchDecodes(vm, r, Read);
    ReadStep(vm, r1);
    InterpretNotFound(ReadState(vm), r1);
    StoredCStr(vm.s, 0, ScanWord(vm.inp, vm.pos).value.word);
  }
}
