/** The object forth_init builds: the bootstrap word at 32, the entries ":", "immediate"
    and "#", the primitives READ .. BLOAD in opcode order, and a dictionary chain that
    walks from the newest primitive down to the sentinel at 1. */
module Layout {
  import opened Cells
  import opened Text
  import opened Dictionary
  import opened Machine
  import opened Compiler
  import opened Runs

  /** No primitive's name holds a zero byte. */
  lemma NamesHaveNoNul()
    ensures forall i :: 0 <= i < |NAMES| ==> NoNul(Ascii(NAMES[i]))
  {
    forall i | 0 <= i < |NAMES|
      ensures NoNul(Ascii(NAMES[i]))
    {
      var b := Ascii(NAMES[i]);
      forall j | 0 <= j < |b|
        ensures b[j] != NUL
      {
        assert 0 < NAMES[i][j] as int < 128;
      }
    }
  }

  /** q is p after compile_word with the literal name: the header [L, t, code] at p's
      dictionary pointer d, d the newest entry, the name stored at t and t just past its
      terminator; no other cell, no byte below t and nothing else of the object changed,
      and the chain from d is d followed by p's chain. */
  predicate WordCompiled(p: Vm, q: Vm, name: seq<byte>, code: Cell)
    requires p.Valid() && q.Valid()
  {
    var d := p.m[DICTIONARY];
    1 <= d && d + 3 <= CORESZ && p.t + |name| + 1 <= STRSZ && Walkable(p.m, STRSZ, p.L)
    && q == p.(m := q.m, s := q.s, L := d, t := p.t + |name| + 1)
    && q.m[DICTIONARY] == d + 3 && q.m[d] == p.L && q.m[d + 1] == p.t && q.m[d + 2] == code
    && (forall i :: 0 <= i < CORESZ && i != DICTIONARY && !(d <= i < d + 3) ==> q.m[i] == p.m[i])
    && (forall k :: 0 <= k < p.t && k < STRSZ ==> q.s[k] == p.s[k])
    && CStr(q.s, p.t) == name
    && Walkable(q.m, STRSZ, d) && Chain(q.m, STRSZ, d) == [d] + Chain(p.m, STRSZ, p.L)
  }

  /** compile_word with a literal name that has no zero byte, on a walkable dictionary. */
  lemma LiteralWord(vm: Vm, code: Cell, name: seq<byte>)
    requires vm.Valid() && CanCompile(vm) && |name| <= MAXWORD && NoNul(name)
    requires Walkable(vm.m, STRSZ, vm.L) && vm.L + 2 < vm.m[DICTIONARY]
    ensures WordCompiled(vm, CompileWord(vm, code, Some(name)).vm, name, code)
  {
    CompileWordLayout(vm, code, Some(name));
    CompileWordLiteral(vm, code, name);
    CompileKeepsChain(vm, code, Some(name));
    NoNulCStr(name, 0);
  }

  /** The three cells [link, name offset, code] of an entry at a. */
  predicate HeaderAt(vm: Vm, a: int, link: Cell, off: Cell, code: Cell)
    requires vm.Valid()
  {
    0 <= a && a + 3 <= CORESZ && vm.m[a] == link && vm.m[a + 1] == off && vm.m[a + 2] == code
  }

  /** The addresses of n entries of four cells laid out from base, newest first. */
  function Entries(base: int, n: nat): (es: seq<Cell>)
    requires 0 <= base && base + 4 * n <= CORESZ
    ensures |es| == n
  {
    if n == 0 then [] else [base + 4 * (n - 1)] + Entries(base, n - 1)
  }

  /** Entry i of the primitives laid out from base: the link to the entry before it (to
      first for i == 0), its name offset, COMPILE and READ + i; its name is NAMES[i] and
      is stored below t. */
  predicate PrimitiveAt(vm: Vm, names: seq<string>, base: int, first: Cell, i: int)
    requires vm.Valid()
  {
    0 <= i < |names| && 1 <= base && base + 4 * i + 4 <= CORESZ
    && vm.m[base + 4 * i] == (if i == 0 then first else base + 4 * i - 4)
    && vm.m[base + 4 * i + 2] == Code(Compile)
    && vm.m[base + 4 * i + 3] == Code(Read) + i
    && vm.m[base + 4 * i + 1] + CStrLen(vm.s, vm.m[base + 4 * i + 1]) < vm.t
    && CStr(vm.s, vm.m[base + 4 * i + 1]) == Ascii(names[i])
  }

  /** The cells of the first n primitives laid out from v's dictionary pointer by p, and
      no other cell but the pointer changed. */
  predicate EntriesLaid(v: Vm, names: seq<string>, p: Vm, n: nat)
    requires v.Valid() && p.Valid()
  {
    var base := v.m[DICTIONARY];
    p.m[DICTIONARY] == base + 4 * n
    && (forall i :: 0 <= i < n ==> PrimitiveAt(p, names, base, v.L, i))
    && (forall j :: 0 <= j < CORESZ && j != DICTIONARY && !(base <= j < base + 4 * n) ==> p.m[j] == v.m[j])
  }

  /** Of the rest of the object only the newest entry, the store above v's t and t
      itself (which only grows) changed. */
  predicate StateKept(v: Vm, p: Vm, n: nat)
    requires v.Valid() && p.Valid() && v.t <= STRSZ
  {
    p == v.(m := p.m, s := p.s, L := p.L, t := p.t)
    && p.L == (if n == 0 then v.L else v.m[DICTIONARY] + 4 * n - 4)
    && v.t <= p.t
    && (forall k :: 0 <= k < v.t ==> p.s[k] == v.s[k])
  }

  /** The chain from the newest entry runs through the new entries, newest first, into
      v's chain. */
  predicate ChainLaid(v: Vm, p: Vm, n: nat)
    requires v.Valid() && p.Valid() && 0 <= v.m[DICTIONARY] && v.m[DICTIONARY] + 4 * n <= CORESZ
    requires Walkable(v.m, STRSZ, v.L)
  {
    Walkable(p.m, STRSZ, p.L) && Chain(p.m, STRSZ, p.L) == Entries(v.m[DICTIONARY], n) + Chain(v.m, STRSZ, v.L)
  }

  /** p is v with its first n primitives installed from v's dictionary pointer: the
      entries are in place, no other cell, no byte below v's t and nothing else of the
      object changed, and the chain is the new entries before v's chain. */
  predicate Installed(v: Vm, names: seq<string>, p: Vm, n: nat)
    requires v.Valid() && p.Valid() && 0 <= v.m[DICTIONARY] && v.m[DICTIONARY] + 4 * n <= CORESZ
    requires v.t <= STRSZ && Walkable(v.m, STRSZ, v.L)
  {
    EntriesLaid(v, names, p, n) && StateKept(v, p, n) && ChainLaid(v, p, n)
  }

  /** An entry already laid out stays so when later cells and later bytes of the store
      change and t grows. */
  lemma EntryKept(p: Vm, q: Vm, names: seq<string>, base: int, first: Cell, i: int, d: int)
    requires p.Valid() && q.Valid() && PrimitiveAt(p, names, base, first, i) && base + 4 * i + 4 <= d
    requires forall j :: 0 <= j < CORESZ && j != DICTIONARY && !(d <= j < CORESZ) ==> q.m[j] == p.m[j]
    requires forall k :: 0 <= k < p.t && k < STRSZ ==> q.s[k] == p.s[k]
    requires p.t <= q.t && p.t <= STRSZ
    ensures PrimitiveAt(q, names, base, first, i)
  {
    var a := base + 4 * i;
    assert q.m[a] == p.m[a] && q.m[a + 1] == p.m[a + 1] && q.m[a + 2] == p.m[a + 2] && q.m[a + 3] == p.m[a + 3];
    CStrKept(q.s, p.s, p.m[a + 1]);
  }

  /** The entry compile_word and the appended cell READ + n - 1 lay out at d. */
  lemma EntryNew(q: Vm, names: seq<string>, base: int, first: Cell, n: nat, d: int, L: Cell, t: Cell)
    requires q.Valid() && 1 <= n <= |names| && 1 <= base && d == base + 4 * (n - 1) && d + 4 <= CORESZ
    requires L == (if n == 1 then first else d - 4)
    requires q.m[d] == L && q.m[d + 1] == t && q.m[d + 2] == Code(Compile) && q.m[d + 3] == Code(Read) + n - 1
    requires CStr(q.s, t) == Ascii(names[n - 1]) && q.t == t + |names[n - 1]| + 1
    ensures PrimitiveAt(q, names, base, first, n - 1)
  {
  }

  /** q is p with the four-cell entry [L, t, code, v] at p's dictionary pointer d, d the
      newest entry, name stored at t and t just past its terminator: no other cell, no
      byte below t and nothing else of the object changed, and the chain from d is d
      followed by p's chain. */
  predicate EntryAppended(p: Vm, q: Vm, name: seq<byte>, code: Cell, v: Cell)
    requires p.Valid() && q.Valid()
  {
    var d := p.m[DICTIONARY];
    1 <= d && d + 4 <= CORESZ && p.t + |name| + 1 <= STRSZ && Walkable(p.m, STRSZ, p.L)
    && q == p.(m := q.m, s := q.s, L := d, t := p.t + |name| + 1)
    && q.m[DICTIONARY] == d + 4 && q.m[d] == p.L && q.m[d + 1] == p.t && q.m[d + 2] == code && q.m[d + 3] == v
    && (forall i :: 0 <= i < CORESZ && i != DICTIONARY && !(d <= i < d + 4) ==> q.m[i] == p.m[i])
    && (forall k :: 0 <= k < p.t && k < STRSZ ==> q.s[k] == p.s[k])
    && CStr(q.s, p.t) == name
    && Walkable(q.m, STRSZ, d) && Chain(q.m, STRSZ, d) == [d] + Chain(p.m, STRSZ, p.L)
  }

  /** compile_word with a literal name followed by m[m[0]++] = v. */
  lemma WordAppended(p: Vm, name: seq<byte>, code: Cell, v: Cell)
    requires p.Valid() && CanCompile(p) && |name| <= MAXWORD && NoNul(name)
    requires Walkable(p.m, STRSZ, p.L) && p.L + 2 < p.m[DICTIONARY] && p.m[DICTIONARY] + 4 <= STRCELL
    ensures var c := CompileWord(p, code, Some(name)).vm;
      CanAppend(c) && EntryAppended(p, Append(c, v), name, code, v)
  {
    var c := CompileWord(p, code, Some(name)).vm;
    LiteralWord(p, code, name);
    WalkableFrame(c.m, Append(c, v).m, STRSZ, p.m[DICTIONARY]);
  }

  /** One more primitive's cells. */
  lemma CellsStep(v: Vm, names: seq<string>, p: Vm, q: Vm, n: nat)
    requires v.Valid() && 1 <= n <= |names| && 1 <= v.m[DICTIONARY] && v.m[DICTIONARY] + 4 * n <= CORESZ
    requires p.Valid() && EntriesLaid(v, names, p, n - 1) && p.t <= STRSZ
    requires p.L == (if n == 1 then v.L else v.m[DICTIONARY] + 4 * n - 8)
    requires q.Valid() && EntryAppended(p, q, Ascii(names[n - 1]), Code(Compile), Code(Read) + n - 1)
    ensures EntriesLaid(v, names, q, n)
  {
    var base, d := v.m[DICTIONARY], p.m[DICTIONARY];
    forall i | 0 <= i < n - 1
      ensures PrimitiveAt(q, names, base, v.L, i)
    {
      EntryKept(p, q, names, base, v.L, i, d);
    }
    EntryNew(q, names, base, v.L, n, d, p.L, p.t);
  }

  /** One more primitive leaves the rest of the object as compile_word leaves it. */
  lemma StateStep(v: Vm, p: Vm, q: Vm, n: nat, name: seq<byte>, code: Cell, x: Cell)
    requires v.Valid() && v.t <= STRSZ && n >= 1 && p.Valid() && StateKept(v, p, n - 1)
    requires p.m[DICTIONARY] == v.m[DICTIONARY] + 4 * (n - 1)
    requires q.Valid() && EntryAppended(p, q, name, code, x)
    ensures StateKept(v, q, n)
  {
  }

  /** One more primitive puts its entry in front of the chain. */
  lemma ChainStep(v: Vm, p: Vm, q: Vm, n: nat)
    requires v.Valid() && 1 <= n && 0 <= v.m[DICTIONARY] && v.m[DICTIONARY] + 4 * n <= CORESZ
    requires Walkable(v.m, STRSZ, v.L) && p.Valid() && ChainLaid(v, p, n - 1)
    requires p.m[DICTIONARY] == v.m[DICTIONARY] + 4 * (n - 1)
    requires q.Valid() && q.L == p.m[DICTIONARY] && Walkable(q.m, STRSZ, q.L)
    requires Chain(q.m, STRSZ, q.L) == [q.L] + Chain(p.m, STRSZ, p.L)
    ensures ChainLaid(v, q, n)
  {
    var e, e1, c := Entries(v.m[DICTIONARY], n), Entries(v.m[DICTIONARY], n - 1), Chain(v.m, STRSZ, v.L);
    assert e == [q.L] + e1;
    assert [q.L] + (e1 + c) == e + c;
  }

  /** One more primitive, q, after the first n - 1, p. */
  lemma InstallStep(v: Vm, names: seq<string>, p: Vm, q: Vm, n: nat)
    requires v.Valid() && 1 <= n <= |names| && 1 <= v.m[DICTIONARY] && v.m[DICTIONARY] + 4 * n <= CORESZ
    requires v.t <= STRSZ && Walkable(v.m, STRSZ, v.L)
    requires p.Valid() && Installed(v, names, p, n - 1) && p.t <= STRSZ
    requires q.Valid() && EntryAppended(p, q, Ascii(names[n - 1]), Code(Compile), Code(Read) + n - 1)
    ensures Installed(v, names, q, n)
  {
    CellsStep(v, names, p, q, n);
    StateStep(v, p, q, n, Ascii(names[n - 1]), Code(Compile), Code(Read) + n - 1);
    ChainStep(v, p, q, n);
  }

  /** The n-th primitive is one more entry appended by compile_word and m[m[0]++]. */
  lemma InstallNext(v: Vm, n: nat)
    requires v.Valid() && 1 <= n <= |NAMES| && 1 <= v.m[DICTIONARY] && v.m[DICTIONARY] + 4 * n <= STRCELL
    requires v.t + (MAXWORD + 1) * n <= STRSZ
    requires var p := InstallPrimitives(v, n - 1); Walkable(p.m, STRSZ, p.L) && p.L + 2 < p.m[DICTIONARY]
    ensures EntryAppended(InstallPrimitives(v, n - 1), InstallPrimitives(v, n), Ascii(NAMES[n - 1]), Code(Compile), Code(Read) + n - 1)
  {
    NamesFit();
    NamesHaveNoNul();
    WordAppended(InstallPrimitives(v, n - 1), Ascii(NAMES[n - 1]), Code(Compile), Code(Read) + n - 1);
  }

  /** InstallPrimitives lays out its n entries one after the other. */
  lemma {:induction false} InstallLaysOut(v: Vm, n: nat)
    requires v.Valid() && n <= |NAMES| && 1 <= v.m[DICTIONARY] && v.m[DICTIONARY] + 4 * n <= STRCELL
    requires v.t + (MAXWORD + 1) * n <= STRSZ
    requires Walkable(v.m, STRSZ, v.L) && v.L + 2 < v.m[DICTIONARY]
    ensures Installed(v, NAMES, InstallPrimitives(v, n), n)
    decreases n
  {
    if n > 0 {
      InstallLaysOut(v, n - 1);
      InstallNext(v, n);
      InstallStep(v, NAMES, InstallPrimitives(v, n - 1), InstallPrimitives(v, n), n);
    }
  }

  /** r holds the entries ":" (DEFINE) at 36, "immediate" (IMMEDIATE) at 39 and "#"
      (COMMENT) at 42, three cells each, with their names at 32, 34 and 44 of the store,
      and the chain from 42 is 42, 39, 36 and the sentinel; nothing else of v changed but
      the reader's buffer stays as it was. */
  predicate CoreEntries(v: Vm, r: Vm)
    requires v.Valid() && r.Valid()
  {
    r == v.(m := r.m, s := r.s, L := 42, t := 46) && r.m[DICTIONARY] == 45
    && HeaderAt(r, 36, 1, 32, Code(Define)) && HeaderAt(r, 39, 36, 34, Code(Immediate))
    && HeaderAt(r, 42, 39, 44, Code(Comment))
    && (forall j :: 0 <= j < CORESZ && j != DICTIONARY && !(36 <= j < 45) ==> r.m[j] == v.m[j])
    && (forall k :: 0 <= k < 32 ==> r.s[k] == v.s[k])
    && CStr(r.s, 32) == Ascii(":") && CStr(r.s, 34) == Ascii("immediate") && CStr(r.s, 44) == Ascii("#")
    && Walkable(r.m, STRSZ, 42) && Chain(r.m, STRSZ, 42) == [42, 39, 36, 1]
  }

  lemma CoreFrom(v: Vm, v1: Vm, v2: Vm, v3: Vm)
    requires v.Valid() && v1.Valid() && v2.Valid() && v3.Valid()
    requires v.m[DICTIONARY] == BOOT + 4 && v.L == 1 && v.t == 32
    requires WordCompiled(v, v1, Ascii(":"), Code(Define))
    requires WordCompiled(v1, v2, Ascii("immediate"), Code(Immediate))
    requires WordCompiled(v2, v3, Ascii("#"), Code(Comment))
    ensures CoreEntries(v, v3)
  {
    CoreNames(v, v1, v2, v3);
    CoreChain(v, v1, v2, v3);
  }

  lemma CoreNames(v: Vm, v1: Vm, v2: Vm, v3: Vm)
    requires v.Valid() && v1.Valid() && v2.Valid() && v3.Valid()
    requires v.m[DICTIONARY] == BOOT + 4 && v.L == 1 && v.t == 32
    requires WordCompiled(v, v1, Ascii(":"), Code(Define))
    requires WordCompiled(v1, v2, Ascii("immediate"), Code(Immediate))
    requires WordCompiled(v2, v3, Ascii("#"), Code(Comment))
    ensures CStr(v3.s, 32) == Ascii(":") && CStr(v3.s, 34) == Ascii("immediate") && CStr(v3.s, 44) == Ascii("#")
  {
    CStrKept(v3.s, v1.s, 32);
    CStrKept(v3.s, v2.s, 34);
  }

  lemma CoreChain(v: Vm, v1: Vm, v2: Vm, v3: Vm)
    requires v.Valid() && v1.Valid() && v2.Valid() && v3.Valid()
    requires v.m[DICTIONARY] == BOOT + 4 && v.L == 1 && v.t == 32
    requires WordCompiled(v, v1, Ascii(":"), Code(Define))
    requires WordCompiled(v1, v2, Ascii("immediate"), Code(Immediate))
    requires WordCompiled(v2, v3, Ascii("#"), Code(Comment))
    ensures Walkable(v3.m, STRSZ, 42) && Chain(v3.m, STRSZ, 42) == [42, 39, 36, 1]
  {
    assert Chain(v.m, STRSZ, 1) == [1];
  }

  /** CoreWords compiles those three entries from the bootstrap state. */
  lemma CoreLayout(v: Vm)
    requires v.Valid() && v.m[DICTIONARY] == BOOT + 4 && v.L == 1 && v.t == 32 && v.m[2] < STRSZ
    ensures CoreEntries(v, CoreWords(v))
  {
    var colon, imm, hash := Ascii(":"), Ascii("immediate"), Ascii("#");
    assert NoNul(colon) && NoNul(imm) && NoNul(hash);
    var v1 := CompileWord(v, Code(Define), Some(colon)).vm;
    LiteralWord(v, Code(Define), colon);
    var v2 := CompileWord(v1, Code(Immediate), Some(imm)).vm;
    LiteralWord(v1, Code(Immediate), imm);
    var v3 := CompileWord(v2, Code(Comment), Some(hash)).vm;
    LiteralWord(v2, Code(Comment), hash);
    CoreFrom(v, v1, v2, v3);
  }

  /** The cells forth_init lays out: the dictionary pointer at 145, the return stack
      pointer at CORESZ - STKSZ, cells 2 .. 31 (the sentinel's name offset, STATE, HEX)
      zero, the bootstrap word [READ, RUN, 32, 33] at 32, the three core entries, and the
      arena past the primitives zero. */
  predicate InitCells(vm: Vm)
    requires vm.Valid()
  {
    vm.m[DICTIONARY] == 145 && vm.m[RSTK] == CORESZ - STKSZ
    && (forall j :: 2 <= j < BOOT ==> vm.m[j] == 0)
    && vm.m[BOOT] == Code(Read) && vm.m[BOOT + 1] == Code(Op.Run) && vm.m[BOOT + 2] == BOOT && vm.m[BOOT + 3] == BOOT + 1
    && HeaderAt(vm, 36, 1, 32, Code(Define)) && HeaderAt(vm, 39, 36, 34, Code(Immediate))
    && HeaderAt(vm, 42, 39, 44, Code(Comment))
    && (forall j :: 145 <= j < CORESZ ==> vm.m[j] == 0)
  }

  /** The names: ":", "immediate" and "#" at 32, 34 and 44, the primitives at 45 ..
      144 with their names, and the reader's buffer empty. */
  predicate InitNames(vm: Vm, names: seq<string>)
    requires vm.Valid()
  {
    CStr(vm.s, 32) == Ascii(":") && CStr(vm.s, 34) == Ascii("immediate") && CStr(vm.s, 44) == Ascii("#")
    && (forall i :: 0 <= i < |names| ==> PrimitiveAt(vm, names, 45, 42, i))
    && CStr(vm.s, 0) == [] && 46 <= vm.t <= 46 + (MAXWORD + 1) * |names|
  }

  /** The chain from the newest entry at 141 runs through every primitive, then "#",
      "immediate" and ":", to the sentinel. */
  predicate InitChain(vm: Vm, n: nat)
    requires vm.Valid() && 45 + 4 * n <= CORESZ
  {
    vm.L == 141 && Walkable(vm.m, STRSZ, 141) && Chain(vm.m, STRSZ, 141) == Entries(45, n) + [42, 39, 36, 1]
  }

  /** What forth_init leaves in the object b was, with the primitives named by names:
      InitCells, InitNames and InitChain, and nothing else of the object changed. */
  predicate InitLaidOut(b: Vm, names: seq<string>, vm: Vm)
    requires b.Valid() && vm.Valid() && |names| <= 25
  {
    vm == b.(m := vm.m, s := vm.s, L := vm.L, t := vm.t) && InitCells(vm) && InitNames(vm, names) && InitChain(vm, |names|)
  }

  /** v0 is calloc's zeroed object b after the first steps of forth_init: the dictionary
      pointer at 36, L at the sentinel 1, t at 32, and the bootstrap word at 32 .. 35 in
      an otherwise zero arena. */
  predicate BootLaid(b: Vm, v0: Vm)
    requires b.Valid() && v0.Valid()
  {
    v0 == b.(m := v0.m, L := 1, t := 32) && v0.m[DICTIONARY] == BOOT + 4 && v0.s[0] == NUL
    && (forall j :: 1 <= j < CORESZ && !(BOOT <= j < BOOT + 4) ==> v0.m[j] == 0)
    && v0.m[BOOT] == Code(Read) && v0.m[BOOT + 1] == Code(Op.Run) && v0.m[BOOT + 2] == BOOT && v0.m[BOOT + 3] == BOOT + 1
  }

  lemma BootCells(b: Vm)
    requires b.Valid() && b.m == seq(CORESZ, i => 0) && b.s == seq(STRSZ, i => 0)
    ensures BootLaid(b, Boot(b))
  {
  }

  lemma CellsFrom(v0: Vm, v3: Vm, v4: Vm, vm: Vm)
    requires v0.Valid() && v3.Valid() && v4.Valid() && vm.Valid()
    requires v0.m[DICTIONARY] == BOOT + 4 && (forall j :: 1 <= j < CORESZ && !(BOOT <= j < BOOT + 4) ==> v0.m[j] == 0)
    requires v0.m[BOOT] == Code(Read) && v0.m[BOOT + 1] == Code(Op.Run) && v0.m[BOOT + 2] == BOOT && v0.m[BOOT + 3] == BOOT + 1
    requires forall j :: 0 <= j < CORESZ && j != DICTIONARY && !(36 <= j < 45) ==> v3.m[j] == v0.m[j]
    requires HeaderAt(v3, 36, 1, 32, Code(Define)) && HeaderAt(v3, 39, 36, 34, Code(Immediate))
      && HeaderAt(v3, 42, 39, 44, Code(Comment))
    requires v4.m[DICTIONARY] == 145
    requires forall j :: 0 <= j < CORESZ && j != DICTIONARY && !(45 <= j < 145) ==> v4.m[j] == v3.m[j]
    requires vm.m == v4.m[RSTK := CORESZ - STKSZ]
    ensures InitCells(vm)
  {
    assert forall j :: 2 <= j < 45 ==> vm.m[j] == v3.m[j];
  }

  lemma NamesFrom(names: seq<string>, v0: Vm, v3: Vm, v4: Vm, vm: Vm)
    requires v0.Valid() && v3.Valid() && v4.Valid() && vm.Valid() && |names| == 25
    requires v0.s[0] == NUL && v3.t == 46 && (forall k :: 0 <= k < 32 ==> v3.s[k] == v0.s[k])
    requires CStr(v3.s, 32) == Ascii(":") && CStr(v3.s, 34) == Ascii("immediate") && CStr(v3.s, 44) == Ascii("#")
    requires 46 <= v4.t <= 46 + (MAXWORD + 1) * |names|
    requires forall k :: 0 <= k < v3.t ==> v4.s[k] == v3.s[k]
    requires forall i :: 0 <= i < |names| ==> PrimitiveAt(v4, names, 45, 42, i)
    requires vm == v4.(m := vm.m) && forall j :: 2 <= j < CORESZ ==> vm.m[j] == v4.m[j]
    ensures InitNames(vm, names)
  {
    forall i | 0 <= i < |names|
      ensures PrimitiveAt(vm, names, 45, 42, i)
    {
      assert PrimitiveAt(v4, names, 45, 42, i);
    }
    CStrKept(v4.s, v3.s, 32);
    CStrKept(v4.s, v3.s, 34);
    CStrKept(v4.s, v3.s, 44);
    assert vm.s[0] == NUL;
  }

  lemma ChainFrom(v3: Vm, v4: Vm, vm: Vm, n: nat)
    requires v3.Valid() && v4.Valid() && vm.Valid() && n == 25 && v3.m[DICTIONARY] == 45
    requires Walkable(v3.m, STRSZ, 42) && Chain(v3.m, STRSZ, 42) == [42, 39, 36, 1] && v3.L == 42
    requires v4.L == 141 && Walkable(v4.m, STRSZ, 141)
    requires Chain(v4.m, STRSZ, 141) == Entries(45, n) + Chain(v3.m, STRSZ, v3.L)
    requires vm.L == v4.L && forall j :: 2 <= j < CORESZ ==> vm.m[j] == v4.m[j]
    ensures InitChain(vm, n)
  {
    WalkableFrame(v4.m, vm.m, STRSZ, 141);
  }

  /** The steps of forth_init from calloc's object b: the bootstrap word (v0), the core
      entries (v3), the primitives named by names (v4), and the return stack pointer (vm). */
  predicate InitSteps(b: Vm, names: seq<string>, v0: Vm, v3: Vm, v4: Vm, vm: Vm) {
    b.Valid() && v0.Valid() && v3.Valid() && v4.Valid() && vm.Valid() && |names| == 25
    && BootLaid(b, v0) && CoreEntries(v0, v3)
    && v4.t <= v3.t + (MAXWORD + 1) * |names| && Installed(v3, names, v4, |names|)
    && vm == v4.(m := v4.m[RSTK := CORESZ - STKSZ])
  }

  lemma InitCellsFrom(b: Vm, names: seq<string>, v0: Vm, v3: Vm, v4: Vm, vm: Vm)
    requires InitSteps(b, names, v0, v3, v4, vm)
    ensures InitCells(vm)
  {
    CellsFrom(v0, v3, v4, vm);
  }

  lemma InitNamesFrom(b: Vm, names: seq<string>, v0: Vm, v3: Vm, v4: Vm, vm: Vm)
    requires b.Valid() && v0.Valid() && v3.Valid() && v4.Valid() && vm.Valid() && |names| == 25
    requires BootLaid(b, v0) && CoreEntries(v0, v3)
    requires v4.t <= v3.t + (MAXWORD + 1) * |names|
    requires EntriesLaid(v3, names, v4, |names|) && StateKept(v3, v4, |names|)
    requires vm == v4.(m := v4.m[RSTK := CORESZ - STKSZ])
    ensures InitNames(vm, names)
  {
    assert v3.m[DICTIONARY] == 45 && v3.L == 42 && v3.t == 46;
    NamesFrom(names, v0, v3, v4, vm);
  }

  lemma InitChainFrom(b: Vm, names: seq<string>, v0: Vm, v3: Vm, v4: Vm, vm: Vm)
    requires b.Valid() && v0.Valid() && v3.Valid() && v4.Valid() && vm.Valid() && |names| == 25
    requires v3.L == 42 && v3.m[DICTIONARY] == 45 && v3.t <= STRSZ
    requires Walkable(v3.m, STRSZ, 42) && Chain(v3.m, STRSZ, 42) == [42, 39, 36, 1]
    requires StateKept(v3, v4, |names|) && ChainLaid(v3, v4, |names|)
    requires vm == v4.(m := v4.m[RSTK := CORESZ - STKSZ])
    ensures InitChain(vm, |names|)
  {
    assert vm.L == v4.L && forall j :: 2 <= j < CORESZ ==> vm.m[j] == v4.m[j];
    ChainFrom(v3, v4, vm, |names|);
  }

  /** The core entries chain 42, 39, 36 into the sentinel. */
  lemma CoreEntriesChain(b: Vm, v0: Vm, v3: Vm)
    requires b.Valid() && v0.Valid() && v3.Valid() && BootLaid(b, v0) && CoreEntries(v0, v3)
    ensures v3.L == 42 && v3.m[DICTIONARY] == 45
    ensures Walkable(v3.m, STRSZ, 42) && Chain(v3.m, STRSZ, 42) == [42, 39, 36, 1]
  {
    assert v3.m[2] == 0;
    assert Chain(v3.m, STRSZ, 1) == [1];
  }

  lemma InitStateFrom(b: Vm, names: seq<string>, v0: Vm, v3: Vm, v4: Vm, vm: Vm)
    requires InitSteps(b, names, v0, v3, v4, vm)
    ensures vm == b.(m := vm.m, s := vm.s, L := vm.L, t := vm.t)
  {
  }

  lemma InitFrom(b: Vm, names: seq<string>, v0: Vm, v3: Vm, v4: Vm, vm: Vm)
    requires InitSteps(b, names, v0, v3, v4, vm)
    ensures InitLaidOut(b, names, vm)
  {
    InitCellsFrom(b, names, v0, v3, v4, vm);
    InitNamesFrom(b, names, v0, v3, v4, vm);
    CoreEntriesChain(b, v0, v3);
    InitChainFrom(b, names, v0, v3, v4, vm);
    InitStateFrom(b, names, v0, v3, v4, vm);
  }

  /** forth_init lays out the object as InitLaidOut says. */
  lemma InitLayout(inp: seq<byte>, transfers: seq<Transfer>, warnValue: Cell)
    ensures InitLaidOut(Blank(inp, transfers, warnValue), NAMES, InitVm(inp, transfers, warnValue))
  {
    var b := Blank(inp, transfers, warnValue);
    BootCells(b);
    var v0 := Boot(b);
    CoreLayout(v0);
    var v3 := CoreWords(v0);
    NamesFit();
    InstallLaysOut(v3, |NAMES|);
    var v4 := InstallPrimitives(v3, |NAMES|);
    InitFrom(b, NAMES, v0, v3, v4, InitVm(inp, transfers, warnValue));
  }

  /** The first call of forth_run on a new object fetches the bootstrap word's address
      from 34, and the bootstrap word begins with READ: the outer interpreter reads the
      first word of the input, with I at the bootstrap word's RUN. */
  lemma FirstRunReads(inp: seq<byte>, transfers: seq<Transfer>, warnValue: Cell, fuel: nat)
    requires fuel >= 1
    ensures var vm := InitVm(inp, transfers, warnValue);
      ForthRun(vm, INIT_REGS, fuel) == Continue(ReadWord(vm, INIT_REGS.(x := BOOT + 1, I := BOOT + 3)), fuel - 1)
  {
    InitLayout(inp, transfers, warnValue);
    StartsReading(Blank(inp, transfers, warnValue), InitVm(inp, transfers, warnValue), fuel);
  }

  lemma StartsReading(b: Vm, vm: Vm, fuel: nat)
    requires b.Valid() && vm.Valid() && !b.invalid && InitLaidOut(b, NAMES, vm) && fuel >= 1
    ensures ForthRun(vm, INIT_REGS, fuel) == Continue(ReadWord(vm, INIT_REGS.(x := BOOT + 1, I := BOOT + 3)), fuel - 1)
  {
    assert Fetched(vm, INIT_REGS) == INIT_REGS.(x := BOOT, I := BOOT + 3);
    LoopUnfolds(vm, INIT_REGS, fuel);
    DispatchRead(vm, Fetched(vm, INIT_REGS));
  }

  /** A number the dictionary does not hold, read by the bootstrap word while
      interpreting with the data stack above it, meets BootCycle's conditions: READ goes
      on, keeps the instruction pointer and the bootstrap cells, and lowers the return
      stack pointer by one. So the loop comes back to 34 with the return stack pointer
      where it was. */
  lemma NumberCycles(vm: Vm, r: Regs)
    requires vm.Valid() && vm.m[BOOT] == Code(Read) && vm.m[BOOT + 1] == Code(Op.Run)
    requires vm.m[BOOT + 3] == BOOT + 1 && vm.m[STATE] == 0
    requires BOOT + 3 < r.S + 1 < CORESZ && ScanWord(vm.inp, vm.pos).Some?
    requires var vm2 := ReadState(vm); Find(vm2.m, vm2.s, vm2.L, CORESZ) == Some(1) && IsNum(CStr(vm2.s, 0))
    ensures var e := Dispatch(vm, r.(x := BOOT, I := BOOT + 3));
      e.outcome.Next? && e.r.I == BOOT + 3 && e.vm.m[BOOT + 1] == Code(Op.Run)
      && e.vm.m[BOOT + 3] == BOOT + 1 && e.vm.m[RSTK] == Wrap(vm.m[RSTK] as int - 1)
  {
    var r0 := r.(x := BOOT, I := BOOT + 3);
    var e, m2 := Dispatch(vm, r0), ReadState(vm).m;
    assert m2[BOOT + 1] == Code(Op.Run) && m2[BOOT + 3] == BOOT + 1 && m2[RSTK] == Wrap(vm.m[RSTK] as int - 1) by {
      ReadStateArena(vm);
    }
    assert e.outcome.Next? && e.r.I == BOOT + 3 && e.vm.m[BOOT + 1] == m2[BOOT + 1]
      && e.vm.m[BOOT + 3] == m2[BOOT + 3] && e.vm.m[RSTK] == m2[RSTK] by {
      assert e == Number(ReadState(vm), r0.(x := BOOT + 1)) by {
        ReadNotFound(vm, r0);
      }
      ReadUnknownNumber(vm, r0.(x := BOOT + 1));
    }
  }

  /** The same for a word that is neither in the dictionary nor a number: READ reports
      it and meets BootCycle's conditions. */
  lemma UnknownWordCycles(vm: Vm, r: Regs)
    requires vm.Valid() && vm.m[BOOT] == Code(Read) && vm.m[BOOT + 1] == Code(Op.Run)
    requires vm.m[BOOT + 3] == BOOT + 1 && ScanWord(vm.inp, vm.pos).Some?
    requires var vm2 := ReadState(vm); Find(vm2.m, vm2.s, vm2.L, CORESZ) == Some(1) && !IsNum(CStr(vm2.s, 0))
    ensures var e := Dispatch(vm, r.(x := BOOT, I := BOOT + 3));
      e.outcome.Next? && e.r.I == BOOT + 3 && e.vm.m[BOOT + 1] == Code(Op.Run)
      && e.vm.m[BOOT + 3] == BOOT + 1 && e.vm.m[RSTK] == Wrap(vm.m[RSTK] as int - 1)
  {
    var r0 := r.(x := BOOT, I := BOOT + 3);
    var e, m2 := Dispatch(vm, r0), ReadState(vm).m;
    assert m2[BOOT + 1] == Code(Op.Run) && m2[BOOT + 3] == BOOT + 1 && m2[RSTK] == Wrap(vm.m[RSTK] as int - 1) by {
      ReadStateArena(vm);
    }
    assert e.outcome.Next? && e.r.I == BOOT + 3 && e.vm.m == m2 by {
      ReadNotFound(vm, r0);
      ReadUnknownWord(vm, r0.(x := BOOT + 1));
    }
  }
}
