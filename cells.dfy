/** The arena of the virtual machine: 16-bit cells, the cells used as registers,
    the closed opcode set, and the 16-bit arithmetic every opcode uses. */
module Cells {

  /** Number of cells in the arena, (UINT16_MAX + 1) / 2. */
  const CORESZ: int := 32768
  /** Byte offset of the string store inside the arena (CORESZ / 2 bytes, i.e. cell 8192). */
  const STROFF: int := 16384
  /** First cell whose bytes belong to the string store. */
  const STRCELL: int := 8192
  /** Size of the string store in bytes: from STROFF to the end of the arena's 2 * CORESZ bytes. */
  const STRSZ: int := 49152
  /** Size of each of the two stacks in cells (CORESZ / 64). */
  const STKSZ: int := 512
  /** Size of a block in bytes. */
  const BLKSZ: int := 1024

  /** Cells used as registers. */
  const DICTIONARY: int := 0
  const RSTK: int := 1
  const STATE: int := 8
  const HEX: int := 9

  /** One 16-bit cell. */
  type Cell = c: int | 0 <= c < 0x10000

  /** An index into the arena. */
  predicate InArena(i: int) { 0 <= i < CORESZ }

  /** Reduction of a C integer to uint16_t: the cell congruent to v modulo 2^16. */
  function Wrap(v: int): (c: Cell)
    ensures (c - v) % 0x10000 == 0
    ensures 0 <= v < 0x10000 ==> c == v
  {
    v % 0x10000
  }

  /** Adding and then subtracting a cell value modulo 2^16 gives back the cell. */
  lemma WrapInverse(a: Cell, b: int)
    ensures Wrap(Wrap(a + b) - b) == a
    ensures Wrap(Wrap(a - b) + b) == a
  {
    var w := Wrap(a + b);
    assert (w - b - a) % 0x10000 == 0;
    var v := Wrap(a - b);
    assert (v + b - a) % 0x10000 == 0;
  }

  /** The CK mask 0x7fff: every cell value names a cell of the arena. */
  function CK(c: Cell): (a: int)
    ensures InArena(a)
    ensures c < CORESZ ==> a == c
    ensures c >= CORESZ ==> a == c - CORESZ
  {
    c % CORESZ
  }

  /** The closed opcode set, in the order of the C enumeration. */
  datatype Op =
    | Push | Compile | Run | Define | Immediate | Comment | Read | Load
    | Store | Sub | Add | Mul | Div | Less | Exit | Emit | Key | FromR | ToR | Jmp | Jmpz
    | PNum | Quote | Comma | Equal | Swap | Dup | Drop | Tail | BSave | BLoad

  /** One past the last opcode (LAST). */
  const LAST: int := 31

  datatype Option<T> = None | Some(value: T)

  /** The number of an opcode, as the C enumeration assigns it. */
  function Code(op: Op): (c: Cell)
    ensures c < LAST && Decode(c) == Some(op)
  {
    match op
    case Push => 0 case Compile => 1 case Run => 2 case Define => 3
    case Immediate => 4 case Comment => 5 case Read => 6 case Load => 7
    case Store => 8 case Sub => 9 case Add => 10 case Mul => 11
    case Div => 12 case Less => 13 case Exit => 14 case Emit => 15
    case Key => 16 case FromR => 17 case ToR => 18 case Jmp => 19
    case Jmpz => 20 case PNum => 21 case Quote => 22 case Comma => 23
    case Equal => 24 case Swap => 25 case Dup => 26 case Drop => 27
    case Tail => 28 case BSave => 29 case BLoad => 30
  }

  /** The opcode a cell holds, or None for a cell value outside the set (the `default` case). */
  function Decode(c: Cell): (r: Option<Op>)
    ensures r.Some? <==> c < LAST
  {
    match c
    case 0 => Some(Push)
    case 1 => Some(Compile)
    case 2 => Some(Run)
    case 3 => Some(Define)
    case 4 => Some(Immediate)
    case 5 => Some(Comment)
    case 6 => Some(Read)
    case 7 => Some(Load)
    case 8 => Some(Store)
    case 9 => Some(Sub)
    case 10 => Some(Add)
    case 11 => Some(Mul)
    case 12 => Some(Div)
    case 13 => Some(Less)
    case 14 => Some(Exit)
    case 15 => Some(Emit)
    case 16 => Some(Key)
    case 17 => Some(FromR)
    case 18 => Some(ToR)
    case 19 => Some(Jmp)
    case 20 => Some(Jmpz)
    case 21 => Some(PNum)
    case 22 => Some(Quote)
    case 23 => Some(Comma)
    case 24 => Some(Equal)
    case 25 => Some(Swap)
    case 26 => Some(Dup)
    case 27 => Some(Drop)
    case 28 => Some(Tail)
    case 29 => Some(BSave)
    case 30 => Some(BLoad)
    case _ => None
  }

  /** Code undoes decoding: each number below LAST names exactly one opcode. */
  lemma DecodeCode(c: Cell)
    requires c < LAST
    ensures Decode(c).Some? && Code(Decode(c).value) == c
  {
  }
}
