/** The part of blockio that does not touch a file: the request check and the name
    of the block file. */
module Blocks {
  import opened Cells

  /** blockio's guard: the mode must be 'r' or 'w' and the byte offset may be at most
      CORESZ - BLKSZ. The bound is in cells while the offset is in bytes, so only blocks
      within the first CORESZ bytes of the arena can be saved or loaded. */
  function BlockRequestOk(poffset: Cell, rw: char): (ok: bool)
    ensures ok ==> rw == 'r' || rw == 'w'
    ensures ok ==> poffset + BLKSZ <= CORESZ && poffset + BLKSZ <= 2 * CORESZ
    ensures (rw == 'r' || rw == 'w') && poffset + BLKSZ <= CORESZ ==> ok
  {
    !(poffset > CORESZ - BLKSZ) && (rw == 'w' || rw == 'r')
  }

  /** A lower-case hexadecimal digit, as "%x" prints it. */
  function HexChar(d: nat): (c: char)
    requires d < 16
  {
    if d < 10 then ('0' as int + d) as char else ('a' as int + d - 10) as char
  }

  /** The value of a lower-case hexadecimal digit, None for any other character. */
  function HexValue(c: char): (r: Option<nat>)
    ensures r.Some? ==> r.value < 16
  {
    if '0' <= c <= '9' then Some(c as int - '0' as int)
    else if 'a' <= c <= 'f' then Some(c as int - 'a' as int + 10)
    else None
  }

  /** sprintf(name, "%04x.blk", id): four lower-case hexadecimal digits and ".blk". */
  function BlockFileName(id: Cell): (name: string)
    ensures |name| == 8 && name[4..] == ".blk"
  {
    [HexChar(id / 16 / 16 / 16), HexChar(id / 16 / 16 % 16), HexChar(id / 16 % 16), HexChar(id % 16)] + ".blk"
  }

  /** The block id a file name stands for, None when it is not four lower-case
      hexadecimal digits followed by ".blk". */
  function ParseBlockFileName(name: string): (r: Option<Cell>)
  {
    if |name| != 8 || name[4..] != ".blk" then None
    else match (HexValue(name[0]), HexValue(name[1]), HexValue(name[2]), HexValue(name[3]))
      case (Some(a), Some(b), Some(c), Some(d)) => Some(((a * 16 + b) * 16 + c) * 16 + d)
      case _ => None
  }

  lemma HexCharValue(d: nat)
    requires d < 16
    ensures HexValue(HexChar(d)) == Some(d)
  {
  }

  /** The name of a block file gives back its block id, so distinct blocks use distinct files. */
  lemma BlockFileNameRoundTrip(id: Cell, other: Cell)
    ensures ParseBlockFileName(BlockFileName(id)) == Some(id)
    ensures other != id ==> BlockFileName(other) != BlockFileName(id)
  {
    NameGivesId(id);
    NameGivesId(other);
  }

  lemma NameGivesId(id: Cell)
    ensures ParseBlockFileName(BlockFileName(id)) == Some(id)
  {
    var q1 := id / 16;
    var q2 := q1 / 16;
    var q3 := q2 / 16;
    assert id == q1 * 16 + id % 16 && q1 == q2 * 16 + q1 % 16 && q2 == q3 * 16 + q2 % 16;
    HexCharValue(q3);
    HexCharValue(q2 % 16);
    HexCharValue(q1 % 16);
    HexCharValue(id % 16);
    var name := BlockFileName(id);
    assert name[4..] == ".blk";
  }
}
