/** `filecrc8` of crc8.c: the CRC of a file, read through a 256-byte buffer. */
module FileCrc {
  import opened Crc

  const BUFF_SIZE: nat := 256

  /** An open file descriptor: the bytes that can be read from the file, and how many of them have been. After them
      `read` reports the end of the file, or an error if `failing`. */
  class Descriptor {
    const content: seq<bv8>
    const failing: bool
    var pos: nat

    ghost predicate Valid()
      reads this
    {
      pos <= |content|
    }

    constructor (content: seq<bv8>, failing: bool)
      ensures Valid() && this.content == content && this.failing == failing && pos == 0
    {
      this.content, this.failing, pos := content, failing, 0;
    }

    /** `read`: the number of bytes delivered, 0 at the end of the file, -1 on an error. How many of the remaining bytes
        are delivered, from 1 to the size of the buffer, is up to the system. */
    method Read(buff: array<bv8>) returns (rb: int)
      requires Valid() && buff.Length == BUFF_SIZE
      modifies this`pos, buff
      ensures Valid()
      ensures old(pos) == |content| ==> rb == (if failing then -1 else 0) && pos == old(pos)
      ensures old(pos) < |content| ==>
                && 1 <= rb <= BUFF_SIZE && pos == old(pos) + rb
                && buff[..rb] == content[old(pos)..pos]
    {
      if pos == |content| {
        rb := if failing then -1 else 0;
      } else {
        rb :| 1 <= rb <= BUFF_SIZE && rb <= |content| - pos;
        for i := 0 to rb
          invariant pos == old(pos)
          invariant buff[..i] == content[pos..pos + i]
        {
          buff[i] := content[pos + i];
        }
        pos := pos + rb;
      }
    }
  }

  /** The CRC of what has been read grows by the piece read next. */
  lemma CrcOfNextPiece(content: seq<bv8>, start: nat, done: nat, pos: nat, init: bv8)
    requires start <= done <= pos <= |content|
    ensures Crc8(content[start..pos], init) == Crc8(content[done..pos], Crc8(content[start..done], init))
  {
    CrcConcat(content[start..done], content[done..pos], init);
    assert content[start..done] + content[done..pos] == content[start..pos];
  }

  /** `filecrc8`: -1 on a read error, otherwise the CRC from 0xFF of everything still to be read, however `read` cuts
      it. */
  method FileCrc8(fd: Descriptor) returns (result: int)
    requires fd.Valid()
    modifies fd
    ensures result == if fd.failing then -1 else Crc8(fd.content[old(fd.pos)..], 0xFF) as int
    ensures result == -1 <==> fd.failing
    ensures fd.pos == |fd.content|
  {
    var crc: bv8 := 0xFF;
    var buff := new bv8[BUFF_SIZE];
    ghost var start, done := fd.pos, fd.pos;  // what has been read and added to `crc` is from start to done
    var rb := fd.Read(buff);
    while rb > 0
      invariant fd.Valid() && start <= done <= fd.pos
      invariant crc == Crc8(fd.content[start..done], 0xFF)
      invariant rb > 0 ==> rb <= BUFF_SIZE && fd.pos == done + rb && buff[..rb] == fd.content[done..fd.pos]
      invariant rb <= 0 ==> done == fd.pos == |fd.content| && rb == (if fd.failing then -1 else 0)
      decreases |fd.content| - done
    {
      crc := ComputeCrc8(buff, rb, crc);
      CrcOfNextPiece(fd.content, start, done, fd.pos, 0xFF);
      done := fd.pos;
      rb := fd.Read(buff);
    }
    assert fd.content[start..] == fd.content[start..done];
    result := if rb == -1 then -1 else crc as int;
  }
}
