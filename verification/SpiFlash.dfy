/** The flash chip behind APB_SpiFlashInterface. Any command may fail, and a write or an erase that
    reports success may still have left arbitrary data: the updater's own read-back must notice. */
module SpiFlash {
  import opened Bytes

  class Flash {
    var mem: seq<byte>
    /** Commands that failed, or that left something else than they were told to. */
    ghost var faults: nat
    const maxWriteBlock: nat
    const eraseBlock: nat

    constructor (contents: seq<byte>, maxWriteBlock: nat, eraseBlock: nat)
      ensures mem == contents && this.maxWriteBlock == maxWriteBlock && this.eraseBlock == eraseBlock
    {
      mem, faults := contents, 0;
      this.maxWriteBlock := maxWriteBlock;
      this.eraseBlock := eraseBlock;
    }

    /** Nothing outside [addr, addr+n) changes; a range off the end of the chip is refused. */
    twostate predicate OnlyTouched(addr: nat, n: nat)
      reads this
    {
      |mem| == |old(mem)|
      && if addr + n <= |mem|
         then mem[..addr] == old(mem)[..addr] && mem[addr + n..] == old(mem)[addr + n..]
         else mem == old(mem)
    }

    method WriteData(addr: nat, data: seq<byte>) returns (ok: bool)
      modifies this`mem, this`faults
      ensures OnlyTouched(addr, |data|) && faults >= old(faults)
      ensures ok ==> addr + |data| <= |mem|
      ensures faults == old(faults) ==> ok && mem[addr..addr + |data|] == data
    {
      ok := Program(addr, data);
    }

    method EraseSector(addr: nat) returns (ok: bool)
      modifies this`mem, this`faults
      ensures OnlyTouched(addr, eraseBlock) && faults >= old(faults)
      ensures ok ==> addr + eraseBlock <= |mem|
      ensures faults == old(faults) ==> ok && forall a | addr <= a < addr + eraseBlock :: mem[a] == 0xff
    {
      ok := Program(addr, seq(eraseBlock, _ => 0xff));
      if ok {
        assert forall a | addr <= a < addr + eraseBlock :: mem[a] == mem[addr..addr + eraseBlock][a - addr];
      }
    }

    method ReadData(addr: nat, n: nat) returns (data: seq<byte>)
      requires addr + n <= |mem|
      ensures data == mem[addr..addr + n]
    {
      data := mem[addr..addr + n];
    }

    /** Programs the range, possibly with something other than `data`. */
    method Program(addr: nat, data: seq<byte>) returns (ok: bool)
      modifies this`mem, this`faults
      ensures OnlyTouched(addr, |data|) && faults >= old(faults)
      ensures ok ==> addr + |data| <= |mem|
      ensures faults == old(faults) ==> ok && mem[addr..addr + |data|] == data
    {
      ok := addr + |data| <= |mem|;
      if ok {
        var n := |data|;
        var stored: seq<byte> :| |stored| == |data|;
        mem := mem[..addr] + stored + mem[addr + n..];
        ok := *;
        if !ok || stored != data { faults := faults + 1; }
      } else {
        faults := faults + 1;
      }
    }
  }
}
