/** The streaming FPGA firmware updater: a class over two queues and the flash chip, proved to be at
    every call boundary where the one-pass parser is on the whole stream received so far. */
module FPGAFirmwareUpdater {
  import opened Bits
  import opened Bytes
  import opened BitstreamParser
  import opened ByteFifo
  import opened SpiFlash
  import opened FlashLayout
  import Framing

  const READBACK_SIZE := 512
  const BLANK_CHECK_BLOCK := 256

  class Updater {
    const deviceName: seq<byte>
    const imageOffset: nat
    const imageSize: nat
    const flash: Flash
    const rxBuffer: Fifo
    const writeBuffer: Fifo

    var state: Phase
    var bigWordLen: nat
    var wptr: nat

    /** Bytes accepted since the device was opened, and bytes the write buffer has accepted. */
    ghost var stream: seq<byte>
    ghost var out: seq<byte>
    /** Flash contents before the first image byte was written (after the erase, once it has happened). */
    ghost var base: seq<byte>
    /** A flash command failed, or what was read back differed. */
    ghost var fault: bool
    /** A push to the write buffer was refused. */
    ghost var refused: bool
    /** The chip when the device was opened. */
    ghost var memAtOpen: seq<byte>
    ghost var faultsAtOpen: nat
    /** Write blocks programmed so far. */
    ghost var blocks: nat
    /** The open device has not been closed yet. */
    ghost var active: bool

    ghost function Abs(): Parser reads this, rxBuffer { Parser(state, bigWordLen, rxBuffer.data, out) }

    /** Fixed facts about the hardware and the partition. */
    ghost predicate Config()
      reads flash
    {
      && rxBuffer != writeBuffer
      && 0 < flash.maxWriteBlock
      && 0 < flash.eraseBlock
      && imageOffset <= |flash.mem|
      && imageSize <= |flash.mem|
      && |flash.mem| % BLANK_CHECK_BLOCK == 0
    }

    /** What the write buffer accepted is in flash or still in the buffer, in whole write blocks,
        and flash is otherwise as it was. */
    ghost predicate Stored()
      reads this`wptr, this`blocks, this`out, this`base, writeBuffer, flash
    {
      && imageOffset <= wptr <= |flash.mem| == |base|
      && wptr == imageOffset + blocks * flash.maxWriteBlock
      && out == flash.mem[imageOffset..wptr] + writeBuffer.data
      && flash.mem[..imageOffset] == base[..imageOffset]
      && flash.mem[wptr..] == base[wptr..]
    }

    /** A fault is never made up: the chip misbehaved, its write block is too large, or the blank check
        covered more than the erase. */
    ghost predicate Blamed()
      reads this`fault, this`memAtOpen, this`faultsAtOpen, flash
    {
      && flash.faults >= faultsAtOpen
      && (fault ==> flash.faults > faultsAtOpen || flash.maxWriteBlock > READBACK_SIZE || Uncovered(memAtOpen))
    }

    /** The addresses the erase covers. */
    predicate Erases(a: int)
      requires 0 < flash.eraseBlock
    {
      imageOffset <= a < imageOffset + EraseBlockCount(imageSize, flash.eraseBlock) * flash.eraseBlock
    }

    /** What a working chip holds after the erase. */
    ghost function AfterErase(mem: seq<byte>): (after: seq<byte>)
      requires 0 < flash.eraseBlock
      ensures |after| == |mem|
    {
      seq(|mem|, a requires 0 <= a < |mem| => if Erases(a) then 0xff else mem[a])
    }

    /** Some byte the blank check reads is not erased and not blank in `mem`. */
    ghost predicate Uncovered(mem: seq<byte>) {
      0 < flash.eraseBlock
      && exists a :: 0 <= a < CheckedSize() && a < |mem| && mem[a] != 0xff && !Erases(a)
    }

    /** Bytes read by the blank check: whole blocks, from address 0 whatever the partition offset is. */
    function CheckedSize(): nat { (imageSize + BLANK_CHECK_BLOCK - 1) / BLANK_CHECK_BLOCK * BLANK_CHECK_BLOCK }

    ghost predicate Blank(mem: seq<byte>) {
      CheckedSize() <= |mem| && forall a | 0 <= a < CheckedSize() :: mem[a] == 0xff
    }

    /** The partition was blank before the first image byte was written; on a working chip, by the erase. */
    ghost predicate BaseErased()
      requires 0 < flash.eraseBlock
      reads this`base, this`memAtOpen, this`faultsAtOpen, flash
    {
      Blank(base) && (flash.faults == faultsAtOpen ==> base == AfterErase(memAtOpen))
    }

    predicate InHeader() reads this { state == ReadBitHdr || state == ReadRecords }

    /** Holds whenever no buffer operation is half done. `target` is where the parser will stop. */
    ghost predicate Working(target: Parser)
      reads this, rxBuffer, writeBuffer, flash
    {
      && Config() && Blamed()
      && (fault ==> state == Failed)
      && (!fault ==> Stored())
      && (!fault && !refused ==> Run(deviceName, Abs()) == target)
      && (InHeader() ==> !refused && out == [] && base == memAtOpen)
      && (!InHeader() && state != Failed ==> BaseErased())
    }

    /** The write buffer holds less than a write block whenever a call returns. A chip whose write
        block does not fit the read-back buffer is never written. */
    ghost predicate Drained()
      reads this, writeBuffer
    {
      !fault ==>
        && |writeBuffer.data| < flash.maxWriteBlock
        && (flash.maxWriteBlock > READBACK_SIZE ==> out == [] && (state == ReadBitHdr || state == Failed))
    }

    ghost predicate Valid()
      reads this, rxBuffer, writeBuffer, flash
    {
      && Working(Parse(deviceName, stream))
      && Drained()
      && (!fault && !refused ==> Abs() == Parse(deviceName, stream))
    }

    constructor (deviceName: seq<byte>, imageOffset: nat, imageSize: nat, flash: Flash, capacity: nat)
      ensures this.deviceName == deviceName && this.imageOffset == imageOffset
      ensures this.imageSize == imageSize && this.flash == flash
      ensures fresh(rxBuffer) && fresh(writeBuffer) && rxBuffer != writeBuffer
      ensures rxBuffer.capacity == capacity && writeBuffer.capacity == capacity
    {
      this.deviceName, this.imageOffset, this.imageSize := deviceName, imageOffset, imageSize;
      this.flash := flash;
      rxBuffer := new Fifo(capacity);
      writeBuffer := new Fifo(capacity);
      state, bigWordLen := ReadBitHdr, 0;
      active := false;
    }

    method OnDeviceOpened()
      requires Config()
      modifies this, rxBuffer, writeBuffer
      ensures Valid() && active && stream == []
      ensures wptr == imageOffset && base == memAtOpen == flash.mem && faultsAtOpen == flash.faults
      ensures !fault && !refused
    {
      hide Run, Parse, Step, Ready, Blank, Uncovered, CheckedSize, AfterErase, BaseErased;
      rxBuffer.Reset();
      writeBuffer.Reset();
      state := ReadBitHdr;
      bigWordLen := 0;
      wptr := imageOffset;
      stream, out, base, blocks := [], [], flash.mem, 0;
      fault, refused, active := false, false, true;
      memAtOpen, faultsAtOpen := flash.mem, flash.faults;
      ParseNothing(deviceName);
      assert Stored();
      assert Abs() == START;
    }

    // -------------------------------------------------------------- flash

    /** Erases the partition and checks that it is blank. On a working chip this fails exactly when the
        blank check reads a byte that was not erased and was not blank before. */
    method EraseFlashPartition()
      requires Config() && state == SyncWait && !fault
      modifies this`state, this`fault, flash
      ensures Config() && flash.faults >= old(flash.faults)
      ensures |flash.mem| == |old(flash.mem)|
      ensures if fault then state == Failed else state == SyncWait && Blank(flash.mem)
      ensures flash.faults == old(flash.faults) ==>
                flash.mem == AfterErase(old(flash.mem)) && (fault <==> Uncovered(old(flash.mem)))
      ensures flash.mem[..imageOffset] == old(flash.mem)[..imageOffset]
    {
      EraseSectors();
      if state == Failed { return; }
      BlankCheck();
      if fault && flash.faults == old(flash.faults) {
        var a :| 0 <= a < CheckedSize() && flash.mem[a] != 0xff;
        assert old(flash.mem)[a] == flash.mem[a];
      }
    }

    method EraseSectors()
      requires Config() && state == SyncWait && !fault
      modifies this`state, this`fault, flash
      ensures flash.faults >= old(flash.faults) && |flash.mem| == |old(flash.mem)|
      ensures if fault then state == Failed && flash.faults > old(flash.faults) else state == SyncWait
      ensures flash.mem[..imageOffset] == old(flash.mem)[..imageOffset]
      ensures flash.faults == old(flash.faults) ==> forall a | 0 <= a < |flash.mem| ::
                flash.mem[a] == if Erases(a) then 0xff else old(flash.mem)[a]
    {
      hide EraseBlockCount;
      var secsize := flash.eraseBlock;
      var nblocks := EraseBlockCount(imageSize, secsize);
      for i := 0 to nblocks
        invariant |flash.mem| == |old(flash.mem)| && flash.faults >= old(flash.faults)
        invariant flash.mem[..imageOffset] == old(flash.mem)[..imageOffset]
        invariant flash.faults == old(flash.faults) ==> ErasedUpTo(old(flash.mem), imageOffset + i * secsize)
        invariant state == SyncWait && !fault
      {
        ghost var before, faults := flash.mem, flash.faults;
        NextSector(i, secsize);
        var ok := flash.EraseSector(imageOffset + i * secsize);
        OnlyTouchedAbove(before, flash.mem, imageOffset, imageOffset + i * secsize, secsize);
        if flash.faults == faults {
          SectorErased(before, flash.mem, imageOffset + i * secsize, secsize);
        }
        if !ok {
          state, fault := Failed, true;
          return;
        }
      }
    }

    /** The partition is erased up to `end`, and the rest of the chip is as it was. */
    ghost predicate ErasedUpTo(before: seq<byte>, end: nat)
      reads flash
    {
      |flash.mem| == |before|
      && forall a | 0 <= a < |before| :: flash.mem[a] == if imageOffset <= a < end then 0xff else before[a]
    }

    method BlankCheck()
      requires Config() && state == SyncWait && !fault
      modifies this`state, this`fault
      ensures if fault then state == Failed && !Blank(flash.mem) else state == SyncWait && Blank(flash.mem)
      ensures CheckedSize() <= |flash.mem|
    {
      var addr := 0;
      while addr < imageSize
        invariant 0 <= addr <= CheckedSize() <= |flash.mem| && state == SyncWait && !fault
        invariant addr % BLANK_CHECK_BLOCK == 0
        invariant forall a | 0 <= a < addr :: flash.mem[a] == 0xff
        decreases imageSize - addr
      {
        var buf := flash.ReadData(addr, BLANK_CHECK_BLOCK);
        if exists k | 0 <= k < BLANK_CHECK_BLOCK :: buf[k] != 0xff {
          var k :| 0 <= k < BLANK_CHECK_BLOCK && buf[k] != 0xff;
          assert flash.mem[addr + k] != 0xff;
          state, fault := Failed, true;
          return;
        }
        forall a | addr <= a < addr + BLANK_CHECK_BLOCK ensures flash.mem[a] == 0xff {
          assert buf[a - addr] == 0xff;
        }
        addr := addr + BLANK_CHECK_BLOCK;
      }
    }

    /** Writes bytes at the write pointer and compares what is read back. */
    method WriteVerified(wbuf: seq<byte>) returns (ok: bool)
      requires Config() && Blamed()
      modifies this`state, this`fault, flash
      ensures Config() && Blamed() && flash.faults >= old(flash.faults)
      ensures ok ==> unchanged(this) && flash.OnlyTouched(wptr, |wbuf|)
                     && wptr + |wbuf| <= |flash.mem| && flash.mem[wptr..wptr + |wbuf|] == wbuf
      ensures !ok ==> fault && state == Failed && |flash.mem| == old(|flash.mem|)
    {
      ok := flash.WriteData(wptr, wbuf);
      if ok {
        var rdbuf := flash.ReadData(wptr, |wbuf|);
        ok := rdbuf == wbuf;
      }
      if !ok {
        state, fault := Failed, true;
      }
    }

    /** Writes the oldest full block and moves on. */
    method WriteBlock() returns (ok: bool)
      requires Config() && Blamed() && !fault && Stored() && flash.maxWriteBlock <= |writeBuffer.data|
      modifies this`state, this`wptr, this`fault, this`blocks, writeBuffer, flash
      ensures Config() && Blamed() && flash.faults >= old(flash.faults)
      ensures if ok then !fault && state == old(state) && Stored() else fault && state == Failed
      ensures ok ==> |writeBuffer.data| < old(|writeBuffer.data|)
    {
      hide Config, Blamed;
      var wblock := flash.maxWriteBlock;
      assert wblock > 0 by { ConfigFacts(); }
      var wbuf := writeBuffer.Rewind()[..wblock];
      ghost var mem := flash.mem;
      ok := WriteVerified(wbuf);
      if !ok { return; }
      BlockWritten(mem, flash.mem, base, imageOffset, wptr, wbuf);
      assert writeBuffer.data == wbuf + writeBuffer.data[wblock..];
      writeBuffer.Pop(wblock);
      wptr := wptr + wblock;
      blocks := blocks + 1;
    }

    lemma NoFewerFaults()
      requires Blamed()
      ensures flash.faults >= faultsAtOpen
    {
    }

    lemma ConfigFacts()
      requires Config()
      ensures flash.maxWriteBlock > 0 && rxBuffer != writeBuffer
    {
    }

    /** Writes out every full block. */
    method PushWriteData()
      requires Config() && Blamed() && (fault ==> state == Failed) && (!fault ==> Stored())
      modifies this`state, this`wptr, this`fault, this`blocks, writeBuffer, flash
      ensures flash.faults >= old(flash.faults)
      ensures Config() && Blamed() && (fault ==> state == Failed) && (!fault ==> Stored())
      ensures old(state) == Failed ==> unchanged(this) && unchanged(writeBuffer) && unchanged(flash)
      ensures !fault ==> state == old(state)
      ensures !fault && state != Failed ==> |writeBuffer.data| < flash.maxWriteBlock <= READBACK_SIZE
      ensures old(|writeBuffer.data|) < flash.maxWriteBlock <= READBACK_SIZE ==>
                unchanged(this) && unchanged(writeBuffer) && unchanged(flash)
      ensures flash.maxWriteBlock > READBACK_SIZE ==> unchanged(writeBuffer) && unchanged(flash)
      ensures old(fault) ==> fault
    {
      if state == Failed { return; }
      var wblock := flash.maxWriteBlock;
      if wblock > READBACK_SIZE {
        state, fault := Failed, true;
        return;
      }
      while writeBuffer.ReadSize() >= wblock
        invariant flash.faults >= old(flash.faults)
        invariant Config() && Blamed() && !fault && state == old(state) && Stored()
        invariant old(|writeBuffer.data|) < wblock ==> unchanged(this) && unchanged(writeBuffer) && unchanged(flash)
        decreases |writeBuffer.data|
      {
        var ok := WriteBlock();
        if !ok { return; }
      }
    }

    /** After the last chunk: whatever is left goes to flash, in one short block. */
    method FlushWriteData()
      requires Config() && Blamed() && (fault ==> state == Failed) && (!fault ==> Stored()) && Drained()
      modifies this`state, this`wptr, this`fault, this`blocks, writeBuffer, flash
      ensures Blamed() && (fault ==> state == Failed) && flash.faults >= old(flash.faults)
      ensures !fault ==> state == old(state)
      ensures old(fault) ==> fault
      ensures |flash.mem| == old(|flash.mem|)
      ensures old(state) == Failed ==> unchanged(this) && unchanged(flash)
      ensures state != Failed ==> imageOffset + |out| <= |flash.mem| == |base|
      ensures state != Failed ==> flash.mem == base[..imageOffset] + out + base[imageOffset + |out|..]
      ensures state != Failed ==> writeBuffer.data == []
    {
      hide Blank, Uncovered, Run, CheckedSize, AfterErase, Stored, Blamed;
      if state == Failed { return; }
      RestFits();
      PushWriteData();
      assert writeBuffer.ReadSize() <= 512;
      WriteRest();
    }

    /** What is left never overruns the read-back buffer, even if writing the blocks before it failed. */
    lemma RestFits()
      requires !fault && Stored() && Drained() && state != Failed
      ensures |writeBuffer.data| <= READBACK_SIZE
      ensures flash.maxWriteBlock <= READBACK_SIZE ==> |writeBuffer.data| < flash.maxWriteBlock
    {
    }

    /** Writes what is left in the write buffer. */
    method WriteRest()
      requires Config() && Blamed() && (fault <==> state == Failed) && (!fault ==> Stored())
      modifies this`state, this`fault, writeBuffer, flash
      ensures Blamed() && flash.faults >= old(flash.faults) && |flash.mem| == old(|flash.mem|)
      ensures old(fault) ==> fault
      ensures if fault then state == Failed else state == old(state)
      ensures !fault ==> imageOffset + |out| <= |flash.mem| == |base|
      ensures !fault ==> flash.mem == base[..imageOffset] + out + base[imageOffset + |out|..]
      ensures !fault ==> writeBuffer.data == []
    {
      hide Blamed;
      var wbuf := writeBuffer.Rewind();
      ghost var mem := flash.mem;
      var ok := WriteVerified(wbuf);
      if !ok { return; }
      writeBuffer.Pop(|wbuf|);
      hide Config;
      if state != Failed {
        BlockWritten(mem, flash.mem, base, imageOffset, wptr, wbuf);
        InThree(flash.mem, imageOffset, wptr + |wbuf|);
      }
    }

    // -------------------------------------------------------------- parser

    /** What handling some buffered data achieves, whichever state it started in. */
    twostate predicate Handled(more: bool, target: Parser)
      reads this, rxBuffer, writeBuffer, flash
    {
      && Working(target)
      && |rxBuffer.data| <= old(|rxBuffer.data|)
      && (more ==> || |rxBuffer.data| < old(|rxBuffer.data|)
                   || (|rxBuffer.data| == old(|rxBuffer.data|) && Rank(state) < old(Rank(state))))
      && (!more && !fault && !refused ==> Abs() == target)
      && (old(refused) ==> refused)
      && (refused ==> old(refused) || old(|writeBuffer.data| + |rxBuffer.data|) > writeBuffer.capacity)
      && (old(fault) ==> fault && refused == old(refused))
      && (state == Failed ==> writeBuffer.data == old(writeBuffer.data) && out == old(out))
    }

    /** Moves the next `n` received bytes to the write buffer. The receive buffer gives them up
        even when the write buffer refuses them. */
    method Forward(n: nat) returns (ok: bool)
      requires rxBuffer != writeBuffer && n <= |rxBuffer.data|
      modifies this`out, this`refused, rxBuffer, writeBuffer
      ensures rxBuffer.data == old(rxBuffer.data)[n..]
      ensures ok == (old(|writeBuffer.data|) + n <= writeBuffer.capacity)
      ensures refused == (old(refused) || !ok)
      ensures ok ==> writeBuffer.data == old(writeBuffer.data + rxBuffer.data[..n])
      ensures ok ==> Abs() == Emit(old(Abs()), n)
      ensures !ok ==> writeBuffer.data == old(writeBuffer.data) && out == old(out)
      ensures old(Stored()) ==> Stored()
    {
      var ptr := rxBuffer.Rewind();
      ok := writeBuffer.Push(ptr[..n]);
      rxBuffer.Pop(n);
      if ok {
        out := out + ptr[..n];
      } else {
        refused := true;
      }
    }

    method ProcessMagic(ghost target: Parser) returns (more: bool)
      requires Working(target) && state == ReadBitHdr
      modifies this`state, rxBuffer
      ensures Handled(more, target)
    {
      hide Run, Stored, BaseErased, Blamed, Config, PacketType, ShortLen, BigEndian32, CString;
      ConfigFacts();
      more := rxBuffer.ReadSize() >= 13;
      if more {
        RunStep(deviceName, Abs());
        if rxBuffer.Rewind()[..13] != MAGIC {
          state := Failed;
        } else {
          rxBuffer.Pop(13);
          state := ReadRecords;
        }
      } else {
        RunStops(deviceName, Abs());
      }
    }

    /** Copies a record's text up to its first NUL. */
    method RecordText(p: seq<byte>) returns (tmp: seq<byte>)
      ensures tmp == CString(p)
    {
      hide CString;
      tmp := [];
      while |tmp| < |p| && p[|tmp|] != 0
        invariant tmp <= p && 0 !in tmp
        decreases |p| - |tmp|
      {
        tmp := tmp + [p[|tmp|]];
      }
      CStringIs(p, |tmp|);
    }

    method ProcessRecord(ghost target: Parser) returns (more: bool)
      requires Working(target) && state == ReadRecords && !TornRecord(target)
      modifies this`state, this`fault, this`base, rxBuffer, flash
      ensures Handled(more, target)
    {
      hide Run, Stored, BaseErased, Blamed, Config, PacketType, ShortLen, BigEndian32, CString;
      ConfigFacts();
      more := false;
      ghost var before := Abs();
      if !Ready(before) { RunStops(deviceName, before); } else { RunStep(deviceName, before); }
      if rxBuffer.ReadSize() >= 3 {
        var p := rxBuffer.Rewind();
        if p[0] == RECORD_E {
          StartImage(target);
          return true;
        }
        var blocksize := 3 + p[2] as int;
        if rxBuffer.ReadSize() >= blocksize {
          var tmp := RecordText(p[3..blocksize]);
          if p[0] == RECORD_B && tmp != deviceName {
            state := Failed;
          }
          rxBuffer.Pop(blocksize);
          return true;
        }
      }
    }

    /** The start record: drops its five bytes and erases the partition. */
    method StartImage(ghost target: Parser)
      requires Working(target) && state == ReadRecords && |rxBuffer.data| >= 5 && rxBuffer.data[0] == RECORD_E
      modifies this`state, this`fault, this`base, rxBuffer, flash
      ensures Handled(true, target)
      ensures flash.faults == old(flash.faults) ==> (state == Failed <==> Uncovered(old(flash.mem)))
    {
      hide Run, Blank, Uncovered, CheckedSize, AfterErase, PacketType, ShortLen, BigEndian32, CString;
      RunStep(deviceName, Abs());
      assert writeBuffer.data == [] && wptr == imageOffset;
      rxBuffer.Pop(5);
      state := SyncWait;
      assert flash.mem == flash.mem[..imageOffset] + flash.mem[imageOffset..] == memAtOpen;
      EraseFlashPartition();
      base := flash.mem;
    }

    /** So many bytes moved to the write buffer do not fit. */
    predicate Overfull(queued: nat, moved: int) { moved > 0 && queued + moved > writeBuffer.capacity }

    /** During the search: what was moved is in the write buffer, or some of it was refused. */
    ghost predicate SyncAccount(refusedBefore: bool, queued: nat, received: nat)
      reads this, rxBuffer, writeBuffer
    {
      var moved := received - |rxBuffer.data|;
      && moved >= 0
      && (refused <==> refusedBefore || Overfull(queued, moved))
      && (!Overfull(queued, moved) ==> |writeBuffer.data| == queued + moved)
      && (Overfull(queued, moved) ==> |writeBuffer.data| >= writeBuffer.capacity)
    }

    method ProcessSyncWait(ghost target: Parser) returns (more: bool)
      requires Working(target) && state == SyncWait
      modifies this`state, this`out, this`refused, rxBuffer, writeBuffer
      ensures Handled(more, target) && (!old(refused) && refused ==> state != Failed)
      ensures refused <==> old(refused) || Overfull(old(|writeBuffer.data|), SyncMoved(old(rxBuffer.data)))
    {
      hide Working, Run;
      Apart(target);
      while rxBuffer.ReadSize() > 4
        invariant Working(target) && state == SyncWait
        invariant |rxBuffer.data| <= old(|rxBuffer.data|)
        invariant old(|rxBuffer.data|) - |rxBuffer.data| + SyncMoved(rxBuffer.data) == SyncMoved(old(rxBuffer.data))
        invariant SyncAccount(old(refused), old(|writeBuffer.data|), old(|rxBuffer.data|))
        decreases |rxBuffer.data|
      {
        var found := SyncStep(target);
        if found { return true; }
      }
      more := false;
      if !fault && !refused { SyncWaits(target); }
    }

    lemma SyncWaits(target: Parser)
      requires Working(target) && state == SyncWait && |rxBuffer.data| <= 4 && !fault && !refused
      ensures Abs() == target
    {
      RunStops(deviceName, Abs());
    }

    /** One step of the search: the sync word, or one byte that is not its first, moves on. */
    method SyncStep(ghost target: Parser) returns (found: bool)
      requires Working(target) && state == SyncWait && |rxBuffer.data| > 4
      modifies this`state, this`out, this`refused, rxBuffer, writeBuffer
      ensures Working(target) && found == (old(rxBuffer.data)[..4] == SYNC_WORD)
      ensures state == if found then Bitstream else SyncWait
      ensures var n := if found then 4 else 1;
              && rxBuffer.data == old(rxBuffer.data)[n..]
              && refused == (old(refused) || old(|writeBuffer.data|) + n > writeBuffer.capacity)
              && |writeBuffer.data| == old(|writeBuffer.data|)
                                       + if old(|writeBuffer.data|) + n > writeBuffer.capacity then 0 else n
    {
      hide Run, Stored, BaseErased, Blamed, Config;
      ConfigFacts();
      RunStep(deviceName, Abs());
      found := rxBuffer.Rewind()[..4] == SYNC_WORD;
      if found {
        var _ := Forward(4);
        state := Bitstream;
      } else {
        var _ := Forward(1);
      }
    }

    method ProcessPacket(ghost target: Parser) returns (more: bool)
      requires Working(target) && state == Bitstream
      modifies this`state, this`bigWordLen, this`out, this`refused, rxBuffer, writeBuffer
      ensures Handled(more, target) && (!old(refused) && refused ==> state != Failed)
      ensures refused <==> old(refused) || Overfull(old(|writeBuffer.data|), PacketMoved(old(rxBuffer.data)))
    {
      hide Run, Step, BigEndian32, PacketType, ShortLen, Stored, BaseErased, Blamed, Config;
      ConfigFacts();
      ghost var before := Abs();
      if !Ready(before) { RunStops(deviceName, before); } else { RunStep(deviceName, before); }
      if rxBuffer.ReadSize() < 4 { return false; }
      var ptr := rxBuffer.Rewind();
      if PacketType(ptr) == 1 && rxBuffer.ReadSize() < ShortSize(ptr) { return false; }
      MovePacket();
      more := true;
    }

    /** A packet that is whole, or the header of a type 2 packet. */
    method MovePacket()
      requires rxBuffer != writeBuffer && state == Bitstream && Ready(Abs())
      modifies this`state, this`bigWordLen, this`out, this`refused, rxBuffer, writeBuffer
      ensures refused <==> old(refused) || Overfull(old(|writeBuffer.data|), PacketMoved(old(rxBuffer.data)))
      ensures !refused ==> Abs() == Step(deviceName, old(Abs()))
      ensures state == Bitstream || state == Done || state == BigWrite || state == Failed
      ensures |rxBuffer.data| == old(|rxBuffer.data|) - PacketMoved(old(rxBuffer.data))
      ensures state == Failed <==> PacketMoved(old(rxBuffer.data)) == 0
      ensures state == Failed ==> writeBuffer.data == old(writeBuffer.data) && out == old(out)
      ensures old(Stored()) ==> Stored()
    {
      hide BigEndian32, PacketType, ShortLen, LongLen, EndsImage, Stored;
      var ptr := rxBuffer.Rewind();
      if PacketType(ptr) == 1 {
        var packsize := ShortSize(ptr);
        if EndsImage(ptr) {
          state := Done;
        }
        var _ := Forward(packsize);
      } else if PacketType(ptr) == 2 {
        bigWordLen := LongLen(ptr);
        state := BigWrite;
        var _ := Forward(4);
      } else {
        state := Failed;
      }
    }

    /** The words a big write would copy do not fit the write buffer. */
    predicate WordsRefused()
      reads this, rxBuffer, writeBuffer
    {
      |rxBuffer.data| >= 4
      && |writeBuffer.data| + 4 * BigCount(|rxBuffer.data|, bigWordLen) > writeBuffer.capacity
    }

    /** An overflow fails the update exactly when words of the packet are still missing: with the last
        word, the failure is overwritten. */
    method ProcessBigWrite(ghost target: Parser) returns (more: bool)
      requires Working(target) && state == BigWrite
      modifies this`state, this`bigWordLen, this`out, this`refused, rxBuffer, writeBuffer
      ensures Handled(more, target)
      ensures refused <==> old(refused) || old(WordsRefused())
      ensures state == if old(|rxBuffer.data|) >= 4 && old(bigWordLen) <= old(|rxBuffer.data|) / 4 then Bitstream
                       else if old(WordsRefused()) then Failed
                       else BigWrite
    {
      hide Run, Stored, BaseErased, Blamed, Config, Ready, Step, AfterWords;
      ConfigFacts();
      if rxBuffer.ReadSize() < 4 {
        BigWriteWaits(deviceName, Abs());
        return false;
      }
      var wordcount := rxBuffer.ReadSize() / 4;
      if wordcount >= bigWordLen {
        wordcount := bigWordLen;
      }
      BigWriteRuns(deviceName, Abs(), wordcount);
      MoveWords(wordcount);
      more := bigWordLen == 0;
    }

    /** The words that are buffered, and the state after them: with the last one it is BITSTREAM, even if the
        write buffer refused them. */
    method MoveWords(wordcount: nat)
      requires rxBuffer != writeBuffer && state == BigWrite
      requires wordcount <= bigWordLen && 4 * wordcount <= |rxBuffer.data|
      modifies this`state, this`bigWordLen, this`out, this`refused, rxBuffer, writeBuffer
      ensures bigWordLen == old(bigWordLen) - wordcount
      ensures refused == (old(refused) || old(|writeBuffer.data|) + 4 * wordcount > writeBuffer.capacity)
      ensures state == if bigWordLen == 0 then Bitstream
                       else if old(|writeBuffer.data|) + 4 * wordcount > writeBuffer.capacity then Failed
                       else BigWrite
      ensures |rxBuffer.data| == old(|rxBuffer.data|) - 4 * wordcount
      ensures !refused ==> Abs() == AfterWords(old(Abs()), wordcount)
      ensures state == Failed ==> writeBuffer.data == old(writeBuffer.data) && out == old(out)
      ensures old(Stored()) ==> Stored()
    {
      hide Stored;
      var ok := Forward(4 * wordcount);
      if !ok {
        state := Failed;
      }
      bigWordLen := bigWordLen - wordcount;
      if bigWordLen == 0 {
        state := Bitstream;
      }
    }

    /** Processes buffered data for the current state; false when it has to wait for more. */
    method ProcessDataFromBuffer(ghost target: Parser) returns (more: bool)
      requires Working(target) && !TornRecord(target)
      modifies this`state, this`bigWordLen, this`fault, this`base, this`out, this`refused
      modifies rxBuffer, writeBuffer, flash
      ensures Handled(more, target)
      ensures Terminal(old(state)) ==> !more && state == old(state) && unchanged(writeBuffer) && unchanged(flash)
    {
      match state {
        case ReadBitHdr => more := ProcessMagic(target);
        case ReadRecords => more := ProcessRecord(target);
        case SyncWait => more := ProcessSyncWait(target);
        case Bitstream => more := ProcessPacket(target);
        case BigWrite => more := ProcessBigWrite(target);
        case _ =>
          rxBuffer.Reset();
          more := false;
      }
    }

    /** One chunk from the host. The result depends only on the whole stream, not on its chunks. */
    method OnRxData(data: seq<byte>)
      requires Valid() && active
      requires !TornRecord(Feed(deviceName, Abs(), data))
      modifies this`state, this`bigWordLen, this`wptr, this`fault, this`blocks, this`base, this`out, this`refused
      modifies this`stream, rxBuffer, writeBuffer, flash
      ensures Valid() && active
      ensures if old(|rxBuffer.data|) + |data| <= rxBuffer.capacity
              then stream == old(stream) + data
              else unchanged(this) && unchanged(rxBuffer) && unchanged(writeBuffer) && unchanged(flash)
      ensures old(fault) ==> fault
      ensures refused ==> old(refused)
                          || old(|rxBuffer.data|) + |data| + flash.maxWriteBlock - 1 > writeBuffer.capacity
      ensures Terminal(old(state)) ==> state == old(state) && unchanged(flash)
    {
      hide Run, Step, Ready, Stored, BaseErased, Blamed;
      ghost var target := Feed(deviceName, Abs(), data);
      FeedTwice(deviceName, START, stream, data);
      var ok := rxBuffer.Push(data);
      if !ok { return; }
      stream := stream + data;
      ProcessBuffer(target);
    }

    lemma Apart(target: Parser)
      requires Working(target)
      ensures rxBuffer != writeBuffer && (fault ==> state == Failed)
    {
    }

    /** Writes out the full blocks between two steps of the parser. */
    method Drain(ghost target: Parser)
      requires Working(target) && (state == Failed ==> Drained())
      modifies this`state, this`wptr, this`fault, this`blocks, writeBuffer, flash
      ensures Working(target) && Drained() && (old(fault) ==> fault)
      ensures if fault then state == Failed else state == old(state)
      ensures Terminal(old(state)) && old(Drained()) ==>
                state == old(state) && unchanged(writeBuffer) && unchanged(flash)
    {
      hide Run, Stored, Blank, Uncovered, AfterErase;
      NoFewerFaults();
      PushWriteData();
    }

    /** Processes data until no more can be done with what is buffered. */
    method ProcessBuffer(ghost target: Parser)
      requires Working(target) && Drained() && !TornRecord(target)
      modifies this`state, this`bigWordLen, this`wptr, this`fault, this`blocks, this`base, this`out, this`refused
      modifies rxBuffer, writeBuffer, flash
      ensures Working(target) && Drained()
      ensures !fault && !refused ==> Abs() == target
      ensures (old(fault) ==> fault) && (old(refused) ==> refused)
      ensures refused ==> old(refused)
                          || old(|rxBuffer.data|) + flash.maxWriteBlock - 1 > writeBuffer.capacity
      ensures Terminal(old(state)) ==> state == old(state) && unchanged(flash)
    {
      hide Working, Run, Step, Ready;
      Apart(target);
      var more := true;
      while more
        invariant Working(target) && Drained()
        invariant |rxBuffer.data| <= old(|rxBuffer.data|)
        invariant (old(fault) ==> fault) && (old(refused) ==> refused)
        invariant refused ==> old(refused)
                              || old(|rxBuffer.data|) + flash.maxWriteBlock - 1 > writeBuffer.capacity
        invariant !more && !fault && !refused ==> Abs() == target
        invariant Terminal(old(state)) ==> state == old(state) && unchanged(writeBuffer) && unchanged(flash)
        decreases more, |rxBuffer.data|, Rank(state)
      {
        more := ProcessDataFromBuffer(target);
        Drain(target);
      }
    }

    /** Every byte the parser emitted is in flash, and nothing else changed there. */
    method OnDeviceClosed()
      requires Valid() && active
      modifies this`state, this`wptr, this`fault, this`blocks, this`active, writeBuffer, flash
      ensures Blamed() && flash.faults >= old(flash.faults) && (old(fault) ==> fault)
      ensures if fault then state == Failed else state == old(state)
      ensures old(state) == Failed ==> unchanged(flash)
      ensures state != Failed && !refused ==> Abs() == Parse(deviceName, stream)
      ensures state != Failed ==> imageOffset + |out| <= |base|
      ensures state != Failed ==> flash.mem == base[..imageOffset] + out + base[imageOffset + |out|..]
      ensures state != Failed ==> writeBuffer.data == []
      ensures state == Done ==> Blank(base)
      ensures state == Done && !refused ==>
                exists f: Framing.Image :: f.DescribesFile(deviceName, stream) && out == f.Flashed()
    {
      FlushWriteData();
      active := false;
      if state == Done && !refused {
        var f := Framing.DoneIsImage(deviceName, stream);
        Framing.ImageIsDone(deviceName, stream, f);
      }
    }
  }

  /** Words a big write copies at once. */
  function BigCount(received: nat, big: nat): nat { if received / 4 >= big then big else received / 4 }

  /** The parser after the words that are buffered. */
  function AfterWords(p: Parser, n: nat): Parser
    requires n <= p.big && 4 * n <= |p.rx|
  {
    Emit(p, 4 * n).(big := p.big - n, phase := if n == p.big then Bitstream else BigWrite)
  }

  lemma BigWriteRuns(device: seq<byte>, p: Parser, n: nat)
    requires p.phase == BigWrite && |p.rx| >= 4 && n == BigCount(|p.rx|, p.big)
    ensures var q := AfterWords(p, n); Run(device, p) == Run(device, q) && (n < p.big ==> Run(device, q) == q)
  {
    hide Run;
    RunBigWords(device, p, n);
    var q := BigWords(p, n);
    if p.big == 0 {
      RunStep(device, q);
      assert Emit(q, 0) == q;
    } else if n < p.big {
      RunStops(device, q);
    }
  }

  lemma BigWriteWaits(device: seq<byte>, p: Parser)
    requires p.phase == BigWrite && |p.rx| < 4
    ensures Run(device, p) == p
  {
  }

  /** Bytes the search for the sync word moves. */
  function SyncMoved(rx: seq<byte>): nat {
    if |rx| <= 4 then 0 else if rx[..4] == SYNC_WORD then 4 else 1 + SyncMoved(rx[1..])
  }

  /** All of them up to the end of the first sync word that has a byte behind it, or all but the last four. */
  lemma {:induction false} SyncMovedIs(rx: seq<byte>, k: nat)
    ensures Framing.SyncFirstAt(rx, k) ==> SyncMoved(rx) == k + 4
    ensures (forall j: nat :: !Framing.SyncAt(rx, j)) ==> SyncMoved(rx) == if |rx| <= 4 then 0 else |rx| - 4
    decreases |rx|
  {
    if |rx| > 4 && rx[..4] == SYNC_WORD {
      assert rx[0..4] == rx[..4];
      assert Framing.SyncAt(rx, 0);
    } else if |rx| > 4 {
      assert !Framing.SyncAt(rx, 0) by { assert rx[0..4] == rx[..4]; }
      if k > 0 {
        Framing.SyncShift(rx, k);
        SyncMovedIs(rx[1..], k - 1);
      } else {
        SyncMovedIs(rx[1..], 0);
      }
      forall j: nat | Framing.SyncAt(rx[1..], j) ensures Framing.SyncAt(rx, j + 1) {
        assert rx[1..][j..j + 4] == rx[j + 1..j + 5];
      }
    }
  }

  /** Bytes one step in the packets moves: a whole packet of type 1, or the header of one of type 2. */
  function PacketMoved(rx: seq<byte>): nat {
    if |rx| < 4 then 0
    else if PacketType(rx) == 1 then if |rx| < ShortSize(rx) then 0 else ShortSize(rx)
    else if PacketType(rx) == 2 then 4 else 0
  }

  /** A refused push that is forgotten: with 255 bytes queued and buffers of 4096 bytes, the rest of a big
      write fills the receive buffer. */
  method OverflowForgotten(u: Updater, ghost target: Parser)
    requires u.Working(target) && u.state == BigWrite && !u.refused && u.bigWordLen == 1024
    requires u.writeBuffer.capacity == 4096 == |u.rxBuffer.data| && |u.writeBuffer.data| == 255
    modifies u, u.rxBuffer, u.writeBuffer
    ensures u.refused && u.state == Bitstream
  {
    var _ := u.ProcessBigWrite(target);
  }

  /** One that is not noticed: the same buffers, and a NOP of 1024 words. */
  method PacketLost(u: Updater, ghost target: Parser)
    requires u.Working(target) && u.state == Bitstream && !u.refused
    requires u.writeBuffer.capacity == 4096 == |u.rxBuffer.data| && |u.writeBuffer.data| == 255
    requires u.rxBuffer.data[..4] == [0x20, 0, 0x03, 0xff]
    modifies u, u.rxBuffer, u.writeBuffer
    ensures u.refused && u.state != Failed
  {
    NopHead(u.rxBuffer.data);
    var _ := u.ProcessPacket(target);
  }

  lemma NopHead(rx: seq<byte>)
    requires |rx| == 4096 && rx[..4] == [0x20, 0, 0x03, 0xff]
    ensures PacketMoved(rx) == 4096
  {
    assert rx[0] == rx[..4][0] && rx[1] == rx[..4][1] && rx[2] == rx[..4][2] && rx[3] == rx[..4][3];
    assert BigEndian32(rx) == 0x2000_03ff;
  }

  /** Another: 4096 bytes of padding. */
  method PaddingLost(u: Updater, ghost target: Parser)
    requires u.Working(target) && u.state == SyncWait && !u.refused
    requires u.writeBuffer.capacity == 4096 == |u.rxBuffer.data| && |u.writeBuffer.data| == 255
    requires forall b <- u.rxBuffer.data :: b == 0xff
    modifies u, u.rxBuffer, u.writeBuffer
    ensures u.refused && u.state != Failed
  {
    PaddingMoved(u.rxBuffer.data);
    var _ := u.ProcessSyncWait(target);
  }

  lemma PaddingMoved(rx: seq<byte>)
    requires |rx| > 4 && forall b <- rx :: b == 0xff
    ensures SyncMoved(rx) == |rx| - 4
  {
    forall j: nat ensures !Framing.SyncAt(rx, j) {
      if j + 4 < |rx| { assert rx[j..j + 4][0] == rx[j] && rx[j] in rx && SYNC_WORD[0] == 0xaa; }
    }
    SyncMovedIs(rx, 0);
  }

  lemma OnlyTouchedAbove(before: seq<byte>, after: seq<byte>, low: nat, addr: nat, n: nat)
    requires |before| == |after| && low <= addr && low <= |before|
    requires if addr + n <= |after| then after[..addr] == before[..addr] else after == before
    ensures after[..low] == before[..low]
  {
    if addr + n <= |after| {
      assert after[..low] == after[..addr][..low] == before[..addr][..low] == before[..low];
    }
  }

  lemma InThree(mem: seq<byte>, a: nat, b: nat)
    requires a <= b <= |mem|
    ensures mem == mem[..a] + mem[a..b] + mem[b..]
  {
  }

  lemma NextSector(i: nat, size: nat)
    ensures i * size >= 0 && (i + 1) * size == i * size + size
  {
  }

  /** A sector erased without a fault, cell by cell. */
  lemma SectorErased(before: seq<byte>, after: seq<byte>, addr: nat, n: nat)
    requires |before| == |after| && addr + n <= |after|
    requires after[..addr] == before[..addr] && after[addr + n..] == before[addr + n..]
    ensures forall a | 0 <= a < |after| && !(addr <= a < addr + n) :: after[a] == before[a]
  {
    forall a | 0 <= a < |after| && !(addr <= a < addr + n) ensures after[a] == before[a] {
      if a < addr {
        assert after[..addr][a] == before[..addr][a];
      } else {
        assert after[addr + n..][a - addr - n] == before[addr + n..][a - addr - n];
      }
    }
  }

  /** With power-of-two sectors, the erase covers the whole sectors of the partition. */
  lemma ErasesExactly(u: Updater, k: nat, a: int)
    requires u.flash.eraseBlock == Pow2(k)
    ensures u.Erases(a) <==> u.imageOffset <= a < u.imageOffset + u.imageSize / Pow2(k) * Pow2(k)
  {
    hide EraseBlockCount, Pow2;
    EraseCoversExactly(u.imageSize, k);
  }

  /** For a partition at address 0 of whole power-of-two sectors, the blank check reads nothing the
      erase does not cover: only a misbehaving chip can fail it. */
  lemma CoveredPartition(u: Updater, k: nat, mem: seq<byte>)
    requires u.imageOffset == 0 && u.flash.eraseBlock == Pow2(k)
    requires u.imageSize % Pow2(k) == 0 && u.imageSize % BLANK_CHECK_BLOCK == 0
    ensures !u.Uncovered(mem)
  {
    hide EraseBlockCount, Pow2;
    EraseCoversExactly(u.imageSize, k);
    WholeBlocks(u.imageSize);
  }

  /** The blank check of a partition at 0x1000 looks at byte 0, which the erase leaves as it is. */
  lemma BlankCheckMisfires(u: Updater, mem: seq<byte>)
    requires u.imageOffset == 0x1000 && u.imageSize > 0 && u.flash.eraseBlock > 0
    requires |mem| > 0 && mem[0] == 0
    ensures u.Uncovered(mem)
  {
    assert u.CheckedSize() > 0;
  }

  /** The blank check reads at least the image size, and less than a block more. */
  lemma CheckedReaches(u: Updater)
    ensures u.imageSize <= u.CheckedSize() < u.imageSize + 256 && u.CheckedSize() % 256 == 0
  {
  }

  lemma WholeBlocks(n: nat)
    requires n % BLANK_CHECK_BLOCK == 0
    ensures (n + BLANK_CHECK_BLOCK - 1) / BLANK_CHECK_BLOCK * BLANK_CHECK_BLOCK == n
  {
  }

  /** Two updaters that were sent the same bytes, in whatever chunks, agree on everything. */
  lemma SameStreamSameState(u: Updater, v: Updater)
    requires u.Valid() && v.Valid() && u.stream == v.stream
    requires u.deviceName == v.deviceName && u.imageOffset == v.imageOffset
    requires u.flash.maxWriteBlock == v.flash.maxWriteBlock
    requires !u.fault && !u.refused && !v.fault && !v.refused
    ensures u.state == v.state && u.bigWordLen == v.bigWordLen && u.wptr == v.wptr
    ensures u.rxBuffer.data == v.rxBuffer.data && u.writeBuffer.data == v.writeBuffer.data
    ensures u.flash.mem[u.imageOffset..u.wptr] == v.flash.mem[v.imageOffset..v.wptr]
  {
    hide Run, Parse;
    var w := u.flash.maxWriteBlock;
    assert u.Abs() == v.Abs();
    assert |u.out| == u.blocks * w + |u.writeBuffer.data|;
    assert |v.out| == v.blocks * w + |v.writeBuffer.data|;
    DivOf(u.blocks, w, |u.writeBuffer.data|);
    DivOf(v.blocks, w, |v.writeBuffer.data|);
    assert u.out[..u.wptr - u.imageOffset] == u.flash.mem[u.imageOffset..u.wptr];
    assert v.out[..v.wptr - v.imageOffset] == v.flash.mem[v.imageOffset..v.wptr];
    assert u.out[u.wptr - u.imageOffset..] == u.writeBuffer.data;
    assert v.out[v.wptr - v.imageOffset..] == v.writeBuffer.data;
  }

  /** While the image is being received: the bytes after the header are those in flash, then those in
      the write buffer, then those in the receive buffer; and flash has grown by whole write blocks. */
  lemma Conservation(u: Updater) returns (h: seq<byte>)
    requires u.Valid() && !u.refused && Framing.InBody(u.state)
    ensures Framing.IsHeader(u.deviceName, h)
    ensures u.imageOffset <= u.wptr <= |u.flash.mem|
    ensures u.stream == h + (u.flash.mem[u.imageOffset..u.wptr] + u.writeBuffer.data + u.rxBuffer.data)
    ensures u.wptr == u.imageOffset + u.blocks * u.flash.maxWriteBlock
  {
    hide Run, Parse;
    h := Framing.StreamConserved(u.deviceName, u.stream);
  }

  /** A verified block extends what is stored. */
  lemma BlockWritten(before: seq<byte>, after: seq<byte>, base: seq<byte>, low: nat, addr: nat, block: seq<byte>)
    requires low <= addr && addr + |block| <= |after| == |before| == |base|
    requires after[..addr] == before[..addr] && after[addr + |block|..] == before[addr + |block|..]
    requires after[addr..addr + |block|] == block && before[addr..] == base[addr..]
    ensures after[low..addr + |block|] == before[low..addr] + block
    ensures after[..low] == before[..low]
    ensures after[addr + |block|..] == base[addr + |block|..]
  {
    assert after[low..addr] == after[..addr][low..] == before[..addr][low..] == before[low..addr];
    OnlyTouchedAbove(before, after, low, addr, |block|);
    assert before[addr..][|block|..] == before[addr + |block|..];
    assert base[addr..][|block|..] == base[addr + |block|..];
  }

  // ---------------------------------------------------------------- a whole update

  /** Every chunk fits the queues next to what is still waiting, and none ends inside the start record. */
  ghost predicate Feasible(u: Updater, chunks: seq<seq<byte>>) {
    forall k | 0 <= k < |chunks| :: Fits(u, Concat(chunks[..k]), chunks[k])
  }

  ghost predicate Fits(u: Updater, before: seq<byte>, chunk: seq<byte>) {
    var n := |Parse(u.deviceName, before).rx| + |chunk|;
    && n <= u.rxBuffer.capacity && n + u.flash.maxWriteBlock - 1 <= u.writeBuffer.capacity
    && !TornRecord(Parse(u.deviceName, before + chunk))
  }

  /** `image` in place on a chip that holds `mem`. */
  ghost predicate HoldsImage(after: seq<byte>, mem: seq<byte>, offset: nat, image: seq<byte>) {
    offset + |image| <= |mem| && after == mem[..offset] + image + mem[offset + |image|..]
  }

  ghost predicate IsImageFile(device: seq<byte>, file: seq<byte>) {
    exists f: Framing.Image :: f.DescribesFile(device, file)
  }

  /** What becomes of `file` on a chip that held `mem` and does what it is told. The update ends as the parse
      does, unless the blank check sees a byte the erase does not reach; it succeeds exactly for the image
      files of the device otherwise, and flash then holds the image in an erased partition. */
  ghost predicate Outcome(u: Updater, file: seq<byte>, mem: seq<byte>)
    reads u, u.flash
  {
    && 0 < u.flash.eraseBlock
    && (!u.Uncovered(mem) ==> u.state == Parse(u.deviceName, file).phase)
    && (u.state == Done <==> IsImageFile(u.deviceName, file) && !u.Uncovered(mem))
    && (u.state == Done ==> forall f: Framing.Image | f.DescribesFile(u.deviceName, file) ::
          HoldsImage(u.flash.mem, u.AfterErase(mem), u.imageOffset, f.Flashed()))
  }

  /** Opens the device, sends it a file in chunks, and closes it. */
  method Update(u: Updater, chunks: seq<seq<byte>>)
    requires u.Config() && u.flash.maxWriteBlock <= 512 && Feasible(u, chunks)
    modifies u, u.rxBuffer, u.writeBuffer, u.flash
    ensures u.flash.faults == old(u.flash.faults) ==> Outcome(u, Concat(chunks), old(u.flash.mem))
  {
    hide Parse, Run, Feasible, Outcome, Updater.Valid;
    u.OnDeviceOpened();
    for k := 0 to |chunks|
      invariant u.Valid() && u.active
      invariant u.memAtOpen == old(u.flash.mem) && u.faultsAtOpen == old(u.flash.faults)
      invariant u.fault || (u.stream == Concat(chunks[..k]) && !u.refused)
    {
      SendChunk(u, chunks, k);
    }
    assert chunks[..|chunks|] == chunks;
    Finish(u, Concat(chunks));
  }

  method SendChunk(u: Updater, chunks: seq<seq<byte>>, k: nat)
    requires u.Valid() && u.active && Feasible(u, chunks) && k < |chunks|
    requires u.fault || (u.stream == Concat(chunks[..k]) && !u.refused)
    modifies u`state, u`bigWordLen, u`wptr, u`fault, u`blocks, u`base, u`out, u`refused
    modifies u`stream, u.rxBuffer, u.writeBuffer, u.flash
    ensures u.Valid() && u.active
    ensures u.fault || (u.stream == Concat(chunks[..k + 1]) && !u.refused)
  {
    hide Parse, Run;
    assert chunks[..k + 1] == chunks[..k] + [chunks[k]];
    ConcatAppend(chunks[..k], chunks[k]);
    assert Fits(u, Concat(chunks[..k]), chunks[k]);
    NotTorn(u, chunks[k]);
    u.OnRxData(chunks[k]);
  }

  lemma NotTorn(u: Updater, chunk: seq<byte>)
    requires u.Valid() && (u.fault || (!u.refused && !TornRecord(Parse(u.deviceName, u.stream + chunk))))
    ensures !TornRecord(Feed(u.deviceName, u.Abs(), chunk))
  {
    if u.fault {
      RunStops(u.deviceName, More(u.Abs(), chunk));
    } else {
      FeedTwice(u.deviceName, START, u.stream, chunk);
    }
  }

  method Finish(u: Updater, file: seq<byte>)
    requires u.Valid() && u.active && u.flash.maxWriteBlock <= 512
    requires u.fault || (u.stream == file && !u.refused)
    modifies u`state, u`wptr, u`fault, u`blocks, u`active, u.writeBuffer, u.flash
    ensures u.flash.faults == u.faultsAtOpen ==> Outcome(u, file, u.memAtOpen)
  {
    hide Parse, Run, Updater.Valid, Updater.Uncovered, Updater.AfterErase;
    Framing.DoneExactly(u.deviceName, file);
    Standing(u, file);
    u.OnDeviceClosed();
    forall f: Framing.Image | u.state == Done && f.DescribesFile(u.deviceName, file)
      ensures u.out == f.Flashed()
    {
      Framing.ImageIsDone(u.deviceName, file, f);
    }
  }

  /** Before the device is closed, as long as the chip has done what it was told. */
  lemma Standing(u: Updater, file: seq<byte>)
    requires u.Valid() && u.flash.maxWriteBlock <= 512 && (u.fault || (u.stream == file && !u.refused))
    ensures u.flash.faults >= u.faultsAtOpen && 0 < u.flash.eraseBlock
    ensures !u.fault ==> u.state == Parse(u.deviceName, file).phase
    ensures u.flash.faults == u.faultsAtOpen && u.state == Done ==>
              !u.Uncovered(u.memAtOpen) && u.base == u.AfterErase(u.memAtOpen)
  {
    hide Parse, Run;
    if u.state == Done && u.flash.faults == u.faultsAtOpen { ErasedIsCovered(u); }
  }

  /** On a working chip, a partition that is blank after the erase was covered by it. */
  lemma ErasedIsCovered(u: Updater)
    requires 0 < u.flash.eraseBlock && u.BaseErased() && u.flash.faults == u.faultsAtOpen
    ensures !u.Uncovered(u.memAtOpen)
  {
    forall a | 0 <= a < u.CheckedSize() && a < |u.memAtOpen| && !u.Erases(a) ensures u.memAtOpen[a] == 0xff {
      assert u.base[a] == u.memAtOpen[a];
    }
  }
}
