/** The sequential code of the mailboxes: Push, Peek and Pop over a shared array, and the table that
    hands out channels. IpcProtocol is what they do when another core moves between their steps. */
module IpcDescriptorTable {
  import opened Bits
  import opened Bytes

  class UnidirectionalIPCFifo {
    const buffer: array<byte>
    var writePtr: nat
    /** The hardware flag of this direction of this channel. */
    var busy: bool
    /** How many more times the flag can be polled before the other core has finished its Pop. */
    var patience: nat
    ghost var accepted: seq<seq<byte>>
    ghost var received: seq<seq<byte>>

    ghost function InFlight(): seq<seq<byte>>
      requires writePtr <= buffer.Length
      reads this, buffer
    {
      if busy then [buffer[..writePtr]] else []
    }

    ghost predicate Valid()
      reads this, buffer
    {
      writePtr <= buffer.Length && accepted == received + InFlight()
    }

    constructor (buffer: array<byte>)
      ensures Valid() && this.buffer == buffer && !busy && accepted == [] == received
    {
      this.buffer := buffer;
      writePtr, busy, patience, accepted, received := 0, false, 0, [], [];
    }

    /** Polls the flag. The other core runs meanwhile, and sooner or later it has popped the message. */
    method IsFree() returns (free: bool)
      requires Valid()
      modifies this`busy, this`patience, this`received
      ensures Valid() && free == !busy
      ensures !free ==> patience < old(patience)
      ensures !old(busy) ==> free && received == old(received)
    {
      if busy {
        if patience == 0 {
          received := received + InFlight();
          busy := false;
        } else {
          patience := patience - 1;
        }
      }
      free := !busy;
    }

    /** Sends a message, or does nothing when it is larger than the buffer. */
    method Push(buf: seq<byte>)
      requires Valid()
      modifies this, buffer
      ensures Valid()
      ensures accepted == if |buf| <= buffer.Length then old(accepted) + [buf] else old(accepted)
      ensures |buf| <= buffer.Length ==> InFlight() == [buf]
    {
      if |buf| > buffer.Length { return; }
      var free := IsFree();
      while !free
        invariant Valid() && free == !busy && accepted == old(accepted)
        decreases !free, patience
      {
        free := IsFree();
      }
      for i := 0 to |buf|
        invariant !busy && accepted == received == old(accepted) && writePtr <= buffer.Length
        invariant buffer[..i] == buf[..i]
      {
        buffer[i] := buf[i];
      }
      assert buf[..|buf|] == buf;
      writePtr := |buf|;
      busy := true;
      accepted := accepted + [buf];
    }

    function Peek(): bool reads this { busy }

    /** On the other core: takes the message out, if there is one. */
    method Pop(rxbuf: array<byte>) returns (p: nat)
      requires Valid() && rxbuf != buffer && rxbuf.Length >= buffer.Length
      modifies this, rxbuf
      ensures Valid() && !busy && accepted == old(accepted)
      ensures if old(busy) then p <= rxbuf.Length && received == old(received) + [rxbuf[..p]]
              else p == 0 && received == old(received)
      ensures rxbuf[p..] == old(rxbuf[..])[p..]
    {
      if !Peek() { return 0; }
      p := writePtr;
      for i := 0 to p
        invariant unchanged(this) && buffer[..] == old(buffer[..])
        invariant rxbuf[..i] == buffer[..i] && rxbuf[i..] == old(rxbuf[..])[i..]
      {
        rxbuf[i] := buffer[i];
      }
      busy := false;
      received := received + [rxbuf[..p]];
    }
  }

  // ---------------------------------------------------------------- the table

  /** The hardware has this many flags for each direction; a table may have fewer channels. */
  const MAX_CHANNELS := 16

  datatype FifoDescriptor = FifoDescriptor(size: nat, setMask: nat, clearMask: nat, primaryTx: bool)

  /** What FIFO initialisation stores for a channel number. */
  function Initialize(size: nat, channel: nat, primaryTx: bool): FifoDescriptor {
    FifoDescriptor(size, Pow2(16 + channel), Pow2(channel), primaryTx)
  }

  datatype Channel = Free | Allocated(name: string, primary: FifoDescriptor, secondary: FifoDescriptor)

  class DescriptorTable {
    const channels: array<Channel>
    var firstFree: nat

    ghost predicate Valid()
      reads this, channels
    {
      && firstFree <= channels.Length <= MAX_CHANNELS
      && (forall i | 0 <= i < firstFree :: channels[i].Allocated?
            && channels[i].primary == Initialize(channels[i].primary.size, i, true)
            && channels[i].secondary == Initialize(channels[i].secondary.size, i, false))
      && (forall i | firstFree <= i < channels.Length :: channels[i].Free?)
    }

    constructor (size: nat)
      requires size <= MAX_CHANNELS
      ensures Valid() && firstFree == 0 && fresh(channels) && channels.Length == size
    {
      channels := new Channel[size](_ => Free);
      firstFree := 0;
    }

    /** Hands out the next channel; the ones handed out before keep their names and masks. */
    method AllocateChannel(name: string, txsize: nat, rxsize: nat) returns (idx: int)
      requires Valid()
      modifies this`firstFree, channels
      ensures Valid()
      ensures old(firstFree) == channels.Length ==> idx == -1 && unchanged(channels) && unchanged(this)
      ensures old(firstFree) < channels.Length ==>
                && idx == old(firstFree) && firstFree == idx + 1
                && channels[..] == old(channels[..])[
                     idx := Allocated(name, Initialize(txsize, idx, true), Initialize(rxsize, idx, false))]
      ensures idx != -1 ==>
                var c := channels[idx];
                && c.Allocated? && c.name == name && c.primary.size == txsize && c.secondary.size == rxsize
                && c.primary.primaryTx && !c.secondary.primaryTx
                && c.primary.clearMask == c.secondary.clearMask == Pow2(idx)
                && c.primary.setMask == c.secondary.setMask == Pow2(16 + idx)
    {
      if firstFree >= channels.Length { return -1; }
      idx := firstFree;
      firstFree := idx + 1;
      channels[idx] := Allocated(name, Initialize(txsize, idx, true), Initialize(rxsize, idx, false));
    }

    /** The first channel of that name, as the secondary core looks it up. */
    method FindChannel(name: string) returns (idx: int)
      requires Valid()
      ensures idx == -1 ==> forall i | 0 <= i < firstFree :: channels[i].name != name
      ensures idx != -1 ==> 0 <= idx < firstFree && channels[idx].name == name
                            && forall i | 0 <= i < idx :: channels[i].name != name
    {
      for i := 0 to channels.Length
        invariant forall j | 0 <= j < i && j < firstFree :: channels[j].name != name
      {
        if channels[i].Free? { continue; }
        if channels[i].name == name { return i; }
      }
      idx := -1;
    }

    /** No two FIFOs of the table share a flag: a direction and a mask belong to one channel only,
        and the set mask names the channel the clear mask names. */
    lemma FlagsAreDistinct(i: nat, j: nat)
      requires Valid() && i < firstFree && j < firstFree
      ensures channels[i].primary.primaryTx && !channels[j].secondary.primaryTx
      ensures i != j ==> channels[i].primary.clearMask != channels[j].primary.clearMask
                         && channels[i].secondary.clearMask != channels[j].secondary.clearMask
      ensures channels[i].primary.setMask == Pow2(16) * channels[i].primary.clearMask < 0x1_0000_0000
    {
      hide Pow2;
      PowInjective(i, j);
      PowAdds(16, i);
      PowIncreases(16 + i, 32);
      PowTable();
    }
  }
}
