/** The log device's own code: one transmit buffer and write pointer per core, changed in place. */
module MulticoreLogDevice {
  import opened Bytes
  import opened IpcDescriptorTable
  import opened LogProtocol

  method NewBuffers(n: nat, size: nat) returns (buffers: seq<array<byte>>)
    ensures |buffers| == n && forall i | 0 <= i < n :: fresh(buffers[i]) && buffers[i].Length == size
    ensures forall i, j | 0 <= i < j < n :: buffers[i] != buffers[j]
  {
    buffers := [];
    while |buffers| < n
      invariant |buffers| <= n
      invariant forall i | 0 <= i < |buffers| :: fresh(buffers[i]) && buffers[i].Length == size
      invariant forall i, j | 0 <= i < j < |buffers| :: buffers[i] != buffers[j]
    {
      var b := new byte[size](_ => 0);
      buffers := buffers + [b];
    }
  }

  class LogDevice {
    const bufSize: nat
    const cores: nat
    const channels: seq<UnidirectionalIPCFifo>
    const txBuffers: seq<array<byte>>
    const writePointers: array<nat>
    /** Everything printed on each core. */
    ghost var printed: seq<seq<byte>>

    /** Empty buffers, one per core, over mailboxes of their own. */
    constructor (bufSize: nat, channels: seq<UnidirectionalIPCFifo>)
      requires bufSize > 0
      requires forall i | 0 <= i < |channels| :: channels[i].Valid() && channels[i].buffer.Length >= bufSize
      requires forall i | 0 <= i < |channels| :: channels[i].accepted == []
      requires forall i, j | 0 <= i < |channels| && 0 <= j < |channels| && i != j ::
                 channels[i] != channels[j] && channels[i].buffer != channels[j].buffer
      ensures Valid() && this.channels == channels && this.bufSize == bufSize
      ensures printed == seq(cores, _ => [])
    {
      this.bufSize, this.cores, this.channels := bufSize, |channels|, channels;
      var buffers := NewBuffers(|channels|, bufSize);
      txBuffers := buffers;
      writePointers := new nat[|channels|](_ => 0);
      printed := seq(|channels|, _ => []);
      new;
      forall i | 0 <= i < cores ensures Accounted(i) {
        assert printed[i] == [] == Concat(channels[i].accepted) + Pending(i);
      }
    }

    /** The parts that belong to one core share nothing with another core's. */
    ghost predicate Separated() {
      && |channels| == |txBuffers| == writePointers.Length == cores && bufSize > 0
      && (forall i | 0 <= i < cores :: txBuffers[i].Length == bufSize && channels[i].buffer.Length >= bufSize)
      && (forall i, j | 0 <= i < cores && 0 <= j < cores :: txBuffers[i] != channels[j].buffer)
      && (forall i, j | 0 <= i < cores && 0 <= j < cores && i != j ::
            channels[i] != channels[j] && channels[i].buffer != channels[j].buffer && txBuffers[i] != txBuffers[j])
    }

    ghost function Footprint(): set<object>
      requires Separated()
    {
      {this, writePointers} + (set i | 0 <= i < cores :: channels[i])
      + (set i | 0 <= i < cores :: channels[i].buffer) + (set i | 0 <= i < cores :: txBuffers[i])
    }

    ghost function Pending(i: nat): seq<byte>
      requires Separated() && i < cores
      requires writePointers[i] <= bufSize
      reads writePointers, txBuffers[i]
    {
      txBuffers[i][..writePointers[i]]
    }

    /** Printed on core `i` = accepted by its mailbox, then waiting in its buffer. */
    ghost predicate Accounted(i: nat)
      requires Separated() && i < cores
      reads this, writePointers, txBuffers[i], channels[i], channels[i].buffer
    {
      && channels[i].Valid() && |printed| == cores
      && writePointers[i] <= bufSize
      && printed[i] == Concat(channels[i].accepted) + Pending(i)
    }

    ghost predicate Valid()
      reads this, if Separated() then Footprint() else {}
    {
      Separated() && |printed| == cores
      && forall i | 0 <= i < cores :: Accounted(i) && writePointers[i] < bufSize
    }

    /** What one core's operation leaves alone. */
    twostate predicate OthersUntouched(nchan: nat)
      requires Separated() && nchan < cores
      reads this, Footprint()
    {
      && |printed| == |old(printed)| == cores
      && forall j | 0 <= j < cores && j != nchan ::
           && writePointers[j] == old(writePointers[j]) && unchanged(txBuffers[j])
           && unchanged(channels[j]) && unchanged(channels[j].buffer) && printed[j] == old(printed[j])
    }

    /** Sends the current core's buffer, if it holds anything, and empties it. */
    method Flush(nchan: nat)
      requires Separated() && nchan < cores && Accounted(nchan)
      modifies writePointers, channels[nchan], channels[nchan].buffer
      ensures Accounted(nchan) && writePointers[nchan] == 0
      ensures forall j | 0 <= j < cores && j != nchan :: writePointers[j] == old(writePointers[j])
      ensures channels[nchan].accepted == old(channels[nchan].accepted)
                + if old(writePointers[nchan]) == 0 then [] else [old(Pending(nchan))]
    {
      var wptr := writePointers[nchan];
      ghost var pending := Pending(nchan);
      if wptr != 0 {
        ghost var accepted := channels[nchan].accepted;
        channels[nchan].Push(txBuffers[nchan][..wptr]);
        ConcatAppend(accepted, pending);
      }
      writePointers[nchan] := 0;
    }

    /** Stores a character in the current core's buffer. */
    method Store(nchan: nat, ch: byte)
      requires Separated() && nchan < cores && Accounted(nchan) && writePointers[nchan] < bufSize
      modifies this`printed, writePointers, txBuffers[nchan]
      ensures Accounted(nchan) && writePointers[nchan] == old(writePointers[nchan]) + 1
      ensures Pending(nchan) == old(Pending(nchan)) + [ch]
      ensures printed == old(printed)[nchan := old(printed)[nchan] + [ch]]
      ensures forall j | 0 <= j < cores && j != nchan :: writePointers[j] == old(writePointers[j])
    {
      var wptr := writePointers[nchan];
      txBuffers[nchan][wptr] := ch;
      writePointers[nchan] := wptr + 1;
      printed := printed[nchan := printed[nchan] + [ch]];
      assert Pending(nchan) == old(Pending(nchan)) + [ch];
    }

    /** Stores a character and flushes when the buffer is full, or nearly full at the end of a line. */
    method PrintBinary(nchan: nat, ch: byte)
      requires Valid() && nchan < cores
      modifies Footprint()
      ensures Valid() && OthersUntouched(nchan)
      ensures printed[nchan] == old(printed[nchan]) + [ch]
      ensures var p := old(Pending(nchan)) + [ch];
              var flush := |p| == bufSize || (ch == 10 && bufSize >= 128 && |p| > bufSize - 128);
              && Pending(nchan) == (if flush then [] else p)
              && channels[nchan].accepted == old(channels[nchan].accepted) + if flush then [p] else []
    {
      assert Accounted(nchan);
      Store(nchan, ch);
      if writePointers[nchan] == bufSize {
        Flush(nchan);
      }
      if ch == NEWLINE && bufSize >= NEARLY_FULL && writePointers[nchan] > bufSize - NEARLY_FULL {
        Flush(nchan);
      }
      OthersStayAccounted(nchan);
    }

    twostate lemma OthersStayAccounted(nchan: nat)
      requires old(Valid()) && nchan < cores && OthersUntouched(nchan)
      ensures forall j | 0 <= j < cores && j != nchan :: Accounted(j) && writePointers[j] < bufSize
    {
      forall j | 0 <= j < cores && j != nchan ensures Accounted(j) && writePointers[j] < bufSize {
        assert old(Accounted(j));
      }
    }
  }
}
