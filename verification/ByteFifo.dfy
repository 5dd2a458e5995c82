/** A bounded byte queue: the interface of CircularFIFO that the updater uses. */
module ByteFifo {
  import opened Bytes

  class Fifo {
    const capacity: nat
    var data: seq<byte>

    constructor (capacity: nat)
      ensures this.capacity == capacity && data == []
    {
      this.capacity := capacity;
      data := [];
    }

    method Reset()
      modifies this`data
      ensures data == []
    {
      data := [];
    }

    /** All or nothing. */
    method Push(bytes: seq<byte>) returns (ok: bool)
      modifies this`data
      ensures ok == (|old(data)| + |bytes| <= capacity)
      ensures data == if ok then old(data) + bytes else old(data)
    {
      ok := |data| + |bytes| <= capacity;
      if ok {
        data := data + bytes;
      }
    }

    /** The queued bytes, oldest first, without removing them. */
    function Rewind(): seq<byte> reads this { data }

    function ReadSize(): nat reads this { |data| }

    method Pop(n: nat)
      requires n <= |data|
      modifies this`data
      ensures data == old(data)[n..]
    {
      data := data[n..];
    }
  }
}
