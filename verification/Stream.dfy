/** An input stream over bytes that do not change. A read that cannot be filled leaves the stream failed, and a
    failed stream neither seeks nor reads until it is cleared, which no code modelled here does. */
module Stream {
  import opened Bytes

  class InputStream {
    const data: Data
    var pos: nat
    var good: bool

    constructor (data: Data)
      ensures this.data == data && pos == 0 && good
    {
      this.data, pos, good := data, 0, true;
    }

    method Seek(offset: nat)
      modifies this
      ensures good == old(good)
      ensures good ==> pos == offset
    {
      if good {
        pos := offset;
      }
    }

    /** Up to `n` bytes; all of them exactly when the stream is still good afterwards. */
    method Read(n: nat) returns (b: Data)
      modifies this
      ensures good == (old(good) && old(pos) + n <= |data|)
      ensures good ==> b == data[old(pos)..old(pos) + n] && pos == old(pos) + n
      ensures b == if !old(good) || old(pos) > |data| then []
                   else data[old(pos)..if old(pos) + n <= |data| then old(pos) + n else |data|]
    {
      if !good {
        b := [];
      } else if pos + n <= |data| {
        b, pos := data[pos..pos + n], pos + n;
      } else {
        b := if pos <= |data| then data[pos..] else [];
        good := false;
      }
    }
  }
}
