/** `output_info`: the caller's output buffer as one poll call sees it, and how much of it is filled. */
module Output {
  import opened Bits

  class OutputInfo {
    const buf: array<byte>
    const off: nat      // where the call's `out_buf` starts inside the caller's array
    const bufSize: nat
    var outputSize: nat

    ghost const head: seq<byte>    // the caller's array before `off`
    ghost const before: seq<byte>  // what the codec had produced before this call
    ghost var out: seq<byte>       // what this call has produced

    ghost predicate Valid()
      reads this, buf
    {
      && off + bufSize <= buf.Length && outputSize <= bufSize
      && |head| == off && |out| == outputSize
      && buf[..off + outputSize] == head + out
    }

    constructor (buf: array<byte>, off: nat, bufSize: nat, ghost before: seq<byte>)
      requires off + bufSize <= buf.Length
      ensures Valid() && outputSize == 0 && out == []
      ensures this.buf == buf && this.off == off && this.bufSize == bufSize
      ensures head == buf[..off] && this.before == before
    {
      this.buf, this.off, this.bufSize, outputSize := buf, off, bufSize, 0;
      this.head, this.before, out := buf[..off], before, [];
    }

    predicate CanTakeByte()
      reads this
    {
      outputSize < bufSize
    }

    method Push(b: byte)
      requires Valid() && CanTakeByte()
      modifies this`outputSize, this`out, buf
      ensures Valid()
      ensures out == old(out) + [b] && outputSize == old(outputSize) + 1
    {
      buf[off + outputSize] := b;
      outputSize := outputSize + 1;
      out := out + [b];
    }
  }
}
