/** Filling a zeroed buffer from its start, as the encoder's cursors do. */
module Buffers {
  import opened Bytes

  method Alloc(size: nat) returns (buf: array<byte>)
    ensures fresh(buf) && buf.Length == size && buf[..] == Zeros(size)
  {
    buf := new byte[size](_ => 0);
  }

  /** Writes `src` at the cursor: what was written before stays, what follows is still zero. */
  method WriteNext(buf: array<byte>, ghost done: bytes, at: nat, src: bytes)
    requires at == |done| && at + |src| <= buf.Length
    requires buf[..] == done + Zeros(buf.Length - at)
    modifies buf
    ensures buf[..] == done + src + Zeros(buf.Length - at - |src|)
  {
    ghost var before := buf[..];
    var i := 0;
    while i < |src|
      invariant 0 <= i <= |src|
      invariant buf[..] == before[..at] + src[..i] + before[at + i..]
    {
      buf[at + i] := src[i];
      i := i + 1;
    }
    assert before[..at] == done;
  }
}
