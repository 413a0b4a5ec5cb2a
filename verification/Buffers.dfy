/** A buffer of fixed size, written from its start. */
module Buffers {
  import opened Bytes

  class Buffer {
    const data: array<byte>
    var last: nat

    /** What has been written so far. */
    ghost predicate Holds(s: Text)
      reads this, data
    {
      last == |s| <= data.Length && data[..last] == s
    }

    constructor (size: nat)
      ensures Holds([]) && fresh(data) && data.Length == size
    {
      data := new byte[size](_ => 0);
      last := 0;
    }

    method Put(ch: byte, ghost s: Text)
      requires Holds(s) && |s| < data.Length
      modifies this, data
      ensures Holds(s + [ch])
    {
      data[last] := ch;
      last := last + 1;
    }

    /** `ngx_copy`. */
    method Copy(t: Text, ghost s: Text)
      requires Holds(s) && |s| + |t| <= data.Length
      modifies this, data
      ensures Holds(s + t)
    {
      forall i | 0 <= i < |t| {
        data[last + i] := t[i];
      }
      last := last + |t|;
      assert data[..last] == s + t;
    }
  }
}
