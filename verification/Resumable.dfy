/** Parsers that take one byte at a time and can be called again when more bytes have come. */
module Resumable {
  import opened Bytes

  /** What one byte does to what the parser remembers. */
  datatype Move<M> = Continue(m: M) | Finish(m: M) | Reject

  /** The outcome of a call: more bytes wanted, done after so many, or a bad byte. */
  datatype Outcome<M> = Again(m: M) | Ok(m: M, consumed: nat) | Error

  type Automaton<!M> = (M, byte) -> Move<M>

  function Later<M>(o: Outcome<M>, n: nat): Outcome<M> {
    if o.Ok? then o.(consumed := o.consumed + n) else o
  }

  /** One call on the bytes `s`. */
  function Scan<M>(step: Automaton<M>, m: M, s: Text): (o: Outcome<M>)
    ensures o.Ok? ==> 0 < o.consumed <= |s|
    decreases |s|
  {
    if s == [] then Again(m)
    else
      var t := step(m, s[0]);
      if t.Reject? then Error
      else if t.Finish? then Ok(t.m, 1)
      else Later(Scan(step, t.m, s[1..]), 1)
  }

  /** The loop of a call: `p` walks the buffer from `pos` on; positions are those in the buffer. */
  method ScanBuffer<M>(step: Automaton<M>, memory: M, buffer: Text, pos: nat) returns (o: Outcome<M>)
    requires pos <= |buffer|
    ensures o == Later(Scan(step, memory, buffer[pos..]), pos)
  {
    var m, p := memory, pos;
    while p < |buffer|
      invariant pos <= p <= |buffer|
      invariant Scan(step, memory, buffer[pos..]) == Later(Scan(step, m, buffer[p..]), p - pos)
    {
      assert buffer[p..][1..] == buffer[p + 1..];
      match step(m, buffer[p]) {
        case Reject =>
          return Error;
        case Finish(m') =>
          return Ok(m', p + 1);
        case Continue(m') =>
          m := m';
      }
      p := p + 1;
    }
    return Again(m);
  }

  lemma LaterNothing<M>(o: Outcome<M>)
    ensures Later(o, 0) == o
  {
  }

  lemma ScanNothing<M>(step: Automaton<M>, m: M)
    ensures Scan(step, m, []) == Again(m)
  {
  }

  // ---- Chunks ----

  lemma LaterTwice<M>(o: Outcome<M>, n: nat, k: nat)
    ensures Later(Later(o, n), k) == Later(o, k + n)
  {
  }

  /** A call that asked for more, followed by a call on `v`; the first had `n` bytes. */
  function Resumed<M>(step: Automaton<M>, o: Outcome<M>, v: Text, n: nat): Outcome<M> {
    if o.Again? then Later(Scan(step, o.m, v), n) else o
  }

  /** Two calls are one call on both chunks. */
  lemma {:induction false} ScanTwo<M>(step: Automaton<M>, m: M, u: Text, v: Text)
    ensures Scan(step, m, u + v) == Resumed(step, Scan(step, m, u), v, |u|)
    decreases |u|
  {
    if u == [] {
      assert u + v == v;
    } else {
      assert (u + v)[1..] == u[1..] + v;
      var t := step(m, u[0]);
      if t.Continue? {
        ScanTwo(step, t.m, u[1..], v);
      }
    }
  }

  function Flat(chunks: seq<Text>): Text {
    if chunks == [] then [] else chunks[0] + Flat(chunks[1..])
  }

  /** One call for each chunk until one does not ask for more; consumed bytes counted over all of them. */
  function ScanChunks<M>(step: Automaton<M>, m: M, chunks: seq<Text>): Outcome<M>
    decreases chunks
  {
    if chunks == [] then Again(m)
    else
      var o := Scan(step, m, chunks[0]);
      if o.Again? then Later(ScanChunks(step, o.m, chunks[1..]), |chunks[0]|) else o
  }

  /** However the bytes arrive, the outcome is that of one call on all of them. */
  lemma {:induction false} ChunkIndependent<M>(step: Automaton<M>, m: M, chunks: seq<Text>)
    ensures ScanChunks(step, m, chunks) == Scan(step, m, Flat(chunks))
    decreases chunks
  {
    hide Scan;
    if chunks == [] {
      ScanNothing(step, m);
    } else {
      ScanTwo(step, m, chunks[0], Flat(chunks[1..]));
      var o := Scan(step, m, chunks[0]);
      if o.Again? {
        ChunkIndependent(step, o.m, chunks[1..]);
      }
    }
  }
}
