/** The resumable parser of a FastCGI record header. */
module FastcgiRecord {
  import opened Bytes
  import opened Resumable

  const STDOUT: byte := 6
  const STDERR: byte := 7
  const END_REQUEST: byte := 3

  const HEADER_LEN: nat := 8

  datatype State =
    | Version | Type | RequestIdHi | RequestIdLo
    | ContentLengthHi | ContentLengthLo | PaddingLength | Reserved
    | Data | Padding

  /** What survives from call to call. */
  datatype Memory = Memory(state: State, code: nat, length: nat, padding: nat)

  const START: Memory := Memory(Version, 0, 0, 0)

  /** One byte. The low byte of the length is still zero when it is or-ed in; content bytes are passed over. */
  function Move1(m: Memory, ch: byte): Move<Memory> {
    match m.state
    case Version => if ch != 1 then Reject else Continue(m.(state := Type))
    case Type =>
      if ch == STDOUT || ch == STDERR || ch == END_REQUEST then Continue(m.(state := RequestIdHi, code := ch))
      else Reject
    case RequestIdHi => if ch != 0 then Reject else Continue(m.(state := RequestIdLo))
    case RequestIdLo => if ch != 1 then Reject else Continue(m.(state := ContentLengthHi))
    case ContentLengthHi => Continue(m.(state := ContentLengthLo, length := ch * 256))
    case ContentLengthLo => Continue(m.(state := PaddingLength, length := m.length + ch))
    case PaddingLength => Continue(m.(state := Reserved, padding := ch))
    case Reserved => Finish(m.(state := Data))
    case Data => Continue(m)
    case Padding => Continue(m)
  }

  /** One call on the bytes `s`. */
  function Feed(m: Memory, s: Text): (o: Outcome<Memory>)
    ensures o.Ok? ==> 0 < o.consumed <= |s|
  {
    Scan(Move1, m, s)
  }

  class Parser {
    var memory: Memory
    var pos: nat

    constructor ()
      ensures memory == START && pos == 0
    {
      memory, pos := START, 0;
    }

    /** `process_record`: only a complete header moves `pos`. A failing call may have written over the code. */
    method ProcessRecord(buffer: Text) returns (o: Outcome<Memory>)
      requires pos <= |buffer|
      modifies this
      ensures o == Later(Feed(old(memory), buffer[old(pos)..]), old(pos))
      ensures if o.Error? then memory.(code := 0) == old(memory).(code := 0) else memory == o.m
      ensures pos == if o.Ok? then o.consumed else old(pos)
    {
      o := ScanBuffer(Move1, memory, buffer, pos);
      if o.Error? {
        return;
      }
      memory := o.m;
      if o.Ok? {
        pos := o.consumed;
      }
    }
  }

  // ---- The automaton and the header it reads ----

  /** Bytes that do not contradict a header of version 1, request 1 and one of the three types. */
  predicate Fits(s: Text) {
    (|s| > 0 ==> s[0] == 1) && (|s| > 1 ==> s[1] == STDOUT || s[1] == STDERR || s[1] == END_REQUEST) &&
    (|s| > 2 ==> s[2] == 0) && (|s| > 3 ==> s[3] == 1)
  }

  /** The state after `n` bytes of a header. */
  function StateAt(n: nat): State
    requires n <= HEADER_LEN
  {
    match n
    case 0 => Version
    case 1 => Type
    case 2 => RequestIdHi
    case 3 => RequestIdLo
    case 4 => ContentLengthHi
    case 5 => ContentLengthLo
    case 6 => PaddingLength
    case 7 => Reserved
    case 8 => Data
  }

  /** What a header, or the part of it there is so far, says: section 3.3 of the FastCGI 1.0 specification. */
  function Decoded(s: Text): (m: Memory)
    requires |s| <= HEADER_LEN
  {
    Memory(StateAt(|s|),
           if |s| > 1 then s[1] else 0,
           if |s| > 5 then 256 * (s[4] as int) + s[5] as int else if |s| > 4 then 256 * (s[4] as int) else 0,
           if |s| > 6 then s[6] else 0)
  }

  function OneShot(s: Text): Outcome<Memory> {
    if !Fits(s) then Error
    else if |s| < HEADER_LEN then Again(Decoded(s))
    else Ok(Decoded(s[..HEADER_LEN]), HEADER_LEN)
  }

  /** From the middle of a header, byte by byte, to what decoding it at once gives. */
  lemma {:induction false} FeedHeader(s: Text, n: nat)
    requires n <= |s| && n < HEADER_LEN && Fits(s[..n])
    ensures Later(Feed(Decoded(s[..n]), s[n..]), n) == OneShot(s)
    decreases HEADER_LEN - n
  {
    if n == |s| {
      assert s[..n] == s;
    } else {
      var m := Decoded(s[..n]);
      var t := Move1(m, s[n]);
      assert s[n..][1..] == s[n + 1..] && s[..n + 1] == s[..n] + [s[n]];
      if !t.Reject? {
        NextDecoded(s, n);
        if n + 1 < HEADER_LEN {
          FeedHeader(s, n + 1);
        }
      } else {
        assert !Fits(s);
      }
    }
  }

  lemma NextDecoded(s: Text, n: nat)
    requires n < |s| && n < HEADER_LEN && Fits(s[..n]) && !Move1(Decoded(s[..n]), s[n]).Reject?
    ensures Fits(s[..n + 1])
    ensures Move1(Decoded(s[..n]), s[n]) ==
            if n + 1 < HEADER_LEN then Continue(Decoded(s[..n + 1])) else Finish(Decoded(s[..n + 1]))
  {
    var m, m' := Decoded(s[..n]), Decoded(s[..n + 1]);
    assert s[..n + 1] == s[..n] + [s[n]];
  }

  /** The automaton, started afresh, decodes headers. */
  lemma FeedIsOneShot(s: Text)
    ensures Feed(START, s) == OneShot(s)
  {
    FeedHeader(s, 0);
    assert s[0..] == s && Decoded(s[..0]) == START;
    LaterNothing(Feed(START, s));
  }

  // ---- Calls as the caller makes them ----

  /**
   * One call for each read event: whatever has come in between, a call that follows one that asked for more starts
   * again at the old `pos`, before the bytes `seen` so far.
   */
  function Called(m: Memory, seen: Text, chunks: seq<Text>): Outcome<Memory>
    decreases chunks
  {
    if chunks == [] then Again(m)
    else
      var o := Feed(m, seen + chunks[0]);
      if o.Again? then Called(o.m, seen + chunks[0], chunks[1..]) else o
  }

  method Calls(chunks: seq<Text>) returns (o: Outcome<Memory>)
    ensures o == Called(START, [], chunks)
  {
    var parser := new Parser();
    var buffer: Text := [];
    o := Again(START);
    var i := 0;
    assert chunks[0..] == chunks;
    while i < |chunks|
      invariant 0 <= i <= |chunks| && parser.pos == 0 && fresh(parser)
      invariant o == Again(parser.memory)
      invariant Called(START, [], chunks) == Called(parser.memory, buffer, chunks[i..])
    {
      assert chunks[i..][1..] == chunks[i + 1..];
      buffer := buffer + chunks[i];
      assert buffer[0..] == buffer;
      LaterNothing(Feed(parser.memory, buffer));
      o := parser.ProcessRecord(buffer);
      if !o.Again? {
        return;
      }
      i := i + 1;
    }
  }

  lemma FeedNext(m: Memory, s: Text, n: nat)
    requires n < |s|
    ensures var t := Move1(m, s[n]);
            Feed(m, s[n..]) ==
              if t.Reject? then Error else if t.Finish? then Ok(t.m, 1) else Later(Feed(t.m, s[n + 1..]), 1)
  {
    assert s[n..][1..] == s[n + 1..];
  }

  /** Started in state number `n` instead of zero, a header is over `n` bytes too early. */
  lemma {:induction false} EndsEarly(m: Memory, w: Text, n: nat, k: nat)
    requires 4 <= k < HEADER_LEN && m.state == StateAt(k) && n <= |w|
    ensures var o := Feed(m, w[n..]);
            if |w| - n < HEADER_LEN - k then o.Again? && o.m.state == StateAt(k + |w| - n)
            else o.Ok? && o.consumed == HEADER_LEN - k
    decreases HEADER_LEN - k
  {
    hide Feed;
    if n < |w| {
      FeedNext(m, w, n);
      if k + 1 < HEADER_LEN {
        EndsEarly(Move1(m, w[n]).m, w, n + 1, k + 1);
      }
    } else {
      NothingLeft(m, w);
    }
  }

  lemma NothingLeft(m: Memory, w: Text)
    ensures Feed(m, w[|w|..]) == Again(m)
  {
  }

  /**
   * From the middle of the content length on, with more bytes read than seen, calls either end too early or stay ahead
   * of the bytes there are.
   */
  lemma {:induction false} StaysAhead(m: Memory, seen: Text, chunks: seq<Text>, k: nat)
    requires 4 <= k < HEADER_LEN && m.state == StateAt(k) && |seen| < k
    ensures Called(m, seen, chunks) != OneShot(seen + Flat(chunks))
    decreases chunks
  {
    hide Feed;
    if chunks == [] {
      assert seen + Flat(chunks) == seen;
      StateOf(seen);
    } else {
      var w := seen + chunks[0];
      assert w[0..] == w && seen + Flat(chunks) == w + Flat(chunks[1..]);
      EndsEarly(m, w, 0, k);
      if |w| < HEADER_LEN - k {
        StaysAhead(Feed(m, w).m, w, chunks[1..], k + |w|);
      }
    }
  }

  lemma StateOf(s: Text)
    requires |s| < HEADER_LEN
    ensures OneShot(s).Again? ==> OneShot(s).m.state == StateAt(|s|)
    ensures forall k: nat | |s| < k < HEADER_LEN :: StateAt(k) != StateAt(|s|)
  {
  }

  lemma ConsumedByOneShot(s: Text)
    ensures OneShot(s).Ok? ==> OneShot(s).consumed == HEADER_LEN
  {
  }

  lemma IncompleteChunk(u: Text)
    requires u != [] && OneShot(u).Again?
    ensures |u| < HEADER_LEN && Fits(u) && u[0] == 1 && Decoded(u).state == StateAt(|u|)
  {
  }

  /** The version byte, read again as a record type or as the high byte of the request number, is a bad one. */
  lemma RereadRejects(m: Memory, w: Text, k: nat)
    requires (k == 1 || k == 2) && m.state == StateAt(k) && w != [] && w[0] == 1
    ensures Feed(m, w).Error?
  {
  }

  /** Read again as the low byte of the request number it is a good one. */
  lemma RereadAccepts(m: Memory, w: Text)
    requires m.state == StateAt(3) && w != [] && w[0] == 1
    ensures Move1(m, w[0]).Continue? && Move1(m, w[0]).m.state == StateAt(4)
    ensures Feed(m, w) == Later(Feed(Move1(m, w[0]).m, w[1..]), 1)
  {
  }

  lemma CalledNext(m: Memory, seen: Text, chunks: seq<Text>)
    requires chunks != []
    ensures var o := Feed(m, seen + chunks[0]);
            Called(m, seen, chunks) == if o.Again? then Called(o.m, seen + chunks[0], chunks[1..]) else o
    ensures seen + Flat(chunks) == (seen + chunks[0]) + Flat(chunks[1..])
  {
  }

  /** A first chunk that is not empty and not a whole header, and is then read again: when the outcome is right. */
  lemma Reread(u: Text, chunks: seq<Text>)
    requires u != [] && OneShot(u).Again? && chunks != []
    ensures Called(Decoded(u), u, chunks) == OneShot(u + Flat(chunks)) <==>
            |u| <= 2 && OneShot(u + Flat(chunks)).Error?
  {
    hide Feed, OneShot, Decoded, Move1, Fits, Called, Flat;
    IncompleteChunk(u);
    var m, w := Decoded(u), u + chunks[0];
    CalledNext(m, u, chunks);
    ConsumedByOneShot(u + Flat(chunks));
    assert w[0..] == w && w[0] == 1;
    if |u| <= 2 {
      RereadRejects(m, w, |u|);
    } else if |u| == 3 {
      RereadAccepts(m, w);
      EndsEarly(Move1(m, w[0]).m, w, 1, 4);
      if |w| < 5 {
        StaysAhead(Feed(m, w).m, w, chunks[1..], 3 + |w|);
      }
    } else {
      EndsEarly(m, w, 0, |u|);
    }
  }

  /** The reads without the empty ones in front. */
  function Trimmed(chunks: seq<Text>): (t: seq<Text>)
    ensures t == [] || t[0] != []
    ensures Flat(t) == Flat(chunks)
  {
    if chunks != [] && chunks[0] == [] then Trimmed(chunks[1..]) else chunks
  }

  lemma {:induction false} EmptyReads(chunks: seq<Text>)
    ensures Called(START, [], chunks) == Called(START, [], Trimmed(chunks))
    decreases chunks
  {
    if chunks != [] && chunks[0] == [] {
      ScanNothing(Move1, START);
      EmptyReads(chunks[1..]);
    }
  }

  /**
   * For any number of read events: the bytes of a first, incomplete chunk are read again, so the outcome is that of
   * decoding all bytes at once only if there is no such chunk, or nothing after it, or if it has one or two bytes and
   * the header is a bad one anyway.
   */
  lemma CallsRight(chunks: seq<Text>)
    ensures var t := Trimmed(chunks);
            Called(START, [], chunks) == OneShot(Flat(chunks)) <==>
            |t| <= 1 || !OneShot(t[0]).Again? || (|t[0]| <= 2 && OneShot(Flat(chunks)).Error?)
  {
    hide Feed, OneShot;
    EmptyReads(chunks);
    var t := Trimmed(chunks);
    if t == [] {
      FeedIsOneShot([]);
      ScanNothing(Move1, START);
      NothingFed();
    } else {
      var u, more := t[0], t[1..];
      FeedIsOneShot(u);
      assert [] + u == u && Flat(t) == u + Flat(more);
      if more == [] {
        assert u + [] == u;
      } else if OneShot(u).Again? {
        AgainIsDecoded(u);
        Reread(u, more);
      } else {
        FeedIsOneShot(u + Flat(more));
        FirstDecides(u, Flat(more));
      }
    }
  }

  lemma NothingFed()
    ensures Feed(START, []) == Again(START)
  {
  }

  lemma AgainIsDecoded(u: Text)
    requires OneShot(u).Again?
    ensures OneShot(u) == Again(Decoded(u))
  {
  }

  /** When the first chunk decides, the rest does not matter. */
  lemma FirstDecides(u: Text, v: Text)
    requires !OneShot(u).Again?
    ensures OneShot(u + v) == OneShot(u)
  {
    FeedIsOneShot(u);
    FeedIsOneShot(u + v);
    ScanTwo(Move1, START, u, v);
  }

  /** The two-call form. */
  lemma TwoCallsRight(u: Text, v: Text)
    ensures Called(START, [], [u, v]) == OneShot(u + v) <==>
            u == [] || !OneShot(u).Again? || (|u| <= 2 && OneShot(u + v).Error?)
  {
    hide OneShot, Called;
    CallsRight([u, v]);
    assert [u, v][1..] == [v] && Flat([v]) == v && Flat([u, v]) == u + v;
    if u == [] {
      assert Trimmed([u, v]) == Trimmed([v]);
      assert |Trimmed([v])| <= 1;
    }
  }

  /** For headers that are good as a whole only reads will do whose first bytes come all in one chunk. */
  lemma GoodHeaderChunks(chunks: seq<Text>)
    requires Fits(Flat(chunks))
    ensures var t := Trimmed(chunks);
            Called(START, [], chunks) == OneShot(Flat(chunks)) <==> |t| <= 1 || |t[0]| >= HEADER_LEN
  {
    hide Called;
    CallsRight(chunks);
    var t := Trimmed(chunks);
    if t != [] {
      assert Flat(t) == t[0] + Flat(t[1..]);
      assert forall i | 0 <= i < |t[0]| :: t[0][i] == Flat(chunks)[i];
    }
  }
}
