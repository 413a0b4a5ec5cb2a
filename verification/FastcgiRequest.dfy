/** The FastCGI request a check sends: how it is built, and what a reader of it gets. */
module FastcgiRequest {
  import opened Bytes
  import opened Buffers

  const BEGIN_REQUEST: byte := 1
  const PARAMS: byte := 4
  const RESPONDER: byte := 1
  const HEADER_LEN: nat := 8

  datatype Param = Param(name: Text, value: Text)

  function Shifted(n: nat, unit: nat): byte
    requires unit > 0
  {
    n / unit % 256
  }

  /** A length in one byte, or in four with the top bit set. */
  function LengthBytes(n: nat): (s: Text)
    ensures |s| == if n > 127 then 4 else 1
  {
    if n > 127 then [n / 0x1000000 % 128 + 128, Shifted(n, 0x10000), Shifted(n, 0x100), Shifted(n, 1)] else [n]
  }

  /** A name-value pair of section 3.4 of the FastCGI 1.0 specification. */
  function PairBytes(p: Param): Text {
    LengthBytes(|p.name|) + LengthBytes(|p.value|) + p.name + p.value
  }

  function Encoded(params: seq<Param>): Text {
    if params == [] then [] else Encoded(params[..|params| - 1]) + PairBytes(params[|params| - 1])
  }

  /** What the builder takes a pair's length to be. */
  function PairSize(p: Param): nat {
    1 + |p.name| + (if |p.value| > 127 then 4 else 1) + |p.value|
  }

  function Declared(params: seq<Param>): nat {
    if params == [] then 0 else Declared(params[..|params| - 1]) + PairSize(params[|params| - 1])
  }

  function PaddingFor(len: nat): (n: nat)
    ensures n < 8 && (len + n) % 8 == 0
  {
    var padding := 8 - len % 8;
    if padding == 8 then 0 else padding
  }

  predicate ShortNames(params: seq<Param>) {
    forall i | 0 <= i < |params| :: |params[i].name| <= 127
  }

  /** The computed length is the length of what is written exactly when no name is longer than 127 bytes. */
  lemma {:induction false} DeclaredIff(params: seq<Param>)
    ensures Declared(params) <= |Encoded(params)|
    ensures Declared(params) == |Encoded(params)| <==> ShortNames(params)
  {
    if params != [] {
      var last := |params| - 1;
      DeclaredIff(params[..last]);
      assert ShortNames(params) <==> ShortNames(params[..last]) && |params[last].name| <= 127;
    }
  }

  function LongNames(params: seq<Param>): nat {
    if params == [] then 0
    else LongNames(params[..|params| - 1]) + (if |params[|params| - 1].name| > 127 then 1 else 0)
  }

  /** Each longer name takes three bytes more than computed. */
  lemma {:induction false} EncodedLength(params: seq<Param>)
    ensures |Encoded(params)| == Declared(params) + 3 * LongNames(params)
    ensures LongNames(params) == 0 <==> ShortNames(params)
  {
    if params != [] {
      var last := |params| - 1;
      EncodedLength(params[..last]);
      assert ShortNames(params) <==> ShortNames(params[..last]) && |params[last].name| <= 127;
    }
  }

  function Zeros(n: nat): (s: Text)
    ensures |s| == n
  {
    seq(n, _ => 0)
  }

  function HeaderBytes(kind: byte, len: nat, padding: nat): (h: Text)
    ensures |h| == HEADER_LEN
  {
    [1, kind, 0, 1, Shifted(len, 0x100), Shifted(len, 1), padding % 256, 0]
  }

  /** All of the request but its last header, which is never filled in. */
  function RequestBytes(params: seq<Param>): Text {
    var len := Declared(params);
    HeaderBytes(BEGIN_REQUEST, 8, 0) + [0, RESPONDER, 0, 0, 0, 0, 0, 0] +
    HeaderBytes(PARAMS, len, PaddingFor(len)) + Encoded(params) + Zeros(PaddingFor(len)) + HeaderBytes(PARAMS, 0, 0)
  }

  method PutLength(b: Buffer, n: nat, ghost s: Text)
    requires b.Holds(s) && |s| + |LengthBytes(n)| <= b.data.Length
    modifies b, b.data
    ensures b.Holds(s + LengthBytes(n))
  {
    if n > 127 {
      var w, x, y, z := n / 0x1000000 % 128 + 128, Shifted(n, 0x10000), Shifted(n, 0x100), Shifted(n, 1);
      b.Put(w, s);
      b.Put(x, s + [w]);
      b.Put(y, s + [w] + [x]);
      b.Put(z, s + [w] + [x] + [y]);
      assert s + [w] + [x] + [y] + [z] == s + [w, x, y, z];
    } else {
      b.Put(n, s);
    }
  }

  method PutPair(b: Buffer, p: Param, ghost s: Text)
    requires b.Holds(s) && |s| + |PairBytes(p)| <= b.data.Length
    modifies b, b.data
    ensures b.Holds(s + PairBytes(p))
  {
    ghost var l1, l2 := LengthBytes(|p.name|), LengthBytes(|p.value|);
    PutLength(b, |p.name|, s);
    PutLength(b, |p.value|, s + l1);
    b.Copy(p.name, s + l1 + l2);
    b.Copy(p.value, s + l1 + l2 + p.name);
    assert s + l1 + l2 + p.name + p.value == s + PairBytes(p);
  }

  /** The begin record and the header of the parameters: a template but for the length and the padding. */
  function StartBytes(len: nat, padding: nat): (s: Text)
    ensures |s| == HEADER_LEN + 8 + HEADER_LEN
  {
    HeaderBytes(BEGIN_REQUEST, 8, 0) + [0, RESPONDER, 0, 0, 0, 0, 0, 0] + HeaderBytes(PARAMS, len, padding)
  }

  /**
   * The buffer has the size computed beforehand. From three longer names on it is too small, and the source writes
   * behind it; here that ends in `overrun`. Otherwise the request is in the buffer, all but the last header's eight
   * bytes, and ends where the buffer ends exactly when no name is longer.
   */
  method CreateRequest(params: seq<Param>) returns (overrun: bool, b: Buffer)
    ensures overrun <==> LongNames(params) >= 3
    ensures fresh(b) && fresh(b.data)
    ensures !overrun ==> |RequestBytes(params)| <= b.data.Length && b.last == |RequestBytes(params)| + HEADER_LEN
    ensures !overrun ==> b.data[..|RequestBytes(params)|] == RequestBytes(params)
    ensures !overrun ==> (b.last == b.data.Length <==> ShortNames(params))
  {
    hide HeaderBytes, PairBytes, StartBytes, PaddingFor, Encoded, Declared, RequestBytes, ShortNames, LongNames;
    var len, i := 0, 0;
    NothingYet(params);
    while i < |params|
      invariant 0 <= i <= |params| && len == Declared(params[..i])
    {
      DeclaredStep(params, i);
      var k, v := params[i].name, params[i].value;
      len := len + (1 + |k| + (if |v| > 127 then 4 else 1) + |v|);
      i := i + 1;
    }
    assert params[..i] == params;
    var padding := PaddingFor(len);
    var size := HEADER_LEN + 8 + HEADER_LEN + len + padding + HEADER_LEN + HEADER_LEN;
    b := new Buffer(size);
    EncodedLength(params);
    ghost var start := StartBytes(len, padding);
    b.Copy(StartBytes(len, padding), []);
    assert [] + start == start + Encoded(params[..0]);
    i := 0;
    while i < |params|
      invariant 0 <= i <= |params| && b.data.Length == size && fresh(b) && fresh(b.data)
      invariant b.Holds(start + Encoded(params[..i]))
    {
      PrefixFits(params, i);
      if b.last + |PairBytes(params[i])| > b.data.Length {
        return true, b;
      }
      PutPair(b, params[i], start + Encoded(params[..i]));
      assert start + Encoded(params[..i]) + PairBytes(params[i]) == start + Encoded(params[..i + 1]);
      i := i + 1;
    }
    assert params[..i] == params;
    if b.last + padding + HEADER_LEN > b.data.Length {
      return true, b;
    }
    b.Copy(Zeros(padding), start + Encoded(params));
    b.Copy(HeaderBytes(PARAMS, 0, 0), start + Encoded(params) + Zeros(padding));
    RequestParts(params);
    b.last := b.last + HEADER_LEN;
    return false, b;
  }

  lemma RequestParts(params: seq<Param>)
    ensures var len := Declared(params);
            RequestBytes(params) ==
            StartBytes(len, PaddingFor(len)) + Encoded(params) + Zeros(PaddingFor(len)) + HeaderBytes(PARAMS, 0, 0)
  {
  }

  lemma NothingYet(params: seq<Param>)
    ensures Declared(params[..0]) == 0 && Encoded(params[..0]) == []
  {
  }

  lemma DeclaredStep(params: seq<Param>, i: nat)
    requires i < |params|
    ensures Declared(params[..i + 1]) == Declared(params[..i]) + PairSize(params[i])
  {
    assert params[..i + 1][..i] == params[..i];
  }

  lemma {:induction false} PrefixFits(params: seq<Param>, i: nat)
    requires i < |params|
    ensures Encoded(params[..i + 1]) == Encoded(params[..i]) + PairBytes(params[i])
    ensures |Encoded(params[..i + 1])| <= |Encoded(params)|
    decreases |params| - i
  {
    assert params[..i + 1][..i] == params[..i];
    if i + 1 < |params| {
      PrefixFits(params, i + 1);
    } else {
      assert params[..i + 1] == params;
    }
  }

  // ---- Reading it back ----

  function Number(a: nat, b: nat, c: nat, d: nat): nat {
    a * 0x1000000 + b * 0x10000 + c * 0x100 + d
  }

  /** A length and how many bytes it took. */
  function ReadLength(s: Text): (r: Option<(nat, nat)>)
    ensures r.Some? ==> 0 < r.value.1 <= |s|
  {
    if s == [] then None
    else if s[0] < 128 then Some((s[0], 1))
    else if |s| < 4 then None
    else Some((Number(s[0] - 128, s[1], s[2], s[3]), 4))
  }

  function ReadPairs(s: Text): Option<seq<Param>>
    decreases |s|
  {
    if s == [] then Some([])
    else
      var name := ReadLength(s);
      if name.None? then None
      else
        var value := ReadLength(s[name.value.1..]);
        if value.None? then None
        else
          var at := name.value.1 + value.value.1;
          var mid := at + name.value.0;
          var end := mid + value.value.0;
          if end > |s| then None
          else
            var rest := ReadPairs(s[end..]);
            if rest.None? then None else Some([Param(s[at..mid], s[mid..end])] + rest.value)
  }

  predicate Encodable(params: seq<Param>) {
    forall i | 0 <= i < |params| :: |params[i].name| < 0x80000000 && |params[i].value| < 0x80000000
  }

  lemma FourBytes(n: nat)
    requires n < 0x80000000
    ensures Number(n / 0x1000000 % 128, n / 0x10000 % 256, n / 0x100 % 256, n % 256) == n
  {
    var a, b, c := n / 0x100, n / 0x10000, n / 0x1000000;
    assert b == a / 0x100 && c == b / 0x100;
    assert n == 0x100 * a + n % 0x100 && a == 0x100 * b + a % 0x100 && b == 0x100 * c + b % 0x100;
    assert c < 128 && c % 128 == c;
  }

  lemma LengthReadBack(n: nat, rest: Text)
    requires n < 0x80000000
    ensures ReadLength(LengthBytes(n) + rest) == Some((n, |LengthBytes(n)|))
    ensures (LengthBytes(n) + rest)[|LengthBytes(n)|..] == rest
  {
    FourBytes(n);
  }

  lemma PairReadBack(p: Param, rest: Text)
    requires |p.name| < 0x80000000 && |p.value| < 0x80000000
    ensures ReadPairs(PairBytes(p) + rest) ==
            match ReadPairs(rest) case None => None case Some(more) => Some([p] + more)
  {
    hide LengthBytes, ReadLength;
    var l1, l2 := LengthBytes(|p.name|), LengthBytes(|p.value|);
    var s := PairBytes(p) + rest;
    assert s == l1 + (l2 + (p.name + p.value + rest));
    LengthReadBack(|p.name|, l2 + (p.name + p.value + rest));
    LengthReadBack(|p.value|, p.name + p.value + rest);
    var at := |l1| + |l2|;
    assert s[at..at + |p.name|] == p.name;
    assert s[at + |p.name|..at + |p.name| + |p.value|] == p.value;
    assert s[at + |p.name| + |p.value|..] == rest;
  }

  lemma {:induction false} PairsReadBack(params: seq<Param>)
    requires Encodable(params)
    ensures ReadPairs(Encoded(params)) == Some(params)
  {
    hide Encoded;
    ReadOn(params, []);
    assert Encoded(params) + [] == Encoded(params);
    assert params + [] == params;
  }

  lemma {:induction false} ReadOn(params: seq<Param>, rest: Text)
    requires Encodable(params)
    ensures ReadPairs(Encoded(params) + rest) ==
            match ReadPairs(rest) case None => None case Some(more) => Some(params + more)
    decreases |params|
  {
    hide ReadPairs, PairBytes;
    if params == [] {
      assert Encoded(params) + rest == rest;
      forall more: seq<Param>
        ensures params + more == more
      {
      }
    } else {
      var last := |params| - 1;
      assert Encoded(params) + rest == Encoded(params[..last]) + (PairBytes(params[last]) + rest);
      PairReadBack(params[last], rest);
      ReadOn(params[..last], PairBytes(params[last]) + rest);
      forall more: seq<Param>
        ensures params[..last] + ([params[last]] + more) == params + more
      {
      }
    }
  }

  /** A record as section 3.3 of the FastCGI 1.0 specification lays it out. */
  datatype Record = Record(kind: byte, id: nat, content: Text)

  /** The first record of a stream and the bytes behind it. */
  function ReadRecord(s: Text): Option<(Record, Text)> {
    if |s| < HEADER_LEN || s[0] != 1 then None
    else
      var len := Number(0, 0, s[4], s[5]);
      var end := HEADER_LEN + len + s[6];
      if end > |s| then None
      else Some((Record(s[1], Number(0, 0, s[2], s[3]), s[HEADER_LEN..HEADER_LEN + len]), s[end..]))
  }

  lemma TwoBytes(n: nat)
    requires n <= 0xffff
    ensures Number(0, 0, Shifted(n, 0x100), Shifted(n, 1)) == n
  {
    var a := n / 0x100;
    assert n == 0x100 * a + n % 0x100 && a < 256 && a % 256 == a;
  }

  lemma HeaderFields(kind: byte, len: nat, padding: nat)
    requires padding < 256
    ensures var h := HeaderBytes(kind, len, padding);
            h[0] == 1 && h[1] == kind && h[2] == 0 && h[3] == 1 && h[6] == padding &&
            h[4] == Shifted(len, 0x100) && h[5] == Shifted(len, 1)
  {
  }

  lemma NumberOne()
    ensures Number(0, 0, 0, 1) == 1
  {
  }

  /** What a reader makes of a header of a declared length and what follows it. */
  lemma RecordRead(kind: byte, len: nat, padding: nat, rest: Text)
    requires padding < 256
    ensures var h := HeaderBytes(kind, len, padding);
            var n := Number(0, 0, Shifted(len, 0x100), Shifted(len, 1));
            n + padding <= |rest| ==> ReadRecord(h + rest) == Some((Record(kind, 1, rest[..n]), rest[n + padding..]))
  {
    hide HeaderBytes, Number, Shifted;
    var h := HeaderBytes(kind, len, padding);
    var s := h + rest;
    var n := Number(0, 0, Shifted(len, 0x100), Shifted(len, 1));
    HeaderFields(kind, len, padding);
    NumberOne();
    assert forall i | 0 <= i < HEADER_LEN :: s[i] == h[i];
    if n + padding <= |rest| {
      assert s[HEADER_LEN..HEADER_LEN + n] == rest[..n];
      assert s[HEADER_LEN + n + padding..] == rest[n + padding..];
    }
  }

  /** One record written and read. */
  lemma RecordReadBack(kind: byte, content: Text, len: nat, padding: nat, rest: Text)
    requires len <= 0xffff && padding < 256 && |content| == len
    ensures ReadRecord(HeaderBytes(kind, len, padding) + content + Zeros(padding) + rest) ==
            Some((Record(kind, 1, content), rest))
  {
    hide HeaderBytes, Number, Shifted, ReadRecord;
    var h, t := HeaderBytes(kind, len, padding), content + Zeros(padding) + rest;
    assert h + content + Zeros(padding) + rest == h + t;
    TwoBytes(len);
    RecordRead(kind, len, padding, t);
    assert t[..len] == content && t[len + padding..] == rest;
  }

  /** Where there is more content than the header can say, a reader takes less than there is. */
  lemma ShortRead(kind: byte, content: Text, len: nat, padding: nat, rest: Text)
    requires padding < 256 && len <= |content| && (len < |content| || len > 0xffff)
    ensures var r := ReadRecord(HeaderBytes(kind, len, padding) + content + Zeros(padding) + rest);
            r.Some? && |r.value.0.content| < |content|
  {
    hide HeaderBytes, Number, Shifted, ReadRecord;
    var h, t := HeaderBytes(kind, len, padding), content + Zeros(padding) + rest;
    assert h + content + Zeros(padding) + rest == h + t;
    NumberSmall(len);
    RecordRead(kind, len, padding, t);
  }

  lemma NumberSmall(len: nat)
    ensures Number(0, 0, Shifted(len, 0x100), Shifted(len, 1)) <= if len <= 0xffff then len else 0xffff
  {
    if len <= 0xffff {
      TwoBytes(len);
    }
  }

  /** The second record of the request, as a reader finds it behind the first. */
  function ParamsRecord(s: Text): Option<(Record, Text)> {
    var first := ReadRecord(s);
    if first.None? then None else ReadRecord(first.value.1)
  }

  /**
   * What a reader of the request finds: the begin record, then, exactly when no name is longer than 127 bytes and the
   * encoded parameters are no longer than a length field can say, all of them in one record and the empty record that
   * ends them.
   */
  lemma RequestReadBack(params: seq<Param>, tail: Text)
    ensures var first := ReadRecord(RequestBytes(params) + tail);
            first.Some? && first.value.0 == Record(BEGIN_REQUEST, 1, [0, RESPONDER, 0, 0, 0, 0, 0, 0])
    ensures var second := ParamsRecord(RequestBytes(params) + tail);
            second.Some? &&
            (second.value.0 == Record(PARAMS, 1, Encoded(params)) <==>
              ShortNames(params) && Declared(params) <= 0xffff) &&
            (ShortNames(params) && Declared(params) <= 0xffff ==>
              ReadRecord(second.value.1) == Some((Record(PARAMS, 1, []), tail)))
    ensures (Declared(params) + PaddingFor(Declared(params))) % 8 == 0
  {
    hide ReadRecord, HeaderBytes, PaddingFor, Zeros, Encoded, Declared, ShortNames;
    var len := Declared(params);
    var padding := PaddingFor(len);
    var begin := [0, RESPONDER, 0, 0, 0, 0, 0, 0];
    var end := HeaderBytes(PARAMS, 0, 0) + tail;
    var rest := HeaderBytes(PARAMS, len, padding) + Encoded(params) + Zeros(padding) + end;
    NoZeros();
    DeclaredIff(params);
    assert RequestBytes(params) + tail == HeaderBytes(BEGIN_REQUEST, 8, 0) + begin + Zeros(0) + rest;
    RecordReadBack(BEGIN_REQUEST, begin, 8, 0, rest);
    if ShortNames(params) && len <= 0xffff {
      RecordReadBack(PARAMS, Encoded(params), len, padding, end);
      assert end == HeaderBytes(PARAMS, 0, 0) + [] + Zeros(0) + tail;
      RecordReadBack(PARAMS, [], 0, 0, tail);
    } else {
      ShortRead(PARAMS, Encoded(params), len, padding, end);
    }
  }

  lemma NoZeros()
    ensures Zeros(0) == []
  {
  }
}
