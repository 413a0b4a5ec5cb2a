/** Writing the store to a file and reading it back. */
module Dump {
  import opened Bytes
  import opened Trees
  import opened Stores

  const PAD_BYTES: Text := [0x53, 0x54, 0x56]
  const BUF_SIZE: nat := 1024
  const NAME_SIZE: nat := 128
  const STAMP_SIZE: nat := 16
  const HEADER_SIZE: nat := NAME_SIZE + STAMP_SIZE

  /** File offsets are signed: what is not below this number reads as a negative one. */
  const OFFSETS: nat := 0x8000_0000_0000_0000

  /** How a node lies in memory: its size, its bytes, and the value and key length read back from bytes. */
  datatype Layout<!V> = Layout(size: nat, encode: (V, Text) -> Text, value: Text -> V, len: Text -> word)

  ghost predicate RoundTrips<V>(c: Layout<V>, v: V, key: Text) {
    var bytes := c.encode(v, key);
    |bytes| == c.size && c.value(bytes) == v && c.len(bytes) == |key|
  }

  datatype Rec<V> = Rec(key: Text, value: V)

  /** The nodes in the order of `dump_node_write`. */
  function Listing<V>(t: Tree<V>): seq<Rec<V>> {
    if t.Leaf? then [] else [Rec(t.key, t.value)] + Listing(t.left) + Listing(t.right)
  }

  function RecordBytes<V>(c: Layout<V>, r: Rec<V>): Text {
    c.encode(r.value, r.key) + r.key + PAD_BYTES
  }

  function Body<V>(c: Layout<V>, recs: seq<Rec<V>>): Text {
    if recs == [] then [] else RecordBytes(c, recs[0]) + Body(c, recs[1..])
  }

  function NameBytes(name: Text): (n: Text)
    ensures |n| < NAME_SIZE
  {
    if |name| >= NAME_SIZE then name[..NAME_SIZE - 1] else name
  }

  /** The name, cut to 127 bytes and padded with zeros, then time and version. */
  function Header(name: Text, stamp: Text): (h: Text)
    requires |stamp| == STAMP_SIZE
    ensures |h| == HEADER_SIZE && h[..|NameBytes(name)|] == NameBytes(name)
  {
    NameBytes(name) + seq(NAME_SIZE - |NameBytes(name)|, _ => 0) + stamp
  }

  /** `strncmp` finds no difference within `n` bytes. */
  predicate SameName(a: Text, b: Text, n: nat)
    requires n <= |a| && n <= |b|
  {
    n == 0 || (a[0] == b[0] && (a[0] == 0 || SameName(a[1..], b[1..], n - 1)))
  }

  method NodeWrite<V>(t: Tree<V>, c: Layout<V>, file: Text) returns (out: Text)
    ensures out == file + Body(c, Listing(t))
    decreases t
  {
    out := file;
    if t != Leaf {
      out := out + c.encode(t.value, t.key);
      out := out + t.key;
      out := out + PAD_BYTES;
      out := NodeWrite(t.left, c, out);
      out := NodeWrite(t.right, c, out);
      BodyOfNode(c, Rec(t.key, t.value), Listing(t.left), Listing(t.right));
    }
  }

  method Execute<V>(store: Store<V>, c: Layout<V>, name: Text, stamp: Text) returns (file: Text)
    requires |stamp| == STAMP_SIZE
    ensures file == Header(name, stamp) + Body(c, Listing(store.root))
  {
    file := NodeWrite(store.root, c, Header(name, stamp));
  }

  lemma {:induction false} BodyConcat<V>(c: Layout<V>, a: seq<Rec<V>>, b: seq<Rec<V>>)
    ensures Body(c, a + b) == Body(c, a) + Body(c, b)
  {
    hide RecordBytes;
    if a == [] {
      assert a + b == b;
    } else {
      BodyConcat(c, a[1..], b);
      assert (a + b)[1..] == a[1..] + b;
    }
  }

  lemma BodyOfNode<V>(c: Layout<V>, r: Rec<V>, a: seq<Rec<V>>, b: seq<Rec<V>>)
    ensures Body(c, [r] + a + b) == c.encode(r.value, r.key) + r.key + PAD_BYTES + Body(c, a) + Body(c, b)
  {
    assert [r] + a + b == [r] + (a + b);
    BodyConcat(c, a, b);
  }

  // ---- Reading ----

  /** A number stored in a signed 64-bit offset. */
  function Signed(n: nat): (r: int)
    ensures 0 <= r + OFFSETS && r < OFFSETS && (n < OFFSETS ==> r == n)
  {
    var w := n % WORD;
    if w < OFFSETS then w else w - WORD
  }

  /** What a reader meets at an offset: a record, one too long for its buffer, or the end of what can be read. */
  datatype Found<V> = End | TooLong(next: int) | Got(key: Text, value: V, next: int)

  /** A read at a negative offset fails; skipping a record is arithmetic on 64 bits. */
  function RecordAt<V>(c: Layout<V>, file: Text, offset: int): (r: Found<V>)
    requires c.size > 0
    ensures r.Got? ==> offset < r.next <= |file| && |r.key| <= BUF_SIZE
    ensures !r.End? ==> 0 <= offset < |file|
  {
    if offset < 0 || offset + c.size > |file| then End
    else
      var node := file[offset..offset + c.size];
      var len := c.len(node);
      var at := offset + c.size;
      if len > BUF_SIZE then TooLong(Signed(offset + len + |PAD_BYTES|))
      else if at + len + |PAD_BYTES| > |file| || file[at + len..at + len + |PAD_BYTES|] != PAD_BYTES then End
      else Got(file[at..at + len], c.value(node), at + len + |PAD_BYTES|)
  }

  /** A restore that has ended, or is about to read at `offset` with memory left for `room` nodes. */
  datatype Reading<V> = Stopped(m: map<Text, V>) | Going(offset: int, m: map<Text, V>, room: nat)

  /** One round of the loop. */
  function Once<V>(c: Layout<V>, file: Text, r: Reading<V>): Reading<V>
    requires c.size > 0
  {
    match r
    case Stopped(_) => r
    case Going(offset, m, room) =>
      match RecordAt(c, file, offset)
      case End => Stopped(m)
      case TooLong(next) => Going(next, m, room)
      case Got(key, value, next) =>
        if key == [] then Stopped(m)
        else if key in m then Going(next, m, room)
        else if room == 0 then Stopped(m)
        else Going(next, m[key := value], room - 1)
  }

  function Rounds<V>(c: Layout<V>, file: Text, r: Reading<V>, n: nat): Reading<V>
    requires c.size > 0
  {
    if n == 0 then r else Once(c, file, Rounds(c, file, r, n - 1))
  }

  predicate Accepted(name: Text, file: Text) {
    |file| >= HEADER_SIZE && SameName(NameBytes(name), file, |NameBytes(name)|)
  }

  /** How far a restore over `m` has come after `n` rounds. */
  function Restored<V>(c: Layout<V>, name: Text, file: Text, m: map<Text, V>, room: nat, n: nat): Reading<V>
    requires c.size > 0
  {
    if Accepted(name, file) then Rounds(c, file, Going(HEADER_SIZE, m, room), n) else Stopped(m)
  }

  /** What a read of `n` bytes at `offset` delivers: fewer at the end of the file, none behind it or before it. */
  function ReadFile(file: Text, n: nat, offset: int): (r: Text)
    ensures |r| <= n && (|r| == n > 0 ==> 0 <= offset <= offset + n <= |file| && r == file[offset..offset + n])
    ensures 0 <= offset <= offset + n <= |file| ==> r == file[offset..offset + n]
  {
    if offset < 0 || offset >= |file| then []
    else if offset + n > |file| then file[offset..]
    else file[offset..offset + n]
  }

  /** The source's loop has no bound: it goes on until something ends it. Here it goes on for `rounds` rounds. */
  method Restore<V>(store: Store<V>, c: Layout<V>, name: Text, file: Text, room: nat, rounds: nat) returns (done: bool)
    requires store.Valid() && c.size > 0
    modifies store
    ensures store.Valid()
    ensures var r := Restored(c, name, file, old(store.Entries()), room, rounds);
            store.Entries() == r.m && (done <==> r.Stopped?)
  {
    hide Rounds, Once, SameName, ReadFile, RecordAt, ToMap, Ordered, NameBytes;
    HeaderRead(file);
    var header := ReadFile(file, HEADER_SIZE, 0);
    if |header| != HEADER_SIZE {
      return true;
    }
    SameNamePrefix(NameBytes(name), header, file, |NameBytes(name)|);
    if !SameName(NameBytes(name), header, |NameBytes(name)|) {
      return true;
    }
    ghost var start := Going(HEADER_SIZE, store.Entries(), room);
    var offset: int, left: nat, i: nat := HEADER_SIZE, room, 0;
    NoRounds(c, file, start);
    while i < rounds
      invariant store.Valid() && 0 <= i <= rounds
      invariant Rounds(c, file, start, i) == Going(offset, store.Entries(), left)
    {
      RoundsStep(c, file, start, i, rounds);
      OnceStep(c, file, offset, store.Entries(), left);
      PiecesRead(c, file, offset);
      i := i + 1;
      var node := ReadFile(file, c.size, offset);
      if |node| != c.size {
        return true;
      }
      var len := c.len(node);
      if len > BUF_SIZE {
        offset := Signed(offset + len + |PAD_BYTES|);
        continue;
      }
      var at := offset + c.size;
      var buf := ReadFile(file, len, at);
      if |buf| != len {
        return true;
      }
      var pad := ReadFile(file, |PAD_BYTES|, at + len);
      if |pad| != |PAD_BYTES| || pad != PAD_BYTES {
        return true;
      }
      var before := store.Find(buf);
      var ok := store.RestoreAdd(buf, c.value(node), left > 0);
      if !ok {
        return true;
      }
      left := if before.None? then left - 1 else left;
      offset := at + len + |PAD_BYTES|;
    }
    return false;
  }

  lemma HeaderRead(file: Text)
    ensures var header := ReadFile(file, HEADER_SIZE, 0);
            (|header| == HEADER_SIZE <==> |file| >= HEADER_SIZE) &&
            (|header| == HEADER_SIZE ==> header == file[..HEADER_SIZE])
  {
  }

  /** The reads of one round, and the record they amount to. */
  lemma PiecesRead<V>(c: Layout<V>, file: Text, offset: int)
    requires c.size > 0
    ensures var node := ReadFile(file, c.size, offset);
            (|node| == c.size ==> offset >= 0) &&
            RecordAt(c, file, offset) ==
              if |node| != c.size then End
              else
                var len := c.len(node);
                var at := offset + c.size;
                if len > BUF_SIZE then TooLong(Signed(offset + len + |PAD_BYTES|))
                else if |ReadFile(file, len, at)| != len || ReadFile(file, |PAD_BYTES|, at + len) != PAD_BYTES then End
                else Got(ReadFile(file, len, at), c.value(node), at + len + |PAD_BYTES|)
  {
    hide Signed;
  }

  lemma OnceStep<V>(c: Layout<V>, file: Text, offset: int, m: map<Text, V>, room: nat)
    requires c.size > 0
    ensures Once(c, file, Going(offset, m, room)) ==
            match RecordAt(c, file, offset)
            case End => Stopped(m)
            case TooLong(next) => Going(next, m, room)
            case Got(key, value, next) =>
              if key == [] || (key !in m && room == 0) then Stopped(m)
              else if key in m then Going(next, m, room)
              else Going(next, m[key := value], room - 1)
  {
  }

  lemma NoRounds<V>(c: Layout<V>, file: Text, r: Reading<V>)
    requires c.size > 0
    ensures Rounds(c, file, r, 0) == r
  {
  }

  /** One round more, and once it has ended the restore stays where it is. */
  lemma {:induction false} RoundsStep<V>(c: Layout<V>, file: Text, r: Reading<V>, i: nat, n: nat)
    requires c.size > 0 && i < n
    ensures Rounds(c, file, r, i + 1) == Once(c, file, Rounds(c, file, r, i))
    ensures Rounds(c, file, r, i + 1).Stopped? ==> Rounds(c, file, r, n) == Rounds(c, file, r, i + 1)
  {
    hide RecordAt;
    if i + 1 < n {
      RoundsStep(c, file, r, i, n - 1);
    }
  }

  lemma {:induction false} SameNamePrefix(a: Text, b: Text, file: Text, n: nat)
    requires n <= |a| && n <= |b| <= |file| && file[..|b|] == b
    ensures SameName(a, b, n) == SameName(a, file, n)
  {
    if n > 0 {
      assert b[0] == file[0] && file[1..][..|b[1..]|] == b[1..];
      SameNamePrefix(a[1..], b[1..], file[1..], n - 1);
    }
  }
}
