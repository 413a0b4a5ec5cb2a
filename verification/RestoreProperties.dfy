/** What a restore may and may not do: for any bytes, and for what a dump has written. */
module RestoreProperties {
  import opened Bytes
  import opened Collections
  import opened Trees
  import opened Dump

  // ---- For any bytes ----

  lemma OnceKeeps<V>(c: Layout<V>, file: Text, r: Reading<V>)
    requires c.size > 0
    ensures var q := Once(c, file, r);
            (forall k | k in r.m :: k in q.m && q.m[k] == r.m[k]) &&
            (forall k | k in q.m :: k in r.m || 1 <= |k| <= BUF_SIZE) &&
            (q.Going? ==> r.Going? && q.room <= r.room <= q.room + 1)
  {
    hide RecordAt;
  }

  /** Entries already there are never changed; whatever is added has a key of 1 to 1024 bytes. */
  lemma {:induction false} RoundsKeepEntries<V>(c: Layout<V>, file: Text, r: Reading<V>, n: nat)
    requires c.size > 0
    ensures var q := Rounds(c, file, r, n);
            forall k | k in r.m :: k in q.m && q.m[k] == r.m[k]
    ensures forall k | k in Rounds(c, file, r, n).m :: k in r.m || 1 <= |k| <= BUF_SIZE
  {
    hide Once;
    if n > 0 {
      RoundsKeepEntries(c, file, r, n - 1);
      OnceKeeps(c, file, Rounds(c, file, r, n - 1));
    }
  }

  lemma {:induction false} RoundsMore<V>(c: Layout<V>, file: Text, r: Reading<V>, i: nat, n: nat)
    requires c.size > 0 && i <= n
    ensures Rounds(c, file, r, n) == Rounds(c, file, Rounds(c, file, r, i), n - i)
  {
    hide Once;
    if i < n {
      RoundsMore(c, file, r, i, n - 1);
    }
  }

  /** A restore that is still going has always been going. */
  lemma {:induction false} StillGoing<V>(c: Layout<V>, file: Text, r: Reading<V>, i: nat, n: nat)
    requires c.size > 0 && i <= n && Rounds(c, file, r, n).Going?
    ensures Rounds(c, file, r, i).Going?
  {
    hide RecordAt;
    if i < n {
      StillGoing(c, file, r, i, n - 1);
    }
  }

  /** A round the restore goes on after: it was at a record, and has its key. */
  lemma GoesOn<V>(c: Layout<V>, file: Text, r: Reading<V>)
    requires c.size > 0 && Once(c, file, r).Going?
    ensures r.Going? && 0 <= r.offset < |file| && !RecordAt(c, file, r.offset).End?
    ensures var f := RecordAt(c, file, r.offset);
            Once(c, file, r).offset == f.next && (f.Got? ==> f.key != [] && f.key in Once(c, file, r).m)
  {
  }

  /** At a record whose key is there already the restore goes on. */
  lemma GoesOnAgain<V>(c: Layout<V>, file: Text, r: Reading<V>)
    requires c.size > 0 && r.Going? && !RecordAt(c, file, r.offset).End?
    requires var f := RecordAt(c, file, r.offset); f.Got? ==> f.key != [] && f.key in r.m
    ensures Once(c, file, r) == r.(offset := RecordAt(c, file, r.offset).next)
  {
  }

  /** Once back at an offset it has been at, a restore goes round for ever. */
  lemma {:induction false} GoesRound<V>(c: Layout<V>, file: Text, r: Reading<V>, i: nat, j: nat, t: nat)
    returns (s: nat)
    requires c.size > 0 && i < j && Rounds(c, file, r, i).Going? && Rounds(c, file, r, j).Going?
    requires Rounds(c, file, r, i).offset == Rounds(c, file, r, j).offset
    ensures i <= s < j && Rounds(c, file, r, s).Going?
    ensures var q := Rounds(c, file, r, j + t); q.Going? && q.offset == Rounds(c, file, r, s).offset
  {
    hide Once, RecordAt;
    if t == 0 {
      s := i;
    } else {
      var p := GoesRound(c, file, r, i, j, t - 1);
      StillGoing(c, file, r, p + 1, j);
      GoesOn(c, file, Rounds(c, file, r, p));
      RoundsMore(c, file, r, p + 1, j + t - 1);
      RoundsKeepEntries(c, file, Rounds(c, file, r, p + 1), j + t - 1 - (p + 1));
      GoesOnAgain(c, file, Rounds(c, file, r, j + t - 1));
      s := if p + 1 == j then i else p + 1;
    }
  }

  /** A restore that does not end within as many rounds as the file has bytes, and one more, never ends. */
  lemma EndsSoonOrNever<V>(c: Layout<V>, file: Text, r: Reading<V>)
    requires c.size > 0
    ensures (exists n :: Rounds(c, file, r, n).Stopped?) <==> Rounds(c, file, r, |file| + 1).Stopped?
  {
    hide Rounds, Once, RecordAt;
    var last := |file| + 1;
    if Rounds(c, file, r, last).Going? {
      forall n: nat
        ensures Rounds(c, file, r, n).Going?
      {
        NeverEnds(c, file, r, n);
      }
    }
  }

  lemma NeverEnds<V>(c: Layout<V>, file: Text, r: Reading<V>, n: nat)
    requires c.size > 0 && Rounds(c, file, r, |file| + 1).Going?
    ensures Rounds(c, file, r, n).Going?
  {
    hide Once, RecordAt;
    var last := |file| + 1;
    forall i: nat | i < last
      ensures Rounds(c, file, r, i).Going? && 0 <= Rounds(c, file, r, i).offset < |file|
    {
      StillGoing(c, file, r, i, last);
      StillGoing(c, file, r, i + 1, last);
      GoesOn(c, file, Rounds(c, file, r, i));
    }
    if n <= last {
      StillGoing(c, file, r, n, last);
    } else {
      var offsets: seq<nat> := seq(last, i requires 0 <= i < last => Rounds(c, file, r, i).offset);
      var i, j := Pigeonhole(offsets, |file|);
      var s := GoesRound(c, file, r, i, j, n - j);
    }
  }

  /** About to end for want of memory for a new node. */
  predicate OutOfMemory<V>(c: Layout<V>, file: Text, r: Reading<V>)
    requires c.size > 0
  {
    r.Going? && r.room == 0 && RecordAt(c, file, r.offset).Got? &&
    RecordAt(c, file, r.offset).key != [] && RecordAt(c, file, r.offset).key !in r.m
  }

  predicate Starved<V>(c: Layout<V>, file: Text, r: Reading<V>, n: nat)
    requires c.size > 0
  {
    n > 0 && (Starved(c, file, r, n - 1) || OutOfMemory(c, file, Rounds(c, file, r, n - 1)))
  }

  /** The rounds of a second restore over a map with all keys of the first, which had memory enough. */
  lemma {:induction false} RoundsAgain<V>(c: Layout<V>, file: Text, offset: int, m: map<Text, V>, room: nat,
                                          full: map<Text, V>, again: nat, n: nat)
    requires c.size > 0 && !Starved(c, file, Going(offset, m, room), n)
    requires forall k | k in Rounds(c, file, Going(offset, m, room), n).m :: k in full
    ensures var r := Rounds(c, file, Going(offset, m, room), n);
            Rounds(c, file, Going(offset, full, again), n) ==
              if r.Stopped? then Stopped(full) else Going(r.offset, full, again)
  {
    hide RecordAt;
    if n > 0 {
      var before := Rounds(c, file, Going(offset, m, room), n - 1);
      OnceKeeps(c, file, before);
      RoundsAgain(c, file, offset, m, room, full, again, n - 1);
    }
  }

  /** A restore for which there was a free node in every round has not been starved. */
  lemma {:induction false} RoomEnough<V>(c: Layout<V>, file: Text, r: Reading<V>, n: nat)
    requires c.size > 0 && r.Going? && n <= r.room
    ensures !Starved(c, file, r, n)
    ensures var q := Rounds(c, file, r, n); q.Going? ==> q.room + n >= r.room
  {
    hide RecordAt;
    if n > 0 {
      RoomEnough(c, file, r, n - 1);
      OnceKeeps(c, file, Rounds(c, file, r, n - 1));
    }
  }

  /** Where a starved restore ended. */
  lemma {:induction false} StarvedAt<V>(c: Layout<V>, file: Text, r: Reading<V>, n: nat) returns (j: nat)
    requires c.size > 0 && Starved(c, file, r, n)
    ensures j < n && !Starved(c, file, r, j) && OutOfMemory(c, file, Rounds(c, file, r, j))
    ensures Rounds(c, file, r, n) == Stopped(Rounds(c, file, r, j).m)
  {
    hide RecordAt;
    if Starved(c, file, r, n - 1) {
      j := StarvedAt(c, file, r, n - 1);
    } else {
      j := n - 1;
    }
  }

  /** With memory for one more node, a second restore goes on where a starved one ended. */
  lemma GoesFurther<V>(c: Layout<V>, file: Text, offset: int, m: map<Text, V>, room: nat, n: nat)
    requires c.size > 0 && Starved(c, file, Going(offset, m, room), n)
    ensures var once := Rounds(c, file, Going(offset, m, room), n);
            Rounds(c, file, Going(offset, once.m, 1), n).m != once.m
  {
    hide RecordAt, Rounds, Starved;
    var j := StarvedAt(c, file, Going(offset, m, room), n);
    var at := Rounds(c, file, Going(offset, m, room), j);
    var again := Going(offset, at.m, 1);
    RoundsAgain(c, file, offset, m, room, at.m, 1, j);
    var q := Once(c, file, Rounds(c, file, again, j));
    assert RecordAt(c, file, at.offset).key in q.m;
    RoundsStep(c, file, again, j, n);
    RoundsMore(c, file, again, j + 1, n);
    RoundsKeepEntries(c, file, q, n - (j + 1));
  }

  /**
   * Restoring any file again adds nothing and comes as far as the first time, whatever memory there is, exactly when
   * the first restore was not ended by want of memory.
   */
  lemma RestoreIdempotentIff<V>(c: Layout<V>, name: Text, file: Text, m: map<Text, V>, room: nat, n: nat)
    requires c.size > 0
    ensures (forall again: nat ::
              var once := Restored(c, name, file, m, room, n);
              var twice := Restored(c, name, file, once.m, again, n);
              twice.m == once.m && (twice.Stopped? <==> once.Stopped?)) <==>
            !(Accepted(name, file) && Starved(c, file, Going(HEADER_SIZE, m, room), n))
  {
    hide Rounds, Starved, Accepted;
    var once := Restored(c, name, file, m, room, n);
    if Accepted(name, file) && Starved(c, file, Going(HEADER_SIZE, m, room), n) {
      GoesFurther(c, file, HEADER_SIZE, m, room, n);
      assert Restored(c, name, file, once.m, 1, n).m != once.m;
    } else {
      forall again: nat
        ensures var twice := Restored(c, name, file, once.m, again, n);
                twice.m == once.m && (twice.Stopped? <==> once.Stopped?)
      {
        if Accepted(name, file) {
          RoundsAgain(c, file, HEADER_SIZE, m, room, once.m, again, n);
        }
      }
    }
  }

  // ---- What is accepted ----

  /** For names without a zero byte: a dump is accepted exactly when its header is whole and begins with the name. */
  lemma AcceptedIff(name: Text, file: Text)
    requires 0 !in name
    ensures Accepted(name, file) <==>
            |file| >= HEADER_SIZE && forall i | 0 <= i < |name| && i < NAME_SIZE - 1 :: file[i] == name[i]
  {
    if |file| >= HEADER_SIZE {
      var n := NameBytes(name);
      SameNameIff(n, file);
      assert file[..|n|] == n <==> forall i | 0 <= i < |n| :: file[i] == n[i];
    }
  }

  lemma {:induction false} SameNameIff(a: Text, b: Text)
    requires 0 !in a && |a| <= |b|
    ensures SameName(a, b, |a|) <==> b[..|a|] == a
  {
    if a != [] {
      assert a[0] in a && (forall x | x in a[1..] :: x in a);
      SameNameIff(a[1..], b[1..]);
      assert b[..|a|] == [b[0]] + b[1..][..|a| - 1] && a == [a[0]] + a[1..];
    }
  }

  /** A dump under another name, or cut off in its header, leaves the store as it was. */
  lemma OtherNameIgnored<V>(c: Layout<V>, name: Text, file: Text, m: map<Text, V>, room: nat, n: nat)
    requires c.size > 0 && 0 !in name
    requires |file| < HEADER_SIZE || exists i :: 0 <= i < |name| && i < NAME_SIZE - 1 && file[i] != name[i]
    ensures Restored(c, name, file, m, room, n) == Stopped(m)
  {
    AcceptedIff(name, file);
  }

  /** A record in the file: node, key of the length the node says, pad. */
  ghost predicate RecordIn<V>(c: Layout<V>, file: Text, key: Text, value: V) {
    exists o: nat | o + c.size + |key| + |PAD_BYTES| <= |file| :: RecordBegins(c, file, o, key, value)
  }

  ghost predicate RecordBegins<V>(c: Layout<V>, file: Text, o: nat, key: Text, value: V)
    requires o + c.size + |key| + |PAD_BYTES| <= |file|
  {
    var at := o + c.size;
    c.len(file[o..at]) == |key| && c.value(file[o..at]) == value &&
    file[at..at + |key|] == key && file[at + |key|..at + |key| + |PAD_BYTES|] == PAD_BYTES
  }

  lemma FoundIsRecord<V>(c: Layout<V>, file: Text, offset: int)
    requires c.size > 0 && RecordAt(c, file, offset).Got?
    ensures var f := RecordAt(c, file, offset); RecordIn(c, file, f.key, f.value)
  {
    var f := RecordAt(c, file, offset);
    assert RecordBegins(c, file, offset, f.key, f.value);
  }

  /** Whatever the bytes: an entry that was not there before is a record of the file, pad included. */
  lemma {:induction false} AddsOnlyRecords<V>(c: Layout<V>, file: Text, r: Reading<V>, n: nat)
    requires c.size > 0
    ensures var q := Rounds(c, file, r, n); forall k | k in q.m && k !in r.m :: RecordIn(c, file, k, q.m[k])
  {
    hide RecordAt, RecordIn;
    if n > 0 {
      var p := Rounds(c, file, r, n - 1);
      AddsOnlyRecords(c, file, r, n - 1);
      RoundsKeepEntries(c, file, r, n - 1);
      OnceKeeps(c, file, p);
      if p.Going? && RecordAt(c, file, p.offset).Got? {
        FoundIsRecord(c, file, p.offset);
      }
    }
  }

  // ---- Skipping a record ----

  /**
   * Skipping a record leads behind it, or to where nothing can be read, exactly when the end of the record is below
   * 2^64; it leads back to the record itself or before it exactly for these lengths.
   */
  lemma SkipIff(offset: nat, len: word)
    requires offset + 2 < OFFSETS
    ensures var next := Signed(offset + len + |PAD_BYTES|);
            (next < 0 || next == offset + len + |PAD_BYTES| <==> offset + len + |PAD_BYTES| < WORD) &&
            (0 <= next <= offset <==> WORD - |PAD_BYTES| - offset <= len <= WORD - |PAD_BYTES|)
  {
    var end := offset + len + |PAD_BYTES|;
    if end >= WORD {
      assert end % WORD == end - WORD;
    }
  }

  lemma StuckOnce<V>(c: Layout<V>, file: Text, offset: nat, m: map<Text, V>, room: nat)
    requires c.size > 0 && offset + c.size <= |file| < OFFSETS
    requires c.len(file[offset..offset + c.size]) == WORD - |PAD_BYTES|
    ensures Once(c, file, Going(offset, m, room)) == Going(offset, m, room)
  {
    assert (offset + WORD) % WORD == offset;
  }

  /** A record of this length is read over and over. */
  lemma {:induction false} StuckForEver<V>(c: Layout<V>, file: Text, offset: nat, m: map<Text, V>, room: nat, n: nat)
    requires c.size > 0 && offset + c.size <= |file| < OFFSETS
    requires c.len(file[offset..offset + c.size]) == WORD - |PAD_BYTES|
    ensures Rounds(c, file, Going(offset, m, room), n) == Going(offset, m, room)
  {
    hide Once;
    if n > 0 {
      StuckForEver(c, file, offset, m, room, n - 1);
      StuckOnce(c, file, offset, m, room);
    }
  }

  /** The entries a reader adds that skips long records to their ends, however far away those are. */
  function ReadFrom<V>(c: Layout<V>, file: Text, offset: nat, m: map<Text, V>, room: nat): map<Text, V>
    requires c.size > 0
    decreases |file| - offset
  {
    match RecordAt(c, file, offset)
    case End => m
    case TooLong(_) => ReadFrom(c, file, SkipEnd(c, file, offset), m, room)
    case Got(key, value, next) =>
      if key == [] then m
      else if key in m then ReadFrom(c, file, next, m, room)
      else if room == 0 then m
      else ReadFrom(c, file, next, m[key := value], room - 1)
  }

  function SkipEnd<V>(c: Layout<V>, file: Text, offset: nat): (end: nat)
    requires c.size > 0 && RecordAt(c, file, offset).TooLong?
    ensures offset < end
  {
    offset + c.len(file[offset..offset + c.size]) + |PAD_BYTES|
  }

  /** No length met on the way makes the end of its record overflow. */
  predicate LengthsFit<V>(c: Layout<V>, file: Text, offset: nat)
    requires c.size > 0
    decreases |file| - offset
  {
    match RecordAt(c, file, offset)
    case End => true
    case TooLong(_) => SkipEnd(c, file, offset) < WORD && LengthsFit(c, file, SkipEnd(c, file, offset))
    case Got(_, _, next) => LengthsFit(c, file, next)
  }

  lemma SkipLeads<V>(c: Layout<V>, file: Text, offset: nat)
    requires c.size > 0 && |file| < OFFSETS && RecordAt(c, file, offset).TooLong?
    requires SkipEnd(c, file, offset) < WORD
    ensures var next := RecordAt(c, file, offset).next;
            next == SkipEnd(c, file, offset) || (next < 0 && SkipEnd(c, file, offset) > |file|)
  {
  }

  lemma EndReads<V>(c: Layout<V>, file: Text, offset: int)
    requires c.size > 0 && (offset < 0 || offset >= |file|)
    ensures RecordAt(c, file, offset).End?
  {
  }

  lemma FirstRound<V>(c: Layout<V>, file: Text, r: Reading<V>, n: nat)
    requires c.size > 0 && n > 0
    ensures Rounds(c, file, r, n) == Rounds(c, file, Once(c, file, r), n - 1)
  {
    hide Once;
    RoundsMore(c, file, r, 1, n);
    assert Rounds(c, file, r, 1) == Once(c, file, Rounds(c, file, r, 0));
  }

  lemma {:induction false} StoppedRounds<V>(c: Layout<V>, file: Text, m: map<Text, V>, n: nat)
    requires c.size > 0
    ensures Rounds(c, file, Stopped(m), n) == Stopped(m)
  {
    if n > 0 {
      StoppedRounds(c, file, m, n - 1);
    }
  }

  /** Where all lengths fit, the restore moves forward, ends, and has added what a reader of whole records adds. */
  lemma {:induction false} ReadsForward<V>(c: Layout<V>, file: Text, offset: nat, m: map<Text, V>, room: nat, n: nat)
    requires c.size > 0 && |file| < OFFSETS && LengthsFit(c, file, offset) && n > 0 && offset + n > |file|
    ensures Rounds(c, file, Going(offset, m, room), n) == Stopped(ReadFrom(c, file, offset, m, room))
    decreases |file| - offset
  {
    hide RecordAt, Rounds, SkipEnd;
    FirstRound(c, file, Going(offset, m, room), n);
    match RecordAt(c, file, offset)
    case End => StoppedRounds(c, file, m, n - 1);
    case TooLong(next) =>
      var end := SkipEnd(c, file, offset);
      SkipLeads(c, file, offset);
      if next == end {
        ReadsForward(c, file, end, m, room, n - 1);
      } else {
        EndReads(c, file, next);
        EndReads(c, file, end);
        FirstRound(c, file, Going(next, m, room), n - 1);
        StoppedRounds(c, file, m, n - 2);
      }
    case Got(key, value, next) =>
      if key == [] || (key !in m && room == 0) {
        StoppedRounds(c, file, m, n - 1);
      } else if key in m {
        ReadsForward(c, file, next, m, room, n - 1);
      } else {
        ReadsForward(c, file, next, m[key := value], room - 1, n - 1);
      }
  }

  /** Where the restore reads after `n` records, whatever it does with them. */
  function Reached<V>(c: Layout<V>, file: Text, offset: int, n: nat): int
    requires c.size > 0
    decreases n
  {
    var f := RecordAt(c, file, offset);
    if n == 0 || f.End? then offset else Reached(c, file, f.next, n - 1)
  }

  /** Where a reader of whole records reads then. */
  function ReachedWhole<V>(c: Layout<V>, file: Text, offset: nat, n: nat): nat
    requires c.size > 0
    decreases n
  {
    var f := RecordAt(c, file, offset);
    if n == 0 || f.End? then offset
    else ReachedWhole(c, file, if f.Got? then f.next else SkipEnd(c, file, offset), n - 1)
  }

  /** The same place, or nothing to read at either. */
  predicate SamePlace(file: Text, a: int, b: nat) {
    a == b || ((a < 0 || a >= |file|) && b >= |file|)
  }

  lemma Overflow<V>(c: Layout<V>, file: Text, offset: nat)
    requires c.size > 2 && |file| < OFFSETS && RecordAt(c, file, offset).TooLong?
    requires SkipEnd(c, file, offset) >= WORD
    ensures !SamePlace(file, RecordAt(c, file, offset).next, SkipEnd(c, file, offset))
  {
    SkipIff(offset, c.len(file[offset..offset + c.size]));
  }

  lemma {:induction false} OutsideStays<V>(c: Layout<V>, file: Text, a: int, b: nat, n: nat)
    requires c.size > 0 && (a < 0 || a >= |file|) && b >= |file|
    ensures Reached(c, file, a, n) == a && ReachedWhole(c, file, b, n) == b
  {
    EndReads(c, file, a);
    EndReads(c, file, b);
  }

  lemma {:induction false} SameWay<V>(c: Layout<V>, file: Text, offset: nat, n: nat)
    requires c.size > 0 && |file| < OFFSETS && LengthsFit(c, file, offset)
    ensures SamePlace(file, Reached(c, file, offset, n), ReachedWhole(c, file, offset, n))
    decreases n
  {
    hide RecordAt, SkipEnd;
    if n > 0 {
      match RecordAt(c, file, offset)
      case End =>
      case TooLong(next) =>
        SkipLeads(c, file, offset);
        if next == SkipEnd(c, file, offset) {
          SameWay(c, file, next, n - 1);
        } else {
          OutsideStays(c, file, next, SkipEnd(c, file, offset), n - 1);
        }
      case Got(_, _, next) =>
        SameWay(c, file, next, n - 1);
    }
  }

  lemma {:induction false} OtherWay<V>(c: Layout<V>, file: Text, offset: nat) returns (n: nat)
    requires c.size > 2 && |file| < OFFSETS && !LengthsFit(c, file, offset)
    ensures !SamePlace(file, Reached(c, file, offset, n), ReachedWhole(c, file, offset, n))
    decreases |file| - offset
  {
    hide RecordAt, SkipEnd, SamePlace;
    match RecordAt(c, file, offset)
    case TooLong(next) =>
      var end := SkipEnd(c, file, offset);
      if end >= WORD {
        Overflow(c, file, offset);
        n := 1;
      } else {
        SkipLeads(c, file, offset);
        if next != end {
          EndReads(c, file, end);
          assert false;
        }
        var k := OtherWay(c, file, end);
        n := k + 1;
      }
    case Got(_, _, next) =>
      var k := OtherWay(c, file, next);
      n := k + 1;
  }

  /** The restore reads where a reader of whole records reads exactly when no length on the way overflows the offset. */
  lemma SameWayIff<V>(c: Layout<V>, file: Text, offset: nat)
    requires c.size > 2 && |file| < OFFSETS
    ensures LengthsFit(c, file, offset) <==>
            forall n: nat :: SamePlace(file, Reached(c, file, offset, n), ReachedWhole(c, file, offset, n))
  {
    hide LengthsFit, SamePlace, Reached, ReachedWhole;
    if LengthsFit(c, file, offset) {
      forall n: nat
        ensures SamePlace(file, Reached(c, file, offset, n), ReachedWhole(c, file, offset, n))
      {
        SameWay(c, file, offset, n);
      }
    } else {
      var n := OtherWay(c, file, offset);
    }
  }

  // ---- Reading back what was written ----

  /** The records added one by one; a key already there keeps its entry. */
  function AddAll<V>(m: map<Text, V>, recs: seq<Rec<V>>): map<Text, V>
    decreases recs
  {
    if recs == [] then m
    else AddAll(if recs[0].key in m then m else m[recs[0].key := recs[0].value], recs[1..])
  }

  /** How many records lie wholly within the first `n` bytes of the body. */
  function Whole<V>(c: Layout<V>, recs: seq<Rec<V>>, n: nat): (k: nat)
    ensures k <= |recs|
  {
    if recs == [] then 0
    else
      var size := |RecordBytes(c, recs[0])|;
      if size > n then 0 else 1 + Whole(c, recs[1..], n - size)
  }

  /** `Whole` is the largest number of leading records that fit. */
  lemma {:induction false} WholeIsLargest<V>(c: Layout<V>, recs: seq<Rec<V>>, n: nat)
    ensures |Body(c, recs[..Whole(c, recs, n)])| <= n
    ensures forall k | Whole(c, recs, n) < k <= |recs| :: |Body(c, recs[..k])| > n
  {
    if recs != [] {
      var size := |RecordBytes(c, recs[0])|;
      forall k | 1 <= k <= |recs|
        ensures |Body(c, recs[..k])| == size + |Body(c, recs[1..][..k - 1])|
      {
        assert recs[..k][1..] == recs[1..][..k - 1];
      }
      if size <= n {
        WholeIsLargest(c, recs[1..], n - size);
      }
    }
  }

  ghost predicate Storable<V>(c: Layout<V>, recs: seq<Rec<V>>) {
    c.size > 0 && forall i | 0 <= i < |recs| :: recs[i].key != [] && RoundTrips(c, recs[i].value, recs[i].key)
  }

  ghost predicate ShortKeys<V>(recs: seq<Rec<V>>) {
    forall i | 0 <= i < |recs| :: |recs[i].key| <= BUF_SIZE
  }

  /** One record, cut off after `n` bytes or not, at the place where reading has arrived. */
  lemma ReadRecord<V>(c: Layout<V>, file: Text, offset: nat, r: Rec<V>, n: nat)
    requires c.size > 0 && |r.key| <= BUF_SIZE && RoundTrips(c, r.value, r.key)
    requires n <= |RecordBytes(c, r)| && offset + n <= |file|
    requires n < |RecordBytes(c, r)| ==> offset + n == |file|
    requires file[offset..offset + n] == RecordBytes(c, r)[..n]
    ensures RecordAt(c, file, offset) ==
            if n < |RecordBytes(c, r)| then End else Got(r.key, r.value, offset + n)
  {
    var all, bytes := RecordBytes(c, r), c.encode(r.value, r.key);
    if c.size <= n {
      SubSlice(file, offset, n, 0, c.size);
      assert all[..n][0..c.size] == bytes;
      if n == |all| {
        Thirds(bytes, r.key, PAD_BYTES);
        assert all[..n] == all;
        SubSlice(file, offset, n, c.size, c.size + |r.key|);
        SubSlice(file, offset, n, c.size + |r.key|, n);
        assert all[c.size + |r.key|..n] == all[c.size + |r.key|..];
      }
    }
  }

  lemma SubSlice(s: Text, offset: nat, n: nat, i: nat, j: nat)
    requires i <= j <= n && offset + n <= |s|
    ensures s[offset..offset + n][i..j] == s[offset + i..offset + j]
  {
    var a, b := s[offset..offset + n][i..j], s[offset + i..offset + j];
    forall k | 0 <= k < j - i
      ensures a[k] == b[k]
    {
      assert a[k] == s[offset..offset + n][i + k] == s[offset + (i + k)];
    }
  }

  lemma Thirds(a: Text, b: Text, c: Text)
    ensures (a + b + c)[|a|..|a| + |b|] == b && (a + b + c)[|a| + |b|..] == c
  {
  }

  /** The part of one record in a body cut off, and what is left of the body behind it. */
  lemma CutBody(bytes: Text, more: Text, file: Text, offset: nat, k: nat)
    requires offset <= |file| <= offset + |bytes + more| && file[offset..] == (bytes + more)[..|file| - offset]
    requires k == if |bytes| <= |file| - offset then |bytes| else |file| - offset
    ensures file[offset..offset + k] == bytes[..k]
    ensures |bytes| <= |file| - offset ==>
              file[offset + |bytes|..] == more[..|file| - offset - |bytes|]
  {
    assert file[offset..offset + k] == file[offset..][..k] == bytes[..k];
    if |bytes| <= |file| - offset {
      assert file[offset + |bytes|..] == file[offset..][|bytes|..];
    }
  }

  /** A body cut off after `n` bytes gives back exactly the records wholly inside. */
  lemma {:induction false} ReadBody<V>(c: Layout<V>, recs: seq<Rec<V>>, file: Text, offset: nat, m: map<Text, V>,
                                       room: nat)
    requires Storable(c, recs) && ShortKeys(recs) && |recs| <= room
    requires offset <= |file| <= offset + |Body(c, recs)| && file[offset..] == Body(c, recs)[..|file| - offset]
    ensures ReadFrom(c, file, offset, m, room) == AddAll(m, recs[..Whole(c, recs, |file| - offset)])
    ensures LengthsFit(c, file, offset)
    decreases |recs|
  {
    hide RecordAt, RecordBytes;
    if recs != [] {
      var n, r := |file| - offset, recs[0];
      var bytes := RecordBytes(c, r);
      var k := if |bytes| <= n then |bytes| else n;
      CutBody(bytes, Body(c, recs[1..]), file, offset, k);
      ReadRecord(c, file, offset, r, k);
      if |bytes| <= n {
        var next := offset + |bytes|;
        var whole := Whole(c, recs[1..], n - |bytes|);
        assert recs[..whole + 1][1..] == recs[1..][..whole];
        if r.key in m {
          ReadBody(c, recs[1..], file, next, m, room);
        } else {
          ReadBody(c, recs[1..], file, next, m[r.key := r.value], room - 1);
        }
      } else {
        assert recs[..0] == [];
      }
    } else {
      assert recs[..Whole(c, recs, 0)] == [];
      EndReads(c, file, offset);
    }
  }

  lemma {:induction false} AddAllConcat<V>(m: map<Text, V>, a: seq<Rec<V>>, b: seq<Rec<V>>)
    ensures AddAll(m, a + b) == AddAll(AddAll(m, a), b)
    decreases a
  {
    if a == [] {
      assert a + b == b;
    } else {
      AddAllConcat(if a[0].key in m then m else m[a[0].key := a[0].value], a[1..], b);
      assert (a + b)[1..] == a[1..] + b;
    }
  }

  lemma {:induction false} AddListing<V>(m: map<Text, V>, t: Tree<V>, f: Hash)
    requires Ordered(t, f)
    ensures AddAll(m, Listing(t)) == ToMap(t) + m
    decreases t
  {
    hide Fits, Joined;
    if t.Node? {
      var l, r := ToMap(t.left), ToMap(t.right);
      var own := Rec(t.key, t.value);
      var first := if t.key in m then m else m[t.key := t.value];
      AddAllConcat(m, [own], Listing(t.left));
      AddAllConcat(m, [own] + Listing(t.left), Listing(t.right));
      assert AddAll(m, [own]) == first;
      AddListing(first, t.left, f);
      AddListing(l + first, t.right, f);
      Apart(l, t.hash, t.key, t.value, r, f);
      JoinedOver(l, t.key, t.value, r, m);
    }
  }

  lemma JoinedOver<V>(l: map<Text, V>, key: Text, value: V, r: map<Text, V>, m: map<Text, V>)
    requires l.Keys !! r.Keys && key !in l && key !in r
    ensures r + (l + (if key in m then m else m[key := value])) == Joined(l, key, value, r) + m
  {
  }

  lemma {:induction false} ListingKeys<V>(t: Tree<V>, f: Hash)
    requires Ordered(t, f)
    ensures |Listing(t)| == Size(t)
    ensures forall r :: r in Listing(t) ==> r.key in ToMap(t) && ToMap(t)[r.key] == r.value
    ensures forall k :: k in ToMap(t) ==> Rec(k, ToMap(t)[k]) in Listing(t)
  {
    hide Fits, Joined;
    if t.Node? {
      ListingKeys(t.left, f);
      ListingKeys(t.right, f);
      forall k: Text
        ensures k in ToMap(t.left) ==> k in ToMap(t) && ToMap(t)[k] == ToMap(t.left)[k]
        ensures k in ToMap(t.right) ==> k in ToMap(t) && ToMap(t)[k] == ToMap(t.right)[k]
        ensures k in ToMap(t) ==> (k == t.key && ToMap(t)[k] == t.value) ||
                                  (k in ToMap(t.left) && ToMap(t)[k] == ToMap(t.left)[k]) ||
                                  (k in ToMap(t.right) && ToMap(t)[k] == ToMap(t.right)[k])
        ensures k == t.key ==> k in ToMap(t) && ToMap(t)[k] == t.value
      {
        Side(ToMap(t.left), t.hash, t.key, t.value, ToMap(t.right), f, k);
      }
    }
  }

  lemma HeaderAccepted(name: Text, stamp: Text, file: Text)
    requires |stamp| == STAMP_SIZE && |file| >= HEADER_SIZE && file[..HEADER_SIZE] == Header(name, stamp)
    ensures SameName(NameBytes(name), file, |NameBytes(name)|)
  {
    var n := NameBytes(name);
    assert file[..|n|] == file[..HEADER_SIZE][..|n|] == n;
    SameNameItself(n, file);
  }

  lemma {:induction false} SameNameItself(a: Text, b: Text)
    requires |a| <= |b| && b[..|a|] == a
    ensures SameName(a, b, |a|)
  {
    if a != [] {
      assert a[0] == b[0] && b[1..][..|a| - 1] == a[1..];
      SameNameItself(a[1..], b[1..]);
    }
  }

  /**
   * A dump cut off anywhere behind its header: restoring it ends, and adds exactly the records lying wholly in what is
   * left, and nothing of the record it ends in.
   */
  lemma RestorePrefix<V>(t: Tree<V>, f: Hash, c: Layout<V>, name: Text, stamp: Text, m: map<Text, V>, room: nat,
                         n: nat, rounds: nat)
    requires Ordered(t, f) && Storable(c, Listing(t)) && ShortKeys(Listing(t)) && Size(t) <= room
    requires |stamp| == STAMP_SIZE && HEADER_SIZE <= n <= HEADER_SIZE + |Body(c, Listing(t))|
    requires n <= rounds && n < OFFSETS
    ensures var file := (Header(name, stamp) + Body(c, Listing(t)))[..n];
            Restored(c, name, file, m, room, rounds) ==
            Stopped(AddAll(m, Listing(t)[..Whole(c, Listing(t), n - HEADER_SIZE)]))
  {
    hide ReadFrom, Rounds, Listing, Body, SameName, NameBytes, Whole, AddAll, ToMap, Ordered, LengthsFit;
    var all := Header(name, stamp) + Body(c, Listing(t));
    var file := all[..n];
    assert file[..HEADER_SIZE] == Header(name, stamp);
    HeaderAccepted(name, stamp, file);
    assert file[HEADER_SIZE..] == Body(c, Listing(t))[..n - HEADER_SIZE];
    ListingKeys(t, f);
    ReadBody(c, Listing(t), file, HEADER_SIZE, m, room);
    ReadsForward(c, file, HEADER_SIZE, m, room, rounds);
  }

  /** A dump restored over `m` adds the dumped entries that `m` lacks. */
  lemma RestoreDump<V>(t: Tree<V>, f: Hash, c: Layout<V>, name: Text, stamp: Text, m: map<Text, V>, room: nat,
                       rounds: nat)
    requires Ordered(t, f) && Storable(c, Listing(t)) && ShortKeys(Listing(t)) && Size(t) <= room
    requires |stamp| == STAMP_SIZE
    requires HEADER_SIZE + |Body(c, Listing(t))| <= rounds && HEADER_SIZE + |Body(c, Listing(t))| < OFFSETS
    ensures Restored(c, name, Header(name, stamp) + Body(c, Listing(t)), m, room, rounds) == Stopped(ToMap(t) + m)
  {
    hide Restored, Listing, Body, Header, AddAll, ToMap, Ordered, Whole, RecordBytes, RoundTrips;
    var file := Header(name, stamp) + Body(c, Listing(t));
    RestorePrefix(t, f, c, name, stamp, m, room, |file|, rounds);
    assert file[..|file|] == file;
    WholeIsLargest(c, Listing(t), |file| - HEADER_SIZE);
    assert Listing(t)[..|Listing(t)|] == Listing(t);
    AddListing(m, t, f);
  }

  /**
   * The exact condition for a dump to come back whole in an empty store, after however many rounds: no key is longer
   * than the read buffer. The nodes of longer keys are lost.
   */
  lemma RestoreDumpIff<V>(t: Tree<V>, f: Hash, c: Layout<V>, name: Text, stamp: Text, room: nat)
    requires Ordered(t, f) && Storable(c, Listing(t)) && Size(t) <= room && |stamp| == STAMP_SIZE
    requires HEADER_SIZE + |Body(c, Listing(t))| < OFFSETS
    ensures var file := Header(name, stamp) + Body(c, Listing(t));
            (exists n :: Restored(c, name, file, map[], room, n) == Stopped(ToMap(t))) <==>
            forall k | k in ToMap(t) :: |k| <= BUF_SIZE
  {
    hide Rounds, Ordered, Header, SameName, Body, ToMap;
    var file := Header(name, stamp) + Body(c, Listing(t));
    ListingKeys(t, f);
    if forall k | k in ToMap(t) :: |k| <= BUF_SIZE {
      assert forall i | 0 <= i < |Listing(t)| :: Listing(t)[i] in Listing(t);
      RestoreDump(t, f, c, name, stamp, map[], room, |file|);
    } else {
      forall n: nat
        ensures forall k | k in Restored(c, name, file, map[], room, n).m :: |k| <= BUF_SIZE
      {
        RoundsKeepEntries(c, file, Going(HEADER_SIZE, map[], room), n);
      }
    }
  }

  /**
   * Behind the record of a longer key, reading goes on in the middle of that record: `size` bytes before its end.
   */
  lemma LongKeyMisread<V>(c: Layout<V>, r: Rec<V>, rest: Text, before: Text, m: map<Text, V>, room: nat)
    requires c.size > 0 && RoundTrips(c, r.value, r.key) && |r.key| > BUF_SIZE
    requires |before + RecordBytes(c, r) + rest| < OFFSETS
    ensures var file := before + RecordBytes(c, r) + rest;
            var end := |before| + |RecordBytes(c, r)|;
            Once(c, file, Going(|before|, m, room)) == Going(end - c.size, m, room)
  {
    var file := before + RecordBytes(c, r) + rest;
    assert file[|before|..|before| + c.size] == c.encode(r.value, r.key);
  }

  /** What is read there can be a length that keeps the restore there for ever: the bytes of a key decide. */
  lemma LongKeyHangs<V>(c: Layout<V>, r: Rec<V>, rest: Text, before: Text, m: map<Text, V>, room: nat, n: nat)
    requires c.size > 0 && RoundTrips(c, r.value, r.key) && |r.key| > BUF_SIZE
    requires |before + RecordBytes(c, r) + rest| < OFFSETS
    requires c.len(RecordBytes(c, r)[|RecordBytes(c, r)| - c.size..]) == WORD - |PAD_BYTES|
    ensures Rounds(c, before + RecordBytes(c, r) + rest, Going(|before|, m, room), n).Going?
  {
    hide RecordAt, Rounds;
    var bytes := RecordBytes(c, r);
    var file := before + bytes + rest;
    var at := |before| + |bytes| - c.size;
    LongKeyMisread(c, r, rest, before, m, room);
    assert file[at..at + c.size] == bytes[|bytes| - c.size..];
    if n > 0 {
      FirstRound(c, file, Going(|before|, m, room), n);
      StuckForEver(c, file, at, m, room, n - 1);
    } else {
      NoRounds(c, file, Going(|before|, m, room));
    }
  }
}
