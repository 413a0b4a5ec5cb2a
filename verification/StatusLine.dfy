/** The resumable parser of an HTTP status line. */
module StatusLine {
  import opened Bytes
  import opened Resumable

  const CR: byte := 13
  const LF: byte := 10
  const SP: byte := 32
  const DOT: byte := 46
  const ZERO: byte := 48

  datatype State =
    | Begin | H | HT | HTT | HTTP
    | FirstMajor | Major | FirstMinor | Minor
    | Status | AfterStatus | StatusText | AlmostDone

  /** What survives from call to call: the state, the code so far and its number of digits. */
  datatype Memory = Memory(state: State, code: nat, count: nat)

  const START: Memory := Memory(Begin, 0, 0)

  predicate IsDigit(ch: byte) {
    ZERO <= ch <= 57
  }

  /** One byte. */
  function Move1(m: Memory, ch: byte): Move<Memory> {
    match m.state
    case Begin => if ch == 72 then Continue(m.(state := H)) else Reject
    case H => if ch == 84 then Continue(m.(state := HT)) else Reject
    case HT => if ch == 84 then Continue(m.(state := HTT)) else Reject
    case HTT => if ch == 80 then Continue(m.(state := HTTP)) else Reject
    case HTTP => if ch == 47 then Continue(m.(state := FirstMajor)) else Reject
    case FirstMajor => if ch == ZERO || !IsDigit(ch) then Reject else Continue(m.(state := Major))
    case Major => if ch == DOT then Continue(m.(state := FirstMinor)) else if IsDigit(ch) then Continue(m) else Reject
    case FirstMinor => if IsDigit(ch) then Continue(m.(state := Minor)) else Reject
    case Minor => if ch == SP then Continue(m.(state := Status)) else if IsDigit(ch) then Continue(m) else Reject
    case Status =>
      if ch == SP then Continue(m)
      else if !IsDigit(ch) then Reject
      else
        var d := Memory(Status, m.code * 10 + (ch - ZERO), m.count + 1);
        Continue(if d.count == 3 then d.(state := AfterStatus) else d)
    case AfterStatus =>
      if ch == SP || ch == DOT then Continue(m.(state := StatusText))
      else if ch == CR then Continue(m.(state := AlmostDone))
      else if ch == LF then Finish(m.(state := Begin))
      else Reject
    case StatusText =>
      if ch == CR then Continue(m.(state := AlmostDone))
      else if ch == LF then Finish(m.(state := Begin))
      else Continue(m)
    case AlmostDone => if ch == LF then Finish(m.(state := Begin)) else Reject
  }

  /** One call on the bytes `s`. */
  function Feed(m: Memory, s: Text): (o: Outcome<Memory>)
    ensures o.Ok? ==> 0 < o.consumed <= |s|
  {
    Scan(Move1, m, s)
  }

  /** The parser context with its receive buffer: `pos` is where the next call starts. */
  class Parser {
    var memory: Memory
    var pos: nat

    constructor ()
      ensures memory == START && pos == 0
    {
      memory, pos := START, 0;
    }

    /** A failing call leaves the saved state as it was; code and count may have been written over by then. */
    method Parse(buffer: Text) returns (o: Outcome<Memory>)
      requires pos <= |buffer|
      modifies this
      ensures o == Later(Feed(old(memory), buffer[old(pos)..]), old(pos))
      ensures if o.Error? then memory.state == old(memory.state) else memory == o.m
      ensures pos == if o.Ok? then o.consumed else if o.Again? then |buffer| else old(pos)
    {
      o := ScanBuffer(Move1, memory, buffer, pos);
      if o.Error? {
        return;
      }
      memory := o.m;
      pos := if o.Ok? then o.consumed else |buffer|;
    }
  }

  /**
   * One call for each read event, the buffer growing in between: whatever the chunks, the outcome is that of one call
   * on all bytes.
   */
  method Calls(chunks: seq<Text>) returns (o: Outcome<Memory>)
    ensures o == Feed(START, Flat(chunks))
  {
    hide Scan;
    var parser := new Parser();
    var buffer: Text := [];
    o := Again(START);
    var i := 0;
    assert chunks[0..] == chunks;
    LaterNothing(Feed(START, Flat(chunks)));
    while i < |chunks|
      invariant 0 <= i <= |chunks| && fresh(parser) && parser.pos == |buffer| && o == Again(parser.memory)
      invariant Feed(START, Flat(chunks)) == Later(Feed(parser.memory, Flat(chunks[i..])), |buffer|)
    {
      ghost var m, rest, seen := parser.memory, Flat(chunks[i + 1..]), |buffer|;
      assert chunks[i..][1..] == chunks[i + 1..];
      ScanTwo(Move1, m, chunks[i], rest);
      buffer := buffer + chunks[i];
      assert buffer[seen..] == chunks[i];
      o := parser.Parse(buffer);
      if !o.Again? {
        return;
      }
      LaterTwice(Feed(parser.memory, rest), |chunks[i]|, seen);
      i := i + 1;
    }
    ScanNothing(Move1, parser.memory);
  }

  // ---- The lines accepted ----

  predicate Digits(s: Text) {
    forall i | 0 <= i < |s| :: IsDigit(s[i])
  }

  predicate Plain(s: Text) {
    forall i | 0 <= i < |s| :: s[i] != CR && s[i] != LF
  }

  function Number(a: byte, b: byte, c: byte): int {
    100 * (a - ZERO) + 10 * (b - ZERO) + (c - ZERO)
  }

  /** "HTTP/" and a version whose major number does not start with zero. */
  function Version(major: Text, minor: Text): Text {
    [72, 84, 84, 80, 47] + major + [DOT] + minor
  }

  /** `status-line` of section 4 of RFC 9112, with its line end; a version may have more digits than the grammar has. */
  function Line(major: Text, minor: Text, code: Text, reason: Text): Text {
    Version(major, minor) + [SP] + code + [SP] + reason + [CR, LF]
  }

  lemma {:induction false} FeedRun(m: Memory, u: Text, v: Text)
    requires forall i | 0 <= i < |u| :: Move1(m, u[i]) == Continue(m)
    ensures Feed(m, u + v) == Later(Feed(m, v), |u|)
  {
    if u == [] {
      assert u + v == v;
    } else {
      assert (u + v)[1..] == u[1..] + v && (u + v)[0] == u[0];
      FeedRun(m, u[1..], v);
    }
  }

  lemma FeedByte(m: Memory, ch: byte, v: Text)
    ensures Feed(m, [ch] + v) ==
            var t := Move1(m, ch);
            if t.Reject? then Error else if t.Finish? then Ok(t.m, 1) else Later(Feed(t.m, v), 1)
  {
    assert ([ch] + v)[1..] == v;
  }

  lemma FeedHttp(v: Text)
    ensures Feed(START, [72, 84, 84, 80, 47] + v) == Later(Feed(START.(state := FirstMajor), v), 5)
  {
    hide Feed;
    assert [72, 84, 84, 80, 47] + v == [72] + ([84] + ([84] + ([80] + ([47] + v))));
    FeedByte(START, 72, [84] + ([84] + ([80] + ([47] + v))));
    FeedByte(START.(state := H), 84, [84] + ([80] + ([47] + v)));
    FeedByte(START.(state := HT), 84, [80] + ([47] + v));
    FeedByte(START.(state := HTT), 80, [47] + v);
    FeedByte(START.(state := HTTP), 47, v);
  }

  lemma FeedNumber(first: State, more: State, digits: Text, v: Text)
    requires (first == FirstMajor && more == Major && digits != [] && digits[0] != ZERO) ||
             (first == FirstMinor && more == Minor)
    requires Digits(digits) && digits != []
    ensures Feed(START.(state := first), digits + v) == Later(Feed(START.(state := more), v), |digits|)
  {
    hide Feed;
    assert digits + v == [digits[0]] + (digits[1..] + v);
    FeedByte(START.(state := first), digits[0], digits[1..] + v);
    FeedRun(START.(state := more), digits[1..], v);
  }

  lemma FeedVersion(major: Text, minor: Text, rest: Text)
    requires Digits(major) && Digits(minor) && major != [] && minor != [] && major[0] != ZERO
    ensures Feed(START, Version(major, minor) + [SP] + rest) ==
            Later(Feed(START.(state := Status), rest), |Version(major, minor)| + 1)
  {
    hide Feed, Move1;
    var v := [SP] + rest;
    assert Version(major, minor) + [SP] + rest == [72, 84, 84, 80, 47] + (major + ([DOT] + (minor + v)));
    FeedHttp(major + ([DOT] + (minor + v)));
    FeedNumber(FirstMajor, Major, major, [DOT] + (minor + v));
    FeedDot(minor + v);
    FeedNumber(FirstMinor, Minor, minor, v);
    FeedSpace(rest);
  }

  lemma FeedDot(v: Text)
    ensures Feed(START.(state := Major), [DOT] + v) == Later(Feed(START.(state := FirstMinor), v), 1)
  {
    FeedByte(START.(state := Major), DOT, v);
  }

  lemma FeedSpace(v: Text)
    ensures Feed(START.(state := Minor), [SP] + v) == Later(Feed(START.(state := Status), v), 1)
  {
    FeedByte(START.(state := Minor), SP, v);
  }

  /** Every status line with a major version of at least one is accepted to its end, with its code. */
  lemma AcceptsStatusLine(major: Text, minor: Text, code: Text, reason: Text, rest: Text)
    requires Digits(major) && Digits(minor) && major != [] && minor != [] && major[0] != ZERO
    requires Digits(code) && |code| == 3 && Plain(reason)
    ensures Feed(START, Line(major, minor, code, reason) + rest) ==
            Ok(Memory(Begin, Number(code[0], code[1], code[2]), 3), |Line(major, minor, code, reason)|)
  {
    hide Feed;
    var tail := reason + ([CR] + ([LF] + rest));
    var n := Number(code[0], code[1], code[2]);
    var after := [code[0]] + ([code[1]] + ([code[2]] + ([SP] + tail)));
    assert Line(major, minor, code, reason) + rest == Version(major, minor) + [SP] + after by {
      assert code == [code[0]] + [code[1]] + [code[2]];
      assert [CR, LF] == [CR] + [LF];
    }
    FeedVersion(major, minor, after);
    FeedByte(Memory(Status, 0, 0), code[0], [code[1]] + ([code[2]] + ([SP] + tail)));
    FeedByte(Memory(Status, code[0] - ZERO, 1), code[1], [code[2]] + ([SP] + tail));
    FeedByte(Memory(Status, 10 * (code[0] - ZERO) + (code[1] - ZERO), 2), code[2], [SP] + tail);
    FeedByte(Memory(AfterStatus, n, 3), SP, tail);
    FeedRun(Memory(StatusText, n, 3), reason, [CR] + ([LF] + rest));
    FeedByte(Memory(StatusText, n, 3), CR, [LF] + rest);
    FeedByte(Memory(AlmostDone, n, 3), LF, rest);
  }

  // ---- Exactly which lines are accepted ----

  /** The three digits of a code with any spaces before and between them. */
  predicate CodeField(field: Text, count: nat) {
    if field == [] then count == 3
    else
      count < 3 &&
      if field[0] == SP then CodeField(field[1..], count)
      else IsDigit(field[0]) && CodeField(field[1..], count + 1)
  }

  function CodeOf(field: Text, code: nat): int {
    if field == [] then code
    else CodeOf(field[1..], if field[0] == SP || field[0] < ZERO then code else code * 10 + (field[0] - ZERO))
  }

  /** What may follow the code: nothing or a separator and text, then LF or CR LF. */
  predicate LineEnd(tail: Text) {
    |tail| >= 1 && tail[|tail| - 1] == LF &&
    var text := if |tail| >= 2 && tail[|tail| - 2] == CR then tail[..|tail| - 2] else tail[..|tail| - 1];
    Plain(text) && (text == [] || text[0] == SP || text[0] == DOT)
  }

  ghost predicate Accepted(line: Text, code: int) {
    exists major: Text, minor: Text, field: Text, tail: Text :: IsParts(line, code, major, minor, field, tail)
  }

  lemma {:induction false} FeedField(field: Text, m: Memory, rest: Text)
    requires m.state.Status? && CodeField(field, m.count) && field != []
    ensures CodeOf(field, m.code) >= 0
    ensures Feed(m, field + rest) == Later(Feed(Memory(AfterStatus, CodeOf(field, m.code), 3), rest), |field|)
    decreases |field|
  {
    hide Feed;
    assert field + rest == [field[0]] + (field[1..] + rest);
    FeedByte(m, field[0], field[1..] + rest);
    var t := Move1(m, field[0]).m;
    if field[1..] == [] {
      assert field[1..] + rest == rest;
    } else {
      FeedField(field[1..], t, rest);
    }
  }

  lemma FeedTail(m: Memory, tail: Text, rest: Text)
    requires m.state.AfterStatus? && LineEnd(tail)
    ensures Feed(m, tail + rest) == Ok(m.(state := Begin), |tail|)
  {
    hide Feed;
    var cr := |tail| >= 2 && tail[|tail| - 2] == CR;
    var text := if cr then tail[..|tail| - 2] else tail[..|tail| - 1];
    var end := if cr then [CR] + ([LF] + rest) else [LF] + rest;
    assert tail + rest == text + end;
    var last := if text == [] then m else m.(state := StatusText);
    FeedText(m, text, end);
    FeedEnd(last, cr, rest);
  }

  lemma FeedText(m: Memory, text: Text, end: Text)
    requires m.state.AfterStatus? && Plain(text) && (text == [] || text[0] == SP || text[0] == DOT)
    ensures Feed(m, text + end) == Later(Feed(if text == [] then m else m.(state := StatusText), end), |text|)
  {
    hide Feed;
    if text == [] {
      assert text + end == end;
    } else {
      assert text + end == [text[0]] + (text[1..] + end);
      FeedByte(m, text[0], text[1..] + end);
      FeedRun(m.(state := StatusText), text[1..], end);
    }
  }

  lemma FeedEnd(m: Memory, cr: bool, rest: Text)
    requires m.state.AfterStatus? || m.state.StatusText?
    ensures Feed(m, if cr then [CR] + ([LF] + rest) else [LF] + rest) == Ok(m.(state := Begin), if cr then 2 else 1)
  {
    hide Feed;
    FeedByte(m, CR, [LF] + rest);
    FeedByte(m, LF, rest);
    FeedByte(m.(state := AlmostDone), LF, rest);
  }

  /** A state kept as long as possible: the first byte that leaves it. */
  lemma {:induction false} Stretch(m: Memory, s: Text) returns (k: nat)
    requires Feed(m, s).Ok?
    ensures k < |s| && Move1(m, s[k]) != Continue(m) && forall i | 0 <= i < k :: Move1(m, s[i]) == Continue(m)
    ensures Feed(m, s) == Later(Feed(m, s[k..]), k)
    decreases |s|
  {
    if Move1(m, s[0]) == Continue(m) {
      var j := Stretch(m, s[1..]);
      k := j + 1;
      assert s[1..][j..] == s[k..];
      forall i | 0 <= i < k
        ensures Move1(m, s[i]) == Continue(m)
      {
        if i > 0 {
          assert s[i] == s[1..][i - 1];
        }
      }
    } else {
      k := 0;
      assert s[0..] == s;
    }
  }

  /** The first byte of an accepted text. */
  lemma Taken(m: Memory, s: Text)
    requires Feed(m, s).Ok?
    ensures s != [] && !Move1(m, s[0]).Reject?
    ensures var t := Move1(m, s[0]);
            Feed(m, s) == if t.Finish? then Ok(t.m, 1) else Later(Feed(t.m, s[1..]), 1)
  {
  }

  lemma TailShape(m: Memory, s: Text)
    requires m.state.AfterStatus? && Feed(m, s).Ok?
    ensures var o := Feed(m, s); o.m == m.(state := Begin) && LineEnd(s[..o.consumed])
  {
    hide Feed;
    Taken(m, s);
    if s[0] == CR {
      Taken(m.(state := AlmostDone), s[1..]);
    } else if s[0] != LF {
      var t := m.(state := StatusText);
      var k := Stretch(t, s[1..]);
      var u := s[1..][k..];
      Taken(t, u);
      assert u[0] == s[k + 1];
      if u[0] == CR {
        Taken(m.(state := AlmostDone), u[1..]);
        assert u[1] == s[k + 2];
        assert s[..k + 3][..k + 1] == [s[0]] + s[1..][..k];
      } else {
        assert s[..k + 2][..k + 1] == [s[0]] + s[1..][..k];
      }
    }
  }

  lemma {:induction false} FieldShape(m: Memory, s: Text) returns (k: nat)
    requires m.state.Status? && m.count < 3 && Feed(m, s).Ok?
    ensures 0 < k <= |s| && CodeField(s[..k], m.count) && CodeOf(s[..k], m.code) >= 0
    ensures Feed(m, s) == Later(Feed(Memory(AfterStatus, CodeOf(s[..k], m.code), 3), s[k..]), k)
    decreases |s|
  {
    hide Feed;
    Taken(m, s);
    var t := Move1(m, s[0]).m;
    if t.state.AfterStatus? {
      k := 1;
      assert s[..1][1..] == [];
    } else {
      var j := FieldShape(t, s[1..]);
      k := j + 1;
      assert s[..k][1..] == s[1..][..j] && s[1..][j..] == s[k..];
    }
  }

  lemma HttpShape(s: Text)
    requires Feed(START, s).Ok?
    ensures |s| > 5 && s[..5] == [72, 84, 84, 80, 47]
    ensures Feed(START, s) == Later(Feed(START.(state := FirstMajor), s[5..]), 5)
  {
    hide Feed;
    Taken(START, s);
    Taken(START.(state := H), s[1..]);
    assert s[1..][1..] == s[2..];
    Taken(START.(state := HT), s[2..]);
    assert s[2..][1..] == s[3..];
    Taken(START.(state := HTT), s[3..]);
    assert s[3..][1..] == s[4..];
    Taken(START.(state := HTTP), s[4..]);
    assert s[4..][1..] == s[5..];
    Taken(START.(state := FirstMajor), s[5..]);
  }

  /** A number and the byte behind it. */
  lemma NumberShape(first: State, more: State, s: Text) returns (k: nat)
    requires (first == FirstMajor && more == Major) || (first == FirstMinor && more == Minor)
    requires Feed(START.(state := first), s).Ok?
    ensures 0 < k < |s| && Digits(s[..k]) && (first == FirstMajor ==> s[0] != ZERO)
    ensures s[k] == if first == FirstMajor then DOT else SP
    ensures var next := if first == FirstMajor then FirstMinor else Status;
            Feed(START.(state := first), s) == Later(Feed(START.(state := next), s[k + 1..]), k + 1)
  {
    hide Feed;
    Taken(START.(state := first), s);
    var m := START.(state := more);
    var j := Stretch(m, s[1..]);
    var u := s[1..][j..];
    Taken(m, u);
    k := j + 1;
    assert u[0] == s[k] && u[1..] == s[k + 1..];
    forall i | 0 <= i < k
      ensures IsDigit(s[i])
    {
      if i > 0 {
        assert s[i] == s[1..][i - 1];
      }
    }
  }

  ghost predicate IsParts(line: Text, code: int, major: Text, minor: Text, field: Text, tail: Text) {
    Digits(major) && Digits(minor) && major != [] && minor != [] && major[0] != ZERO &&
    CodeField(field, 0) && CodeOf(field, 0) == code && LineEnd(tail) &&
    line == Version(major, minor) + [SP] + field + tail
  }

  lemma AcceptsOnly(s: Text)
    requires Feed(START, s).Ok?
    ensures var o := Feed(START, s); Accepted(s[..o.consumed], o.m.code) && o.m.state.Begin? && o.m.count == 3
  {
    hide Feed, Move1, Digits, IsDigit, CodeField, CodeOf, LineEnd, Version;
    HttpShape(s);
    var s1 := s[5..];
    var a := NumberShape(FirstMajor, Major, s1);
    var s2 := s1[a + 1..];
    var b := NumberShape(FirstMinor, Minor, s2);
    var s3 := s2[b + 1..];
    var c := FieldShape(START.(state := Status), s3);
    var s4 := s3[c..];
    var code := CodeOf(s3[..c], 0);
    TailShape(Memory(AfterStatus, code, 3), s4);
    var d := Feed(Memory(AfterStatus, code, 3), s4).consumed;
    Composed(s, a, b, c, d);
    assert IsParts(s[..5 + a + 1 + b + 1 + c + d], code, s1[..a], s2[..b], s3[..c], s4[..d]);
  }

  lemma AcceptsAll(line: Text, code: nat, rest: Text)
    requires Accepted(line, code)
    ensures Feed(START, line + rest) == Ok(Memory(Begin, code, 3), |line|)
  {
    hide Feed, Move1, Digits, IsDigit, CodeField, CodeOf, LineEnd, Version;
    var major, minor, field, tail :| IsParts(line, code, major, minor, field, tail);
    assert line + rest == Version(major, minor) + [SP] + (field + (tail + rest));
    assert field != [] by {
      NoEmptyField(field);
    }
    FeedVersion(major, minor, field + (tail + rest));
    FeedField(field, START.(state := Status), tail + rest);
    FeedTail(Memory(AfterStatus, code, 3), tail, rest);
  }

  lemma NoEmptyField(field: Text)
    requires CodeField(field, 0)
    ensures field != []
  {
  }

  /** The parser accepts exactly these lines, whatever follows them, and reports exactly their codes. */
  lemma AcceptsExactly(s: Text, n: nat, m: Memory)
    requires n <= |s|
    ensures Feed(START, s) == Ok(m, n) <==> Accepted(s[..n], m.code) && m.state.Begin? && m.count == 3
  {
    hide Feed, Accepted;
    if Feed(START, s) == Ok(m, n) {
      AcceptsOnly(s);
    }
    if Accepted(s[..n], m.code) {
      AcceptsAll(s[..n], m.code, s[n..]);
      assert s[..n] + s[n..] == s;
    }
  }

  lemma Composed(s: Text, a: nat, b: nat, c: nat, d: nat)
    requires |s| >= 5 + a + 1 + b + 1 + c + d
    requires s[..5] == [72, 84, 84, 80, 47] && s[5 + a] == DOT && s[5 + a + 1 + b] == SP
    ensures var s1 := s[5..];
            var s2 := s1[a + 1..];
            var s3 := s2[b + 1..];
            s[..5 + a + 1 + b + 1 + c + d] == Version(s1[..a], s2[..b]) + [SP] + s3[..c] + s3[c..][..d]
  {
    var n := 5 + a + 1 + b + 1 + c + d;
    var i, j := 5 + a, 5 + a + 1 + b;
    assert s[..n] == s[..5] + s[5..i] + [s[i]] + s[i + 1..j] + [s[j]] + s[j + 1..j + 1 + c] + s[j + 1 + c..n];
    var s1 := s[5..];
    var s2 := s1[a + 1..];
    var s3 := s2[b + 1..];
    assert s2 == s[i + 1..] && s3 == s[j + 1..];
  }

  // ---- Exactly when the parser gives up ----

  /** What the parser can remember while it asks for more: digits are counted in one state, up to three. */
  predicate Live(m: Memory) {
    if m.state.Status? then m.count < 3
    else m.state.AfterStatus? || m.state.StatusText? || m.state.AlmostDone? || m.count == 0
  }

  lemma {:induction false} StaysLive(m: Memory, s: Text)
    requires Live(m)
    ensures Feed(m, s).Again? ==> Live(Feed(m, s).m)
    decreases |s|
  {
    if s != [] {
      var t := Move1(m, s[0]);
      if t.Continue? {
        StaysLive(t.m, s[1..]);
      }
    }
  }

  /** How far a state is from the code. */
  function Ahead(state: State): nat {
    match state
    case Begin => 9
    case H => 8
    case HT => 7
    case HTT => 6
    case HTTP => 5
    case FirstMajor => 4
    case Major => 3
    case FirstMinor => 2
    case Minor => 1
    case _ => 0
  }

  /** A byte that brings a state in front of the code nearer to it, and the state then. */
  function Nearer(state: State): (r: (byte, State))
    requires Ahead(state) > 0
    ensures Ahead(r.1) + 1 == Ahead(state)
  {
    match state
    case Begin => (72, H)
    case H => (84, HT)
    case HT => (84, HTT)
    case HTT => (80, HTTP)
    case HTTP => (47, FirstMajor)
    case FirstMajor => (49, Major)
    case Major => (DOT, FirstMinor)
    case FirstMinor => (ZERO, Minor)
    case Minor => (SP, Status)
  }

  /** Bytes that end a line from any state. */
  function Completion(state: State, count: nat): Text
    requires state.Status? ==> count < 3
    decreases Ahead(state)
  {
    if Ahead(state) > 0 then [Nearer(state).0] + Completion(Nearer(state).1, 0)
    else if state.Status? then seq(3 - count, _ => ZERO) + [LF]
    else [LF]
  }

  lemma CompletionStep(m: Memory, ch: byte, rest: Text)
    requires Move1(m, ch).Continue? && Feed(Move1(m, ch).m, rest).Ok?
    ensures Feed(m, [ch] + rest).Ok?
  {
    FeedByte(m, ch, rest);
  }

  lemma {:induction false} CodeCompletes(m: Memory)
    requires m.state.Status? && m.count < 3
    ensures Feed(m, seq(3 - m.count, _ => ZERO) + [LF]).Ok?
    decreases 3 - m.count
  {
    hide Feed;
    var t := Move1(m, ZERO).m;
    if m.count == 2 {
      EndCompletes(t);
      CompletionStep(m, ZERO, [LF]);
      assert seq(1, _ => ZERO) + [LF] == [ZERO] + [LF];
    } else {
      CodeCompletes(t);
      CompletionStep(m, ZERO, seq(3 - t.count, _ => ZERO) + [LF]);
      assert seq(3 - m.count, _ => ZERO) + [LF] == [ZERO] + (seq(3 - t.count, _ => ZERO) + [LF]);
    }
  }

  lemma EndCompletes(m: Memory)
    requires m.state.AfterStatus? || m.state.StatusText? || m.state.AlmostDone?
    ensures Feed(m, [LF]).Ok?
  {
    FeedByte(m, LF, []);
    assert [LF] + [] == [LF];
  }

  lemma MovesNearer(m: Memory)
    requires Ahead(m.state) > 0
    ensures Move1(m, Nearer(m.state).0) == Continue(m.(state := Nearer(m.state).1))
  {
  }

  lemma {:induction false} Completes(m: Memory)
    requires Live(m)
    ensures Feed(m, Completion(m.state, m.count)).Ok?
    decreases Ahead(m.state)
  {
    hide Feed, Move1, Nearer;
    if m.state.Status? {
      CodeCompletes(m);
    } else if Ahead(m.state) == 0 {
      EndCompletes(m);
    } else {
      var ch, t := Nearer(m.state).0, m.(state := Nearer(m.state).1);
      MovesNearer(m);
      Completes(t);
      CompletionStep(m, ch, Completion(t.state, t.count));
    }
  }

  /** The parser gives up exactly on what no continuation can make a line. */
  lemma ErrorIff(s: Text)
    ensures Feed(START, s).Error? <==> forall t: Text :: !Feed(START, s + t).Ok?
  {
    hide Feed;
    forall t: Text
      ensures Feed(START, s + t) == Resumed(Move1, Feed(START, s), t, |s|)
    {
      FedTwo(s, t);
    }
    var o := Feed(START, s);
    if o.Again? {
      StaysLive(START, s);
      Completes(o.m);
      FedIsScan(o.m, Completion(o.m.state, o.m.count));
      assert Feed(START, s + Completion(o.m.state, o.m.count)).Ok?;
    } else if o.Ok? {
      assert Feed(START, s + []).Ok?;
    }
  }

  lemma FedTwo(s: Text, t: Text)
    ensures Feed(START, s + t) == Resumed(Move1, Feed(START, s), t, |s|)
  {
    ScanTwo(Move1, START, s, t);
  }

  lemma FedIsScan(m: Memory, s: Text)
    ensures Feed(m, s) == Scan(Move1, m, s)
  {
  }

  /** It asks for more exactly on the beginnings of the lines it accepts. */
  lemma AgainIff(s: Text)
    ensures Feed(START, s).Again? <==>
            exists line: Text, code: nat :: Accepted(line, code) && |s| < |line| && line[..|s|] == s
  {
    hide Feed, Accepted;
    var o := Feed(START, s);
    if o.Again? {
      StaysLive(START, s);
      Completes(o.m);
      var t := Completion(o.m.state, o.m.count);
      FedTwo(s, t);
      FedIsScan(o.m, t);
      var done := Feed(START, s + t);
      AcceptsOnly(s + t);
      assert (s + t)[..done.consumed][..|s|] == s;
    }
    forall line: Text, code: nat | Accepted(line, code) && |s| < |line| && line[..|s|] == s
      ensures o.Again?
    {
      AcceptsAll(line, code, []);
      assert line + [] == line && s + line[|s|..] == line;
      FedTwo(s, line[|s|..]);
    }
  }
}
