/** Replacing every occurrence of a pattern by one byte, in place, in a buffer that still holds stale bytes. */
module ReplaceString {
  import opened Bytes

  /** The part of a buffer a C string function sees: everything before the first zero byte. */
  function CString(s: Text): (r: Text)
    ensures |r| <= |s| && r == s[..|r|] && 0 !in r && (|r| < |s| ==> s[|r|] == 0)
  {
    if s == [] || s[0] == 0 then [] else [s[0]] + CString(s[1..])
  }

  ghost predicate OccursAt(text: Text, pat: Text, i: nat) {
    i + |pat| <= |text| && text[i..i + |pat|] == pat
  }

  /** Leftmost occurrence of a pattern, as `ngx_strstrn` finds it. */
  function Find(text: Text, pat: Text): (r: Option<nat>)
    requires pat != []
    ensures r.Some? ==> OccursAt(text, pat, r.value) && forall j | 0 <= j < r.value :: !OccursAt(text, pat, j)
    ensures r.None? ==> forall j: nat :: !OccursAt(text, pat, j)
  {
    if |text| < |pat| then None
    else if text[..|pat|] == pat then Some(0)
    else
      assert forall j: nat | j > 0 && OccursAt(text, pat, j) :: OccursAt(text[1..], pat, j - 1) by {
        forall j: nat | j > 0 && OccursAt(text, pat, j)
          ensures OccursAt(text[1..], pat, j - 1)
        {
          assert text[1..][j - 1..j - 1 + |pat|] == text[j..j + |pat|];
        }
      }
      match Find(text[1..], pat)
      case None => None
      case Some(i) => assert text[1..][i..i + |pat|] == text[i + 1..i + 1 + |pat|]; Some(i + 1)
  }

  /** The intended result: leftmost, non-overlapping occurrences replaced by `c`. */
  function ReplaceAll(text: Text, pat: Text, c: byte): Text
    requires pat != []
  {
    match Find(text, pat)
    case None => text
    case Some(i) => Spliced(text[..i], c, ReplaceAll(text[i + |pat|..], pat, c))
  }

  function Spliced(a: Text, c: byte, b: Text): Text {
    a + [c] + b
  }

  /**
   * The loop as it runs. The buffer reads `done + rest + stale` and then a zero byte; only `done + rest` is still
   * part of the text. None: the search ran into the stale bytes and the number of bytes to move fell below zero.
   */
  function Run(done: Text, rest: Text, stale: Text, pat: Text, c: byte): Option<Text>
    requires pat != []
    decreases |rest|
  {
    match Find(CString(rest + stale), pat)
    case None => Some(done + rest)
    case Some(i) =>
      if i + |pat| > |rest| then None
      else
        var post := rest[i + |pat|..];
        Run(done + rest[..i] + [c], post, (rest + stale)[i + 1..][|post|..], pat, c)
  }

  /** Each stale byte repeats the byte |pat| - 1 places before it in `pat[1..] + rest + stale`. */
  ghost predicate Echoes(rest: Text, stale: Text, pat: Text)
    requires pat != []
  {
    (|pat| == 1 ==> stale == []) &&
    forall s | 0 <= s < |stale| :: stale[s] == (pat[1..] + rest + stale)[|rest| + s]
  }

  predicate Safe(pat: Text)
    requires pat != []
  {
    |pat| == 1 || pat[0] != pat[|pat| - 1]
  }

  /** An occurrence reaching into the stale bytes makes the pattern's first and last byte equal. */
  lemma StaleMatchEnds(rest: Text, stale: Text, pat: Text, i: nat)
    requires |pat| > 1 && Echoes(rest, stale, pat) && OccursAt(rest + stale, pat, i)
    requires i + |pat| > |rest|
    ensures pat[0] == pat[|pat| - 1]
  {
    var k, all := |pat| - 1, rest + stale;
    assert all[i..i + |pat|][0] == all[i] && all[i..i + |pat|][k] == all[i + k];
    var s := i + k - |rest|;
    assert stale[s] == (pat[1..] + rest + stale)[|rest| + s] == all[i];
  }

  lemma NoStaleMatch(rest: Text, stale: Text, pat: Text, i: nat)
    requires pat != [] && Safe(pat) && Echoes(rest, stale, pat) && OccursAt(rest + stale, pat, i)
    ensures i + |pat| <= |rest|
  {
    if i + |pat| > |rest| && |pat| > 1 {
      StaleMatchEnds(rest, stale, pat, i);
    }
  }

  lemma Moved(rest: Text, stale: Text, pat: Text, i: nat)
    requires pat != [] && OccursAt(rest, pat, i)
    ensures rest + stale == rest[..i] + [pat[0]] + (pat[1..] + rest[i + |pat|..] + stale)
    ensures (rest + stale)[i + 1..] == pat[1..] + rest[i + |pat|..] + stale
  {
    assert rest == rest[..i] + pat + rest[i + |pat|..];
    assert pat == [pat[0]] + pat[1..];
  }

  lemma EchoOf(tail: Text, post: Text, stale: Text)
    requires forall s | 0 <= s < |stale| :: stale[s] == (tail + post + stale)[|post| + s]
    ensures var echo := (tail + post + stale)[|post|..];
            forall s | 0 <= s < |echo| :: echo[s] == (tail + post + echo)[|post| + s]
  {
    var echo := (tail + post + stale)[|post|..];
    forall s | 0 <= s < |echo|
      ensures echo[s] == (tail + post + echo)[|post| + s]
    {
      if s >= |tail| {
        assert echo[s] == stale[s - |tail|];
      }
    }
  }

  lemma EchoesKept(rest: Text, stale: Text, pat: Text, i: nat)
    requires pat != [] && Echoes(rest, stale, pat) && OccursAt(rest, pat, i)
    ensures var post := rest[i + |pat|..];
            (rest + stale)[i + 1..] == pat[1..] + post + stale
            && Echoes(post, (rest + stale)[i + 1..][|post|..], pat)
  {
    var tail, post := pat[1..], rest[i + |pat|..];
    Moved(rest, stale, pat, i);
    forall s | 0 <= s < |stale|
      ensures stale[s] == (tail + post + stale)[|post| + s]
    {
      assert tail + rest + stale == (tail + rest[..i] + [pat[0]]) + (tail + post + stale);
      assert stale[s] == (tail + rest + stale)[|rest| + s];
    }
    EchoOf(tail, post, stale);
  }

  lemma CStringOfAll(s: Text)
    requires 0 !in s
    ensures CString(s) == s
  {
  }

  lemma OccursWithin(rest: Text, stale: Text, pat: Text, j: nat)
    requires j + |pat| <= |rest|
    ensures OccursAt(rest, pat, j) <==> OccursAt(rest + stale, pat, j)
  {
    assert (rest + stale)[j..j + |pat|] == rest[j..j + |pat|];
  }

  /** A search that ends inside `rest` is a search of `rest`. */
  lemma FindWithin(rest: Text, stale: Text, pat: Text)
    requires pat != []
    ensures Find(rest + stale, pat).None? ==> Find(rest, pat).None?
    ensures Find(rest + stale, pat).Some? && Find(rest + stale, pat).value + |pat| <= |rest| ==>
              Find(rest, pat) == Find(rest + stale, pat)
  {
    hide Find, OccursAt;
    var inner, outer := Find(rest, pat), Find(rest + stale, pat);
    if inner.Some? {
      InRange(rest, pat, inner.value);
      OccursWithin(rest, stale, pat, inner.value);
    }
    if outer.Some? && outer.value + |pat| <= |rest| {
      OccursWithin(rest, stale, pat, outer.value);
      if inner.Some? && inner.value < outer.value {
        assert false;
      }
    }
  }

  lemma InRange(text: Text, pat: Text, i: nat)
    requires OccursAt(text, pat, i)
    ensures i + |pat| <= |text|
  {
  }

  /** With a safe pattern the stale bytes are never matched, and the loop computes the intended result. */
  lemma {:induction false} RunReplacesAll(done: Text, rest: Text, stale: Text, pat: Text, c: byte)
    requires pat != [] && 0 !in pat && 0 !in rest && 0 !in stale
    requires Safe(pat) && Echoes(rest, stale, pat)
    ensures Run(done, rest, stale, pat, c) == Some(done + ReplaceAll(rest, pat, c))
    decreases |rest|
  {
    hide Echoes, Safe, OccursAt, Find;
    CStringOfAll(rest + stale);
    var found := Find(rest + stale, pat);
    FindWithin(rest, stale, pat);
    if found.Some? {
      var i := found.value;
      NoStaleMatch(rest, stale, pat, i);
      OccursWithin(rest, stale, pat, i);
      EchoesKept(rest, stale, pat, i);
      var post := rest[i + |pat|..];
      var moved := (rest + stale)[i + 1..];
      RunReplacesAll(done + rest[..i] + [c], post, moved[|post|..], pat, c);
      Concatenated(done, rest[..i], [c], ReplaceAll(post, pat, c));
    }
  }

  lemma Concatenated(a: Text, b: Text, c: Text, d: Text)
    ensures a + b + c + d == a + (b + c + d)
  {
  }

  lemma ConcatenatedTail(a: Text, b: Text, c: Text, d: Text, e: Text)
    ensures a + b + c + (d + e) == a + (b + c + d + e)
  {
  }

  lemma {:induction false} CStringIs(s: Text, u: Text)
    requires |u| < |s| && u == s[..|u|] && 0 !in u && s[|u|] == 0
    ensures CString(s) == u
  {
    if u != [] {
      CStringIs(s[1..], u[1..]);
    }
  }

  lemma SameCString(rest: Text, stale: Text)
    requires 0 in rest
    ensures CString(rest + stale) == CString(rest) && |CString(rest)| < |rest|
  {
    var u := CString(rest);
    assert u != rest;
    CStringIs(rest + stale, u);
  }

  lemma CStringOfSuffix(s: Text, n: nat)
    requires 0 in s && n <= |CString(s)|
    ensures CString(s[n..]) == CString(s)[n..] && 0 in s[n..]
    ensures s[n..][|CString(s)| - n..] == s[|CString(s)|..]
  {
    SameCString(s, []);
    var u := CString(s);
    assert s[n..][|u| - n] == 0;
    CStringIs(s[n..], u[n..]);
  }

  /** One round of the loop: a match at `i` inside the text. */
  lemma RunUnfolds(done: Text, rest: Text, stale: Text, pat: Text, c: byte, i: nat)
    requires pat != [] && Find(CString(rest + stale), pat) == Some(i) && i + |pat| <= |rest|
    ensures Run(done, rest, stale, pat, c)
         == Run(done + rest[..i] + [c], rest[i + |pat|..], (rest + stale)[i + 1..][|rest| - i - |pat|..], pat, c)
  {
    hide Find, OccursAt, CString;
  }

  lemma RunFinishes(done: Text, rest: Text, stale: Text, pat: Text, c: byte)
    requires pat != [] && Find(CString(rest + stale), pat) == None
    ensures Run(done, rest, stale, pat, c) == Some(done + rest)
  {
    hide Find, CString;
  }

  lemma NothingToReplace(text: Text, pat: Text, c: byte)
    requires pat != [] && Find(text, pat) == None
    ensures ReplaceAll(text, pat, c) == text
  {
    hide Find;
  }

  lemma ReplaceUnfolds(text: Text, pat: Text, c: byte, i: nat)
    requires pat != [] && Find(text, pat) == Some(i)
    ensures i + |pat| <= |text|
    ensures ReplaceAll(text, pat, c) == text[..i] + [c] + ReplaceAll(text[i + |pat|..], pat, c)
  {
    hide Find, ReplaceAll;
    FoundFits(text, pat, i);
    ReplaceStep(text, pat, c, i);
  }

  lemma ReplaceStep(text: Text, pat: Text, c: byte, i: nat)
    requires pat != [] && Find(text, pat) == Some(i) && i + |pat| <= |text|
    ensures ReplaceAll(text, pat, c) == Spliced(text[..i], c, ReplaceAll(text[i + |pat|..], pat, c))
  {
    hide Find, OccursAt, Spliced;
  }

  lemma FoundFits(text: Text, pat: Text, i: nat)
    requires pat != [] && Find(text, pat) == Some(i)
    ensures i + |pat| <= |text|
  {
    hide Find;
    assert OccursAt(text, pat, i);
  }

  /** A zero byte inside the text ends every search before the stale bytes, whatever the pattern. */
  lemma {:induction false} RunStopsAtZero(done: Text, rest: Text, stale: Text, pat: Text, c: byte)
    requires pat != [] && 0 !in pat && 0 in rest
    ensures Run(done, rest, stale, pat, c)
         == Some(done + (ReplaceAll(CString(rest), pat, c) + rest[|CString(rest)|..]))
    decreases |rest|
  {
    hide Run, ReplaceAll, Find, OccursAt, CString;
    var u := CString(rest);
    var tail := rest[|u|..];
    SameCString(rest, stale);
    match Find(u, pat) {
      case None =>
        NothingToReplace(u, pat, c);
        RunFinishes(done, rest, stale, pat, c);
        assert rest == u + tail;
      case Some(i) =>
        ReplaceUnfolds(u, pat, c, i);
        var n := i + |pat|;
        var post := rest[n..];
        CStringOfSuffix(rest, n);
        RunUnfolds(done, rest, stale, pat, c, i);
        RunStopsAtZero(done + rest[..i] + [c], post, (rest + stale)[i + 1..][|rest| - n..], pat, c);
        assert rest[..i] == u[..i];
        ConcatenatedTail(done, u[..i], [c], ReplaceAll(u[n..], pat, c), tail);
    }
  }

  lemma FindAtStart(text: Text, pat: Text)
    requires pat != [] && |pat| <= |text| && text[..|pat|] == pat
    ensures Find(text, pat) == Some(0)
  {
  }

  lemma RunStep(done: Text, rest: Text, stale: Text, pat: Text, c: byte, moved: Text)
    requires pat != [] && 0 !in pat && 0 !in rest && 0 !in stale
    requires |pat| <= |rest| && rest[..|pat|] == pat && rest + stale == [pat[0]] + moved
    ensures Run(done, rest, stale, pat, c)
         == Run(done + [c], rest[|pat|..], moved[|rest| - |pat|..], pat, c)
  {
    hide Run, Find, OccursAt, CString;
    CStringOfAll(rest + stale);
    assert (rest + stale)[..|pat|] == pat;
    FindAtStart(rest + stale, pat);
    RunUnfolds(done, rest, stale, pat, c, 0);
    assert (rest + stale)[0 + 1..] == moved;
    assert done + rest[..0] + [c] == done + [c];
  }

  lemma RunOverruns(done: Text, tail: Text, pat: Text, c: byte)
    requires |pat| > 1 && 0 !in pat && pat[0] == pat[|pat| - 1] && tail == pat[1..]
    ensures Run(done, [], tail + tail, pat, c) == None
  {
    hide Find;
    var k := |pat| - 1;
    assert [] + (tail + tail) == tail + tail;
    CStringOfAll(tail + tail);
    assert (tail + tail)[k - 1..k - 1 + |pat|] == pat;
    assert OccursAt(tail + tail, pat, k - 1);
    assert Find(tail + tail, pat).Some?;
  }

  /** An unsafe pattern written twice is a text on which the third search matches stale bytes. */
  lemma UnsafeFails(pat: Text, c: byte)
    requires pat != [] && 0 !in pat && !Safe(pat)
    ensures Run([], pat + pat, [], pat, c) == None
  {
    hide Run, Find;
    var tail := pat[1..];
    assert pat + pat + [] == [pat[0]] + (tail + pat);
    assert pat + tail == [pat[0]] + (tail + tail);
    RunStep([], pat + pat, [], pat, c, tail + pat);
    assert (pat + pat)[|pat|..] == pat && (tail + pat)[|pat|..] == tail && [] + [c] == [c];
    RunStep([c], pat, tail, pat, c, tail + tail);
    assert pat[|pat|..] == [] && (tail + tail)[0..] == tail + tail;
    RunOverruns([c] + [c], tail, pat, c);
  }

  /** The loop is correct on every zero-free text exactly for patterns of one byte or with distinct end bytes. */
  lemma ReplaceCorrectIff(pat: Text, c: byte)
    requires pat != [] && 0 !in pat
    ensures (forall text: Text | 0 !in text :: Run([], text, [], pat, c) == Some(ReplaceAll(text, pat, c))) <==>
            Safe(pat)
  {
    if Safe(pat) {
      forall text: Text | 0 !in text
        ensures Run([], text, [], pat, c) == Some(ReplaceAll(text, pat, c))
      {
        RunReplacesAll([], text, [], pat, c);
        assert [] + ReplaceAll(text, pat, c) == ReplaceAll(text, pat, c);
      }
    } else {
      UnsafeFails(pat, c);
      assert 0 !in pat + pat;
    }
  }

  /** The patterns of all calls: "%2A", "%2a", "%3A", "%3a", "%40", "[:alpha:]" and "[:slash:]". */
  const CALLED: seq<Text> := [
    [37, 50, 65], [37, 50, 97], [37, 51, 65], [37, 51, 97], [37, 52, 48],
    [91, 58, 97, 108, 112, 104, 97, 58, 93], [91, 58, 115, 108, 97, 115, 104, 58, 93]
  ]

  lemma CallsReplaceAll(text: Text, k: nat, c: byte)
    requires 0 !in text && k < |CALLED|
    ensures CALLED[k] != [] && Run([], text, [], CALLED[k], c) == Some(ReplaceAll(text, CALLED[k], c))
  {
    var pat := CALLED[k];
    assert Safe(pat) && 0 !in pat;
    ReplaceCorrectIff(pat, c);
  }

  // ---- The loop on the buffer ----

  datatype Status = Done | NotTerminated | Overrun

  /** Bytes of the original text that `n` matches cover. */
  function Matched(n: nat, pat: Text): nat {
    n * |pat|
  }

  lemma MatchedStep(n: nat, pat: Text)
    ensures Matched(0, pat) == 0 && Matched(n + 1, pat) == Matched(n, pat) + |pat|
  {
  }

  /** The buffer reads `done + rest + stale + end`, `end` starting with a zero byte; `n` occurrences are replaced. */
  ghost predicate Progress(buffer: Text, done: Text, rest: Text, stale: Text, end: Text, p: nat, n: nat, pat: Text) {
    buffer == done + rest + stale + end && end != [] && end[0] == 0 &&
    |done| == p && |rest| == |buffer| - |end| - p - Matched(n, pat) + n
  }

  lemma SearchSees(buffer: Text, done: Text, rest: Text, stale: Text, end: Text, p: nat, n: nat, pat: Text)
    requires Progress(buffer, done, rest, stale, end, p, n, pat)
    ensures CString(buffer[p..]) == CString(rest + stale)
  {
    assert buffer[p..] == (rest + stale) + end;
    if 0 in rest + stale {
      SameCString(rest + stale, end);
    } else {
      CStringOfAll(rest + stale);
      CStringIs(buffer[p..], rest + stale);
    }
  }

  /** `after` is `buffer` with the byte at `q` set to `c` and `cnt` bytes moved up to it over the rest of the match. */
  ghost predicate GapClosed(buffer: Text, after: Text, q: nat, c: byte, m: nat, cnt: nat)
    requires m > 0
  {
    |after| == |buffer| && q + m + cnt <= |buffer| &&
    after == buffer[..q] + [c] + buffer[q + m..q + m + cnt] + buffer[q + 1 + cnt..]
  }

  lemma MoveStep(buffer: Text, done: Text, rest: Text, stale: Text, end: Text, p: nat, n: nat, pat: Text, c: byte,
                 i: nat, after: Text)
    requires pat != [] && Progress(buffer, done, rest, stale, end, p, n, pat) && i + |pat| <= |rest|
    requires GapClosed(buffer, after, p + i, c, |pat|, |rest| - i - |pat|)
    ensures Progress(after, done + rest[..i] + [c], rest[i + |pat|..], (rest + stale)[i + 1..][|rest| - i - |pat|..],
                     end, p + i + 1, n + 1, pat)
  {
    hide Matched;
    var cnt, q := |rest| - i - |pat|, p + i;
    assert buffer[..q] == done + rest[..i];
    assert buffer[q + |pat|..q + |pat| + cnt] == rest[i + |pat|..];
    assert buffer[q + 1 + cnt..] == (rest + stale)[i + 1..][cnt..] + end;
    MatchedStep(n, pat);
  }

  /** Where the loop stands on a text: what is in the buffer, and that running on gives the same result. */
  datatype Stand = Stand(done: Text, rest: Text, stale: Text, end: Text)

  ghost predicate Standing(st: Stand, text: Text, buffer: Text, p: nat, n: nat, pat: Text, c: byte)
    requires pat != []
  {
    Progress(buffer, st.done, st.rest, st.stale, st.end, p, n, pat) && |buffer| == |text| + |st.end| &&
    Run([], text, [], pat, c) == Run(st.done, st.rest, st.stale, pat, c)
  }

  lemma StandsAtStart(text: Text, end: Text, pat: Text, c: byte)
    requires pat != [] && end != [] && end[0] == 0
    ensures Standing(Stand([], text, [], end), text, text + end, 0, 0, pat, c)
  {
  }

  /** The number of bytes to move is what is left of the text behind the match. */
  lemma Measured(st: Stand, text: Text, buffer: Text, p: nat, n: nat, pat: Text, c: byte)
    requires pat != [] && Standing(st, text, buffer, p, n, pat, c)
    ensures p + |st.rest| <= |text| && |buffer| == |text| + |st.end|
    ensures |text| - p - Matched(n + 1, pat) + n == |st.rest| - |pat|
    ensures |text| - Matched(n, pat) + n == p + |st.rest| && (n == 0 ==> p + |st.rest| == |text|)
    ensures CString(buffer[p..]) == CString(st.rest + st.stale)
  {
    hide Matched;
    MatchedStep(n, pat);
    SearchSees(buffer, st.done, st.rest, st.stale, st.end, p, n, pat);
  }

  lemma InBuffer(st: Stand, text: Text, buffer: Text, p: nat, n: nat, pat: Text, c: byte)
    requires pat != [] && Standing(st, text, buffer, p, n, pat, c)
    ensures p <= |buffer|
  {
  }

  lemma GapFits(st: Stand, text: Text, buffer: Text, p: nat, n: nat, pat: Text, c: byte, i: nat)
    requires pat != [] && Standing(st, text, buffer, p, n, pat, c)
    ensures var cnt := |text| - (p + i) - Matched(n + 1, pat) + n;
            cnt == |st.rest| - i - |pat| && p + i + |pat| + cnt <= |buffer|
  {
    hide Standing, CString, Matched;
    Measured(st, text, buffer, p, n, pat, c);
  }

  lemma Round(st: Stand, text: Text, buffer: Text, p: nat, n: nat, pat: Text, c: byte, i: nat, after: Text)
    returns (next: Stand)
    requires pat != [] && Standing(st, text, buffer, p, n, pat, c)
    requires Find(CString(buffer[p..]), pat) == Some(i) && i + |pat| <= |st.rest|
    requires GapClosed(buffer, after, p + i, c, |pat|, |st.rest| - i - |pat|)
    ensures Standing(next, text, after, p + i + 1, n + 1, pat, c) && |next.rest| < |st.rest|
  {
    hide Run, Find, CString, GapClosed;
    Measured(st, text, buffer, p, n, pat, c);
    RunUnfolds(st.done, st.rest, st.stale, pat, c, i);
    MoveStep(buffer, st.done, st.rest, st.stale, st.end, p, n, pat, c, i, after);
    next := Stand(st.done + st.rest[..i] + [c], st.rest[i + |pat|..],
                  (st.rest + st.stale)[i + 1..][|st.rest| - i - |pat|..], st.end);
  }

  lemma Finish(st: Stand, text: Text, buffer: Text, p: nat, n: nat, pat: Text, c: byte)
    requires pat != [] && Standing(st, text, buffer, p, n, pat, c) && Find(CString(buffer[p..]), pat) == None
    ensures var newLen := if n > 0 then |text| - Matched(n, pat) + n else |text|;
            0 <= newLen <= |text| <= |buffer| && Run([], text, [], pat, c) == Some(buffer[..newLen])
  {
    hide Find, CString;
    Measured(st, text, buffer, p, n, pat, c);
    assert buffer[..p + |st.rest|] == st.done + st.rest;
  }

  lemma Underflow(st: Stand, text: Text, buffer: Text, p: nat, n: nat, pat: Text, c: byte, i: nat)
    requires pat != [] && Standing(st, text, buffer, p, n, pat, c)
    requires Find(CString(buffer[p..]), pat) == Some(i) && i + |pat| > |st.rest|
    ensures Run([], text, [], pat, c) == None
  {
    hide Find, CString;
    Measured(st, text, buffer, p, n, pat, c);
  }

  /** `*p++ = c` and the `ngx_memmove` after it. */
  method CloseGap(data: array<byte>, q: nat, c: byte, m: nat, cnt: nat)
    requires m > 0 && q + m + cnt <= data.Length
    modifies data
    ensures GapClosed(old(data[..]), data[..], q, c, m, cnt)
  {
    data[q] := c;
    var p := q + 1;
    forall j | 0 <= j < cnt {
      data[p + j] := data[p + m - 1 + j];
    }
    assert data[..q] == old(data[..q]) && data[p..p + cnt] == old(data[q + m..q + m + cnt]);
    assert data[p + cnt..] == old(data[p + cnt..]);
    Pieces(data[..], q, p + cnt);
  }

  lemma Pieces(s: Text, q: nat, r: nat)
    requires q < r <= |s|
    ensures s == s[..q] + [s[q]] + s[q + 1..r] + s[r..]
  {
  }

  /**
   * `replace_strc`: search, overwrite the first byte of the match, close the gap, search on. The number of bytes to
   * move is a `size_t` in the source; where it would fall below zero the model stops with `Overrun`.
   */
  method ReplaceStrc(data: array<byte>, len: nat, pat: Text, c: byte) returns (status: Status, newLen: nat)
    requires len < data.Length && pat != [] && 0 !in pat
    modifies data
    ensures old(data[len]) != 0 ==> status == NotTerminated && newLen == len && data[..] == old(data[..])
    ensures old(data[len]) == 0 ==>
              match Run([], old(data[..len]), [], pat, c)
              case None => status == Overrun
              case Some(r) => status == Done && newLen == |r| <= len && data[..newLen] == r && data[newLen] == 0
  {
    hide Run, CString, Find, OccursAt, Standing, GapClosed, Matched;
    var p: nat, n: nat := 0, 0;
    newLen := len;
    if data[len] != 0 {
      return NotTerminated, len;
    }
    ghost var text := data[..len];
    ghost var st := Stand([], text, [], data[len..]);
    assert data[..] == text + data[len..];
    StandsAtStart(text, data[len..], pat, c);
    while true
      invariant Standing(st, text, data[..], p, n, pat, c)
      decreases |st.rest|
    {
      InBuffer(st, text, data[..], p, n, pat, c);
      var found := Find(CString(data[..][p..]), pat);
      if found.None? {
        break;
      }
      var i := found.value;
      GapFits(st, text, data[..], p, n, pat, c, i);
      n := n + 1;
      var cnt := len - (p + i) - Matched(n, pat) + n - 1;
      if cnt < 0 {
        Underflow(st, text, data[..], p, n - 1, pat, c, i);
        return Overrun, len;
      }
      ghost var before := data[..];
      CloseGap(data, p + i, c, |pat|, cnt);
      ghost var after := data[..];
      st := Round(st, text, before, p, n - 1, pat, c, i, after);
      p := p + i + 1;
    }
    Finish(st, text, data[..], p, n, pat, c);
    if n > 0 {
      newLen := len - Matched(n, pat) + n;
    }
    ghost var result := data[..newLen];
    data[newLen] := 0;
    assert data[..newLen] == result;
    status := Done;
  }
}
