/** Escaping a label value: quotes, backslashes, line ends, and bytes that are not UTF-8. */
module EscapeLabel {
  import opened Bytes
  import opened Buffers

  const QUOTE: byte := 34
  const BACKSLASH: byte := 92
  const NEWLINE: byte := 10
  const LETTER_N: byte := 110
  const LETTER_X: byte := 120

  /** How many bytes the UTF-8 character at the start of a text has; zero when there is none. */
  type Decoder = Text -> nat

  /** What is needed of the decoder: a character lies within the text and has no ASCII bytes in it. */
  ghost predicate Sound(d: Decoder) {
    forall s: Text | s != [] && s[0] >= 0x80 && d(s) > 0 ::
      d(s) <= |s| && forall i | 0 <= i < d(s) :: s[i] >= 0x80
  }

  predicate Invalid(d: Decoder, s: Text)
    requires s != []
  {
    s[0] >= 0x80 && (s[0] >= 0xf8 || d(s) == 0)
  }

  /** The bytes of the first character; a byte that starts none counts as one. */
  ghost function Width(d: Decoder, s: Text): (n: nat)
    requires Sound(d) && s != []
    ensures 0 < n <= |s|
  {
    if s[0] < 0x80 || Invalid(d, s) then 1 else d(s)
  }

  predicate NeedsEscape(d: Decoder, s: Text)
    requires s != []
  {
    s[0] == QUOTE || s[0] == BACKSLASH || s[0] == NEWLINE || Invalid(d, s)
  }

  function HexDigit(n: nat): byte
    requires n < 16
  {
    if n < 10 then 48 + n else 65 + (n - 10)
  }

  /** The first character, escaped. */
  ghost function Escape1(d: Decoder, s: Text): (e: Text)
    requires Sound(d) && s != []
    ensures |e| <= 5 * Width(d, s)
  {
    if s[0] == QUOTE || s[0] == BACKSLASH then [BACKSLASH, s[0]]
    else if s[0] == NEWLINE then [BACKSLASH, LETTER_N]
    else if Invalid(d, s) then [BACKSLASH, BACKSLASH, LETTER_X, HexDigit(s[0] / 16), HexDigit(s[0] % 16)]
    else s[..Width(d, s)]
  }

  /** Every character escaped, one after the other. */
  ghost function Escape(d: Decoder, s: Text): Text
    requires Sound(d)
    decreases |s|
  {
    if s == [] then [] else Escape1(d, s) + Escape(d, s[Width(d, s)..])
  }

  /** The length of the longest leading part that needs no escapes. */
  ghost function PlainLength(d: Decoder, s: Text): (n: nat)
    requires Sound(d)
    ensures n <= |s|
    decreases |s|
  {
    if s == [] || NeedsEscape(d, s) then 0 else Width(d, s) + PlainLength(d, s[Width(d, s)..])
  }

  /** A character that needs no escape has no byte that would. */
  lemma PlainBytes(d: Decoder, s: Text)
    requires Sound(d) && s != [] && !NeedsEscape(d, s)
    ensures BACKSLASH !in s[..Width(d, s)] && NEWLINE !in s[..Width(d, s)] && QUOTE !in s[..Width(d, s)]
  {
  }

  lemma PlainStep(d: Decoder, p: Text, pa: nat)
    requires Sound(d) && pa < |p|
    ensures var w := Width(d, p[pa..]);
            pa + w <= |p| &&
            PlainLength(d, p[pa..]) == if NeedsEscape(d, p[pa..]) then 0 else w + PlainLength(d, p[pa + w..])
  {
    hide Sound, NeedsEscape, Width;
    assert p[pa..][Width(d, p[pa..])..] == p[pa + Width(d, p[pa..])..];
  }

  lemma PlainEscape(d: Decoder, s: Text)
    requires Sound(d) && s != [] && !NeedsEscape(d, s)
    ensures Escape1(d, s) == s[..Width(d, s)]
  {
    hide Sound;
  }

  lemma Unfolded(d: Decoder, s: Text)
    requires Sound(d) && s != []
    ensures Escape(d, s) == Escape1(d, s) + Escape(d, s[Width(d, s)..])
    ensures PlainLength(d, s) == if NeedsEscape(d, s) then 0 else Width(d, s) + PlainLength(d, s[Width(d, s)..])
  {
    hide Sound, NeedsEscape, Width, Escape1;
  }

  lemma {:induction false} PlainPrefix(d: Decoder, s: Text)
    requires Sound(d)
    ensures var n := PlainLength(d, s);
            Escape(d, s) == s[..n] + Escape(d, s[n..]) && (n < |s| ==> NeedsEscape(d, s[n..]))
    decreases |s|
  {
    hide Sound, NeedsEscape, Width, Escape1, Escape, PlainLength;
    if s == [] || NeedsEscape(d, s) {
      if s != [] {
        Unfolded(d, s);
      }
      assert s[0..] == s && s[..0] + Escape(d, s) == Escape(d, s);
    } else {
      Unfolded(d, s);
      PlainEscape(d, s);
      var w := Width(d, s);
      var rest := s[w..];
      PlainPrefix(d, rest);
      var n := PlainLength(d, rest);
      assert s[w + n..] == rest[n..];
      assert s[..w + n] == s[..w] + rest[..n];
      assert s[..w] + (rest[..n] + Escape(d, rest[n..])) == s[..w + n] + Escape(d, rest[n..]);
    }
  }

  /** No character grows more than fivefold, and only what follows the plain prefix can grow at all. */
  lemma {:induction false} EscapeSize(d: Decoder, s: Text)
    requires Sound(d)
    ensures |Escape(d, s)| <= 5 * |s|
    ensures |Escape(d, s)| <= PlainLength(d, s) + 5 * (|s| - PlainLength(d, s))
    decreases |s|
  {
    hide Sound, NeedsEscape, Width;
    if s != [] {
      if !NeedsEscape(d, s) {
        PlainEscape(d, s);
      }
      EscapeSize(d, s[Width(d, s)..]);
    }
  }

  /** Write out the character at the start of `s`. */
  method PutEscaped(target: Buffer, d: Decoder, s: Text, ghost done: Text) returns (w: nat)
    requires Sound(d) && s != [] && target.Holds(done) && |done| + 5 * |s| <= target.data.Length
    modifies target, target.data
    ensures w == Width(d, s) <= |s| && target.Holds(done + Escape1(d, s))
  {
    hide Sound;
    if s[0] < 0x80 {
      w := 1;
      if s[0] == QUOTE || s[0] == BACKSLASH {
        target.Put(BACKSLASH, done);
        target.Put(s[0], done + [BACKSLASH]);
        assert done + [BACKSLASH] + [s[0]] == done + [BACKSLASH, s[0]];
      } else if s[0] == NEWLINE {
        target.Put(BACKSLASH, done);
        target.Put(LETTER_N, done + [BACKSLASH]);
        assert done + [BACKSLASH] + [LETTER_N] == done + [BACKSLASH, LETTER_N];
      } else {
        target.Put(s[0], done);
        assert s[..1] == [s[0]];
      }
    } else if s[0] >= 0xf8 || d(s) == 0 {
      w := 1;
      var a, b := HexDigit(s[0] / 16), HexDigit(s[0] % 16);
      target.Copy([BACKSLASH, BACKSLASH, LETTER_X], done);
      target.Put(a, done + [BACKSLASH, BACKSLASH, LETTER_X]);
      target.Put(b, done + [BACKSLASH, BACKSLASH, LETTER_X] + [a]);
      assert done + [BACKSLASH, BACKSLASH, LETTER_X] + [a] + [b] == done + [BACKSLASH, BACKSLASH, LETTER_X, a, b];
    } else {
      w := d(s);
      assert w == Width(d, s);
      target.Copy(s[..w], done);
    }
  }

  /** Without anything to escape the text itself is returned; without memory, the part before the first escape. */
  method EscapePrometheus(d: Decoder, p: Text, memory: bool) returns (ok: bool, buf: Text)
    requires Sound(d)
    ensures ok <==> memory || PlainLength(d, p) == |p|
    ensures buf == if ok then Escape(d, p) else p[..PlainLength(d, p)]
  {
    hide Sound, Escape, PlainLength, Escape1;
    var pa := 0;
    assert p[0..] == p;
    while pa < |p|
      invariant 0 <= pa <= |p|
      invariant PlainLength(d, p) == pa + PlainLength(d, p[pa..])
    {
      PlainStep(d, p, pa);
      if p[pa] < 0x80 {
        if p[pa] == QUOTE || p[pa] == BACKSLASH || p[pa] == NEWLINE {
          break;
        }
        pa := pa + 1;
      } else {
        if p[pa] >= 0xf8 || d(p[pa..]) == 0 {
          break;
        }
        pa := pa + d(p[pa..]);
      }
    }
    PlainPrefix(d, p);
    PlainNothing(d, p, pa);
    if pa == |p| {
      assert p[..pa] == p;
      return true, p;
    }
    if !memory {
      return false, p[..pa];
    }
    var target := new Buffer(pa + (|p| - pa) * 5);
    target.Copy(p[..pa], []);
    ghost var done := [] + p[..pa];
    while pa < |p|
      invariant 0 <= pa <= |p| && fresh(target) && fresh(target.data) && target.Holds(done)
      invariant done + Escape(d, p[pa..]) == Escape(d, p) && |done| + 5 * (|p| - pa) <= target.data.Length
      decreases |p| - pa
    {
      var w := PutEscaped(target, d, p[pa..], done);
      EscapeStep(d, p, pa, done);
      done := done + Escape1(d, p[pa..]);
      pa := pa + w;
    }
    PlainNothing(d, p, pa);
    assert done + [] == done;
    return true, target.data[..target.last];
  }

  lemma PlainNothing(d: Decoder, p: Text, pa: nat)
    requires Sound(d) && pa <= |p|
    ensures pa < |p| && NeedsEscape(d, p[pa..]) ==> PlainLength(d, p[pa..]) == 0
    ensures pa == |p| ==> PlainLength(d, p[pa..]) == 0 && Escape(d, p[pa..]) == []
  {
  }

  lemma EscapeStep(d: Decoder, p: Text, pa: nat, done: Text)
    requires Sound(d) && pa < |p|
    ensures var w := Width(d, p[pa..]);
            pa + w <= |p| && |Escape1(d, p[pa..])| <= 5 * w &&
            done + Escape(d, p[pa..]) == done + Escape1(d, p[pa..]) + Escape(d, p[pa + w..])
  {
    hide Sound, Width, Escape1;
    var w := Width(d, p[pa..]);
    assert p[pa..][w..] == p[pa + w..];
  }

  // ---- Undoing the escapes ----

  /** Reading a label value back. */
  function Unescape(s: Text): Text {
    if s == [] then []
    else if s[0] == BACKSLASH && |s| >= 2 then [if s[1] == LETTER_N then NEWLINE else s[1]] + Unescape(s[2..])
    else [s[0]] + Unescape(s[1..])
  }

  /** Every byte belongs to a character the decoder knows. */
  ghost predicate Valid(d: Decoder, s: Text)
    requires Sound(d)
    decreases |s|
  {
    s == [] || (!Invalid(d, s) && Valid(d, s[Width(d, s)..]))
  }

  lemma {:induction false} UnescapePlain(s: Text, rest: Text)
    requires BACKSLASH !in s
    ensures Unescape(s + rest) == s + Unescape(rest)
  {
    if s == [] {
      assert s + rest == rest;
    } else {
      assert s[0] in s && (s + rest)[1..] == s[1..] + rest;
      UnescapePlain(s[1..], rest);
    }
  }

  /** One character: undone when it was valid, four characters instead when it was not. */
  lemma Unescape1(d: Decoder, s: Text, rest: Text)
    requires Sound(d) && s != []
    ensures Unescape(Escape1(d, s) + rest) ==
            (if Invalid(d, s) then [BACKSLASH, LETTER_X, HexDigit(s[0] / 16), HexDigit(s[0] % 16)]
             else s[..Width(d, s)]) +
            Unescape(rest)
  {
    hide Sound;
    var e := Escape1(d, s);
    if s[0] == QUOTE || s[0] == BACKSLASH || s[0] == NEWLINE {
      assert (e + rest)[2..] == rest;
    } else if Invalid(d, s) {
      var hex := [LETTER_X, HexDigit(s[0] / 16), HexDigit(s[0] % 16)];
      assert e + rest == [BACKSLASH, BACKSLASH] + (hex + rest);
      assert ([BACKSLASH, BACKSLASH] + (hex + rest))[2..] == hex + rest;
      UnescapePlain(hex, rest);
    } else {
      PlainBytes(d, s);
      UnescapePlain(e, rest);
    }
  }

  /** Undoing the escapes never shortens a text, and gives back exactly the texts that are valid. */
  lemma {:induction false} UnescapeIff(d: Decoder, s: Text)
    requires Sound(d)
    ensures |Unescape(Escape(d, s))| >= |s|
    ensures Valid(d, s) ==> Unescape(Escape(d, s)) == s
    ensures !Valid(d, s) ==> |Unescape(Escape(d, s))| > |s|
    decreases |s|
  {
    hide Sound, Escape1, Unescape;
    if s == [] {
      UnescapeNothing();
    } else {
      var w := Width(d, s);
      Unescape1(d, s, Escape(d, s[w..]));
      UnescapeIff(d, s[w..]);
      assert s == s[..w] + s[w..];
    }
  }

  lemma UnescapeNothing()
    ensures Unescape([]) == []
  {
  }

  /** No line end is left in an escaped text. */
  lemma {:induction false} NoLineEnd(d: Decoder, s: Text)
    requires Sound(d)
    ensures NEWLINE !in Escape(d, s)
    decreases |s|
  {
    hide Sound;
    if s != [] {
      var w := Width(d, s);
      if !NeedsEscape(d, s) {
        PlainBytes(d, s);
      }
      NoLineEnd(d, s[w..]);
    }
  }

  // ---- Reading an escaped text between quotes ----

  /** Where a reader finds the first quote that is not escaped; a backslash escapes the byte behind it. */
  function EndOfLabel(s: Text): Option<nat> {
    if s == [] then None
    else if s[0] == QUOTE then Some(0)
    else
      var skip := if s[0] == BACKSLASH then 2 else 1;
      if |s| < skip then None
      else
        var end := EndOfLabel(s[skip..]);
        if end.None? then None else Some(end.value + skip)
  }

  lemma {:induction false} EndBehindPlain(s: Text, rest: Text)
    requires QUOTE !in s && BACKSLASH !in s
    ensures EndOfLabel(s + rest) == if EndOfLabel(rest).None? then None else Some(EndOfLabel(rest).value + |s|)
  {
    if s == [] {
      assert s + rest == rest;
    } else {
      assert s[0] in s && (s + rest)[1..] == s[1..] + rest;
      EndBehindPlain(s[1..], rest);
    }
  }

  lemma EndBehindEscape1(d: Decoder, s: Text, rest: Text)
    requires Sound(d) && s != []
    ensures var e := Escape1(d, s);
            EndOfLabel(e + rest) == if EndOfLabel(rest).None? then None else Some(EndOfLabel(rest).value + |e|)
  {
    hide Sound;
    var e := Escape1(d, s);
    if s[0] == QUOTE || s[0] == BACKSLASH || s[0] == NEWLINE {
      assert (e + rest)[2..] == rest;
    } else if Invalid(d, s) {
      var hex := [LETTER_X, HexDigit(s[0] / 16), HexDigit(s[0] % 16)];
      assert (e + rest)[2..] == hex + rest;
      EndBehindPlain(hex, rest);
    } else {
      PlainBytes(d, s);
      EndBehindPlain(e, rest);
    }
  }

  /** Between quotes the whole of an escaped text is read: no quote ends it early, and it escapes none behind it. */
  lemma {:induction false} ReadsWhole(d: Decoder, s: Text, rest: Text)
    requires Sound(d)
    ensures EndOfLabel(Escape(d, s) + [QUOTE] + rest) == Some(|Escape(d, s)|)
    decreases |s|
  {
    hide Escape1, Sound;
    if s == [] {
      assert [] + [QUOTE] + rest == [QUOTE] + rest;
    } else {
      var w := Width(d, s);
      var more := Escape(d, s[w..]) + [QUOTE] + rest;
      ReadsWhole(d, s[w..], rest);
      EndBehindEscape1(d, s, more);
      assert Escape(d, s) + [QUOTE] + rest == Escape1(d, s) + more;
    }
  }

  function HexValue(ch: byte): nat {
    if 48 <= ch <= 57 then ch - 48 else if 65 <= ch <= 70 then ch - 55 else 16
  }

  /** A byte that is no UTF-8 is written as two backslashes, an x, and the two digits of its value. */
  lemma HexSaysByte(d: Decoder, s: Text)
    requires Sound(d) && s != [] && Invalid(d, s)
    ensures var e := Escape1(d, s);
            |e| == 5 && e[..3] == [BACKSLASH, BACKSLASH, LETTER_X] && HexValue(e[3]) * 16 + HexValue(e[4]) == s[0] &&
            HexValue(e[3]) < 16 && HexValue(e[4]) < 16
  {
  }
}
