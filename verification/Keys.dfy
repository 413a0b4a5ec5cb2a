/** Node keys: a group tag and name parts joined by the byte 0x1f. */
module Keys {
  import opened Bytes

  const SEPARATOR: byte := 0x1f

  const UPSTREAM_NO: nat := 0
  const UPSTREAM_UA: nat := 1
  const UPSTREAM_UG: nat := 2
  const UPSTREAM_CC: nat := 3
  const UPSTREAM_FG: nat := 4

  /** The two-letter tag of a group; an unknown group falls back to "NO". */
  function GroupName(group: nat): Text {
    if group == UPSTREAM_UA then [0x55, 0x41]
    else if group == UPSTREAM_UG then [0x55, 0x47]
    else if group == UPSTREAM_CC then [0x43, 0x43]
    else if group == UPSTREAM_FG then [0x46, 0x47]
    else [0x4e, 0x4f]
  }

  /** The group a tag names, by its first two bytes; any other text names the first group. */
  function GroupOf(tag: Text): nat {
    if |tag| < 2 then UPSTREAM_NO
    else if tag[0] == 0x55 && tag[1] == 0x41 then UPSTREAM_UA
    else if tag[0] == 0x55 && tag[1] == 0x47 then UPSTREAM_UG
    else if tag[0] == 0x43 && tag[1] == 0x43 then UPSTREAM_CC
    else if tag[0] == 0x46 && tag[1] == 0x47 then UPSTREAM_FG
    else UPSTREAM_NO
  }

  /** Tags and groups name each other; an unknown group has the first tag. */
  lemma GroupOfName(group: nat)
    ensures GroupOf(GroupName(group)) == if group <= UPSTREAM_FG then group else UPSTREAM_NO
  {
  }

  function GenerateKey(group: nat, name: Text): Text {
    GroupName(group) + [SEPARATOR] + name
  }

  /** All fields of a key, empty ones included; there is always at least one. */
  function Split(key: Text): (fields: seq<Text>)
    ensures fields != []
  {
    if key == [] then [[]]
    else
      var rest := Split(key[1..]);
      if key[0] == SEPARATOR then [[]] + rest else [[key[0]] + rest[0]] + rest[1..]
  }

  function Join(parts: seq<Text>): Text {
    if parts == [] then []
    else if |parts| == 1 then parts[0]
    else parts[0] + [SEPARATOR] + Join(parts[1..])
  }

  function FieldAt(key: Text, pos: nat): Option<Text> {
    var fields := Split(key);
    if pos < |fields| && fields[pos] != [] then Some(fields[pos]) else None
  }

  lemma {:induction false} SplitAtSeparator(key: Text, m: nat)
    requires m <= |key| && SEPARATOR !in key[..m]
    requires m < |key| ==> key[m] == SEPARATOR
    ensures Split(key) == [key[..m]] + (if m < |key| then Split(key[m + 1..]) else [])
  {
    if m > 0 {
      assert key[0] in key[..m];
      assert key[1..][..m - 1] == key[..m][1..];
      SplitAtSeparator(key[1..], m - 1);
      assert key[..m] == [key[0]] + key[1..][..m - 1];
      var rest := if m < |key| then Split(key[m + 1..]) else [];
      if m < |key| {
        assert key[1..][m..] == key[m + 1..];
      }
      assert Split(key[1..]) == [key[1..][..m - 1]] + rest;
    }
  }

  /** The fields from `s` on, when the field starting there ends at `p`. */
  lemma SplitFrom(buf: Text, s: nat, p: nat)
    requires s <= p <= |buf| && SEPARATOR !in buf[s..p]
    requires p < |buf| ==> buf[p] == SEPARATOR
    ensures Split(buf[s..]) == [buf[s..p]] + (if p < |buf| then Split(buf[p + 1..]) else [])
  {
    SplitAtSeparator(buf[s..], p - s);
    assert buf[s..][..p - s] == buf[s..p];
    if p < |buf| {
      assert buf[s..][p - s + 1..] == buf[p + 1..];
    }
  }

  /** `done` holds the first fields and the rest of the key starts at `s`. */
  ghost predicate Scanned(buf: Text, done: seq<Text>, s: nat)
    requires s <= |buf|
  {
    Split(buf) == done + Split(buf[s..])
  }

  lemma ScanStart(buf: Text)
    ensures Scanned(buf, [], 0)
  {
    assert buf[0..] == buf;
  }

  lemma ScanField(buf: Text, done: seq<Text>, s: nat, p: nat)
    requires s <= p < |buf| && SEPARATOR !in buf[s..p] && buf[p] == SEPARATOR
    requires Scanned(buf, done, s)
    ensures Scanned(buf, done + [buf[s..p]], p + 1)
  {
    SplitFrom(buf, s, p);
  }

  lemma ScanEnd(buf: Text, done: seq<Text>, s: nat, p: nat, pos: nat)
    requires s <= p <= |buf| && SEPARATOR !in buf[s..p] && Scanned(buf, done, s)
    requires |done| <= pos
    requires p == |buf| || (buf[p] == SEPARATOR && pos == |done|)
    ensures FieldAt(buf, pos) == if pos > |done| || p == s then None else Some(buf[s..p])
  {
    SplitFrom(buf, s, p);
  }

  lemma {:induction false} JoinSplit(key: Text)
    ensures Join(Split(key)) == key
  {
    if key != [] {
      var rest := Split(key[1..]);
      JoinSplit(key[1..]);
      if key[0] == SEPARATOR {
        assert Split(key)[1..] == rest;
      } else {
        assert Split(key)[1..] == rest[1..];
      }
    }
  }

  /** What a key still holds from the start of a field on. */
  function From(key: Text, pos: nat): Text {
    if pos < |Split(key)| then Join(Split(key)[pos..]) else []
  }

  lemma ScanRest(buf: Text, done: seq<Text>, s: nat)
    requires s <= |buf| && Scanned(buf, done, s)
    ensures From(buf, |done|) == buf[s..]
  {
    JoinSplit(buf[s..]);
    assert Split(buf)[|done|..] == Split(buf[s..]);
  }

  /**
   * The field scan of `node_position_key`: `p` walks the key, `s` marks the start of the current field. The string
   * found points into the key; `rest` is what it can be read on to.
   */
  method PositionKey(buf: Text, pos: nat) returns (r: Option<Text>, rest: Text)
    ensures r == FieldAt(buf, pos)
    ensures rest == if r.Some? then From(buf, pos) else buf
  {
    hide FieldAt, Scanned, From;
    var n, c, len, p, s := |buf|, 0, 0, 0, 0;
    ghost var done: seq<Text> := [];
    ScanStart(buf);
    while n != 0
      invariant 0 <= n && 0 <= s <= p && p + n == |buf| && len == p - s && |done| == c <= pos
      invariant SEPARATOR !in buf[s..p] && Scanned(buf, done, s)
      decreases n
    {
      if buf[p] == SEPARATOR {
        if pos == c {
          break;
        }
        ScanField(buf, done, s, p);
        done := done + [buf[s..p]];
        s := p + 1;
        c := c + 1;
      }
      p := p + 1;
      len := p - s;
      n := n - 1;
    }
    ScanEnd(buf, done, s, p, pos);
    ScanRest(buf, done, s);
    if pos > c || len == 0 {
      return None, buf;
    }
    return Some(buf[s..s + len]), buf[s..];
  }

  lemma {:induction false} SplitJoin(parts: seq<Text>)
    requires parts != [] && forall part :: part in parts ==> SEPARATOR !in part
    ensures Split(Join(parts)) == parts
  {
    var first := parts[0];
    var key := Join(parts);
    assert key[..|first|] == first;
    SplitAtSeparator(key, |first|);
    if |parts| > 1 {
      assert key[|first| + 1..] == Join(parts[1..]);
      SplitJoin(parts[1..]);
      assert parts == [first] + parts[1..];
    }
  }

  /** A generated key gives back its group tag and each of its separator-free parts; an empty part reads as missing. */
  lemma GeneratedKeyFields(group: nat, parts: seq<Text>)
    requires parts != [] && forall part :: part in parts ==> SEPARATOR !in part
    ensures FieldAt(GenerateKey(group, Join(parts)), 0) == Some(GroupName(group))
    ensures forall i | 0 <= i < |parts| ::
              FieldAt(GenerateKey(group, Join(parts)), i + 1) == if parts[i] != [] then Some(parts[i]) else None
    ensures FieldAt(GenerateKey(group, Join(parts)), |parts| + 1) == None
  {
    var all := [GroupName(group)] + parts;
    assert all[1..] == parts;
    SplitJoin(all);
    assert forall i | 0 <= i < |parts| :: parts[i] in parts;
  }

  /** Distinct (group, name) pairs of the five known groups never share a key. */
  lemma GenerateKeyInjective(g1: nat, name1: Text, g2: nat, name2: Text)
    requires g1 <= UPSTREAM_FG && g2 <= UPSTREAM_FG
    ensures GenerateKey(g1, name1) == GenerateKey(g2, name2) <==> g1 == g2 && name1 == name2
  {
    var k1, k2 := GenerateKey(g1, name1), GenerateKey(g2, name2);
    assert k1[3..] == name1 && k2[3..] == name2;
    assert k1[0] == GroupName(g1)[0] && k1[1] == GroupName(g1)[1];
    assert k2[0] == GroupName(g2)[0] && k2[1] == GroupName(g2)[1];
  }
}
