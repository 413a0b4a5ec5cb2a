/** Bytes, byte strings and the comparison nginx uses to order keys. */
module Bytes {

  type byte = b: int | 0 <= b < 256

  type Text = seq<byte>

  datatype Option<+T> = None | Some(value: T)

  const WORD: nat := 0x1_0000_0000_0000_0000

  type word = n: nat | n < WORD

  /** The order of `ngx_memn2cmp`: bytewise, a proper prefix coming first. */
  predicate LexLess(a: Text, b: Text) {
    b != [] && (a == [] || a[0] < b[0] || (a[0] == b[0] && LexLess(a[1..], b[1..])))
  }

  lemma {:induction false} LexTrichotomy(a: Text, b: Text)
    ensures LexLess(a, b) || LexLess(b, a) || a == b
    ensures !(LexLess(a, b) && LexLess(b, a))
    ensures !LexLess(a, a)
  {
    if a != [] && b != [] {
      LexTrichotomy(a[1..], b[1..]);
      assert a == [a[0]] + a[1..] && b == [b[0]] + b[1..];
    }
    if a != [] {
      LexTrichotomy(a[1..], a[1..]);
    }
  }

  lemma {:induction false} LexTransitive(a: Text, b: Text, c: Text)
    requires LexLess(a, b) && LexLess(b, c)
    ensures LexLess(a, c)
  {
    if a != [] && a[0] == b[0] == c[0] {
      LexTransitive(a[1..], b[1..], c[1..]);
    }
  }

  /** The texts agree up to place `i`, and there the first one ends or has the smaller byte. */
  ghost predicate SmallerAt(a: Text, b: Text, i: nat) {
    i <= |a| && i < |b| && a[..i] == b[..i] && (i == |a| || a[i] < b[i])
  }

  lemma SmallerLater(a: Text, b: Text, i: nat)
    requires a != [] && b != [] && i > 0
    ensures SmallerAt(a, b, i) <==> a[0] == b[0] && SmallerAt(a[1..], b[1..], i - 1)
  {
    if i <= |a| && i <= |b| {
      assert a[..i] == [a[0]] + a[1..][..i - 1] && b[..i] == [b[0]] + b[1..][..i - 1];
      assert a[..i][0] == a[0] && b[..i][0] == b[0];
      assert a[..i][1..] == a[1..][..i - 1] && b[..i][1..] == b[1..][..i - 1];
    }
  }

  /** Less means less at the first difference, a proper prefix coming first. */
  lemma {:induction false} LexMeans(a: Text, b: Text)
    ensures LexLess(a, b) <==> exists i: nat :: SmallerAt(a, b, i)
  {
    if a == [] || b == [] {
      assert b != [] ==> SmallerAt(a, b, 0);
    } else {
      LexMeans(a[1..], b[1..]);
      forall i: nat | i > 0
        ensures SmallerAt(a, b, i) <==> a[0] == b[0] && SmallerAt(a[1..], b[1..], i - 1)
      {
        SmallerLater(a, b, i);
      }
      assert SmallerAt(a, b, 0) <==> a[0] < b[0];
      if a[0] == b[0] && LexLess(a[1..], b[1..]) {
        var i: nat :| SmallerAt(a[1..], b[1..], i);
        assert SmallerAt(a, b, i + 1);
      }
    }
  }
}
