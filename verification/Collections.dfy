/** Sequences without duplicates, counting, and bags. */
module Collections {
  ghost predicate NoDuplicates<T>(s: seq<T>) {
    forall i, j | 0 <= i < j < |s| :: s[i] != s[j]
  }

  lemma {:induction false} OnceCount<T>(s: seq<T>)
    requires NoDuplicates(s)
    ensures |set k | k in s| == |s|
  {
    if s != [] {
      var last := |s| - 1;
      OnceCount(s[..last]);
      assert s == s[..last] + [s[last]];
      assert (set k | k in s) == (set k | k in s[..last]) + {s[last]};
    }
  }

  lemma ConcatOnce<T>(s: seq<T>, t: seq<T>)
    requires NoDuplicates(s) && NoDuplicates(t) && forall k :: k in s ==> k !in t
    ensures NoDuplicates(s + t)
  {
    forall i, j | 0 <= i < j < |s + t|
      ensures (s + t)[i] != (s + t)[j]
    {
      if i < |s| && |s| <= j {
        assert s[i] in s && t[j - |s|] in t;
      }
    }
  }

  lemma SubsetCount<T>(s: set<T>, t: set<T>)
    requires s <= t
    ensures |s| <= |t|
  {
    assert t == s + (t - s);
  }

  lemma BagWithout<T>(s: seq<T>, k: nat)
    requires k < |s|
    ensures multiset(s[..k] + s[k + 1..]) == multiset(s) - multiset{s[k]}
  {
    assert s == s[..k] + [s[k]] + s[k + 1..];
  }

  function Below(k: nat): (s: set<nat>)
    ensures |s| == k && forall i: nat :: i in s <==> i < k
  {
    if k == 0 then {} else Below(k - 1) + {k - 1}
  }

  /** More numbers than there are values: two of them are equal. */
  lemma Pigeonhole(s: seq<nat>, k: nat) returns (i: nat, j: nat)
    requires |s| > k && forall n | 0 <= n < |s| :: s[n] < k
    ensures i < j < |s| && s[i] == s[j]
  {
    if NoDuplicates(s) {
      OnceCount(s);
      SubsetCount((set n | n in s), Below(k));
      assert false;
    }
    i, j :| 0 <= i < j < |s| && s[i] == s[j];
  }
}
