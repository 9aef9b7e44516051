/** Sequence vocabulary shared by the tab-ordering and overflow modules:
    duplicate-freedom, subsequences, removal of one value, and sums. */
module SeqUtil {

  /** No value occurs twice in `s`. */
  predicate NoDup<T(==)>(s: seq<T>) {
    forall i, j :: 0 <= i < j < |s| ==> s[i] != s[j]
  }

  /** `sub` is obtained from `s` by deleting zero or more elements, keeping the order
      of the rest: either the last elements match and the prefixes are related, or
      the last element of `s` was deleted. */
  predicate IsSubsequence<T(==)>(sub: seq<T>, s: seq<T>)
    decreases |s|
  {
    if |sub| == 0 then true
    else if |s| == 0 then false
    else
      (sub[|sub| - 1] == s[|s| - 1] && IsSubsequence(sub[..|sub| - 1], s[..|s| - 1]))
      || IsSubsequence(sub, s[..|s| - 1])
  }

  /** `s` with every occurrence of `x` removed (the source's `filter(rt => rt !== x)`). */
  function Without<T(==, !new)>(s: seq<T>, x: T): (r: seq<T>)
    ensures x !in r
    ensures x !in s ==> r == s
    ensures |r| <= |s|
  {
    if |s| == 0 then []
    else
      var init, last := s[..|s| - 1], s[|s| - 1];
      assert s == init + [last];
      if last == x then Without(init, x) else Without(init, x) + [last]
  }

  /** Removing `x` keeps every other value and only those. */
  lemma {:induction false} WithoutMembers<T(!new)>(s: seq<T>, x: T)
    ensures forall y :: y in Without(s, x) <==> y in s && y != x
    decreases |s|
  {
    if |s| > 0 {
      var init, last := s[..|s| - 1], s[|s| - 1];
      assert s == init + [last];
      WithoutMembers(init, x);
    }
  }

  /** Removing a value keeps the others in their order. */
  lemma {:induction false} WithoutSubsequence<T(!new)>(s: seq<T>, x: T)
    ensures IsSubsequence(Without(s, x), s)
    decreases |s|
  {
    if |s| > 0 {
      var init, last := s[..|s| - 1], s[|s| - 1];
      WithoutSubsequence(init, x);
      assert s == init + [last];
      if last == x {
        SubsequenceExtend(Without(init, x), init, last);
      } else {
        SubsequenceSnoc(Without(init, x), init, last);
      }
    }
  }

  /** Removing a value from a duplicate-free sequence that holds it shortens it by one
      and leaves it duplicate-free. */
  lemma {:induction false} WithoutNoDup<T(!new)>(s: seq<T>, x: T)
    requires NoDup(s)
    ensures NoDup(Without(s, x))
    ensures x in s ==> |Without(s, x)| == |s| - 1
    decreases |s|
  {
    if |s| > 0 {
      var init, last := s[..|s| - 1], s[|s| - 1];
      assert s == init + [last];
      assert NoDup(init);
      WithoutNoDup(init, x);
      var rest := Without(init, x);
      if last != x {
        assert last !in init;
        WithoutMembers(init, x);
        assert last !in rest;
        NoDupSnoc(rest, last);
      } else {
        assert x !in init;
      }
    }
  }

  /** Removing a value that sits at position `k` of a duplicate-free sequence cuts out
      exactly that position. */
  lemma {:induction false} WithoutAt<T(!new)>(s: seq<T>, k: nat)
    requires NoDup(s) && k < |s|
    ensures Without(s, s[k]) == s[..k] + s[k + 1..]
    decreases |s|
  {
    var init, last := s[..|s| - 1], s[|s| - 1];
    assert s == init + [last];
    assert NoDup(init);
    if k == |s| - 1 {
      assert last !in init;
      assert s[k + 1..] == [];
      assert s[..k] == init;
    } else {
      assert init[k] == s[k] && last != s[k];
      WithoutAt(init, k);
      assert init[..k] == s[..k];
      assert init[k + 1..] + [last] == s[k + 1..];
    }
  }

  /** Sum of a sequence of naturals. */
  function Sum(s: seq<nat>): nat {
    if |s| == 0 then 0 else Sum(s[..|s| - 1]) + s[|s| - 1]
  }

  function Min(a: int, b: int): int {
    if a < b then a else b
  }

  function Max(a: int, b: int): int {
    if a < b then b else a
  }

  /** Appending a new value keeps a sequence duplicate-free. */
  lemma NoDupSnoc<T>(s: seq<T>, x: T)
    requires NoDup(s) && x !in s
    ensures NoDup(s + [x])
  {
    var r := s + [x];
    forall i, j | 0 <= i < j < |r|
      ensures r[i] != r[j]
    {
      assert r[i] == s[i];
      if j < |s| {
        assert r[j] == s[j];
      }
    }
  }

  /** Everything in a subsequence occurs in the sequence it was taken from. */
  lemma {:induction false} SubsequenceMembers<T>(sub: seq<T>, s: seq<T>)
    requires IsSubsequence(sub, s)
    ensures forall y :: y in sub ==> y in s
    decreases |s|
  {
    if |sub| > 0 {
      var sInit := s[..|s| - 1];
      if sub[|sub| - 1] == s[|s| - 1] && IsSubsequence(sub[..|sub| - 1], sInit) {
        SubsequenceMembers(sub[..|sub| - 1], sInit);
        assert sub == sub[..|sub| - 1] + [sub[|sub| - 1]];
        assert s == sInit + [s[|s| - 1]];
      } else {
        SubsequenceMembers(sub, sInit);
        assert s == sInit + [s[|s| - 1]];
      }
    }
  }

  /** A subsequence of a duplicate-free sequence is duplicate-free. */
  lemma {:induction false} SubsequenceNoDup<T>(sub: seq<T>, s: seq<T>)
    requires IsSubsequence(sub, s) && NoDup(s)
    ensures NoDup(sub)
    decreases |s|
  {
    if |sub| > 0 {
      var sInit := s[..|s| - 1];
      assert NoDup(sInit);
      if sub[|sub| - 1] == s[|s| - 1] && IsSubsequence(sub[..|sub| - 1], sInit) {
        var subInit := sub[..|sub| - 1];
        SubsequenceNoDup(subInit, sInit);
        SubsequenceMembers(subInit, sInit);
        assert s[|s| - 1] !in sInit;
        forall i, j | 0 <= i < j < |sub|
          ensures sub[i] != sub[j]
        {
          if j == |sub| - 1 {
            assert sub[i] == subInit[i];
          } else {
            assert sub[i] == subInit[i] && sub[j] == subInit[j];
          }
        }
      } else {
        SubsequenceNoDup(sub, sInit);
      }
    }
  }

  /** A subsequence is no longer than the sequence it was taken from. */
  lemma {:induction false} SubsequenceLength<T>(sub: seq<T>, s: seq<T>)
    requires IsSubsequence(sub, s)
    ensures |sub| <= |s|
    decreases |s|
  {
    if |sub| > 0 {
      if sub[|sub| - 1] == s[|s| - 1] && IsSubsequence(sub[..|sub| - 1], s[..|s| - 1]) {
        SubsequenceLength(sub[..|sub| - 1], s[..|s| - 1]);
      } else {
        SubsequenceLength(sub, s[..|s| - 1]);
      }
    }
  }

  /** Appending the same value to both sides preserves the subsequence relation. */
  lemma SubsequenceSnoc<T>(sub: seq<T>, s: seq<T>, x: T)
    requires IsSubsequence(sub, s)
    ensures IsSubsequence(sub + [x], s + [x])
  {
    assert (sub + [x])[..|sub|] == sub;
    assert (s + [x])[..|s|] == s;
  }

  /** Appending to the larger side preserves the subsequence relation. */
  lemma SubsequenceExtend<T>(sub: seq<T>, s: seq<T>, x: T)
    requires IsSubsequence(sub, s)
    ensures IsSubsequence(sub, s + [x])
  {
    assert (s + [x])[..|s|] == s;
  }

  /** A value missing from `sub` can be dropped from the end of `s`. */
  lemma SubsequenceDropLast<T>(sub: seq<T>, s: seq<T>, x: T)
    requires IsSubsequence(sub, s + [x]) && x !in sub
    ensures IsSubsequence(sub, s)
  {
    if |sub| > 0 {
      assert (s + [x])[..|s|] == s;
      assert sub[|sub| - 1] in sub;
    }
  }

  /** Subsequence is transitive. */
  lemma {:induction false} SubsequenceTransitive<T>(a: seq<T>, b: seq<T>, c: seq<T>)
    requires IsSubsequence(a, b) && IsSubsequence(b, c)
    ensures IsSubsequence(a, c)
    decreases |c|
  {
    if |a| == 0 {
    } else {
      assert |b| > 0 && |c| > 0;
      var cInit := c[..|c| - 1];
      if b[|b| - 1] == c[|c| - 1] && IsSubsequence(b[..|b| - 1], cInit) {
        var bInit := b[..|b| - 1];
        if a[|a| - 1] == b[|b| - 1] && IsSubsequence(a[..|a| - 1], bInit) {
          SubsequenceTransitive(a[..|a| - 1], bInit, cInit);
        } else {
          SubsequenceTransitive(a, bInit, cInit);
          assert IsSubsequence(a, cInit);
        }
      } else {
        SubsequenceTransitive(a, b, cInit);
      }
    }
  }

  /** Two subsequences of one duplicate-free sequence holding the same values are equal:
      the order is fixed by the sequence they were taken from. */
  lemma {:induction false} SubsequenceDeterminedByMembers<T>(a: seq<T>, b: seq<T>, s: seq<T>)
    requires NoDup(s) && IsSubsequence(a, s) && IsSubsequence(b, s)
    requires forall y :: y in a <==> y in b
    ensures a == b
    decreases |s|
  {
    if |s| == 0 {
      assert |a| == 0 && |b| == 0;
    } else {
      var sInit, z := s[..|s| - 1], s[|s| - 1];
      assert NoDup(sInit);
      if z in a {
        var aInit := ClaimLast(a, s);
        var bInit := ClaimLast(b, s);
        SameMembersAfterLast(a, aInit, b, bInit, s);
        SubsequenceDeterminedByMembers(aInit, bInit, sInit);
      } else {
        assert s == sInit + [z];
        SubsequenceDropLast(a, sInit, z);
        SubsequenceDropLast(b, sInit, z);
        SubsequenceDeterminedByMembers(a, b, sInit);
      }
    }
  }

  /** Helper of the above: dropping the shared last value keeps the members equal. */
  lemma SameMembersAfterLast<T>(a: seq<T>, aInit: seq<T>, b: seq<T>, bInit: seq<T>, s: seq<T>)
    requires NoDup(s) && |s| > 0
    requires a == aInit + [s[|s| - 1]] && b == bInit + [s[|s| - 1]]
    requires IsSubsequence(aInit, s[..|s| - 1]) && IsSubsequence(bInit, s[..|s| - 1])
    requires forall y :: y in a <==> y in b
    ensures forall y :: y in aInit <==> y in bInit
  {
    var z := s[|s| - 1];
    assert z !in s[..|s| - 1];
    SubsequenceMembers(aInit, s[..|s| - 1]);
    SubsequenceMembers(bInit, s[..|s| - 1]);
    forall y
      ensures y in aInit <==> y in bInit
    {
      assert y in a <==> y in aInit || y == z;
      assert y in b <==> y in bInit || y == z;
    }
  }

  /** If the last value of `s` occurs in a subsequence `a`, it is the last value of `a`. */
  lemma ClaimLast<T>(a: seq<T>, s: seq<T>) returns (aInit: seq<T>)
    requires NoDup(s) && |s| > 0 && IsSubsequence(a, s) && s[|s| - 1] in a
    ensures a == aInit + [s[|s| - 1]]
    ensures IsSubsequence(aInit, s[..|s| - 1])
  {
    var sInit, z := s[..|s| - 1], s[|s| - 1];
    assert z !in sInit;
    if IsSubsequence(a, sInit) {
      SubsequenceMembers(a, sInit);
      assert false;
    }
    aInit := a[..|a| - 1];
    assert a == aInit + [a[|a| - 1]];
  }
}
