/** Sequence facts used to state the relationship queries: duplicate-freedom,
    order-preserving subsequences, first-appearance de-duplication (the key
    order of an insertion-ordered dictionary) and the "at least twice" filter. */
module Seqs {

  /** No element occurs twice in `s`. */
  predicate NoDup<T(==)>(s: seq<T>) {
    forall i, j :: 0 <= i < j < |s| ==> s[i] != s[j]
  }

  /** `s` is obtained from `t` by deleting elements, keeping the order of the rest. */
  predicate Subseq<T(==)>(s: seq<T>, t: seq<T>)
    decreases |t|
  {
    if s == [] then true
    else if t == [] then false
    else if s[0] == t[0] then Subseq(s[1..], t[1..])
    else Subseq(s, t[1..])
  }

  lemma {:induction false} SubseqElements<T>(s: seq<T>, t: seq<T>)
    requires Subseq(s, t)
    ensures forall x :: x in s ==> x in t
    decreases |t|
  {
    if s != [] {
      if s[0] == t[0] {
        SubseqElements(s[1..], t[1..]);
        forall x | x in s ensures x in t {
          if x != s[0] { assert x in s[1..]; }
        }
      } else {
        SubseqElements(s, t[1..]);
      }
    }
  }

  /** A subsequence of a duplicate-free sequence is duplicate-free. */
  lemma {:induction false} SubseqNoDup<T>(s: seq<T>, t: seq<T>)
    requires Subseq(s, t) && NoDup(t)
    ensures NoDup(s)
    decreases |t|
  {
    if s != [] {
      assert NoDup(t[1..]) by {
        forall i, j | 0 <= i < j < |t[1..]| ensures t[1..][i] != t[1..][j] {
          assert t[1..][i] == t[i + 1] && t[1..][j] == t[j + 1];
        }
      }
      if s[0] == t[0] {
        SubseqNoDup(s[1..], t[1..]);
        SubseqElements(s[1..], t[1..]);
        forall i, j | 0 <= i < j < |s| ensures s[i] != s[j] {
          if i == 0 {
            assert s[j] in s[1..] by { assert s[j] == s[1..][j - 1]; }
            assert s[j] in t[1..];
            forall k | 0 <= k < |t[1..]| ensures t[1..][k] != t[0] {
              assert t[1..][k] == t[k + 1];
            }
          } else {
            assert s[i] == s[1..][i - 1] && s[j] == s[1..][j - 1];
          }
        }
      } else {
        SubseqNoDup(s, t[1..]);
      }
    }
  }

  /** Appending the same element to both sides keeps the subsequence relation. */
  lemma {:induction false} SubseqSnoc<T>(s: seq<T>, t: seq<T>, x: T)
    requires Subseq(s, t)
    ensures Subseq(s + [x], t + [x])
    decreases |t|
  {
    if s == [] {
      assert s + [x] == [x];
      SubseqSingleton(t, x);
    } else {
      assert (s + [x])[0] == s[0] && (s + [x])[1..] == s[1..] + [x];
      assert (t + [x])[0] == t[0] && (t + [x])[1..] == t[1..] + [x];
      if s[0] == t[0] {
        SubseqSnoc(s[1..], t[1..], x);
      } else {
        SubseqSnoc(s, t[1..], x);
      }
    }
  }

  lemma {:induction false} SubseqSingleton<T>(t: seq<T>, x: T)
    ensures Subseq([x], t + [x])
    decreases |t|
  {
    if t != [] {
      assert (t + [x])[1..] == t[1..] + [x];
      if t[0] != x {
        SubseqSingleton(t[1..], x);
      } else {
        assert [x][1..] == [];
      }
    }
  }

  /** Appending an element to the larger side only keeps the subsequence relation. */
  lemma {:induction false} SubseqExtend<T>(s: seq<T>, t: seq<T>, x: T)
    requires Subseq(s, t)
    ensures Subseq(s, t + [x])
    decreases |t|
  {
    if s != [] {
      assert (t + [x])[0] == t[0] && (t + [x])[1..] == t[1..] + [x];
      if s[0] == t[0] {
        SubseqExtend(s[1..], t[1..], x);
      } else {
        SubseqExtend(s, t[1..], x);
      }
    }
  }

  /** The elements of `s` in the order of their first occurrence, each once: the
      key order an insertion-ordered dictionary ends up with after inserting `s`. */
  function Distinct<T(==)>(s: seq<T>): (r: seq<T>)
    ensures NoDup(r)
    ensures forall x :: x in r ==> x in s
    ensures forall x :: x in s ==> x in r
    decreases |s|
  {
    if s == [] then []
    else
      var d := Distinct(s[..|s| - 1]);
      var x := s[|s| - 1];
      assert s == s[..|s| - 1] + [x];
      if x in d then d else d + [x]
  }

  /** First occurrences keep their order: `Distinct(s)` is a subsequence of `s`. */
  lemma {:induction false} DistinctSubseq<T>(s: seq<T>)
    ensures Subseq(Distinct(s), s)
    decreases |s|
  {
    if s == [] {
    } else {
      var p, x := s[..|s| - 1], s[|s| - 1];
      assert s == p + [x];
      DistinctSubseq(p);
      if x in Distinct(p) {
        SubseqExtend(Distinct(p), p, x);
      } else {
        SubseqSnoc(Distinct(p), p, x);
      }
    }
  }

  /** Keys never move once inserted: de-duplicating a prefix of `s` gives a
      prefix of `Distinct(s)`. With the membership clauses of `Distinct`, this
      fixes the order of `Distinct(s)` as the order of first occurrence. */
  lemma {:induction false} DistinctPrefix<T>(s: seq<T>, k: nat)
    requires k <= |s|
    ensures |Distinct(s[..k])| <= |Distinct(s)|
    ensures Distinct(s[..k]) == Distinct(s)[..|Distinct(s[..k])|]
    decreases |s|
  {
    if k == |s| {
      assert s[..k] == s;
    } else {
      var p := s[..|s| - 1];
      assert s[..k] == p[..k];
      DistinctPrefix(p, k);
      var d, dp := Distinct(p[..k]), Distinct(p);
      assert Distinct(s)[..|dp|] == dp;
      assert Distinct(s)[..|d|] == dp[..|d|];
    }
  }

  /** The elements of `keys` that occur at least twice in `s`, in the order of `keys`. */
  function AtLeastTwice<T(==)>(keys: seq<T>, s: seq<T>): (r: seq<T>)
    ensures forall x :: x in r ==> x in keys && multiset(s)[x] >= 2
    ensures forall x :: x in keys && multiset(s)[x] >= 2 ==> x in r
    ensures Subseq(r, keys)
    ensures NoDup(keys) ==> NoDup(r)
    decreases |keys|
  {
    if keys == [] then []
    else
      var p, k := keys[..|keys| - 1], keys[|keys| - 1];
      assert keys == p + [k];
      var q := AtLeastTwice(p, s);
      if multiset(s)[k] >= 2 then
        SubseqSnoc(q, p, k);
        AtLeastTwiceNoDup(q, p, k);
        q + [k]
      else
        SubseqExtend(q, p, k);
        q
  }

  /** When no key occurs twice, nothing is kept. */
  lemma AtLeastTwiceEmpty<T>(keys: seq<T>, s: seq<T>)
    requires forall x :: x in keys ==> multiset(s)[x] < 2
    ensures AtLeastTwice(keys, s) == []
  {
  }

  /** In `[a, b, a]` with `a != b`, only `a` occurs twice. */
  lemma CountOneRepeated<T>(a: T, b: T)
    requires a != b
    ensures AtLeastTwice(Distinct([a, b, a]), [a, b, a]) == [a]
  {
    assert multiset([a, b, a])[a] == 2 && multiset([a, b, a])[b] == 1;
    assert [a][..0] == [];
    assert Distinct([a]) == [a];
    assert [a, b][..1] == [a];
    assert Distinct([a, b]) == [a, b];
    assert [a, b, a][..2] == [a, b];
    assert Distinct([a, b, a]) == [a, b];
    assert AtLeastTwice([a], [a, b, a]) == [a];
  }

  /** Looking at one more key appends it exactly when it occurs at least twice. */
  lemma AtLeastTwiceSnoc<T>(keys: seq<T>, s: seq<T>, k: T)
    ensures AtLeastTwice(keys + [k], s) ==
            AtLeastTwice(keys, s) + (if multiset(s)[k] >= 2 then [k] else [])
  {
  }

  lemma AtLeastTwiceNoDup<T>(q: seq<T>, p: seq<T>, k: T)
    requires forall x :: x in q ==> x in p
    requires NoDup(p) ==> NoDup(q)
    ensures NoDup(p + [k]) ==> NoDup(q + [k])
  {
    if NoDup(p + [k]) {
      assert NoDup(p) by {
        forall i, j | 0 <= i < j < |p| ensures p[i] != p[j] {
          assert (p + [k])[i] == p[i] && (p + [k])[j] == p[j];
        }
      }
      assert k !in p by {
        forall i | 0 <= i < |p| ensures p[i] != k {
          assert (p + [k])[i] == p[i] && (p + [k])[|p|] == k;
        }
      }
      forall i, j | 0 <= i < j < |q + [k]| ensures (q + [k])[i] != (q + [k])[j] {
        if j == |q| {
          assert (q + [k])[i] == q[i];
          assert q[i] in p;
        } else {
          assert (q + [k])[i] == q[i] && (q + [k])[j] == q[j];
        }
      }
    }
  }

  /** Counting `seen` in a dictionary whose keys keep their insertion order:
      `counts` maps each element to its number of occurrences and `keys` lists
      the elements in the order in which they were first inserted. */
  ghost predicate Counted<T>(counts: map<T, nat>, keys: seq<T>, seen: seq<T>) {
    && keys == Distinct(seen)
    && (forall k :: k in counts ==> k in keys)
    && (forall k :: k in keys ==> k in counts)
    && (forall k :: k in counts ==> counts[k] == multiset(seen)[k])
  }

  /** Counting an element that is already a key increments its count. */
  lemma CountAgain<T>(counts: map<T, nat>, keys: seq<T>, seen: seq<T>, x: T)
    requires Counted(counts, keys, seen) && x in counts
    ensures Counted(counts[x := counts[x] + 1], keys, seen + [x])
  {
  }

  /** Counting a new element inserts it with count one, after the other keys. */
  lemma CountNew<T>(counts: map<T, nat>, keys: seq<T>, seen: seq<T>, x: T)
    requires Counted(counts, keys, seen) && x !in counts
    ensures Counted(counts[x := 1], keys + [x], seen + [x])
  {
  }
}
