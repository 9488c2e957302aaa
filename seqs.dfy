/** Facts about sequences and the sets of their elements, used by the validator
    (a filtered list compared with the size of its Set) and by the adjacency lemmas. */
module Seqs {

  /** The set of values a sequence holds, as a JavaScript `new Set(s)` would. */
  function Elements<T>(s: seq<T>): set<T>
  {
    set x | x in s
  }

  /** Associativity of concatenation. Dafny knows it already; stating it at the
      one point a proof needs it is a proof-performance aid that keeps the
      verifier from searching for it in large contexts. */
  lemma ConcatAssoc<T>(a: seq<T>, b: seq<T>, c: seq<T>)
    ensures (a + b) + c == a + (b + c)
  {
  }

  /** No value occurs twice in `s`. */
  predicate NoDup<T(==)>(s: seq<T>)
  {
    forall i, j :: 0 <= i < j < |s| ==> s[i] != s[j]
  }

  lemma NoDupCons<T>(a: T, s: seq<T>)
    ensures NoDup([a] + s) <==> a !in s && NoDup(s)
  {
    var t := [a] + s;
    if a !in s && NoDup(s) {
      forall i, j | 0 <= i < j < |t| ensures t[i] != t[j] {
        if i == 0 {
          assert t[j] == s[j - 1];
        } else {
          assert t[i] == s[i - 1] && t[j] == s[j - 1];
        }
      }
    }
    if NoDup(t) {
      forall k | 0 <= k < |s| ensures s[k] != a {
        assert t[0] == a && t[k + 1] == s[k];
      }
      forall i, j | 0 <= i < j < |s| ensures s[i] != s[j] {
        assert t[i + 1] == s[i] && t[j + 1] == s[j];
      }
    }
  }

  /** A sequence has as many distinct values as it has entries exactly when it
      repeats none of them; otherwise it has fewer. */
  lemma {:induction false} CardElements<T>(s: seq<T>)
    ensures |Elements(s)| <= |s|
    ensures |Elements(s)| == |s| <==> NoDup(s)
  {
    if s != [] {
      var t := s[1..];
      assert s == [s[0]] + t;
      CardElements(t);
      NoDupCons(s[0], t);
      assert Elements(s) == {s[0]} + Elements(t);
      if s[0] in t {
        assert Elements(s) == Elements(t);
      } else {
        assert s[0] !in Elements(t);
      }
    }
  }

  /** Appending values the sequence does not hold, without repeats among
      themselves, keeps it repeat-free. */
  lemma NoDupAppend<T>(s: seq<T>, t: seq<T>)
    requires NoDup(s) && NoDup(t) && forall y :: y in t ==> y !in s
    ensures NoDup(s + t)
  {
    var u := s + t;
    forall i, j | 0 <= i < j < |u| ensures u[i] != u[j] {
      if j < |s| {
        assert u[j] == s[j] && u[i] == s[i];
      } else if i < |s| {
        assert u[j] == t[j - |s|] && u[i] == s[i];
        assert t[j - |s|] in t;
      } else {
        assert u[j] == t[j - |s|] && u[i] == t[i - |s|];
      }
    }
  }

}
