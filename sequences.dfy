/** The live elements of an mvector, seen as a sequence: what insert, erase and
    the growing copies do to them, and the text operator<< writes for them. */
module Sequences {

  /** The sequence `s` with `v` placed before position `p` (p == |s| appends). */
  function InsertAt<T>(s: seq<T>, p: nat, v: T): (r: seq<T>)
    requires p <= |s|
    ensures |r| == |s| + 1
    ensures r[p] == v
    ensures forall i :: 0 <= i < p ==> r[i] == s[i]
    ensures forall i :: p < i < |r| ==> r[i] == s[i - 1]
  {
    s[..p] + [v] + s[p..]
  }

  /** The sequence `s` without its element at position `p`. */
  function RemoveAt<T>(s: seq<T>, p: nat): (r: seq<T>)
    requires p < |s|
    ensures |r| == |s| - 1
    ensures forall i :: 0 <= i < p ==> r[i] == s[i]
    ensures forall i :: p <= i < |r| ==> r[i] == s[i + 1]
  {
    s[..p] + s[p + 1..]
  }

  /** A block of `n` slots whose first |s| slots hold `s` and whose other slots hold `x`. */
  function Pad<T>(s: seq<T>, n: nat, x: T): (r: seq<T>)
    requires |s| <= n
    ensures |r| == n
    ensures forall i :: 0 <= i < |s| ==> r[i] == s[i]
    ensures forall i :: |s| <= i < n ==> r[i] == x
  {
    s + seq(n - |s|, _ => x)
  }

  /** Each element rendered by `show` and followed by one space, in index order. */
  function Rendered<T>(s: seq<T>, show: T -> string): string
  {
    if s == [] then "" else Rendered(s[..|s| - 1], show) + show(s[|s| - 1]) + " "
  }

  /** Erasing the element just inserted gives back the original sequence. */
  lemma RemoveAtInsertAt<T>(s: seq<T>, p: nat, v: T)
    requires p <= |s|
    ensures RemoveAt(InsertAt(s, p, v), p) == s
  {
    var r := RemoveAt(InsertAt(s, p, v), p);
    assert |r| == |s|;
    forall i | 0 <= i < |s| ensures r[i] == s[i] {
      if i < p {
        assert r[i] == InsertAt(s, p, v)[i];
      } else {
        assert r[i] == InsertAt(s, p, v)[i + 1];
      }
    }
  }

  /** Inserting an erased element back at its position restores the sequence. */
  lemma InsertAtRemoveAt<T>(s: seq<T>, p: nat)
    requires p < |s|
    ensures InsertAt(RemoveAt(s, p), p, s[p]) == s
  {
    var r := InsertAt(RemoveAt(s, p), p, s[p]);
    assert |r| == |s|;
    forall i | 0 <= i < |s| ensures r[i] == s[i] {
      if i < p {
        assert r[i] == RemoveAt(s, p)[i];
      } else if p < i {
        assert r[i] == RemoveAt(s, p)[i - 1];
      }
    }
  }

  /** Insert keeps every element and adds exactly the inserted one. */
  lemma InsertAtMultiset<T>(s: seq<T>, p: nat, v: T)
    requires p <= |s|
    ensures multiset(InsertAt(s, p, v)) == multiset(s) + multiset{v}
  {
    assert s == s[..p] + s[p..];
    assert InsertAt(s, p, v) == s[..p] + [v] + s[p..];
  }

  /** Erase drops exactly the erased element and keeps every other one. */
  lemma RemoveAtMultiset<T>(s: seq<T>, p: nat)
    requires p < |s|
    ensures multiset(RemoveAt(s, p)) + multiset{s[p]} == multiset(s)
  {
    assert s == s[..p] + [s[p]] + s[p + 1..];
    assert RemoveAt(s, p) == s[..p] + s[p + 1..];
  }
}
