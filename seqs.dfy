/** Generic sequence helpers: an Option type, distinctness, and Python's
    `list.remove` (remove the first occurrence, fail when absent). */
module Seqs {

  datatype Option<T> = None | Some(value: T)

  /** No element occurs twice. */
  ghost predicate Distinct<T>(s: seq<T>)
  {
    forall i, j :: 0 <= i < j < |s| ==> s[i] != s[j]
  }

  /** Where `v` first occurs in `s`. */
  function FirstIndex<T(==)>(s: seq<T>, v: T): (i: nat)
    requires v in s
    ensures i < |s| && s[i] == v && v !in s[..i]
  {
    if s[0] == v then 0
    else
      var j := FirstIndex(s[1..], v);
      assert s[..j + 1] == [s[0]] + s[1..][..j];
      j + 1
  }

  /** `list.remove(v)`: drops the first occurrence of `v`; `None` stands for
      the ValueError raised when `v` is not in the list. */
  function RemoveFirst<T(==)>(s: seq<T>, v: T): (r: Option<seq<T>>)
    ensures r.Some? <==> v in s
    ensures r.Some? ==> |r.value| == |s| - 1
    ensures r.Some? ==> multiset(r.value) == multiset(s) - multiset{v}
    ensures r.Some? ==> exists i :: 0 <= i < |s| && s[i] == v && v !in s[..i] && r.value == s[..i] + s[i + 1..]
  {
    if v !in s then None
    else
      var i := FirstIndex(s, v);
      assert s == s[..i] + [v] + s[i + 1..];
      Some(s[..i] + s[i + 1..])
  }

  /** In a sequence without repetitions every element occurs exactly once. */
  lemma {:induction false} DistinctMultiplicity<T>(s: seq<T>, x: T)
    requires Distinct(s)
    ensures multiset(s)[x] == if x in s then 1 else 0
  {
    if s != [] {
      var init := s[..|s| - 1];
      assert s == init + [s[|s| - 1]];
      assert Distinct(init);
      DistinctMultiplicity(init, x);
      assert s[|s| - 1] !in init;
    }
  }

  /** Appending keeps a sequence distinct exactly when the new element is new. */
  lemma DistinctSnoc<T>(s: seq<T>, x: T)
    ensures Distinct(s + [x]) <==> Distinct(s) && x !in s
  {
    if Distinct(s + [x]) {
      assert forall i, j :: 0 <= i < j < |s| ==> s[i] == (s + [x])[i] && s[j] == (s + [x])[j];
      forall i | 0 <= i < |s| ensures s[i] != x {
        assert (s + [x])[i] == s[i] && (s + [x])[|s|] == x;
      }
    }
  }
}
