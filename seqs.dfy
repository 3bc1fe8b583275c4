/** Sequence facts shared by the item table's key order and the client
    registry: distinctness and Python's `list.remove` (drop the first
    occurrence). */
module Seqs {

  /** No element occurs twice. */
  ghost predicate NoDup<T>(s: seq<T>)
  {
    forall i, j :: 0 <= i < j < |s| ==> s[i] != s[j]
  }

  /** The elements of a sequence, as a set. */
  function Elems<T>(s: seq<T>): set<T>
  {
    set x | x in s
  }

  /** `list.remove(x)`: the sequence without the first occurrence of `x`,
      every other element keeping its order. Python raises ValueError when
      `x` does not occur; no caller here reaches that case (the registry
      removes only a registered handle, the table only a present key), and
      the function then returns `s`. */
  function RemoveFirst<T(==)>(s: seq<T>, x: T): (r: seq<T>)
    ensures x in s ==> r == s[..FirstIndex(s, x)] + s[FirstIndex(s, x) + 1..]
    ensures x !in s ==> r == s
  {
    if s == [] then []
    else if s[0] == x then
      assert s[..0] + s[1..] == s[1..];
      s[1..]
    else
      var rest := RemoveFirst(s[1..], x);
      RemoveFirstCons(s, x, rest);
      [s[0]] + rest
  }

  /** The step of `RemoveFirst` past a head that is not `x`: putting the head
      back in front of the tail's result cuts out the first occurrence of `x`
      in the whole sequence. */
  lemma RemoveFirstCons<T>(s: seq<T>, x: T, rest: seq<T>)
    requires s != [] && s[0] != x
    requires x in s[1..] ==> rest == s[1..][..FirstIndex(s[1..], x)] + s[1..][FirstIndex(s[1..], x) + 1..]
    requires x !in s[1..] ==> rest == s[1..]
    ensures x in s ==> [s[0]] + rest == s[..FirstIndex(s, x)] + s[FirstIndex(s, x) + 1..]
    ensures x !in s ==> [s[0]] + rest == s
  {
    assert s == [s[0]] + s[1..];
    if x in s {
      var j := FirstIndex(s[1..], x);
      assert s[..j + 1] == [s[0]] + s[1..][..j];
      assert s[j + 2..] == s[1..][j + 1..];
    }
  }

  /** The position of the first occurrence of `x` in `s`. */
  function FirstIndex<T(==)>(s: seq<T>, x: T): (i: nat)
    requires x in s
    ensures i < |s| && s[i] == x && x !in s[..i]
  {
    if s[0] == x then 0
    else
      assert x in s[1..] by {
        var k :| 0 <= k < |s| && s[k] == x;
        assert s[1..][k - 1] == x;
      }
      var j := FirstIndex(s[1..], x);
      assert s[..j + 1] == [s[0]] + s[1..][..j];
      j + 1
  }

  /** Removal takes away exactly one occurrence of `x` when there is one. */
  lemma {:induction false} RemoveFirstMultiset<T>(s: seq<T>, x: T)
    ensures multiset(RemoveFirst(s, x)) == multiset(s) - multiset{x}
    ensures x in s ==> |RemoveFirst(s, x)| == |s| - 1
  {
    if s != [] {
      assert s == [s[0]] + s[1..];
      if s[0] != x {
        RemoveFirstMultiset(s[1..], x);
      }
    }
  }

  /** On a sequence without duplicates, removing `x` removes every occurrence
      of it, keeps every other element and keeps the sequence distinct. */
  lemma RemoveFirstDistinct<T>(s: seq<T>, x: T)
    requires NoDup(s)
    ensures NoDup(RemoveFirst(s, x))
    ensures forall y :: y in RemoveFirst(s, x) <==> y in s && y != x
  {
    if x in s {
      var i := FirstIndex(s, x);
      CutDistinct(s, i);
      assert RemoveFirst(s, x) == Cut(s, i);
    }
  }

  /** `s` with position `p` cut out. */
  function Cut<T>(s: seq<T>, p: nat): seq<T>
    requires p < |s|
  {
    s[..p] + s[p + 1..]
  }

  /** Position `a` of a cut sequence holds the original's element at `a`, or
      at `a + 1` past the cut. */
  lemma CutIndex<T>(s: seq<T>, p: nat)
    requires p < |s|
    ensures |Cut(s, p)| == |s| - 1
    ensures forall a :: 0 <= a < |s| - 1 ==> Cut(s, p)[a] == s[if a < p then a else a + 1]
  {
  }

  /** Cutting a position out of a sequence without duplicates keeps it
      distinct and removes exactly the element at that position. */
  lemma CutDistinct<T>(s: seq<T>, p: nat)
    requires NoDup(s) && p < |s|
    ensures NoDup(Cut(s, p))
    ensures forall y :: y in Cut(s, p) <==> y in s && y != s[p]
  {
    var r := Cut(s, p);
    CutIndex(s, p);
    forall a, b | 0 <= a < b < |r| ensures r[a] != r[b] {
      assert r[a] == s[if a < p then a else a + 1];
      assert r[b] == s[if b < p then b else b + 1];
    }
    forall y ensures y in r <==> y in s && y != s[p] {
      if y in r {
        var a :| 0 <= a < |r| && r[a] == y;
        assert r[a] == s[if a < p then a else a + 1];
      }
      if y in s && y != s[p] {
        var k :| 0 <= k < |s| && s[k] == y;
        if k < p {
          assert r[k] == y;
        } else {
          assert r[k - 1] == y;
        }
      }
    }
  }

  /** In a sequence without duplicates, an element occurs neither before nor
      after its own position. */
  lemma DistinctApart<T>(s: seq<T>, p: nat)
    requires NoDup(s) && p < |s|
    ensures s[p] !in s[..p] && s[p] !in s[p + 1..]
  {
    var before, after := s[..p], s[p + 1..];
    forall k | 0 <= k < |before| ensures before[k] != s[p] {
      assert before[k] == s[k];
    }
    forall k | 0 <= k < |after| ensures after[k] != s[p] {
      assert after[k] == s[k + p + 1];
    }
  }

  /** In a sequence without duplicates, removing the element at position `p`
      cuts out exactly that position. */
  lemma RemoveDistinctAt<T>(s: seq<T>, p: nat)
    requires NoDup(s) && p < |s|
    ensures RemoveFirst(s, s[p]) == Cut(s, p)
  {
    DistinctApart(s, p);
  }

  /** Past the cut position, a cut sequence is the original shifted by one. */
  lemma DropAfterCut<T>(s: seq<T>, p: nat, q: nat)
    requires p < q < |s|
    ensures Cut(s, p)[q..] == s[q + 1..]
  {
    CutIndex(s, p);
  }

  /** Appending a new element and then removing it gives back the original. */
  lemma {:induction false} RemoveFirstAppended<T>(s: seq<T>, x: T)
    requires x !in s
    ensures RemoveFirst(s + [x], x) == s
  {
    if s != [] {
      assert (s + [x])[0] == s[0];
      assert (s + [x])[1..] == s[1..] + [x];
      RemoveFirstAppended(s[1..], x);
    }
  }

  /** Appending an element that is not yet present keeps a sequence distinct. */
  lemma AppendDistinct<T>(s: seq<T>, x: T)
    requires NoDup(s) && x !in s
    ensures NoDup(s + [x])
  {
  }

  /** A distinct sequence has as many elements as its set of elements. */
  lemma {:induction false} DistinctCard<T>(s: seq<T>)
    requires NoDup(s)
    ensures |Elems(s)| == |s|
  {
    if s != [] {
      var tail := s[1..];
      forall i, j | 0 <= i < j < |tail| ensures tail[i] != tail[j] {
        assert tail[i] == s[i + 1] && tail[j] == s[j + 1];
      }
      DistinctCard(tail);
      assert s[0] !in Elems(tail) by {
        forall k | 0 <= k < |tail| ensures tail[k] != s[0] {
          assert tail[k] == s[k + 1];
        }
      }
      assert s == [s[0]] + tail;
      assert Elems(s) == {s[0]} + Elems(tail);
    }
  }
}
