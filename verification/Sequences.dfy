/** Bytes, and the few facts about sequences that several models share. */
module Sequences {
  type byte = b: int | 0 <= b < 256

  datatype Option<+T> = None | Some(value: T)

  /** The records laid end to end. */
  function Flatten<T>(rs: seq<seq<T>>): seq<T> {
    if rs == [] then [] else Flatten(rs[..|rs| - 1]) + rs[|rs| - 1]
  }

  lemma FlattenSnoc<T>(rs: seq<seq<T>>, r: seq<T>)
    ensures Flatten(rs + [r]) == Flatten(rs) + r
  {
    assert (rs + [r])[..|rs|] == rs;
  }

  lemma {:induction false} FlattenConcat<T>(a: seq<seq<T>>, b: seq<seq<T>>)
    ensures Flatten(a + b) == Flatten(a) + Flatten(b)
  {
    if b == [] {
      assert a + b == a;
    } else {
      var front, last := b[..|b| - 1], b[|b| - 1];
      FlattenConcat(a, front);
      assert a + b == (a + front) + [last];
      FlattenSnoc(a + front, last);
      assert Flatten(a) + (Flatten(front) + last) == (Flatten(a) + Flatten(front)) + last;
    }
  }

  /** Cutting the list of records cuts the flat bytes at a prefix. */
  lemma FlattenPrefix<T>(rs: seq<seq<T>>, k: nat)
    requires k <= |rs|
    ensures Flatten(rs[..k]) <= Flatten(rs)
    ensures |Flatten(rs[..k])| <= |Flatten(rs)|
  {
    FlattenConcat(rs[..k], rs[k..]);
    assert rs[..k] + rs[k..] == rs;
  }

  /** A shorter cut is a prefix of a longer one. */
  lemma FlattenMonotone<T>(rs: seq<seq<T>>, j: nat, k: nat)
    requires j <= k <= |rs|
    ensures Flatten(rs[..j]) <= Flatten(rs[..k])
  {
    FlattenPrefix(rs[..k], j);
    assert rs[..k][..j] == rs[..j];
  }

  ghost predicate Distinct<T>(s: seq<T>) { forall i, j | 0 <= i < j < |s| :: s[i] != s[j] }

  /** The list without the first occurrence of `x`. */
  function Remove<T(==)>(s: seq<T>, x: T): seq<T> {
    if s == [] then [] else if s[0] == x then s[1..] else [s[0]] + Remove(s[1..], x)
  }

  lemma {:induction false} RemoveAt<T>(s: seq<T>, i: nat)
    requires i < |s| && forall j | 0 <= j < i :: s[j] != s[i]
    ensures Remove(s, s[i]) == s[..i] + s[i + 1..]
  {
    if i > 0 {
      RemoveAt(s[1..], i - 1);
      assert s[..i] == [s[0]] + s[1..][..i - 1];
    }
  }

  lemma {:induction false} RemoveIs<T>(s: seq<T>, x: T)
    requires Distinct(s)
    ensures Distinct(Remove(s, x))
    ensures forall y :: y in Remove(s, x) <==> y in s && y != x
    ensures x !in s ==> Remove(s, x) == s
  {
    if x in s {
      var i :| 0 <= i < |s| && s[i] == x;
      RemoveAt(s, i);
    } else {
      RemoveAbsent(s, x);
    }
  }

  lemma {:induction false} RemoveAbsent<T>(s: seq<T>, x: T)
    requires x !in s
    ensures Remove(s, x) == s
  {
    if s != [] {
      RemoveAbsent(s[1..], x);
    }
  }
}
