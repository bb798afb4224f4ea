/**
 The operations of libs/list.h, on the sequence of the elements that a list links together.
 */
module Lists {
  datatype Option<+T> = None | Some(value: T)

  predicate NoDup<T(==)>(s: seq<T>) {
    forall i, j :: 0 <= i < j < |s| ==> s[i] != s[j]
  }

  /** list_add_after: `v` goes right behind the element `e`. */
  function AddAfter<T(==)>(s: seq<T>, e: T, v: T): seq<T>
    requires e in s
  {
    if s[0] == e then [e, v] + s[1..] else [s[0]] + AddAfter(s[1..], e, v)
  }

  /** list_next; None at the end of the list. */
  function Next<T(==)>(s: seq<T>, e: T): Option<T>
    requires e in s
  {
    if s[0] == e then (if |s| == 1 then None else Some(s[1])) else Next(s[1..], e)
  }

  /** list_del. */
  function Del<T(==)>(s: seq<T>, e: T): seq<T>
    requires e in s
  {
    if s[0] == e then s[1..] else [s[0]] + Del(s[1..], e)
  }

  lemma {:induction false} AddAfterAt<T>(s: seq<T>, k: nat, v: T)
    requires NoDup(s) && k < |s|
    ensures AddAfter(s, s[k], v) == s[..k + 1] + [v] + s[k + 1..]
  {
    if k > 0 {
      AddAfterAt(s[1..], k - 1, v);
      assert [s[0]] + (s[1..][..k] + [v] + s[1..][k..]) == s[..k + 1] + [v] + s[k + 1..];
    }
  }

  lemma {:induction false} NextAt<T>(s: seq<T>, k: nat)
    requires NoDup(s) && k < |s|
    ensures Next(s, s[k]) == if k + 1 < |s| then Some(s[k + 1]) else None
  {
    if k > 0 {
      NextAt(s[1..], k - 1);
    }
  }

  lemma {:induction false} DelAt<T>(s: seq<T>, k: nat)
    requires NoDup(s) && k < |s|
    ensures Del(s, s[k]) == s[..k] + s[k + 1..]
  {
    if k > 0 {
      DelAt(s[1..], k - 1);
      assert [s[0]] + (s[1..][..k - 1] + s[1..][k..]) == s[..k] + s[k + 1..];
    }
  }

  /** The elements that are left. */
  lemma {:induction false} WithoutAt<T>(s: seq<T>, k: nat)
    requires NoDup(s) && k < |s|
    ensures forall v :: v in s[..k] + s[k + 1..] <==> v in s && v != s[k]
  {
    var t := s[..k] + s[k + 1..];
    forall v | v in s && v != s[k]
      ensures v in t
    {
      var i :| 0 <= i < |s| && s[i] == v;
      assert v == t[if i < k then i else i - 1];
    }
  }

  /** Taking out one more element behind a gap of `m` that starts at `k`. */
  lemma {:induction false} WiderGap<T>(s: seq<T>, k: nat, m: nat)
    requires k + m < |s|
    ensures var t := s[..k] + s[k + m..]; t[..k] + t[k + 1..] == s[..k] + s[k + m + 1..]
  {
  }

  /** list_del of an element of a list without duplicates. */
  lemma {:induction false} DelIs<T>(s: seq<T>, e: T)
    requires NoDup(s) && e in s
    ensures NoDup(Del(s, e)) && |Del(s, e)| == |s| - 1
    ensures forall v :: v in Del(s, e) <==> v in s && v != e
  {
    var k :| 0 <= k < |s| && s[k] == e;
    DelAt(s, k);
    WithoutAt(s, k);
  }
}
