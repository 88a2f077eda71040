/** Small shared datatypes and list helpers used by every component. */
module Wrappers {

  /** Python's `None` or a value. */
  datatype Option<T> = None | Some(value: T)
}

module Lists {

  /** Python's `list.remove(x)`: drops the first element equal to `x`.
      Every call site in the application checks membership first, so the
      `ValueError` of an absent element is never raised. */
  function RemoveFirst<T(==)>(s: seq<T>, x: T): (r: seq<T>)
    requires x in s
    ensures |r| == |s| - 1
    ensures multiset(r) == multiset(s) - multiset{x}
  {
    assert s == [s[0]] + s[1..];
    if s[0] == x then s[1..] else [s[0]] + RemoveFirst(s[1..], x)
  }

  /** When `s[k]` is the first element with its value, `list.remove(s[k])`
      removes exactly position `k` and keeps the order of the others. */
  lemma {:induction false} RemoveFirstAt<T>(s: seq<T>, k: nat)
    requires k < |s|
    requires forall j :: 0 <= j < k ==> s[j] != s[k]
    ensures RemoveFirst(s, s[k]) == s[..k] + s[k + 1..]
  {
    if k > 0 {
      var t := s[1..];
      forall j | 0 <= j < k - 1
        ensures t[j] != t[k - 1]
      {
        assert t[j] == s[j + 1] && t[k - 1] == s[k];
      }
      RemoveFirstAt(t, k - 1);
      assert s[0] != s[k] && t[k - 1] == s[k];
      assert RemoveFirst(s, s[k]) == [s[0]] + RemoveFirst(t, s[k]);
      DropHead(s, k);
    }
  }

  /** Putting the head back in front of a split of the tail. */
  lemma DropHead<T>(s: seq<T>, k: nat)
    requires 0 < k < |s|
    ensures [s[0]] + (s[1..][..k - 1] + s[1..][k..]) == s[..k] + s[k + 1..]
  {
    assert [s[0]] + s[1..][..k - 1] == s[..k];
    assert s[1..][k..] == s[k + 1..];
  }

  /** Python's `list.count(x)`. */
  function Count<T(==)>(s: seq<T>, x: T): (c: nat)
    ensures c <= |s|
    ensures c > 0 <==> x in s
  {
    if |s| == 0 then 0 else (if s[0] == x then 1 else 0) + Count(s[1..], x)
  }

  /** `list.remove(x)` takes away one occurrence of `x` and no occurrence of
      anything else. */
  lemma {:induction false} RemoveFirstCount<T>(s: seq<T>, x: T, y: T)
    requires x in s
    ensures Count(RemoveFirst(s, x), y) == Count(s, y) - (if x == y then 1 else 0)
  {
    if s[0] != x {
      var r := RemoveFirst(s[1..], x);
      assert ([s[0]] + r)[1..] == r;
      RemoveFirstCount(s[1..], x, y);
    }
  }

  /** The elements of `s` without repetition. */
  predicate Distinct<T(==)>(s: seq<T>) {
    forall i, j :: 0 <= i < j < |s| ==> s[i] != s[j]
  }

  /** In `a + [x] + b`, `a` is a proper prefix and `x` comes right after it. */
  lemma SplitAt<T>(a: seq<T>, x: T, b: seq<T>)
    ensures var s := a + [x] + b;
            |a| < |s| && s[..|a|] == a && s[|a|] == x
  {
    var s := a + [x] + b;
    assert s[..|a|] == a;
  }
}
