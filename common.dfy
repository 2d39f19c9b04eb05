/** Small sequence helpers shared by the selection store and the map page:
    an optional value, JavaScript's `Array.prototype.filter` specialised to
    "drop every element that occurs in another list", and duplicate-freedom. */
module Common {

  datatype Option<T> = None | Some(value: T)

  /** No element occurs twice. */
  predicate Distinct<T(==)>(s: seq<T>) {
    forall i, j :: 0 <= i < j < |s| ==> s[i] != s[j]
  }

  /** `s.filter(x => !t.includes(x))`: the elements of `s` that do not occur
      in `t`, in their original order. */
  function Minus<T(==)>(s: seq<T>, t: seq<T>): (r: seq<T>)
    ensures |r| <= |s|
    ensures forall y :: y in r ==> y in s && y !in t
    ensures forall y :: y in s && y !in t ==> y in r
  {
    if s == [] then []
    else
      assert s == [s[0]] + s[1..];
      (if s[0] in t then [] else [s[0]]) + Minus(s[1..], t)
  }

  /** Filtering keeps every surviving element with its multiplicity and
      removes every copy of a dropped one. */
  lemma {:induction false} MinusCount<T>(s: seq<T>, t: seq<T>, y: T)
    ensures multiset(Minus(s, t))[y] == if y in t then 0 else multiset(s)[y]
  {
    if s != [] {
      assert s == [s[0]] + s[1..];
      MinusCount(s[1..], t, y);
    }
  }

  /** Filtering distributes over concatenation: every kept element stays in
      the order it had. */
  lemma {:induction false} MinusAppend<T>(a: seq<T>, b: seq<T>, t: seq<T>)
    ensures Minus(a + b, t) == Minus(a, t) + Minus(b, t)
  {
    if a == [] {
      assert a + b == b;
    } else {
      assert (a + b)[0] == a[0];
      assert (a + b)[1..] == a[1..] + b;
      MinusAppend(a[1..], b, t);
    }
  }

  /** Filtering out elements that do not occur changes nothing. */
  lemma {:induction false} MinusDisjoint<T>(s: seq<T>, t: seq<T>)
    requires forall y :: y in s ==> y !in t
    ensures Minus(s, t) == s
  {
    if s != [] {
      assert s == [s[0]] + s[1..];
      MinusDisjoint(s[1..], t);
    }
  }

  /** A duplicate-free list stays duplicate-free under filtering. */
  lemma {:induction false} MinusDistinct<T>(s: seq<T>, t: seq<T>)
    requires Distinct(s)
    ensures Distinct(Minus(s, t))
  {
    if s != [] {
      MinusDistinct(s[1..], t);
      var rest := Minus(s[1..], t);
      assert forall k :: 0 <= k < |s| - 1 ==> s[1..][k] == s[k + 1];
      assert s[0] !in s[1..];
      var head: seq<T> := if s[0] in t then [] else [s[0]];
      var r := head + rest;
      forall i, j | 0 <= i < j < |r| ensures r[i] != r[j] {
        if head != [] && i == 0 {
          assert r[j] == rest[j - 1];
        } else {
          assert r[i] == rest[i - |head|] && r[j] == rest[j - |head|];
        }
      }
    }
  }
}
