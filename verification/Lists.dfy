/** Lists without repeats, and optional values. */
module Lists {
  datatype Option<+T> = None | Some(value: T)

  predicate NoDup<T(==)>(s: seq<T>) {
    forall i, j :: 0 <= i < j < |s| ==> s[i] != s[j]
  }

  /** First position of `x`. */
  function Find<T(==)>(s: seq<T>, x: T): (r: nat)
    requires x in s
    ensures r < |s| && s[r] == x
    ensures x !in s[..r]
  {
    if s[0] == x then 0 else
      var r := Find(s[1..], x) + 1;
      assert s[..r] == [s[0]] + s[1..][..r - 1];
      r
  }

  function RemoveAt<T>(s: seq<T>, i: nat): seq<T>
    requires i < |s|
  {
    s[..i] + s[i + 1..]
  }

  function Without<T(==,!new)>(s: seq<T>, x: T): (r: seq<T>)
    ensures forall y :: y in r <==> y in s && y != x
    ensures |r| <= |s| && (x in s ==> |r| < |s|)
  {
    if s == [] then []
    else if s[0] == x then Without(s[1..], x)
    else [s[0]] + Without(s[1..], x)
  }

  /** The others stay in their order. */
  lemma RemoveAtMeaning<T>(a: seq<T>, x: T, b: seq<T>)
    ensures RemoveAt(a + [x] + b, |a|) == a + b
  {
    var s := a + [x] + b;
    assert s[..|a|] == a && s[|a| + 1..] == b;
  }

  /** Every occurrence goes, and the others stay in their order. */
  lemma WithoutMeaning<T(!new)>(a: seq<T>, y: T, x: T)
    ensures Without([], x) == []
    ensures Without([y] + a, x) == (if y == x then [] else [y]) + Without(a, x)
  {
    assert ([y] + a)[1..] == a;
  }

  lemma NoDupRemove<T>(s: seq<T>, x: T)
    requires NoDup(s) && x in s
    ensures NoDup(RemoveAt(s, Find(s, x)))
    ensures forall y :: y in RemoveAt(s, Find(s, x)) <==> y in s && y != x
  {
    var k := Find(s, x);
    var r := RemoveAt(s, k);
    assert forall j :: 0 <= j < |r| ==> r[j] == s[if j < k then j else j + 1];
    forall y | y in s && y != x
      ensures y in r
    {
      var j :| 0 <= j < |s| && s[j] == y;
      assert r[if j < k then j else j - 1] == y;
    }
  }

  lemma NoDupHead<T>(s: seq<T>, i: nat)
    requires NoDup(s) && i < |s|
    ensures s[i] !in s[i + 1..] && s[i] in s[i..] && forall x :: x in s[i + 1..] ==> x in s[i..]
  {
  }

  lemma NoDupAppend<T>(s: seq<T>, x: T)
    requires NoDup(s) && x !in s
    ensures NoDup(s + [x])
  {
  }

  /** In a list without repeats an element is found where it is. */
  lemma FindIndex<T>(s: seq<T>, i: nat)
    requires NoDup(s) && i < |s|
    ensures Find(s, s[i]) == i
  {
    assert s[i] in s;
  }
}
