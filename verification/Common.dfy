/** What several of the models share. */
module Common {
  datatype Option<T> = None | Some(value: T)

  /** s without its element at position j. */
  function Without<T>(s: seq<T>, j: nat): (r: seq<T>)
    requires j < |s|
    ensures |r| == |s| - 1
    ensures forall i :: 0 <= i < |r| ==> r[i] == s[if i < j then i else i + 1]
  {
    s[..j] + s[j + 1..]
  }

  ghost predicate NoDuplicates<T>(s: seq<T>) {
    forall i, j :: 0 <= i < j < |s| ==> s[i] != s[j]
  }

  /** s without its first occurrence of x: LinkedList1_Remove on a list of nodes. */
  function Minus<T(==)>(s: seq<T>, x: T): (r: seq<T>)
    ensures |r| <= |s|
  {
    if s == [] then [] else if s[0] == x then s[1..] else [s[0]] + Minus(s[1..], x)
  }

  lemma {:induction false} MinusAt<T>(s: seq<T>, j: nat)
    requires j < |s| && NoDuplicates(s)
    ensures Minus(s, s[j]) == Without(s, j)
  {
    if j > 0 {
      MinusAt(s[1..], j - 1);
      assert Without(s, j) == [s[0]] + Without(s[1..], j - 1);
    } else {
      assert Without(s, 0) == s[1..];
    }
  }

  lemma {:induction false} MinusNone<T>(s: seq<T>, x: T)
    requires x !in s
    ensures Minus(s, x) == s
  {
    if s != [] {
      MinusNone(s[1..], x);
    }
  }

  /** x at the end of a list of at most max, whose oldest element makes room if need be. */
  function Appended<T>(s: seq<T>, x: T, max: nat): seq<T> {
    (if |s| == max && max > 0 then s[1..] else s) + [x]
  }

  /** s with its element at position j moved to the end. */
  function ToEnd<T>(s: seq<T>, j: nat): (r: seq<T>)
    requires j < |s|
    ensures |r| == |s|
    ensures forall i :: 0 <= i < |r| ==> r[i] == s[if i == |s| - 1 then j else if i < j then i else i + 1]
  {
    Without(s, j) + [s[j]]
  }

  lemma {:induction false} MovedToEnd<T>(s: seq<T>, j: nat)
    requires j < |s| && NoDuplicates(s)
    ensures Minus(s, s[j]) + [s[j]] == ToEnd(s, j)
  {
    MinusAt(s, j);
  }

  lemma {:induction false} ToEndKeeps<T>(s: seq<T>, j: nat)
    requires j < |s|
    ensures NoDuplicates(s) ==> NoDuplicates(ToEnd(s, j))
    ensures forall x :: x in s ==> x in ToEnd(s, j)
    ensures forall x :: x in ToEnd(s, j) ==> x in s
  {
    forall x | x in s ensures x in ToEnd(s, j) {
      var k :| 0 <= k < |s| && s[k] == x;
      assert ToEnd(s, j)[if k == j then |s| - 1 else if k < j then k else k - 1] == x;
    }
  }

  lemma {:induction false} WithoutKeeps<T>(s: seq<T>, j: nat)
    requires j < |s|
    ensures NoDuplicates(s) ==> NoDuplicates(Without(s, j)) && s[j] !in Without(s, j)
    ensures forall x :: x in s && x != s[j] ==> x in Without(s, j)
    ensures forall x :: x in Without(s, j) ==> x in s
  {
    forall x | x in s && x != s[j] ensures x in Without(s, j) {
      var k :| 0 <= k < |s| && s[k] == x;
      assert Without(s, j)[if k < j then k else k - 1] == x;
    }
  }

  lemma {:induction false} MinusKeeps<T>(s: seq<T>, x: T)
    requires NoDuplicates(s)
    ensures NoDuplicates(Minus(s, x)) && x !in Minus(s, x)
    ensures forall y :: y in s && y != x ==> y in Minus(s, x)
    ensures forall y :: y in Minus(s, x) ==> y in s
  {
    if x in s {
      var j :| 0 <= j < |s| && s[j] == x;
      MinusAt(s, j);
      WithoutKeeps(s, j);
    } else {
      MinusNone(s, x);
    }
  }

  lemma {:induction false} RestMember<T>(s: seq<T>, x: T)
    requires NoDuplicates(s) && s != []
    ensures x in s[1..] <==> x in s && x != s[0]
  {
    assert s == [s[0]] + s[1..];
    forall k | 0 <= k < |s| - 1 ensures s[1..][k] == s[k + 1] {
    }
  }
}
