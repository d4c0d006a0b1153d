/** Taking an element out of a sequence and putting one in. */
module Lists {

  function Without<T>(s: seq<T>, i: nat): seq<T>
    requires i < |s|
  {
    s[..i] + s[i + 1..]
  }

  function With<T>(s: seq<T>, i: nat, x: T): seq<T>
    requires i <= |s|
  {
    s[..i] + [x] + s[i..]
  }

  /** The first place of x, or the length of s. */
  function FirstIndex<T(==)>(s: seq<T>, x: T): (i: nat)
    ensures i <= |s| && (i < |s| ==> s[i] == x)
    ensures forall j | 0 <= j < i :: s[j] != x
  {
    if s == [] || s[0] == x then 0 else 1 + FirstIndex(s[1..], x)
  }

  lemma WithoutElements<T>(s: seq<T>, i: nat)
    requires i < |s|
    ensures |Without(s, i)| == |s| - 1
    ensures forall k | 0 <= k < |s| - 1 :: Without(s, i)[k] == s[if k < i then k else k + 1]
  {
  }

  lemma WithElements<T>(s: seq<T>, i: nat, x: T)
    requires i <= |s|
    ensures |With(s, i, x)| == |s| + 1
    ensures forall k | 0 <= k <= |s| :: With(s, i, x)[k] == if k < i then s[k] else if k == i then x else s[k - 1]
  {
  }
}
