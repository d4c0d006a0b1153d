/** The growable array of plain values of common/PodArray.hpp. */
module PodArray {
  import opened Lists
  import opened Maths

  /** What remove leaves: removing the front moves the elements up instead of down, which keeps the
      front and loses the last two shifted-out places instead. */
  function Removed<T>(s: seq<T>, i: nat): seq<T> {
    if i >= |s| then s
    else if i == 0 then if |s| == 1 then [] else [s[0]] + s[..|s| - 2]
    else Without(s, i)
  }

  /** Remove is deletion exactly when it is not asked for the front of two or more different elements. */
  lemma {:induction false} RemovedIsDeletedIff<T>(s: seq<T>, i: nat)
    requires i < |s|
    ensures Removed(s, i) == Without(s, i) <==> i > 0 || |s| == 1 || forall k | 0 <= k < |s| :: s[k] == s[0]
  {
    if i == 0 && |s| > 1 {
      var removed, deleted := Removed(s, 0), Without(s, 0);
      if removed == deleted {
        forall k | 0 <= k < |s| ensures s[k] == s[0] {
          ShiftedEqual(s, k);
        }
      }
      assert (forall k | 0 <= k < |s| :: s[k] == s[0]) ==> forall k | 0 <= k < |s| - 1 :: removed[k] == deleted[k];
    }
  }

  /** Removing the front of a longer array keeps it, moves all but the last two up by one, and drops those. */
  lemma RemovedFront<T>(s: seq<T>)
    ensures |s| > 1 ==>
      && |Removed(s, 0)| == |s| - 1
      && forall k | 0 <= k < |s| - 1 :: Removed(s, 0)[k] == s[if k == 0 then 0 else k - 1]
    ensures forall i: nat | i >= |s| :: Removed(s, i) == s
  {
  }

  lemma {:induction false} ShiftedEqual<T>(s: seq<T>, k: nat)
    requires |s| > 1 && k < |s| && [s[0]] + s[..|s| - 2] == s[1..]
    ensures s[k] == s[0]
  {
    if k > 0 {
      assert s[1..][k - 1] == s[k];
      if k > 1 {
        ShiftedEqual(s, k - 2);
      }
    }
  }

  /** memmove inside one array, in the direction that does not overwrite what is still to be read. */
  method MoveWithin<T>(a: array<T>, to: nat, from: nat, count: nat)
    requires to + count <= a.Length && from + count <= a.Length
    modifies a
    ensures forall k | to <= k < to + count :: a[k] == old(a[from + (k - to)])
    ensures forall k | 0 <= k < a.Length && !(to <= k < to + count) :: a[k] == old(a[k])
  {
    if to >= from {
      var left := count;
      while left > 0
        invariant 0 <= left <= count
        invariant forall k | to + left <= k < to + count :: a[k] == old(a[from + (k - to)])
        invariant forall k | 0 <= k < a.Length && !(to + left <= k < to + count) :: a[k] == old(a[k])
      {
        left := left - 1;
        a[to + left] := a[from + left];
      }
    } else {
      var done := 0;
      while done < count
        invariant 0 <= done <= count
        invariant forall k | to <= k < to + done :: a[k] == old(a[from + (k - to)])
        invariant forall k | 0 <= k < a.Length && !(to <= k < to + done) :: a[k] == old(a[k])
      {
        a[to + done] := a[from + done];
        done := done + 1;
      }
    }
  }

  method CopyInto<T>(target: array<T>, to: nat, source: array<T>, from: nat, count: nat)
    requires target != source && to + count <= target.Length && from + count <= source.Length
    modifies target
    ensures forall k | to <= k < to + count :: target[k] == source[from + (k - to)]
    ensures forall k | 0 <= k < target.Length && !(to <= k < to + count) :: target[k] == old(target[k])
  {
    var done := 0;
    while done < count
      invariant 0 <= done <= count
      invariant forall k | to <= k < to + done :: target[k] == source[from + (k - to)]
      invariant forall k | 0 <= k < target.Length && !(to <= k < to + done) :: target[k] == old(target[k])
    {
      target[to + done] := source[from + done];
      done := done + 1;
    }
  }

  class PodArray<T(0)> {
    // `allocated` is the length of `data`
    var data: array<T>
    var length: nat

    ghost predicate Valid()
      reads this
    {
      length <= data.Length
    }

    ghost function Contents(): seq<T>
      requires Valid()
      reads this, data
    {
      data[..length]
    }

    constructor (reserveSize: nat)
      ensures Valid() && Contents() == [] && fresh(data) && data.Length == reserveSize
    {
      data := new T[reserveSize];
      length := 0;
    }

    method Resize(size: nat)
      requires Valid()
      modifies this
      ensures Valid() && Contents() == old(Contents()) && data.Length == Max(Max(length, 1), size)
      ensures data == old(data) || fresh(data)
    {
      var newSize := Max(Max(length, 1), size);
      if newSize == data.Length {
        return;
      }
      var newData := new T[newSize];
      length := Min(length, newSize);
      CopyInto(newData, 0, data, 0, length);
      assert newData[..length] == data[..length];
      data := newData;
    }

    method PushBack(x: T)
      requires Valid()
      modifies this, data
      ensures Valid() && (data == old(data) || fresh(data))
      ensures Contents() == old(Contents()) + [x]
    {
      if length + 1 >= data.Length {
        Resize(length + 1 + length / 2);
      }
      data[length] := x;
      length := length + 1;
    }

    method Insert(index: nat, x: T)
      requires Valid() && index <= length
      modifies this, data
      ensures Valid() && (data == old(data) || fresh(data))
      ensures Contents() == With(old(Contents()), index, x)
    {
      if length + 1 >= data.Length {
        var newData := new T[data.Length + data.Length / 2 + 1];
        CopyInto(newData, 0, data, 0, index);
        CopyInto(newData, index + 1, data, index, length - index);
        data := newData;
      } else {
        MoveWithin(data, index + 1, index, length - index);
      }
      length := length + 1;
      data[index] := x;
      assert data[..length] == With(old(data[..length]), index, x);
    }

    method RemoveFront()
      requires Valid()
      modifies this, data
      ensures Valid() && data == old(data)
      ensures Contents() == Removed(old(Contents()), 0)
    {
      if length < 1 {
        return;
      }
      length := length - 1;
      if length == 0 {
        // nothing to move; &data[1] may be past the end
        return;
      }
      MoveWithin(data, 1, 0, length);
      assert data[..length] == Removed(old(data[..length]), 0);
    }

    method RemoveBack()
      requires Valid() && length > 0
      modifies this
      ensures Valid() && data == old(data)
      ensures Contents() == Without(old(Contents()), old(length) - 1)
    {
      length := length - 1;
    }

    method Remove(index: nat)
      requires Valid()
      modifies this, data
      ensures Valid() && data == old(data)
      ensures Contents() == Removed(old(Contents()), index)
    {
      if index >= length {
        return;
      }
      if index == 0 {
        RemoveFront();
        return;
      }
      if index == length - 1 {
        RemoveBack();
        return;
      }
      length := length - 1;
      MoveWithin(data, index, index + 1, length - index);
      assert data[..length] == Without(old(data[..length]), index);
    }
  }
}
