/** The server's priority queue of clients: the operations of Go's container/heap over
    items that carry their own position (core/server/server.go). */
module TssQueues {
  import opened NtpTime
  import opened TssItems

  function Parent(i: int): (p: int)
    requires i >= 0
    ensures i > 0 ==> 0 <= p < i && (i == 2 * p + 1 || i == 2 * p + 2)
    ensures i == 0 ==> p == 0
  {
    if i == 0 then 0 else (i - 1) / 2
  }

  /* ---- Heap order, over the sequence of keys as numbers ---- */

  // Key i is not before the key of its parent.
  ghost predicate InOrder(ks: seq<int>, i: int)
    requires 0 <= i < |ks|
  {
    ks[Parent(i)] <= ks[i]
  }

  ghost predicate Ordered(ks: seq<int>, n: int)
    requires 0 <= n <= |ks|
  {
    forall k :: 0 <= k < n ==> InOrder(ks, k)
  }

  ghost predicate ChildrenInOrder(ks: seq<int>, i: int, n: int)
    requires 0 <= i && n <= |ks|
  {
    && (2 * i + 1 < n ==> InOrder(ks, 2 * i + 1))
    && (2 * i + 2 < n ==> InOrder(ks, 2 * i + 2))
  }

  // The first n keys are ordered except that key i may be out of order with its parent
  // and with its children; its children are in order with its parent.
  ghost predicate OrderedExcept(ks: seq<int>, i: int, n: int)
    requires 0 <= i < n <= |ks|
  {
    && (forall k :: 0 <= k < n && k != i && k != 2 * i + 1 && k != 2 * i + 2 ==> InOrder(ks, k))
    && (i > 0 && 2 * i + 1 < n ==> ks[Parent(i)] <= ks[2 * i + 1])
    && (i > 0 && 2 * i + 2 < n ==> ks[Parent(i)] <= ks[2 * i + 2])
  }

  ghost function Swapped(ks: seq<int>, i: int, j: int): (r: seq<int>)
    requires 0 <= i < |ks| && 0 <= j < |ks|
  {
    ks[i := ks[j]][j := ks[i]]
  }

  // j is the child of i that down compares with i: the least one of at most two.
  ghost predicate IsLeastChild(ks: seq<int>, i: int, n: int, j: int)
    requires 0 <= i && n <= |ks|
  {
    && (j == 2 * i + 1 || j == 2 * i + 2)
    && j < n
    && ks[j] <= ks[2 * i + 1]
    && (2 * i + 2 < n ==> ks[j] <= ks[2 * i + 2])
  }

  // One step up: exchanging key j with a parent it is before moves the defect there.
  lemma UpStep(ks: seq<int>, j: int, n: int)
    requires 0 < j < n <= |ks| && OrderedExcept(ks, j, n) && ChildrenInOrder(ks, j, n)
    requires !InOrder(ks, j)
    ensures OrderedExcept(Swapped(ks, Parent(j), j), Parent(j), n)
    ensures ChildrenInOrder(Swapped(ks, Parent(j), j), Parent(j), n)
  {
    var i := Parent(j);
    var r := Swapped(ks, i, j);
    assert InOrder(ks, i);
    assert 2 * i + 1 < n ==> j == 2 * i + 1 || InOrder(ks, 2 * i + 1);
    assert 2 * i + 2 < n ==> j == 2 * i + 2 || InOrder(ks, 2 * i + 2);
    forall k | 0 <= k < n && k != i && k != 2 * i + 1 && k != 2 * i + 2
      ensures InOrder(r, k)
    {
      assert k == 2 * j + 1 || k == 2 * j + 2 || InOrder(ks, k);
    }
  }

  // When up stops, all keys are in order.
  lemma UpDone(ks: seq<int>, j: int, n: int)
    requires 0 <= j < n <= |ks| && OrderedExcept(ks, j, n) && ChildrenInOrder(ks, j, n)
    requires InOrder(ks, j)
    ensures Ordered(ks, n)
  {
  }

  // One step down: exchanging key i with its least child j moves the defect there, and
  // leaves i in order with its parent if it was the only defect.
  lemma DownStep(ks: seq<int>, i: int, n: int, j: int)
    requires 0 <= i < n <= |ks| && OrderedExcept(ks, i, n)
    requires IsLeastChild(ks, i, n, j) && ks[j] < ks[i]
    ensures OrderedExcept(Swapped(ks, i, j), j, n)
    ensures InOrder(Swapped(ks, i, j), j)
  {
    var r := Swapped(ks, i, j);
    assert 2 * j + 1 < n ==> InOrder(ks, 2 * j + 1);
    assert 2 * j + 2 < n ==> InOrder(ks, 2 * j + 2);
    forall k | 0 <= k < n && k != j && k != 2 * j + 1 && k != 2 * j + 2
      ensures InOrder(r, k)
    {
      assert k == i || k == 2 * i + 1 || k == 2 * i + 2 || InOrder(ks, k);
    }
  }

  // When down stops, key i is in order with its children.
  lemma DownDone(ks: seq<int>, i: int, n: int, j: int)
    requires 0 <= i < n <= |ks| && OrderedExcept(ks, i, n)
    requires 2 * i + 1 < n ==> IsLeastChild(ks, i, n, j) && ks[i] <= ks[j]
    ensures ChildrenInOrder(ks, i, n)
    ensures InOrder(ks, i) ==> Ordered(ks, n)
  {
    assert Parent(2 * i + 1) == i && Parent(2 * i + 2) == i;
  }

  // Any new key at i leaves the others in order.
  lemma KeyChanged(ks: seq<int>, i: int, k: int)
    requires 0 <= i < |ks| && Ordered(ks, |ks|)
    ensures OrderedExcept(ks[i := k], i, |ks|)
  {
    var r := ks[i := k];
    assert InOrder(ks, i);
    assert 2 * i + 1 < |ks| ==> InOrder(ks, 2 * i + 1);
    assert 2 * i + 2 < |ks| ==> InOrder(ks, 2 * i + 2);
    forall j | 0 <= j < |ks| && j != i && j != 2 * i + 1 && j != 2 * i + 2
      ensures InOrder(r, j)
    {
      assert InOrder(ks, j);
    }
  }

  // After the exchange in Remove only position i is possibly out of order.
  lemma RemovalGap(ks: seq<int>, i: int)
    requires 0 <= i < |ks| - 1 && Ordered(ks, |ks|)
    ensures OrderedExcept(Swapped(ks, i, |ks| - 1), i, |ks| - 1)
  {
    var n := |ks| - 1;
    var r := Swapped(ks, i, n);
    assert InOrder(ks, i);
    assert 2 * i + 1 < n ==> InOrder(ks, 2 * i + 1);
    assert 2 * i + 2 < n ==> InOrder(ks, 2 * i + 2);
    forall k | 0 <= k < n && k != i && k != 2 * i + 1 && k != 2 * i + 2
      ensures InOrder(r, k)
    {
      assert InOrder(ks, k);
    }
  }

  // In an ordered queue the root has the least key.
  lemma {:induction false} RootIsLeast(ks: seq<int>, i: int)
    requires 0 <= i < |ks| && Ordered(ks, |ks|)
    ensures ks[0] <= ks[i]
  {
    assert InOrder(ks, i);
    if i > 0 {
      RootIsLeast(ks, Parent(i));
    }
  }

  class TssQueue {
    var items: seq<TssItem>
    ghost var elems: set<TssItem>  // the items
    ghost var keys: seq<int>       // their qval fields, as numbers

    constructor ()
      ensures items == [] && elems == {} && Valid()
    {
      items, elems, keys := [], {}, [];
    }

    // Every item knows its position; so no item is in the queue twice.
    ghost predicate Indexed()
      reads this, items`qidx, items`qval, elems`qidx
    {
      && |keys| == |items|
      && (forall i :: 0 <= i < |items| ==>
            && items[i] in elems
            && items[i].qidx == i
            && items[i].qval.Ordinal() == keys[i])
      && (forall x {:trigger x.qidx} :: x in elems ==> 0 <= x.qidx < |items| && items[x.qidx] == x)
    }

    ghost predicate Valid()
      reads this, items`qidx, items`qval, elems`qidx
    {
      Indexed() && Ordered(keys, |items|)
    }

    lemma Positions()
      requires Valid()
      ensures forall i :: 0 <= i < |items| ==> items[i] in elems
      ensures forall x :: x in elems ==> 0 <= x.qidx < |items| && items[x.qidx] == x
    {
    }

    // No item of the queue is before the first one.
    lemma FirstIsLeast()
      requires Valid() && |items| > 0
      ensures forall x :: x in elems ==> !x.qval.Before(items[0].qval)
    {
      forall x | x in elems ensures !x.qval.Before(items[0].qval) {
        RootIsLeast(keys, x.qidx);
        assert items[x.qidx] == x;
      }
    }

    method Less(i: int, j: int) returns (less: bool)
      requires 0 <= i < |items| && 0 <= j < |items|
      requires Indexed()
      ensures less == (keys[i] < keys[j])
    {
      less := items[i].qval.Before(items[j].qval);
    }

    method Swap(i: int, j: int)
      requires 0 <= i < |items| && 0 <= j < |items|
      requires Indexed()
      modifies this`items, this`keys, elems`qidx
      ensures Indexed()
      ensures items == old(items)[i := old(items[j])][j := old(items[i])]
      ensures keys == Swapped(old(keys), i, j)
    {
      items := items[i := items[j]][j := items[i]];
      items[i].qidx := i;
      items[j].qidx := j;
      keys := Swapped(keys, i, j);
    }

    // container/heap's up: moves item j0 toward the root until it is not before its
    // parent. Only the first n items are involved.
    method Up(j0: int, ghost n: int)
      requires 0 <= j0 < n <= |items|
      requires Indexed() && OrderedExcept(keys, j0, n) && ChildrenInOrder(keys, j0, n)
      modifies this`items, this`keys, elems`qidx
      ensures Indexed() && |items| == |old(items)| && Ordered(keys, n)
      ensures items[n..] == old(items[n..])
    {
      var j := j0;
      while true
        invariant 0 <= j < n <= |items| == |old(items)|
        invariant Indexed()
        invariant OrderedExcept(keys, j, n) && ChildrenInOrder(keys, j, n)
        invariant items[n..] == old(items[n..])
        decreases j
      {
        var i := Parent(j);
        var less := Less(j, i);
        if i == j || !less {
          UpDone(keys, j, n);
          break;
        }
        UpStep(keys, j, n);
        Swap(i, j);
        j := i;
      }
    }

    // The least one of the children of i that are among the first n items.
    method LeastChild(i: int, n: int) returns (j: int)
      requires 0 <= i && 2 * i + 1 < n <= |items|
      requires Indexed()
      ensures IsLeastChild(keys, i, n, j)
    {
      var j1 := 2 * i + 1;
      j := j1;
      var j2 := j1 + 1;
      if j2 < n {
        var rightIsLess := Less(j2, j1);
        if rightIsLess {
          j := j2;
        }
      }
    }

    // One turn of the loop in container/heap's down: exchanges item i with its least
    // child j if that child is before it; otherwise j is i.
    method DownTurn(i: int, n: int) returns (j: int)
      requires 0 <= i < n <= |items|
      requires Indexed() && OrderedExcept(keys, i, n)
      modifies this`items, this`keys, elems`qidx
      ensures Indexed() && |items| == |old(items)|
      ensures j == i ==> items == old(items) && keys == old(keys)
      ensures j == i ==> ChildrenInOrder(keys, i, n) && (InOrder(keys, i) ==> Ordered(keys, n))
      ensures j != i ==> i < j < n && OrderedExcept(keys, j, n) && InOrder(keys, j)
      ensures items[n..] == old(items[n..])
    {
      var j1 := 2 * i + 1;
      if j1 >= n {
        DownDone(keys, i, n, j1);
        return i;
      }
      j := LeastChild(i, n);
      assert i < j < n;
      hide IsLeastChild;
      var less := Less(j, i);
      if !less {
        DownDone(keys, i, n, j);
        return i;
      }
      DownStep(keys, i, n, j);
      Swap(i, j);
    }

    // container/heap's down: moves item i0 away from the root, each time below its
    // least child, as long as that child is before it. Reports whether it moved.
    method Down(i0: int, n: int) returns (moved: bool)
      requires 0 <= i0 < n <= |items|
      requires Indexed() && OrderedExcept(keys, i0, n)
      modifies this`items, this`keys, elems`qidx
      ensures Indexed() && |items| == |old(items)|
      ensures if moved then Ordered(keys, n)
              else items == old(items) && keys == old(keys) && ChildrenInOrder(keys, i0, n)
      ensures !moved && InOrder(keys, i0) ==> Ordered(keys, n)
      ensures items[n..] == old(items[n..])
    {
      var i := i0;
      while true
        invariant i0 <= i < n <= |items| == |old(items)|
        invariant Indexed()
        invariant OrderedExcept(keys, i, n)
        invariant i == i0 ==> items == old(items) && keys == old(keys)
        invariant i > i0 ==> InOrder(keys, i)
        invariant items[n..] == old(items[n..])
        decreases n - i
      {
        var j := DownTurn(i, n);
        if j == i {
          break;
        }
        i := j;
      }
      moved := i > i0;
    }

    // container/heap's Fix: restores the order after the key of item i changed.
    method Fix(i: int)
      requires 0 <= i < |items|
      requires Indexed() && OrderedExcept(keys, i, |items|)
      modifies this`items, this`keys, elems`qidx
      ensures Valid() && |items| == |old(items)|
    {
      var moved := Down(i, |items|);
      if !moved {
        Up(i, |items|);
      }
    }

    // Sets the key of an item of the queue and fixes the queue accordingly.
    method Rekey(x: TssItem, q: Time64)
      requires Valid() && x in elems
      modifies this`items, this`keys, x`qval, elems`qidx
      ensures Valid() && |items| == |old(items)| && x.qval == q
    {
      var i := x.qidx;
      KeyChanged(keys, i, q.Ordinal());
      x.qval := q;
      keys := keys[i := q.Ordinal()];
      Fix(i);
    }

    // container/heap's Push.
    method Push(x: TssItem)
      requires Valid() && x !in elems
      modifies this, x`qidx, elems`qidx
      ensures Valid() && |items| == |old(items)| + 1 && elems == old(elems) + {x}
    {
      x.qidx := |items|;
      items := items + [x];
      elems := elems + {x};
      keys := keys + [x.qval.Ordinal()];
      assert OrderedExcept(keys, |items| - 1, |items|) by {
        forall k | 0 <= k < |items| - 1 ensures InOrder(keys, k) {
          assert InOrder(old(keys), k);
        }
      }
      Up(|items| - 1, |items|);
    }

    // container/heap's Remove: exchanges item i with the last one, restores the order
    // of the others and cuts the last one off.
    method Remove(i: int) returns (x: TssItem)
      requires 0 <= i < |items|
      requires Valid()
      modifies this, elems`qidx
      ensures x == old(items[i]) && |items| == |old(items)| - 1 && elems == old(elems) - {x}
      ensures Valid()
    {
      var n := |items| - 1;
      if n != i {
        RemovalGap(keys, i);
        Swap(i, n);
        var moved := Down(i, n);
        if !moved {
          Up(i, n);
        }
      }
      x := PopLast();
    }

    // container/heap's Pop.
    method Pop() returns (x: TssItem)
      requires |items| > 0
      requires Valid()
      modifies this, elems`qidx
      ensures x == old(items[0]) && |items| == |old(items)| - 1 && elems == old(elems) - {x}
      ensures Valid()
    {
      var n := |items| - 1;
      if n > 0 {
        RemovalGap(keys, 0);
      }
      Swap(0, n);
      if n > 0 {
        var moved := Down(0, n);
      }
      x := PopLast();
    }

    // The queue's own Pop: cuts the last item off.
    method PopLast() returns (x: TssItem)
      requires |items| > 0
      requires Indexed() && Ordered(keys, |items| - 1)
      modifies this
      ensures x == old(items[|items| - 1]) && items == old(items[..|items| - 1])
      ensures elems == old(elems) - {x}
      ensures Valid()
    {
      var n := |items|;
      x := items[n - 1];
      items := items[..n - 1];
      elems := elems - {x};
      keys := keys[..n - 1];
      forall k | 0 <= k < |items| ensures InOrder(keys, k) {
        assert InOrder(old(keys), k);
      }
    }
  }
}
