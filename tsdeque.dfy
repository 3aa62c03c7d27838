/**
 * The action queue (include/net/tsdeque.hpp): a double-ended queue behind
 * a mutex. Only its sequential behaviour is modelled; `items` is the
 * wrapped std::deque, front first.
 */
module TsDeque {
  import opened Errors

  class ThreadSafeDeque<T> {
    var items: seq<T>

    constructor ()
      ensures items == []
    {
      items := [];
    }

    /** front: the first element; throws on an empty queue. */
    function Front(): (r: Result<T>)
      reads this
      ensures r.Ok? <==> |items| > 0
      ensures r.Ok? ==> r.value == items[0]
      ensures r.Err? ==> r.error == EmptyQueue
    {
      if |items| == 0 then Err(EmptyQueue) else Ok(items[0])
    }

    /** back: the last element; throws on an empty queue. */
    function Back(): (r: Result<T>)
      reads this
      ensures r.Ok? <==> |items| > 0
      ensures r.Ok? ==> r.value == items[|items| - 1]
      ensures r.Err? ==> r.error == EmptyQueue
    {
      if |items| == 0 then Err(EmptyQueue) else Ok(items[|items| - 1])
    }

    /** pop_front: removes and returns the first element; throws, changing nothing, when empty. */
    method PopFront() returns (r: Result<T>)
      modifies this
      ensures r == old(Front())
      ensures r.Ok? ==> items == old(items)[1..]
      ensures r.Err? ==> items == old(items)
    {
      if |items| == 0 {
        return Err(EmptyQueue);
      }
      r := Ok(items[0]);
      items := items[1..];
    }

    /** pop_back: removes and returns the last element; throws, changing nothing, when empty. */
    method PopBack() returns (r: Result<T>)
      modifies this
      ensures r == old(Back())
      ensures r.Ok? ==> items == old(items)[..|old(items)| - 1]
      ensures r.Err? ==> items == old(items)
    {
      if |items| == 0 {
        return Err(EmptyQueue);
      }
      r := Ok(items[|items| - 1]);
      items := items[..|items| - 1];
    }

    method PushBack(x: T)
      modifies this
      ensures items == old(items) + [x]
    {
      items := items + [x];
    }

    method PushFront(x: T)
      modifies this
      ensures items == [x] + old(items)
    {
      items := [x] + items;
    }

    /** count: the number of queued elements. */
    function Count(): (n: nat)
      reads this
      ensures n == |items|
    {
      |items|
    }

    /** empty holds exactly when the count is zero, and then front and back both throw. */
    function Empty(): (b: bool)
      reads this
      ensures b <==> Count() == 0
      ensures b <==> Front().Err?
      ensures b <==> Back().Err?
    {
      |items| == 0
    }

    method Clear()
      modifies this
      ensures items == []
    {
      items := [];
    }
  }

  /**
   * First in, first out: pushing a sequence at the back of an empty queue
   * and popping from the front until it is empty gives back the same
   * sequence in the same order.
   */
  method FifoRoundTrip<T>(xs: seq<T>) returns (ys: seq<T>)
    ensures ys == xs
  {
    var q := new ThreadSafeDeque<T>();
    var i := 0;
    while i < |xs|
      invariant 0 <= i <= |xs|
      invariant q.items == xs[..i]
    {
      q.PushBack(xs[i]);
      i := i + 1;
    }
    ys := [];
    while !q.Empty()
      invariant ys + q.items == xs
      decreases |q.items|
    {
      var x := q.PopFront();
      ys := ys + [x.value];
    }
  }

  /**
   * Pushing at the front instead reverses the order: the element pushed
   * last comes out first.
   */
  method LifoAtFront<T>(xs: seq<T>) returns (ys: seq<T>)
    ensures |ys| == |xs|
    ensures forall i :: 0 <= i < |xs| ==> ys[i] == xs[|xs| - 1 - i]
  {
    var q := new ThreadSafeDeque<T>();
    var i := 0;
    while i < |xs|
      invariant 0 <= i <= |xs|
      invariant |q.items| == i
      invariant forall j :: 0 <= j < i ==> q.items[j] == xs[i - 1 - j]
    {
      q.PushFront(xs[i]);
      i := i + 1;
    }
    ys := [];
    while !q.Empty()
      invariant |ys| + |q.items| == |xs|
      invariant forall j :: 0 <= j < |ys| ==> ys[j] == xs[|xs| - 1 - j]
      invariant forall j :: 0 <= j < |q.items| ==> q.items[j] == xs[|xs| - 1 - |ys| - j]
      decreases |q.items|
    {
      var x := q.PopFront();
      ys := ys + [x.value];
    }
  }
}
