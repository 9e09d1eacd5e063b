/** `RenderQueue`: render tasks kept in a list ordered by their `short`
    order, executed front to back and then cleared
    (Walgelijk/Graphics/RenderQueue.cs). Executing a task is recorded as
    that render task; what it draws is not part of this model. */
module RenderQueues {

  /** The values of a C# `short`. */
  type Int16 = x: int | -0x8000 <= x < 0x8000

  datatype Command<T> = Command(task: T, order: Int16)

  ghost predicate SortedByOrder<T>(cs: seq<Command<T>>)
  {
    forall i, j :: 0 <= i < j < |cs| ==> cs[i].order <= cs[j].order
  }

  /** No queued command may precede one of this order: the queue is not empty
      and every command in it has a larger order. */
  predicate Drops<T>(cs: seq<Command<T>>, order: Int16)
  {
    cs != [] && forall i :: 0 <= i < |cs| ==> cs[i].order > order
  }

  /** Index of the last command whose order is at most `order`, or -1. */
  function LastAtMost<T>(cs: seq<Command<T>>, order: Int16): (k: int)
    ensures -1 <= k < |cs|
    ensures k >= 0 ==> cs[k].order <= order
    ensures forall j :: k < j < |cs| ==> cs[j].order > order
  {
    if cs == [] then -1
    else if cs[|cs| - 1].order <= order then |cs| - 1
    else LastAtMost(cs[..|cs| - 1], order)
  }

  /** `ReverseSortAdd`: the command goes right after the last command whose
      order is at most its own; when there is none it is not inserted. */
  function ReverseSortAdded<T>(cs: seq<Command<T>>, c: Command<T>): seq<Command<T>>
  {
    var k := LastAtMost(cs, c.order);
    if k < 0 then cs else cs[..k + 1] + [c] + cs[k + 1..]
  }

  /** The queue after `Add(c.task, c.order)`. */
  function Added<T>(cs: seq<Command<T>>, c: Command<T>): (r: seq<Command<T>>)
    ensures cs == [] || cs[|cs| - 1].order <= c.order ==> r == cs + [c]
    ensures Drops(cs, c.order) ==> r == cs
    ensures !Drops(cs, c.order) ==>
      var p := LastAtMost(cs, c.order) + 1;
      r == cs[..p] + [c] + cs[p..]
    ensures |r| == |cs| + (if Drops(cs, c.order) then 0 else 1)
  {
    if cs == [] || cs[|cs| - 1].order <= c.order then cs + [c]
    else ReverseSortAdded(cs, c)
  }

  /** Adding to a queue sorted by order leaves it sorted. */
  lemma AddKeepsSorted<T>(cs: seq<Command<T>>, c: Command<T>)
    requires SortedByOrder(cs)
    ensures SortedByOrder(Added(cs, c))
  {
    if !Drops(cs, c.order) {
      var p := LastAtMost(cs, c.order) + 1;
      var r := Added(cs, c);
      assert r == cs[..p] + [c] + cs[p..];
      forall i, j | 0 <= i < j < |r| ensures r[i].order <= r[j].order {
        if i < p && j == p {
          assert r[i] == cs[i];
          assert cs[i].order <= cs[p - 1].order;
        } else if i == p && j > p {
          assert r[j] == cs[j - 1];
        } else if i < p && j > p {
          assert r[i] == cs[i] && r[j] == cs[j - 1];
        } else if j < p {
          assert r[i] == cs[i] && r[j] == cs[j];
        } else {
          assert r[i] == cs[i - 1] && r[j] == cs[j - 1];
        }
      }
    }
  }

  /** In a sorted queue the new command lands after every command of a
      smaller or equal order, equal ones included, and before every command
      of a larger order. */
  lemma AddIsStable<T>(cs: seq<Command<T>>, c: Command<T>)
    requires SortedByOrder(cs) && !Drops(cs, c.order)
    ensures var p := LastAtMost(cs, c.order) + 1;
      && Added(cs, c)[p] == c
      && (forall i :: 0 <= i < p ==> cs[i].order <= c.order)
      && (forall i :: p <= i < |cs| ==> cs[i].order > c.order)
  {
    var p := LastAtMost(cs, c.order) + 1;
    var r := Added(cs, c);
    assert r == cs[..p] + [c] + cs[p..];
    assert r[p] == (cs[..p] + [c])[p] == c;
    if p > 0 {
      SortedUpTo(cs, p - 1, c.order);
    }
  }

  /** In a sorted queue every command up to one of order at most `order`
      has an order at most `order` too. */
  lemma SortedUpTo<T>(cs: seq<Command<T>>, k: int, order: Int16)
    requires SortedByOrder(cs) && 0 <= k < |cs| && cs[k].order <= order
    ensures forall i :: 0 <= i <= k ==> cs[i].order <= order
  {
    forall i | 0 <= i <= k ensures cs[i].order <= order {
      assert cs[i].order <= cs[k].order;
    }
  }

  /** A command is dropped exactly when the queue is not empty and every
      queued order is larger than its own. */
  lemma DroppedIffAllLarger<T>(cs: seq<Command<T>>, c: Command<T>)
    ensures Added(cs, c) == cs <==> Drops(cs, c.order)
  {
    assert |Added(cs, c)| == |cs| + (if Drops(cs, c.order) then 0 else 1);
  }

  class RenderQueue<T> {
    var commands: seq<Command<T>>

    constructor ()
      ensures commands == []
    {
      commands := [];
    }

    /** `Length`: the number of queued commands. */
    function Length(): nat
      reads this
    {
      |commands|
    }

    /** `Add`: append when the queue is empty or the order is at least the
        last one's, otherwise insert from the back. */
    method Add(task: T, order: Int16)
      modifies this
      ensures commands == Added(old(commands), Command(task, order))
      ensures Length() == old(Length()) + (if Drops(old(commands), order) then 0 else 1)
    {
      var command := Command(task, order);
      if |commands| == 0 || commands[|commands| - 1].order <= order {
        commands := commands + [command];
        return;
      }
      ReverseSortAdd(command);
    }

    /** `ReverseSortAdd`: scan from the back for the first command whose order
        is at most the new one's and insert after it; fall off the front
        without inserting. */
    method ReverseSortAdd(command: Command<T>)
      modifies this
      ensures commands == ReverseSortAdded(old(commands), command)
    {
      var i := |commands| - 1;
      while i >= 0
        invariant -1 <= i < |commands|
        invariant commands == old(commands)
        invariant forall j :: i < j < |commands| ==> commands[j].order > command.order
      {
        if commands[i].order <= command.order {
          commands := commands[..i + 1] + [command] + commands[i + 1..];
          return;
        }
        i := i - 1;
      }
    }

    /** `RenderAndReset`: executes every task in queue order, then empties
        the queue. Returns the executed tasks in execution order. */
    method RenderAndReset() returns (executed: seq<T>)
      modifies this
      ensures |executed| == |old(commands)|
      ensures forall i :: 0 <= i < |executed| ==> executed[i] == old(commands)[i].task
      ensures commands == [] && Length() == 0
    {
      executed := [];
      for i := 0 to |commands|
        invariant |executed| == i
        invariant forall j :: 0 <= j < i ==> executed[j] == commands[j].task
      {
        executed := executed + [commands[i].task];
      }
      commands := [];
    }
  }
}
