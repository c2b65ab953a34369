/** The linked lists of core/threadpool.hpp: the free list of tw_pool and the queue of tpool, over one kind
    of node. Each method is what one thread does while it holds the mutex of the list. */
module WorkQueue {
  class Work {
    var job: int
    var next: Work?

    constructor ()
    {
      job, next := 0, null;
    }
  }

  ghost function At(s: seq<Work>, i: nat): Work? {
    if i < |s| then s[i] else null
  }

  /** A list that starts at head and runs through the nodes s. */
  ghost predicate Linked(head: Work?, s: seq<Work>)
    reads s
  {
    head == At(s, 0) && forall i: nat :: i < |s| ==> s[i].next == At(s, i + 1)
  }

  ghost predicate NoDuplicates(s: seq<Work>) {
    forall i, j :: 0 <= i < j < |s| ==> s[i] != s[j]
  }

  /** Both lists: no node is in one twice, or in both. */
  class Lists {
    var freed: Work?
    var queueHead: Work?
    ghost var free: seq<Work>
    ghost var queue: seq<Work>

    ghost predicate Valid()
      reads this, free, queue
    {
      && Linked(freed, free) && Linked(queueHead, queue)
      && NoDuplicates(free) && NoDuplicates(queue)
      && forall n :: n in free ==> n !in queue
    }

    constructor ()
      ensures Valid() && free == [] && queue == []
    {
      freed, queueHead, free, queue := null, null, [], [];
    }

    /** tw_pool::get: the node is in neither list afterwards. */
    method Get() returns (r: Work)
      requires Valid()
      modifies `freed, `free
      ensures Valid()
      ensures r !in queue && r !in free
      ensures if old(free) == [] then fresh(r) && free == [] else r == old(free)[0] && free == old(free)[1..]
    {
      if freed != null {
        r := freed;
        freed := freed.next;
        free := free[1..];
      } else {
        r := new Work();
      }
    }

    /** tw_pool::del: the node goes to the front. */
    method Del(f: Work)
      requires Valid() && f !in queue && f !in free
      modifies `freed, `free, f`next
      ensures Valid() && free == [f] + old(free)
    {
      f.next := freed;
      freed := f;
      free := [f] + free;
      assert forall i: nat :: i < |free| ==> free[i] == if i == 0 then f else old(free)[i - 1];
    }

    /** Walks to the end of the queue. */
    method Last() returns (member: Work)
      requires Valid() && queueHead != null
      ensures queue != [] && member == queue[|queue| - 1]
    {
      member := queueHead;
      ghost var i: nat := 0;
      while member.next != null
        invariant i < |queue| && member == queue[i]
        decreases |queue| - i
      {
        member := member.next;
        i := i + 1;
      }
    }

    /** The queue part of tpool_add_work: the node goes to the end. */
    method Append(work: Work)
      requires Valid() && work !in queue && work !in free && work.next == null
      modifies `queueHead, `queue, queue
      ensures Valid() && queue == old(queue) + [work]
    {
      var member := queueHead;
      if member == null {
        queueHead := work;
      } else {
        member := Last();
        assert member in queue;
        member.next := work;
        assert forall k: nat :: k < |free| ==> free[k] in free && free[k] !in queue;
      }
      queue := queue + [work];
      assert forall k: nat :: k < |queue| ==> queue[k].next == At(queue, k + 1) by {
        forall k: nat | k < |queue| ensures queue[k].next == At(queue, k + 1) {
          assert k < |old(queue)| ==> queue[k] == old(queue)[k];
        }
      }
    }

    /** thread_routine taking the head; a node waits there. */
    method Take() returns (work: Work)
      requires Valid() && queueHead != null
      modifies `queueHead, `queue
      ensures Valid() && old(queue) == [work] + queue
      ensures work !in queue && work !in free
    {
      work := queueHead;
      queueHead := queueHead.next;
      queue := queue[1..];
    }

    /** The end of tpool_destroy: what is still queued is dropped. */
    method Drain()
      requires Valid()
      modifies `queueHead, `queue
      ensures Valid() && queue == [] && queueHead == null
    {
      while queueHead != null
        invariant Valid()
        decreases |queue|
      {
        var member := Take();
      }
    }
  }
}
