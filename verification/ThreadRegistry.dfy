/**
 The two intrusive lists of switch/src/clang_tls_switch.c on the heap: the registry linked by
 `next`, the reap queue linked by `reapNext`, both threaded through the same records. Each
 method is one helper or one locked section, proved against what it does to the two lists.
 */
module ThreadRegistry {
  import opened Sequences
  import TR = ThreadReaper

  /** KpThreadRec. The id is fixed when the record is published. */
  class ThreadRec {
    const id: nat
    var finished: bool
    var detached: bool
    var next: ThreadRec?
    var reapNext: ThreadRec?

    constructor (id: nat)
      ensures this.id == id && !finished && !detached && next == null && reapNext == null
    {
      this.id := id;
      finished, detached, next, reapNext := false, false, null, null;
    }
  }

  /** The first record with this id, or null. */
  ghost function Lookup(s: seq<ThreadRec>, id: nat): (r: ThreadRec?)
    ensures r != null ==> r in s && r.id == id
    ensures r == null ==> forall i | 0 <= i < |s| :: s[i].id != id
    decreases |s|
  {
    if s == [] then null else if s[0].id == id then s[0] else Lookup(s[1..], id)
  }

  /** The heap list holds the records that the protocol's list numbers. */
  ghost predicate Models(list: seq<ThreadRec>, objs: seq<ThreadRec>, recs: seq<TR.Rec>, numbers: seq<nat>) {
    && |objs| == |recs|
    && Distinct(objs)
    && (forall i | 0 <= i < |recs| :: objs[i].id == recs[i].id)
    && TR.Below(numbers, |recs|)
    && |list| == |numbers|
    && forall i | 0 <= i < |list| :: list[i] == objs[numbers[i]]
  }

  /** A search of the heap list finds the record that the protocol's lookup numbers. */
  lemma {:induction false} LookupFindsTheSame(
    list: seq<ThreadRec>, objs: seq<ThreadRec>, recs: seq<TR.Rec>, numbers: seq<nat>, id: nat)
    requires Models(list, objs, recs, numbers)
    ensures Lookup(list, id) == var k := TR.FindRec(recs, numbers, id); if k.None? then null else objs[k.value]
    decreases |list|
  {
    if list != [] {
      LookupFindsTheSame(list[1..], objs, recs, numbers[1..], id);
    }
  }

  /** Unlinking on the heap and in the protocol stay in step. */
  lemma {:induction false} RemoveStaysInStep(
    list: seq<ThreadRec>, objs: seq<ThreadRec>, recs: seq<TR.Rec>, numbers: seq<nat>, k: nat)
    requires Models(list, objs, recs, numbers) && k < |objs|
    ensures Models(Remove(list, objs[k]), objs, recs, Remove(numbers, k))
    decreases |list|
  {
    if list != [] && numbers[0] != k {
      RemoveStaysInStep(list[1..], objs, recs, numbers[1..], k);
    }
  }

  class Registry {
    var head: ThreadRec?
    var reapHead: ThreadRec?
    var reapTail: ThreadRec?
    ghost var list: seq<ThreadRec>
    ghost var queue: seq<ThreadRec>

    /** `next` links the records of `list` from `head` to null. */
    ghost predicate Listed()
      reads this`head, this`list, list
    {
      && Distinct(list)
      && head == (if list == [] then null else list[0])
      && forall i {:trigger list[i].next} | 0 <= i < |list| ::
           list[i].next == if i + 1 < |list| then list[i + 1] else null
    }

    /** `reapNext` links the records of `queue` from `reapHead` to `reapTail`. */
    ghost predicate Queued()
      reads this`reapHead, this`reapTail, this`queue, queue
    {
      && Distinct(queue)
      && reapHead == (if queue == [] then null else queue[0])
      && reapTail == (if queue == [] then null else queue[|queue| - 1])
      && forall i {:trigger queue[i].reapNext} | 0 <= i < |queue| ::
           queue[i].reapNext == if i + 1 < |queue| then queue[i + 1] else null
    }

    /** The queue holds exactly the registered records that are finished and detached. */
    ghost predicate Valid()
      reads this, list, queue
    {
      && Listed()
      && Queued()
      && (forall i | 0 <= i < |queue| :: queue[i] in list)
      && forall r | r in list :: r in queue <==> r.finished && r.detached
    }

    constructor ()
      ensures Valid() && list == [] && queue == []
    {
      head, reapHead, reapTail := null, null, null;
      list, queue := [], [];
    }

    method FindLocked(id: nat) returns (r: ThreadRec?)
      requires Listed()
      ensures r == Lookup(list, id)
    {
      r := head;
      ghost var i := 0;
      while r != null
        invariant 0 <= i <= |list|
        invariant r == if i < |list| then list[i] else null
        invariant Lookup(list, id) == Lookup(list[i..], id)
        decreases |list| - i
      {
        if r.id == id {
          return;
        }
        assert list[i..][1..] == list[i + 1..];
        r := r.next;
        i := i + 1;
      }
    }

    /** Follow the links to the one that points at `rec` and make it skip `rec`. */
    method UnlinkLocked(rec: ThreadRec)
      requires Listed()
      modifies this`head, this`list, list`next
      ensures Listed() && list == Remove(old(list), rec)
    {
      var prev: ThreadRec?, cur := null, head;
      ghost var i := 0;
      while cur != null && cur != rec
        invariant 0 <= i <= |list|
        invariant cur == if i < |list| then list[i] else null
        invariant prev == if i == 0 then null else list[i - 1]
        invariant forall j | 0 <= j < i :: list[j] != rec
        decreases |list| - i
      {
        prev, cur := cur, cur.next;
        i := i + 1;
      }
      if cur == null {
        RemoveAbsent(list, rec);
      } else {
        if prev == null {
          head := rec.next;
        } else {
          prev.next := rec.next;
        }
        RemoveAt(list, i);
        ghost var was := list;
        list := list[..i] + list[i + 1..];
        SkipIsListed(was, i);
      }
    }

    /** `was` without its record `i`, whose predecessor, or else the head, now skips it. */
    lemma SkipIsListed(was: seq<ThreadRec>, i: nat)
      requires i < |was| && Distinct(was) && list == was[..i] + was[i + 1..]
      requires head == if i > 0 then was[0] else if |was| > 1 then was[1] else null
      requires forall j {:trigger was[j].next} | 0 <= j < |was| && j != i && j + 1 != i ::
                 was[j].next == if j + 1 < |was| then was[j + 1] else null
      requires i > 0 ==> was[i - 1].next == if i + 1 < |was| then was[i + 1] else null
      ensures Listed()
    {
      forall j | 0 <= j < |list| ensures list[j].next == if j + 1 < |list| then list[j + 1] else null {
        assert list[j] == was[if j < i then j else j + 1];
      }
    }

    method PushReapLocked(rec: ThreadRec)
      requires Queued() && rec !in queue
      modifies this`reapHead, this`reapTail, this`queue, queue`reapNext, rec`reapNext
      ensures Queued() && queue == old(queue) + [rec]
    {
      rec.reapNext := null;
      if reapTail != null {
        reapTail.reapNext := rec;
      } else {
        reapHead := rec;
      }
      reapTail := rec;
      queue := queue + [rec];
    }

    /** The reaper's locked section once the queue is not empty. */
    method PopLocked() returns (rec: ThreadRec)
      requires Valid() && queue != []
      modifies this, list`next
      ensures Valid() && rec == old(queue[0])
      ensures queue == old(queue)[1..] && list == Remove(old(list), rec)
    {
      rec := reapHead;
      reapHead := rec.reapNext;
      if reapHead == null {
        reapTail := null;
      }
      queue := queue[1..];
      UnlinkLocked(rec);
      RemoveIs(old(list), rec);
      assert old(queue) == [rec] + queue;
      assert rec !in queue;
      forall r | r in list ensures r in queue <==> r.finished && r.detached {
        assert r in old(list) && r != rec;
      }
    }

    /** The locked section of pthread_detach. */
    method Detach(id: nat)
      requires Valid()
      requires var r := Lookup(list, id); r != null ==> !r.detached
      modifies this, list
      ensures Valid() && list == old(list)
      ensures forall r | r in list :: r.finished == old(r.finished)
      ensures forall r | r in list :: r.detached == (old(r.detached) || r == Lookup(list, id))
      ensures queue == var r := Lookup(list, id); if r != null && r.finished then old(queue) + [r] else old(queue)
    {
      var rec := FindLocked(id);
      if rec != null {
        rec.detached := true;
        if rec.finished {
          QueueIsInList();
          PushReapLocked(rec);
        }
      }
    }

    lemma QueueIsInList()
      requires forall i | 0 <= i < |queue| :: queue[i] in list
      ensures forall r | r in queue :: r in list
    {
    }

    /** The end of a thread's trampoline. */
    method Finish(rec: ThreadRec)
      requires Valid() && rec in list && !rec.finished
      modifies this, list
      ensures Valid() && list == old(list)
      ensures forall r | r in list :: r.detached == old(r.detached)
      ensures forall r | r in list :: r.finished == (old(r.finished) || r == rec)
      ensures queue == if rec.detached then old(queue) + [rec] else old(queue)
    {
      rec.finished := true;
      if rec.detached {
        QueueIsInList();
        PushReapLocked(rec);
      }
    }

    /** The locked section of pthread_join, after the real join: the record to free, if any. */
    method TakeJoined(id: nat) returns (rec: ThreadRec?)
      requires Valid()
      modifies this, list`next
      ensures Valid() && queue == old(queue)
      ensures rec == var r := Lookup(old(list), id); if r != null && r.detached then null else r
      ensures list == if rec == null then old(list) else Remove<ThreadRec>(old(list), rec)
    {
      rec := FindLocked(id);
      if rec != null && rec.detached {
        rec := null;
      }
      if rec != null {
        var mine: ThreadRec := rec;
        UnlinkLocked(mine);
        RemoveIs(old(list), mine);
        forall r | r in list ensures r in queue <==> r.finished && r.detached {
          assert r in old(list);
        }
      }
    }

    /** The locked section of pthread_create after the real create succeeded. */
    method Publish(rec: ThreadRec)
      requires Valid() && rec !in list && !rec.finished
      modifies this, rec`next
      ensures Valid() && list == [rec] + old(list) && queue == old(queue)
    {
      rec.next := head;
      head := rec;
      list := [rec] + list;
    }
  }
}
