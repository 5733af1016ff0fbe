/** The timer queue: requests sorted by deadline, run by a handler that callbacks may extend. */
module Timer {
  import opened MachineWords

  /** A request; 0 stands for the list head. */
  type Id = nat

  const LIST_HEAD: Id := 0
  const DEC_DISABLE: nat := 0x7fff_ffff

  type Deadlines = map<Id, nat>

  ghost predicate Known(q: seq<Id>, when: Deadlines) { forall i :: 0 <= i < |q| ==> q[i] in when && q[i] != LIST_HEAD }

  ghost predicate Sorted(q: seq<Id>, when: Deadlines)
    requires Known(q, when)
  {
    forall i, j :: 0 <= i < j < |q| ==> when[q[i]] <= when[q[j]]
  }

  /** The queue invariant. */
  ghost predicate Queue(q: seq<Id>, when: Deadlines) { NoDuplicates(q) && Known(q, when) && Sorted(q, when) }

  /** `t` put in at place `i`. */
  function PutAt(q: seq<Id>, i: nat, t: Id): seq<Id>
    requires i <= |q|
  {
    q[..i] + [t] + q[i..]
  }

  /** Where a request belongs: behind all that are not later. */
  ghost predicate Place(q: seq<Id>, when: Deadlines, t: Id, i: nat) {
    && Known(q, when) && t in when && i <= |q|
    && (forall j :: 0 <= j < i ==> when[q[j]] <= when[t]) && (i < |q| ==> when[q[i]] > when[t])
  }

  lemma {:induction false} PutKeepsQueue(q: seq<Id>, when: Deadlines, t: Id, i: nat)
    requires Queue(q, when) && Place(q, when, t, i) && t !in q && t != LIST_HEAD
    ensures Queue(PutAt(q, i, t), when)
  {
    var q' := PutAt(q, i, t);
    forall j | 0 <= j < |q'| ensures q'[j] == (if j < i then q[j] else if j == i then t else q[j - 1]) {}
    forall j, k | 0 <= j < k < |q'| ensures q'[j] != q'[k] && q'[j] in when && q'[k] in when && when[q'[j]] <= when[q'[k]] {}
  }

  /** The sequence without the members of `r`. */
  function Minus(q: seq<Id>, r: set<Id>): seq<Id> {
    if q == [] then [] else (if q[0] in r then [] else [q[0]]) + Minus(q[1..], r)
  }

  lemma {:induction false} MinusConcat(a: seq<Id>, b: seq<Id>, r: set<Id>)
    ensures Minus(a + b, r) == Minus(a, r) + Minus(b, r)
  {
    if a == [] {
      assert a + b == b;
    } else {
      assert (a + b)[1..] == a[1..] + b;
      MinusConcat(a[1..], b, r);
    }
  }

  lemma {:induction false} MinusMore(q: seq<Id>, r: set<Id>, t: Id)
    requires t !in q
    ensures Minus(q, r + {t}) == Minus(q, r)
  {
    if q != [] { MinusMore(q[1..], r, t); }
  }

  lemma {:induction false} MinusNone(q: seq<Id>)
    ensures Minus(q, {}) == q
  {
    if q != [] { MinusNone(q[1..]); }
  }

  lemma {:induction false} MinusMembers(q: seq<Id>, r: set<Id>)
    ensures forall x :: x in Minus(q, r) <==> x in q && x !in r
  {
    if q != [] { MinusMembers(q[1..], r); }
  }

  /** A request put in and left out again leaves no trace. */
  lemma {:induction false} MinusPut(q: seq<Id>, i: nat, t: Id, r: set<Id>)
    requires i <= |q| && t !in q
    ensures Minus(PutAt(q, i, t), r + {t}) == Minus(q, r)
  {
    assert q == q[..i] + q[i..];
    MinusConcat(q[..i] + [t], q[i..], r + {t});
    MinusConcat(q[..i], [t], r + {t});
    MinusConcat(q[..i], q[i..], r);
    MinusMore(q[..i], r, t);
    MinusMore(q[i..], r, t);
    assert Minus([t], r + {t}) == [];
  }

  /** What a callback decides: to end, or to be queued again with a new deadline. */
  datatype Verdict = Done | Again(when: nat)

  /** The first request is the next of the original queue, unless it was re-armed. */
  lemma {:induction false} HeadIsNext(q: seq<Id>, again: set<Id>, original: seq<Id>, k: nat)
    requires q != [] && q[0] !in again && k <= |original| && Minus(q, again) == original[k..]
    ensures k < |original| && q[0] == original[k] && Minus(q[1..], again) == original[k + 1..]
    ensures original[..k + 1] == original[..k] + [q[0]]
  {
    assert Minus(q, again) == [q[0]] + Minus(q[1..], again);
    assert original[k..][0] == q[0];
    assert original[k..][1..] == original[k + 1..];
  }

  /** A request re-armed behind the rest of the queue, or before it when it is earliest. */
  lemma {:induction false} Requeued(rest: seq<Id>, q: seq<Id>, when: Deadlines, t: Id, again: set<Id>)
    requires t !in rest && exists i: nat :: Place(rest, when, t, i) && q == PutAt(rest, i, t)
    ensures Minus(q, again + {t}) == Minus(rest, again)
    ensures q[0] == if rest == [] || when[t] < when[rest[0]] then t else rest[0]
    ensures forall x :: x in q <==> x in rest || x == t
  {
    var i: nat :| Place(rest, when, t, i) && q == PutAt(rest, i, t);
    MinusPut(rest, i, t, again);
    assert rest == rest[..i] + rest[i..];
  }

  lemma {:induction false} TailQueue(q: seq<Id>, when: Deadlines)
    requires Queue(q, when) && q != []
    ensures Queue(q[1..], when) && q[0] !in q[1..]
  {}

  /** Deadlines of requests not queued do not matter. */
  lemma {:induction false} Unqueued(q: seq<Id>, when: Deadlines, t: Id, w: nat)
    requires Queue(q, when) && t !in q
    ensures Queue(q, when[t := w])
  {}

  /**
   The first requests of the original queue have fired; those that asked for it are queued again with
   their new deadlines, and the others, in their old order and with their old deadlines, are what is left.
   */
  ghost predicate Progress(q0: seq<Id>, when0: Deadlines, q: seq<Id>, when: Deadlines, fired: seq<Id>, again: set<Id>,
                           cb: Id -> Verdict, horizon: nat) {
    && |fired| <= |q0| && fired == q0[..|fired|] && Minus(q, again) == q0[|fired|..]
    && (forall x :: x in fired ==> x in when0 && when0[x] <= horizon)
    && (forall x :: x in again <==> x in fired && cb(x).Again?)
    && (forall x :: x in again ==> x in q && x in when && when[x] == cb(x).when)
    && (forall x :: x in when0 && x !in again ==> x in when && when[x] == when0[x])
  }

  /** Every queued request is still to come. */
  ghost predicate Later(q: seq<Id>, when: Deadlines, now: nat) { forall t :: t in q ==> t in when && when[t] > now }

  lemma {:induction false} FirstLater(q: seq<Id>, when: Deadlines, now: nat)
    requires Queue(q, when) && (q != [] ==> when[q[0]] > now)
    ensures Later(q, when, now)
  {
    forall t | t in q ensures t in when && when[t] > now {
      var i :| 0 <= i < |q| && q[i] == t;
      if i > 0 { assert when[q[0]] <= when[q[i]]; }
    }
  }

  /** Each request fired at a reading that had reached its deadline. */
  ghost predicate Due(fired: seq<Id>, when0: Deadlines, clock: nat -> nat) {
    forall i :: 0 <= i < |fired| ==> fired[i] in when0 && when0[fired[i]] <= clock(i + 1)
  }

  lemma {:induction false} DueMore(fired: seq<Id>, when0: Deadlines, clock: nat -> nat, t: Id)
    requires Due(fired, when0, clock)
    ensures t in when0 && when0[t] <= clock(|fired| + 1) ==> Due(fired + [t], when0, clock)
  {}

  lemma {:induction false} NothingFired(q: seq<Id>, when: Deadlines, cb: Id -> Verdict, clock: nat -> nat, horizon: nat)
    ensures Progress(q, when, q, when, [], {}, cb, horizon) && Due([], when, clock)
  {
    MinusNone(q);
  }

  lemma {:induction false} FirstNotAgain(q0: seq<Id>, when0: Deadlines, q: seq<Id>, when: Deadlines, fired: seq<Id>, again: set<Id>,
                                         cb: Id -> Verdict, horizon: nat)
    requires Progress(q0, when0, q, when, fired, again, cb, horizon) && Known(q, when) && Known(q0, when0)
    requires q != [] && when[q[0]] <= horizon && forall t :: cb(t).Again? ==> cb(t).when > horizon
    ensures q[0] !in again && |fired| < |q0| && q[0] == q0[|fired|] && q[0] in when0 && when0[q[0]] == when[q[0]]
    ensures fired + [q[0]] == q0[..|fired| + 1] && Minus(q[1..], again) == q0[|fired| + 1..]
  {
    hide Minus;
    assert q[0] !in again;
    HeadIsNext(q, again, q0, |fired|);
  }

  /** Progress when the first request fires and ends. */
  lemma {:induction false} FireDone(q0: seq<Id>, when0: Deadlines, q: seq<Id>, when: Deadlines, fired: seq<Id>, again: set<Id>,
                                    cb: Id -> Verdict, horizon: nat)
    requires Progress(q0, when0, q, when, fired, again, cb, horizon) && Known(q, when) && Known(q0, when0)
    requires q != [] && when[q[0]] <= horizon && cb(q[0]).Done? && forall t :: cb(t).Again? ==> cb(t).when > horizon
    ensures q[0] in when0 && when0[q[0]] == when[q[0]] && |fired| < |q0|
    ensures Progress(q0, when0, q[1..], when, fired + [q[0]], again, cb, horizon)
  {
    hide Minus;
    FirstNotAgain(q0, when0, q, when, fired, again, cb, horizon);
    forall x | x in again ensures x in q[1..] { assert x in q && x != q[0]; }
  }

  /** Progress when the first request fires and is queued again. */
  lemma {:induction false} FireAgain(q0: seq<Id>, when0: Deadlines, q: seq<Id>, q': seq<Id>, when: Deadlines, fired: seq<Id>, again: set<Id>,
                                     cb: Id -> Verdict, horizon: nat)
    requires Progress(q0, when0, q, when, fired, again, cb, horizon) && Known(q, when) && Known(q0, when0)
    requires q != [] && when[q[0]] <= horizon && cb(q[0]).Again? && forall t :: cb(t).Again? ==> cb(t).when > horizon
    requires (forall x :: x in q' <==> x in q[1..] || x == q[0]) && Minus(q', again + {q[0]}) == Minus(q[1..], again)
    ensures q[0] in when0 && when0[q[0]] == when[q[0]] && |fired| < |q0|
    ensures Progress(q0, when0, q', when[q[0] := cb(q[0]).when], fired + [q[0]], again + {q[0]}, cb, horizon)
  {
    hide Minus;
    FirstNotAgain(q0, when0, q, when, fired, again, cb, horizon);
    forall x | x in again ensures x in q' { assert x in q && x != q[0]; }
  }

  class TimerQueue {
    var queue: seq<Id>
    var when: Deadlines

    ghost predicate Valid()
      reads this
    {
      Queue(queue, when)
    }

    /** time_init */
    constructor ()
      ensures Valid() && queue == []
    {
      queue, when := [], map[];
    }

    /** time_enqueue_int: in front of the first later request; nothing if already queued. */
    method EnqueueInt(t: Id)
      requires Valid() && t in when && t != LIST_HEAD
      modifies this`queue
      ensures Valid()
      ensures t in old(queue) ==> queue == old(queue)
      ensures t !in old(queue) ==> exists i: nat :: Place(old(queue), when, t, i) && queue == PutAt(old(queue), i, t)
    {
      for i := 0 to |queue|
        invariant forall j :: 0 <= j < i ==> queue[j] != t && when[queue[j]] <= when[t]
        invariant queue == old(queue)
      {
        if queue[i] == t { return; }
        if when[queue[i]] > when[t] {
          PutKeepsQueue(queue, when, t, i);
          assert Place(queue, when, t, i);
          queue := PutAt(queue, i, t);
          return;
        }
      }
      assert Place(queue, when, t, |queue|);
      PutKeepsQueue(queue, when, t, |queue|);
      assert queue + [t] == PutAt(queue, |queue|, t);
      queue := queue + [t];
    }

    /** The request after the first one, or the list head. */
    function Second(): Id
      reads this
    {
      if |queue| < 2 then LIST_HEAD else queue[1]
    }

    /**
     time_handle: run every request whose deadline has come. `clock(i)` is the i-th reading of the
     time base, and `cb(t)` what the callback of `t` decides. The re-armed deadlines lie past a
     horizon that the clock does not reach during the call.
     */
    method Handle(clock: nat -> nat, cb: Id -> Verdict, ghost horizon: nat)
      returns (dec: nat, now: nat, ghost fired: seq<Id>, ghost again: set<Id>)
      requires Valid()
      requires forall i :: clock(i) <= horizon
      requires forall t :: cb(t).Again? ==> cb(t).when > horizon
      modifies this
      ensures Valid()
      ensures Progress(old(queue), old(when), queue, when, fired, again, cb, horizon)
      ensures Due(fired, old(when), clock)
      ensures now == clock(|fired|) || now == clock(|fired| + 1)
      ensures Later(queue, when, now)
      ensures dec == if queue == [] then 0x7FFF_FFFF else Min(when[queue[0]] - now, 0x7FFF_FFFF)
    {
      hide Progress, Minus, NoDuplicates, Place, Due, Sorted, Later;
      var reading := 1;
      now := clock(0);
      var t := if queue == [] then LIST_HEAD else queue[0];
      var n := Second();
      fired, again := [], {};
      NothingFired(queue, when, cb, clock, horizon);
      while t != LIST_HEAD
        invariant Valid() && (t == if queue == [] then LIST_HEAD else queue[0]) && n == Second()
        invariant Progress(old(queue), old(when), queue, when, fired, again, cb, horizon)
        invariant reading == |fired| + 1 && now == clock(|fired|)
        invariant Due(fired, old(when), clock)
        decreases |old(queue)| - |fired|
      {
        now := clock(reading);
        reading := reading + 1;
        if when[t] > now { break; }
        TailQueue(queue, when);
        ghost var q, w := queue, when;
        queue := queue[1..];
        var verdict := cb(t);
        DueMore(fired, old(when), clock, t);
        if verdict.Done? {
          FireDone(old(queue), old(when), q, w, fired, again, cb, horizon);
          fired := fired + [t];
        } else {
          Unqueued(queue, when, t, verdict.when);
          when := when[t := verdict.when];
          EnqueueInt(t);
          Requeued(q[1..], queue, when, t, again);
          FireAgain(old(queue), old(when), q, queue, w, fired, again, cb, horizon);
          fired, again := fired + [t], again + {t};
          if n != LIST_HEAD {
            if when[t] < when[n] { n := t; }
          } else {
            break;
          }
        }
        t := n;
        n := Second();
      }
      FirstLater(queue, when, now);
      dec := DEC_DISABLE;
      if t != LIST_HEAD && when[t] - now < DEC_DISABLE {
        dec := when[t] - now;
      }
    }

    /** time_dequeue */
    method Dequeue(t: Id)
      requires Valid()
      modifies this`queue
      ensures Valid() && queue == Minus(old(queue), {t})
    {
      hide Minus;
      ghost var q := queue;
      for i := 0 to |queue|
        invariant queue == q && forall j :: 0 <= j < i ==> queue[j] != t
      {
        if queue[i] == t {
          StillQueue(q, when, i);
          RemoveAt(q, i, t);
          queue := queue[..i] + queue[i + 1..];
          return;
        }
      }
      AbsentMinus(queue, t);
    }
  }

  lemma {:induction false} StillQueue(q: seq<Id>, when: Deadlines, i: nat)
    requires Queue(q, when) && i < |q|
    ensures Queue(q[..i] + q[i + 1..], when)
  {
    var r := q[..i] + q[i + 1..];
    assert forall j :: 0 <= j < |r| ==> r[j] == q[if j < i then j else j + 1];
  }

  lemma {:induction false} AbsentMinus(q: seq<Id>, t: Id)
    requires t !in q
    ensures Minus(q, {t}) == q
  {
    MinusMore(q, {}, t);
    MinusNone(q);
    assert {} + {t} == {t};
  }

  lemma {:induction false} RemoveAt(q: seq<Id>, i: nat, t: Id)
    requires i < |q| && q[i] == t && NoDuplicates(q)
    ensures Minus(q, {t}) == q[..i] + q[i + 1..]
  {
    assert t !in q[..i] && t !in q[i + 1..];
    assert q == q[..i] + ([t] + q[i + 1..]);
    RemoveMiddle(q[..i], q[i + 1..], t);
  }

  lemma {:induction false} RemoveMiddle(a: seq<Id>, b: seq<Id>, t: Id)
    requires t !in a && t !in b
    ensures Minus(a + ([t] + b), {t}) == a + b
  {
    hide Minus;
    OnlyMember(t);
    MinusConcat(a, [t] + b, {t});
    MinusConcat([t], b, {t});
    AbsentMinus(a, t);
    AbsentMinus(b, t);
  }

  lemma {:induction false} OnlyMember(t: Id)
    ensures Minus([t], {t}) == []
  {}
}
