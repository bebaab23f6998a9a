/** The run queue: a fixed number of slots, and a round-robin choice among the active tasks in them. */
module Scheduler {

  /** A slot holds nothing or a pointer to a terminal. */
  datatype Slot = Null | Task(term: nat)

  /** Slot `d` places after `cur`, cyclically. */
  function Around(cur: nat, d: nat, n: nat): (i: nat)
    requires cur < n && d <= n
    ensures i < n && i == (cur + d) % n
  {
    WrapOnce(cur + d, n);
    if cur + d < n then cur + d else cur + d - n
  }

  lemma WrapOnce(x: nat, n: nat)
    requires 0 < n && x < 2 * n
    ensures x % n == if x < n then x else x - n
  {
    if x >= n {
      assert x == n + (x - n);
      assert (x - n) % n == x - n;
      ModPlus(x - n, n);
    }
  }

  lemma ModPlus(r: nat, n: nat)
    requires r < n
    ensures (n + r) % n == r
  {
    var q := (n + r) / n;
    assert n + r == q * n + (n + r) % n;
  }

  /** The slots that may run. */
  function Runnable(tasks: seq<Slot>, active: seq<bool>): (run: seq<bool>)
    ensures |run| == |tasks|
  {
    seq(|tasks|, i requires 0 <= i < |tasks| =>
      tasks[i].Task? && tasks[i].term < |active| && active[tasks[i].term])
  }

  /** The first runnable slot from `d` places after `cur` on; `cur` when there is none. */
  function NextTask(run: seq<bool>, cur: nat, d: nat := 1): (next: nat)
    requires cur < |run| && d <= |run| + 1
    ensures next < |run|
    decreases |run| + 1 - d
  {
    if d > |run| then cur
    else if run[Around(cur, d, |run|)] then Around(cur, d, |run|)
    else NextTask(run, cur, d + 1)
  }

  /** The choice is the nearest runnable slot after the current one, or the current one if no other
      is runnable. */
  lemma {:induction false} NearestTask(run: seq<bool>, cur: nat, d: nat, k: nat)
    requires cur < |run| && 1 <= d <= k <= |run| && run[Around(cur, k, |run|)]
    requires forall e :: d <= e < k ==> !run[Around(cur, e, |run|)]
    ensures NextTask(run, cur, d) == Around(cur, k, |run|)
    decreases k - d
  {
    if d < k {
      NearestTask(run, cur, d + 1, k);
    }
  }

  lemma {:induction false} NoOtherTask(run: seq<bool>, cur: nat, d: nat)
    requires cur < |run| && 1 <= d <= |run| + 1
    requires forall i :: 0 <= i < |run| && i != cur ==> !run[i]
    ensures NextTask(run, cur, d) == cur
    decreases |run| + 1 - d
  {
    if d <= |run| {
      NoOtherTask(run, cur, d + 1);
    }
  }

  // ----- Fairness -----

  /** The runnable slots below n, in order. */
  function Indices(run: seq<bool>, n: nat): (a: seq<nat>)
    requires n <= |run|
    ensures forall j :: 0 <= j < |a| ==> a[j] < n && run[a[j]]
    ensures forall i, j :: 0 <= i < j < |a| ==> a[i] < a[j]
    ensures forall i: nat :: i < n && run[i] ==> i in a
  {
    if n == 0 then [] else Indices(run, n - 1) + if run[n - 1] then [n - 1] else []
  }

  function After(run: seq<bool>, cur: nat, switches: nat): (i: nat)
    requires cur < |run|
    ensures i < |run|
  {
    if switches == 0 then cur else NextTask(run, After(run, cur, switches - 1))
  }

  lemma OrderGap(run: seq<bool>, j: nat, i: nat)
    requires j < |Indices(run, |run|)| && i < |run| && run[i]
    ensures var a := Indices(run, |run|);
            if j + 1 < |a| then i <= a[j] || i >= a[j + 1] else a[0] <= i <= a[j]
  {
    var a := Indices(run, |run|);
    var m :| 0 <= m < |a| && a[m] == i;
    assert m < j ==> a[m] < a[j];
    assert m > j + 1 ==> a[j + 1] < a[m];
    assert m > 0 ==> a[0] < a[m];
  }

  /** From one runnable slot the choice goes to the next in order, and from the last to the first. */
  lemma NextInOrder(run: seq<bool>, j: nat)
    requires j < |Indices(run, |run|)|
    ensures var a := Indices(run, |run|);
            NextTask(run, a[j]) == a[if j + 1 < |a| then j + 1 else 0]
  {
    var n, a := |run|, Indices(run, |run|);
    var cur, next := a[j], a[if j + 1 < |a| then j + 1 else 0];
    var k := if j + 1 < |a| then next - cur else n - cur + next;
    assert Around(cur, k, n) == next;
    forall i | 0 <= i < n && run[i] ensures if j + 1 < |a| then i <= cur || i >= next else next <= i <= cur {
      OrderGap(run, j, i);
    }
    assert forall e :: 1 <= e < k ==> Around(cur, e, n) == if cur + e < n then cur + e else cur + e - n;
    hide Indices, Around;
    NearestTask(run, cur, 1, k);
  }

  lemma {:induction false} AfterInOrder(run: seq<bool>, j: nat, m: nat)
    requires j < |Indices(run, |run|)| && m <= |Indices(run, |run|)|
    ensures var a := Indices(run, |run|);
            After(run, a[j], m) == a[if j + m < |a| then j + m else j + m - |a|]
    decreases m
  {
    hide *;
    var k := |Indices(run, |run|)|;
    AfterMore(run, Indices(run, |run|)[j], m);
    if m > 0 {
      AfterInOrder(run, j, m - 1);
      NextInOrder(run, if j + (m - 1) < k then j + (m - 1) else j + (m - 1) - k);
    }
  }

  lemma AfterMore(run: seq<bool>, cur: nat, m: nat)
    requires cur < |run|
    ensures After(run, cur, m) == if m == 0 then cur else NextTask(run, After(run, cur, m - 1))
  {
  }

  /** One of the next k switches chooses slot i. */
  ghost predicate Visited(run: seq<bool>, cur: nat, k: nat, i: nat)
    requires cur < |run|
  {
    exists m :: 1 <= m <= k && After(run, cur, m) == i
  }

  lemma IndexOf(run: seq<bool>, i: nat) returns (j: nat)
    requires i < |run| && run[i]
    ensures j < |Indices(run, |run|)| && Indices(run, |run|)[j] == i
  {
    assert i in Indices(run, |run|);
    j :| 0 <= j < |Indices(run, |run|)| && Indices(run, |run|)[j] == i;
  }

  lemma Visits(run: seq<bool>, cur: nat, i: nat)
    requires cur < |run| && run[cur] && i < |run| && run[i]
    ensures Visited(run, cur, |Indices(run, |run|)|, i)
  {
    hide Indices, After;
    var k := |Indices(run, |run|)|;
    var j := IndexOf(run, cur);
    var p := IndexOf(run, i);
    var m := if p > j then p - j else p + k - j;
    AfterInOrder(run, j, m);
    assert 1 <= m <= k && After(run, cur, m) == i;
  }

  lemma VisitsOnce(run: seq<bool>, cur: nat, m1: nat, m2: nat)
    requires cur < |run| && run[cur] && 1 <= m1 < m2 <= |Indices(run, |run|)|
    ensures After(run, cur, m1) != After(run, cur, m2) && run[After(run, cur, m1)]
  {
    hide After;
    var j := IndexOf(run, cur);
    AfterInOrder(run, j, m1);
    AfterInOrder(run, j, m2);
  }

  /** Round robin is fair: while the k runnable slots stay the same, k switches from one of them visit
      each exactly once and end where they began. */
  lemma Fair(run: seq<bool>, cur: nat)
    requires cur < |run| && run[cur]
    ensures var k := |Indices(run, |run|)|;
            && After(run, cur, k) == cur
            && (forall i :: 0 <= i < |run| && run[i] ==> Visited(run, cur, k, i))
            && (forall m1: nat, m2: nat :: 1 <= m1 < m2 <= k ==> After(run, cur, m1) != After(run, cur, m2))
  {
    hide Indices, After, Visited, NextTask;
    var k := |Indices(run, |run|)|;
    var j := IndexOf(run, cur);
    AfterInOrder(run, j, k);
    forall i | 0 <= i < |run| && run[i] ensures Visited(run, cur, k, i) {
      Visits(run, cur, i);
    }
    forall m1: nat, m2: nat | 1 <= m1 < m2 <= k ensures After(run, cur, m1) != After(run, cur, m2) {
      VisitsOnce(run, cur, m1, m2);
    }
  }

  // ----- Tasks and terminals -----

  /** Going round from slot cur, the k-th slot is the nearest that holds a task of an active terminal. */
  ghost predicate Nearest(tasks: seq<Slot>, active: seq<bool>, cur: int, k: int) {
    && 0 <= cur < |tasks| && 1 <= k <= |tasks| && MayRun(tasks, active, Around(cur, k, |tasks|))
    && forall e :: 1 <= e < k ==> !MayRun(tasks, active, Around(cur, e, |tasks|))
  }

  ghost predicate MayRun(tasks: seq<Slot>, active: seq<bool>, i: int) {
    0 <= i < |tasks| && tasks[i].Task? && tasks[i].term < |active| && active[tasks[i].term]
  }

  lemma RunnableIs(tasks: seq<Slot>, active: seq<bool>, i: nat)
    requires i < |tasks|
    ensures Runnable(tasks, active)[i] <==>
              tasks[i] != Null && tasks[i].term < |active| && active[tasks[i].term] == true
  {
  }

  /** The choice is the nearest task of an active terminal, and the current slot when there is none. */
  lemma NearestActive(tasks: seq<Slot>, active: seq<bool>, cur: nat)
    requires cur < |tasks|
    ensures forall k :: Nearest(tasks, active, cur, k) ==>
              NextTask(Runnable(tasks, active), cur) == (cur + k) % |tasks|
    ensures (forall i :: !MayRun(tasks, active, i)) ==> NextTask(Runnable(tasks, active), cur) == cur
  {
    hide Runnable;
    var run, n := Runnable(tasks, active), |tasks|;
    forall i | 0 <= i < n ensures run[i] <==> MayRun(tasks, active, i) {
      RunnableIs(tasks, active, i);
    }
    forall k | Nearest(tasks, active, cur, k) ensures NextTask(run, cur) == (cur + k) % n {
      NearestTask(run, cur, 1, k);
    }
    if forall i :: !MayRun(tasks, active, i) {
      NoOtherTask(run, cur, 1);
    }
  }

  /** Slot i is chosen by exactly one of the next k switches. */
  ghost predicate OneTurn(run: seq<bool>, cur: nat, k: nat, i: nat)
    requires cur < |run|
  {
    exists m ::
      && 1 <= m <= k && After(run, cur, m) == i
      && forall m' :: 1 <= m' <= k && After(run, cur, m') == i ==> m' == m
  }

  /** Fairness for tasks: as many switches as there are tasks of active terminals give each of them one turn,
      and end at the task that they began with. */
  lemma FairTasks(tasks: seq<Slot>, active: seq<bool>, cur: nat)
    requires MayRun(tasks, active, cur)
    ensures var run, k := Runnable(tasks, active), |set i | 0 <= i < |tasks| && MayRun(tasks, active, i)|;
            && After(run, cur, k) == cur
            && forall i: nat :: MayRun(tasks, active, i) ==> OneTurn(run, cur, k, i)
  {
    hide Runnable, After;
    var run, n := Runnable(tasks, active), |tasks|;
    forall i | 0 <= i < n ensures run[i] <==> MayRun(tasks, active, i) {
      RunnableIs(tasks, active, i);
    }
    var a := Indices(run, n);
    CountOf(a, set i | 0 <= i < n && MayRun(tasks, active, i));
    Fair(run, cur);
    forall i: nat | MayRun(tasks, active, i) ensures OneTurn(run, cur, |a|, i) {
      assert Visited(run, cur, |a|, i);
      var m :| 1 <= m <= |a| && After(run, cur, m) == i;
      forall m' | 1 <= m' <= |a| && After(run, cur, m') == i ensures m' == m {
        SameTurn(run, cur, |a|, m, m');
      }
    }
  }

  lemma SameTurn(run: seq<bool>, cur: nat, k: nat, m: nat, m': nat)
    requires cur < |run| && 1 <= m <= k && 1 <= m' <= k && After(run, cur, m) == After(run, cur, m')
    requires forall m1: nat, m2: nat :: 1 <= m1 < m2 <= k ==> After(run, cur, m1) != After(run, cur, m2)
    ensures m == m'
  {
    hide After;
  }

  /** An increasing sequence of the elements of a set has as many. */
  lemma {:induction false} CountOf(a: seq<nat>, s: set<int>)
    requires forall i, j :: 0 <= i < j < |a| ==> a[i] < a[j]
    requires forall i :: i in s <==> i in a
    ensures |s| == |a|
    decreases |a|
  {
    if a == [] {
      assert s == {};
    } else {
      var n := |a| - 1;
      assert a[n] in a && forall i :: i in a[..n] ==> i in a && i < a[n];
      assert forall i :: i in a && i != a[n] ==> i in a[..n];
      CountOf(a[..n], s - {a[n]});
      assert s == (s - {a[n]}) + {a[n]};
    }
  }

  /** For example tasks 0, 1 and 2, of which 0 and 1 are active: from 0 the choice is 1, and from 1 it is 0. */
  lemma InactiveSkipped()
    ensures NextTask(Runnable([Task(0), Task(1), Task(2)], [true, true, false]), 0) == 1
    ensures NextTask(Runnable([Task(0), Task(1), Task(2)], [true, true, false]), 1) == 0
  {
    var tasks, active := [Task(0), Task(1), Task(2)], [true, true, false];
    NearestActive(tasks, active, 0);
    NearestActive(tasks, active, 1);
    assert Nearest(tasks, active, 0, 1);
    assert Nearest(tasks, active, 1, 2);
  }

  // ----- The queue -----

  /** The first empty slot from `d` places after `cur` on; none is |tasks|. */
  function EmptySlot(tasks: seq<Slot>, cur: nat, d: nat := 0): (slot: nat)
    requires cur < |tasks| && d <= |tasks|
    ensures slot <= |tasks|
    ensures slot < |tasks| ==> tasks[slot].Null?
    ensures slot == |tasks| ==> forall e :: d <= e < |tasks| ==> tasks[Around(cur, e, |tasks|)].Task?
    decreases |tasks| - d
  {
    if d == |tasks| then |tasks|
    else if tasks[Around(cur, d, |tasks|)].Null? then Around(cur, d, |tasks|)
    else EmptySlot(tasks, cur, d + 1)
  }

  /** It is the first going round from the current slot. */
  lemma {:induction false} FirstEmpty(tasks: seq<Slot>, cur: nat, d: nat, k: nat)
    requires cur < |tasks| && d <= k < |tasks| && tasks[Around(cur, k, |tasks|)] == Null
    requires forall e :: d <= e < k ==> tasks[Around(cur, e, |tasks|)] != Null
    ensures EmptySlot(tasks, cur, d) == Around(cur, k, |tasks|)
    decreases k - d
  {
    hide Around;
    if d < k {
      assert tasks[Around(cur, d, |tasks|)] != Null;
      FirstEmpty(tasks, cur, d + 1, k);
    }
  }

  function AddTask(tasks: seq<Slot>, cur: nat, term: nat): (r: seq<Slot>)
    requires cur < |tasks|
    ensures |r| == |tasks|
  {
    if EmptySlot(tasks, cur) == |tasks| then tasks else tasks[EmptySlot(tasks, cur) := Task(term)]
  }

  /** Going round from slot cur, the k-th slot is the first empty one. */
  ghost predicate FirstNull(tasks: seq<Slot>, cur: int, k: int) {
    && 0 <= cur < |tasks| && 0 <= k < |tasks| && tasks[Around(cur, k, |tasks|)] == Null
    && forall e :: 0 <= e < k ==> tasks[Around(cur, e, |tasks|)] != Null
  }

  lemma AddIs(tasks: seq<Slot>, cur: nat, term: nat)
    requires cur < |tasks|
    ensures Null !in tasks ==> AddTask(tasks, cur, term) == tasks
    ensures forall k :: FirstNull(tasks, cur, k) ==>
              AddTask(tasks, cur, term) == tasks[(cur + k) % |tasks| := Task(term)]
  {
    forall k | FirstNull(tasks, cur, k) ensures EmptySlot(tasks, cur) == (cur + k) % |tasks| {
      FirstEmpty(tasks, cur, 0, k);
    }
  }

  function FirstOf(tasks: seq<Slot>, term: nat): (i: nat)
    ensures i <= |tasks| && (i < |tasks| ==> tasks[i] == Task(term))
    ensures forall j :: 0 <= j < i ==> tasks[j] != Task(term)
  {
    if tasks == [] || tasks[0] == Task(term) then 0 else 1 + FirstOf(tasks[1..], term)
  }

  function RemoveTask(tasks: seq<Slot>, term: nat): (r: seq<Slot>)
    ensures |r| == |tasks|
  {
    if FirstOf(tasks, term) == |tasks| then tasks else tasks[FirstOf(tasks, term) := Null]
  }

  lemma {:induction false} FirstIs(tasks: seq<Slot>, term: nat, i: nat)
    requires i < |tasks| && tasks[i] == Task(term) && forall j :: 0 <= j < i ==> tasks[j] != Task(term)
    ensures FirstOf(tasks, term) == i && RemoveTask(tasks, term) == tasks[i := Null]
  {
    if i > 0 {
      assert tasks[0] != Task(term);
    }
  }

  ghost predicate Unique(tasks: seq<Slot>) {
    forall i, j :: 0 <= i < j < |tasks| && tasks[i].Task? ==> tasks[i] != tasks[j]
  }

  /** The tasks stay unique exactly when the new one was not queued already or there is no room; then
      it is queued unless the queue is full, and removing it restores the queue. */
  lemma AddThenRemove(tasks: seq<Slot>, cur: nat, term: nat)
    requires cur < |tasks| && Unique(tasks)
    ensures Unique(AddTask(tasks, cur, term)) <==> Task(term) !in tasks || Null !in tasks
    ensures Null in tasks ==> Task(term) in AddTask(tasks, cur, term)
    ensures Task(term) !in tasks ==> RemoveTask(AddTask(tasks, cur, term), term) == tasks
  {
    var slot, added := EmptySlot(tasks, cur), AddTask(tasks, cur, term);
    if slot < |tasks| {
      assert added[slot] == Task(term);
      if Task(term) in tasks {
        var i :| 0 <= i < |tasks| && tasks[i] == Task(term);
        assert added[i] == added[slot];
      }
    } else {
      forall i | 0 <= i < |tasks| ensures tasks[i].Task? {
        var e := if i >= cur then i - cur else i + |tasks| - cur;
        assert Around(cur, e, |tasks|) == i;
      }
    }
  }

  ghost predicate Twice(tasks: seq<Slot>, term: nat) {
    exists i, j :: 0 <= i < j < |tasks| && tasks[i] == tasks[j] == Task(term)
  }

  /** Removing takes the task off the queue unless it was queued twice, and no other task. */
  lemma RemoveIsExact(tasks: seq<Slot>, term: nat)
    ensures Task(term) in RemoveTask(tasks, term) <==> Twice(tasks, term)
    ensures forall t: nat :: t != term ==> (Task(t) in RemoveTask(tasks, term) <==> Task(t) in tasks)
    ensures Unique(tasks) ==> Unique(RemoveTask(tasks, term)) && !Twice(tasks, term)
  {
    var i, r := FirstOf(tasks, term), RemoveTask(tasks, term);
    forall t: nat | t != term && Task(t) in tasks ensures Task(t) in r {
      var j :| 0 <= j < |tasks| && tasks[j] == Task(t);
      assert r[j] == Task(t);
    }
    if k, j :| 0 <= k < j < |tasks| && tasks[k] == tasks[j] == Task(term) {
      assert r[j] == Task(term);
    }
  }

  /** For example a task added to a queue that has it already. */
  lemma QueuedTwice()
    ensures AddTask([Task(0), Null], 0, 0) == [Task(0), Task(0)] && RemoveTask([Task(0), Task(0)], 0) == [Null, Task(0)]
  {
    assert EmptySlot([Task(0), Null], 0) == EmptySlot([Task(0), Null], 0, 1) == 1;
  }

  class RunQueue {
    const tasks: array<Slot>
    var current: nat

    ghost predicate Valid()
      reads this
    {
      current < tasks.Length
    }

    constructor (maxTerms: nat)
      requires maxTerms > 0
      ensures Valid() && fresh(tasks) && current == 0 && tasks[..] == seq(maxTerms, _ => Null)
    {
      tasks := new Slot[maxTerms](_ => Null);
      current := 0;
    }

    /** The choice in `switch_task`. */
    method SwitchTask(active: array<bool>)
      requires Valid() && forall i :: 0 <= i < tasks.Length && tasks[i].Task? ==> tasks[i].term < active.Length
      modifies `current
      ensures Valid() && current == NextTask(Runnable(tasks[..], active[..]), old(current))
      ensures forall k :: Nearest(tasks[..], active[..], old(current), k) ==>
                current == (old(current) + k) % tasks.Length
      ensures (forall i :: !MayRun(tasks[..], active[..], i)) ==> current == old(current)
    {
      NearestActive(tasks[..], active[..], current);
      hide Nearest, MayRun;
      var found, next := FindNext(active);
      if !found || next == current {
        return;
      }
      current := next;
    }

    /** The loop of `switch_task`. */
    method FindNext(active: array<bool>) returns (found: bool, next: nat)
      requires Valid() && forall i :: 0 <= i < tasks.Length && tasks[i].Task? ==> tasks[i].term < active.Length
      ensures NextTask(Runnable(tasks[..], active[..]), current) == if found then next else current
    {
      ghost var run := Runnable(tasks[..], active[..]);
      found := false;
      next := (current + 1) % tasks.Length;
      var i := 0;
      while i < tasks.Length
        invariant 0 <= i <= tasks.Length && next < tasks.Length && !found
        invariant i < tasks.Length ==> next == Around(current, i + 1, tasks.Length)
        invariant NextTask(run, current) == NextTask(run, current, i + 1)
      {
        if tasks[next].Null? || !active[tasks[next].term] {
          next := (next + 1) % tasks.Length;
          WrapOnce(Around(current, i + 1, tasks.Length) + 1, tasks.Length);
        } else {
          found := true;
          break;
        }
        i := i + 1;
      }
    }

    method Add(term: nat)
      requires Valid()
      modifies tasks
      ensures tasks[..] == AddTask(old(tasks[..]), current, term)
      ensures Null !in old(tasks[..]) ==> tasks[..] == old(tasks[..])
      ensures forall k :: FirstNull(old(tasks[..]), current, k) ==>
                tasks[..] == old(tasks[..])[(current + k) % tasks.Length := Task(term)]
    {
      AddIs(tasks[..], current, term);
      hide FirstNull;
      for i := 0 to tasks.Length
        invariant tasks[..] == old(tasks[..])
        invariant EmptySlot(tasks[..], current) == EmptySlot(tasks[..], current, i)
      {
        var temp := (current + i) % tasks.Length;
        assert temp == Around(current, i, tasks.Length);
        if tasks[temp].Null? {
          tasks[temp] := Task(term);
          break;
        }
      }
    }

    method Remove(term: nat)
      modifies tasks
      ensures tasks[..] == RemoveTask(old(tasks[..]), term)
    {
      for i := 0 to tasks.Length
        invariant tasks[..] == old(tasks[..])
        invariant forall j :: 0 <= j < i ==> tasks[j] != Task(term)
      {
        if tasks[i] == Task(term) {
          tasks[i] := Null;
          break;
        }
      }
    }
  }
}
