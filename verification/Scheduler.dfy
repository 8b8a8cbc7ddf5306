/**
 The non-preemptive priority scheduler of hello_world.c, for any number of tasks, any priorities
 and any print limit.

 `System` is the program: the TASKS array, the static counters and the body of the main loop.
 `StepRel` says what one turn of the main loop does to a snapshot of that state, and the lemmas
 below it speak about every run, that is, every sequence of snapshots linked by `StepRel`.
 The counters are `size_t` values, 32 bits wide on this machine, and wrap.
 */
module Scheduler {

  datatype TaskState = New | Ready | Run | Wait | Term

  /** The number of values of a `size_t` counter. */
  const SIZE_T := 0x1_0000_0000

  /** A snapshot of the program; `t` is the task the main loop ran last, `out` the lines printed. */
  datatype Board = Board(states: seq<TaskState>, cnt: seq<nat>, t: nat, currentTask: nat, out: seq<nat>)

  predicate Runnable(s: TaskState) {
    s.New? || s.Ready? || s.Run?
  }

  /** Task `a` is served before task `b`: higher priority, or equal priority and higher index. */
  predicate Before(prio: seq<nat>, a: nat, b: nat)
    requires a < |prio| && b < |prio|
  {
    prio[a] > prio[b] || (prio[a] == prio[b] && a > b)
  }

  /** `next` is the runnable task served before all others, or `current` when none is runnable. */
  ghost predicate Picks(states: seq<TaskState>, prio: seq<nat>, current: nat, next: nat)
    requires |states| == |prio|
  {
    if forall i | 0 <= i < |states| :: !Runnable(states[i]) then
      next == current
    else
      && next < |states|
      && Runnable(states[next])
      && forall i | 0 <= i < |states| && i != next && Runnable(states[i]) :: Before(prio, next, i)
  }

  /** Task `i` is runnable and no runnable task with a smaller index has a higher priority. */
  ghost predicate Candidate(states: seq<TaskState>, prio: seq<nat>, i: nat)
    requires |states| == |prio| && i < |prio|
  {
    Runnable(states[i]) && forall j | 0 <= j < i && Runnable(states[j]) :: prio[j] <= prio[i]
  }

  /** The scan marks every candidate RUN, also the ones a later candidate replaces. */
  ghost function Marked(states: seq<TaskState>, prio: seq<nat>): (r: seq<TaskState>)
    requires |states| == |prio|
    ensures |r| == |states|
    ensures forall i | 0 <= i < |r| :: r[i] == if Candidate(states, prio, i) then Run else states[i]
  {
    seq(|states|, i requires 0 <= i < |states| => if Candidate(states, prio, i) then Run else states[i])
  }

  /** Of the tasks below i, `best` is served before the others; `found` tells whether there is one. */
  ghost predicate BestSoFar(states: seq<TaskState>, prio: seq<nat>, i: nat, found: bool, best: nat)
    requires |states| == |prio| && i <= |prio|
  {
    if found then
      && best < i && Runnable(states[best])
      && forall j | 0 <= j < i && j != best && Runnable(states[j]) :: Before(prio, best, j)
    else forall j | 0 <= j < i :: !Runnable(states[j])
  }

  lemma ScanStep(states: seq<TaskState>, prio: seq<nat>, i: nat, found: bool, best: nat)
    requires |states| == |prio| && i < |prio| && BestSoFar(states, prio, i, found, best)
    ensures var takes := Runnable(states[i]) && (found ==> best < |prio| && prio[best] <= prio[i]);
            && (Candidate(states, prio, i) <==> takes)
            && BestSoFar(states, prio, i + 1, found || takes, if takes then i else best)
  {
    hide Runnable;
  }

  lemma ScanStart(states: seq<TaskState>, prio: seq<nat>, best: nat)
    requires |states| == |prio|
    ensures BestSoFar(states, prio, 0, false, best)
  {
  }

  lemma ScanEnd(states: seq<TaskState>, prio: seq<nat>, current: nat, found: bool, next: nat)
    requires |states| == |prio| && BestSoFar(states, prio, |prio|, found, next) && (!found ==> next == current)
    ensures Picks(states, prio, current, next)
    ensures !found <==> forall i | 0 <= i < |prio| :: !Runnable(states[i])
  {
    hide Runnable;
  }

  lemma PickExists(states: seq<TaskState>, prio: seq<nat>, current: nat, next: nat)
    requires |states| == |prio| && current < |prio| && Picks(states, prio, current, next)
    ensures next < |prio|
  {
  }

  ghost predicate Shape(prio: seq<nat>, b: Board) {
    |b.states| == |b.cnt| == |prio| && b.t < |prio|
  }

  ghost function Initial(n: nat): Board {
    Board(seq(n, i => New), seq(n, i => 0), 0, 0, [])
  }

  /** One turn of the main loop: pick, run the picked task, store the state it returns. */
  ghost predicate StepRel(prio: seq<nat>, limit: nat, a: Board, b: Board) {
    && Shape(prio, a) && Shape(prio, b)
    && Picks(a.states, prio, a.t, b.t)
    && var prints := a.cnt[b.t] < limit;
    && b.states == Marked(a.states, prio)[b.t := if prints then Ready else Term]
    && b.cnt == a.cnt[b.t := (a.cnt[b.t] + 1) % SIZE_T]
    && b.out == a.out + (if prints then [b.t] else [])
    && b.currentTask == if forall i | 0 <= i < |prio| :: !Runnable(a.states[i]) then a.currentTask else b.t
  }

  ghost predicate Linked(prio: seq<nat>, limit: nat, run: seq<Board>, k: nat)
    requires k + 1 < |run|
  {
    StepRel(prio, limit, run[k], run[k + 1])
  }

  ghost predicate IsRun(prio: seq<nat>, limit: nat, run: seq<Board>) {
    && |run| > 0
    && run[0] == Initial(|prio|)
    && forall k | 0 <= k < |run| - 1 :: Linked(prio, limit, run, k)
  }

  lemma ExtendRun(prio: seq<nat>, limit: nat, run: seq<Board>, b: Board)
    requires IsRun(prio, limit, run) && StepRel(prio, limit, run[|run| - 1], b)
    ensures IsRun(prio, limit, run + [b])
  {
    hide StepRel;
    var longer := run + [b];
    forall k | 0 <= k < |longer| - 1
      ensures Linked(prio, limit, longer, k)
    {
      if k < |run| - 1 { assert Linked(prio, limit, run, k); }
    }
  }

  // ---------------------------------------------------------------------------------------------
  // The program
  // ---------------------------------------------------------------------------------------------

  class System {
    const prio: seq<nat>
    const limit: nat
    const states: array<TaskState>
    const cnt: array<nat>
    var t: nat
    var currentTask: nat
    var out: seq<nat>

    ghost predicate Valid()
      reads this, states
    {
      states.Length == cnt.Length == |prio| && t < |prio|
    }

    ghost function Snapshot(): Board
      reads this, states, cnt
    {
      Board(states[..], cnt[..], t, currentTask, out)
    }

    /** `init_tasks` and the start of `main`: every task is NEW and the first one is current. */
    constructor (prio: seq<nat>, limit: nat)
      requires |prio| > 0
      ensures Valid() && fresh(states) && fresh(cnt)
      ensures this.prio == prio && this.limit == limit
      ensures Snapshot() == Initial(|prio|)
    {
      this.prio := prio;
      this.limit := limit;
      this.states := new TaskState[|prio|](_ => New);
      this.cnt := new nat[|prio|](_ => 0);
      this.t := 0;
      this.currentTask := 0;
      this.out := [];
      new;
      assert states[..] == Initial(|prio|).states;
      assert cnt[..] == Initial(|prio|).cnt;
    }

    /** `scheduler`: one scan over the tasks, keeping the best priority seen so far. */
    method Schedule(current: nat) returns (next: nat)
      requires Valid()
      modifies this`currentTask, states
      ensures Picks(old(states[..]), prio, current, next)
      ensures states[..] == Marked(old(states[..]), prio)
      ensures currentTask ==
              if forall i | 0 <= i < |prio| :: !Runnable(old(states[..])[i]) then old(currentTask) else next
    {
      hide Candidate, Picks, BestSoFar;
      next := current;
      var i := 0;
      var currPrio := 0;
      ghost var was := states[..];
      ghost var found := false;
      ScanStart(was, prio, next);
      while i < |prio|
        invariant i <= |prio|
        invariant forall j | i <= j < |prio| :: states[j] == was[j]
        invariant forall j | 0 <= j < i :: states[j] == if Candidate(was, prio, j) then Run else was[j]
        invariant BestSoFar(was, prio, i, found, next)
        invariant !found ==> next == current && currentTask == old(currentTask) && currPrio == 0
        invariant found ==> next < i && currentTask == next && currPrio == prio[next]
      {
        ScanStep(was, prio, i, found, next);
        if states[i].New? || states[i].Ready? || states[i].Run? {
          if currPrio <= prio[i] {
            currPrio := prio[i];
            next := i;
            states[i] := Run;
            currentTask := i;
            found := true;
          }
        }
        i := i + 1;
      }
      ScanEnd(was, prio, current, found, next);
    }

    /** The counted tasks `print_1` .. `print_4`: print while the counter is below the limit. */
    method RunTask(i: nat) returns (state: TaskState)
      requires Valid() && i < |prio|
      modifies this`out, cnt
      ensures cnt[..] == old(cnt[..])[i := (old(cnt[i]) + 1) % SIZE_T]
      ensures state == if old(cnt[i]) < limit then Ready else Term
      ensures out == old(out) + (if old(cnt[i]) < limit then [i] else [])
    {
      state := Ready;
      var c := cnt[i];
      cnt[i] := (cnt[i] + 1) % SIZE_T;
      if c < limit {
        out := out + [i];
      } else {
        state := Term;
      }
    }

    /** The body of the main loop. */
    method Step()
      requires Valid()
      modifies this, states, cnt
      ensures Valid()
      ensures StepRel(prio, limit, old(Snapshot()), Snapshot())
    {
      hide Marked, Candidate, Picks;
      ghost var a := Snapshot();
      t := Schedule(t);
      PickExists(a.states, prio, a.t, t);
      ghost var picked := states[..];
      var state := RunTask(t);
      states[t] := state;
      assert states[..] == picked[t := state];
    }

    /** The first `n` turns of the main loop; the ghost result is the run they make up. */
    method Loop(n: nat) returns (ghost run: seq<Board>)
      requires Valid() && Snapshot() == Initial(|prio|)
      modifies this, states, cnt
      ensures Valid()
      ensures IsRun(prio, limit, run) && |run| == n + 1 && run[n] == Snapshot()
    {
      run := [Snapshot()];
      var k := 0;
      while k < n
        invariant k <= n && Valid()
        invariant IsRun(prio, limit, run) && |run| == k + 1 && run[k] == Snapshot()
      {
        Step();
        ExtendRun(prio, limit, run, Snapshot());
        run := run + [Snapshot()];
        k := k + 1;
      }
    }
  }

  // ---------------------------------------------------------------------------------------------
  // What every run prints
  // ---------------------------------------------------------------------------------------------

  /** `order` lists every task once, in the order in which they are served. */
  ghost predicate IsOrder(prio: seq<nat>, order: seq<nat>) {
    && |order| == |prio|
    && (forall i | 0 <= i < |order| :: order[i] < |prio|)
    && (forall i, j | 0 <= i < j < |order| :: Before(prio, order[i], order[j]))
    && (forall x | 0 <= x < |prio| :: x in order)
  }

  function Copies(x: nat, n: nat): (r: seq<nat>)
    ensures |r| == n && forall i | 0 <= i < n :: r[i] == x
  {
    seq(n, _ => x)
  }

  /** `limit` lines of each task in turn. */
  function Blocks(order: seq<nat>, limit: nat): seq<nat> {
    if order == [] then [] else Blocks(order[..|order| - 1], limit) + Copies(order[|order| - 1], limit)
  }

  /** How often the last task prints in the first `m` calls after all tasks have terminated. */
  function Reprints(limit: nat, m: nat): nat {
    if m == 0 then 0
    else Reprints(limit, m - 1) + if (limit + m) % SIZE_T < limit then 1 else 0
  }

  lemma Extend(order: seq<nat>, limit: nat, k: nat)
    requires k < |order|
    ensures Blocks(order[..k + 1], limit) == Blocks(order[..k], limit) + Copies(order[k], limit)
  {
    assert order[..k + 1][..k] == order[..k];
  }

  ghost predicate InRange(prio: seq<nat>, order: seq<nat>) {
    |order| == |prio| > 0 && forall i | 0 <= i < |order| :: order[i] < |prio|
  }

  /** While task `order[k]` is being served, after `j` of its calls. */
  ghost predicate Serving(prio: seq<nat>, limit: nat, order: seq<nat>, b: Board, k: nat, j: nat)
    requires InRange(prio, order) && k < |order|
  {
    && Shape(prio, b)
    && j <= limit
    && (forall i | 0 <= i < k :: b.states[order[i]] == Term)
    && (forall i | k <= i < |order| :: Runnable(b.states[order[i]]))
    && (forall i | k < i < |order| :: b.cnt[order[i]] == 0)
    && b.cnt[order[k]] == j
    && b.out == Blocks(order[..k], limit) + Copies(order[k], j)
  }

  /** `m` calls after every task has returned TERM once. */
  ghost predicate Drained(prio: seq<nat>, limit: nat, order: seq<nat>, b: Board, m: nat)
    requires InRange(prio, order)
  {
    var z := order[|order| - 1];
    && Shape(prio, b)
    && b.t == z
    && (forall i | 0 <= i < |order| - 1 :: b.states[order[i]] == Term)
    && (m == 0 ==> b.states[z] == Term)
    && (b.states[z] == Term || b.states[z] == Ready)
    && b.cnt[z] == (limit + 1 + m) % SIZE_T
    && b.out == Blocks(order, limit) + Copies(z, Reprints(limit, m))
  }

  /** What one turn that runs task `z` changes, up to the READY/RUN distinction. */
  ghost predicate Effect(prio: seq<nat>, limit: nat, a: Board, b: Board, z: nat) {
    && Shape(prio, a) && Shape(prio, b) && b.t == z
    && (forall x | 0 <= x < |prio| && x != z :: a.states[x] == Term ==> b.states[x] == Term)
    && (forall x | 0 <= x < |prio| && x != z :: Runnable(a.states[x]) ==> Runnable(b.states[x]))
    && (forall x | 0 <= x < |prio| && x != z :: b.cnt[x] == a.cnt[x])
    && b.cnt[z] == (a.cnt[z] + 1) % SIZE_T
    && b.states[z] == (if a.cnt[z] < limit then Ready else Term)
    && b.out == a.out + (if a.cnt[z] < limit then [z] else [])
  }

  lemma StepEffect(prio: seq<nat>, limit: nat, a: Board, b: Board)
    requires StepRel(prio, limit, a, b)
    ensures Effect(prio, limit, a, b, b.t)
  {
  }

  lemma Place(prio: seq<nat>, order: seq<nat>, x: nat) returns (p: nat)
    requires IsOrder(prio, order) && x < |prio|
    ensures p < |order| && order[p] == x
  {
    assert x in order;
    p :| 0 <= p < |order| && order[p] == x;
  }

  lemma Distinct(prio: seq<nat>, order: seq<nat>, k: nat)
    requires IsOrder(prio, order) && k < |order|
    ensures forall i | 0 <= i < |order| && i != k :: order[i] != order[k]
  {
    forall i | 0 <= i < |order| && i != k
      ensures order[i] != order[k]
    {
      if i < k { assert Before(prio, order[i], order[k]); } else { assert Before(prio, order[k], order[i]); }
    }
  }

  lemma PicksServed(prio: seq<nat>, limit: nat, order: seq<nat>, a: Board, b: Board, k: nat, j: nat)
    requires IsOrder(prio, order) && k < |order|
    requires Serving(prio, limit, order, a, k, j) && StepRel(prio, limit, a, b)
    ensures b.t == order[k]
  {
    assert Runnable(a.states[order[k]]);
    assert forall i | k < i < |order| :: Before(prio, order[k], order[i]);
    var p := Place(prio, order, b.t);
  }

  lemma OnlyLast(prio: seq<nat>, order: seq<nat>, states: seq<TaskState>)
    requires IsOrder(prio, order) && |order| > 0 && |states| == |prio|
    requires forall i | 0 <= i < |order| - 1 :: states[order[i]] == Term
    ensures forall x | 0 <= x < |prio| && Runnable(states[x]) :: x == order[|order| - 1]
  {
    forall x | 0 <= x < |prio| && Runnable(states[x])
      ensures x == order[|order| - 1]
    {
      var p := Place(prio, order, x);
    }
  }

  lemma PicksIdle(prio: seq<nat>, limit: nat, order: seq<nat>, a: Board, b: Board, m: nat)
    requires IsOrder(prio, order) && |order| > 0
    requires Drained(prio, limit, order, a, m) && StepRel(prio, limit, a, b)
    ensures b.t == order[|order| - 1]
  {
    OnlyLast(prio, order, a.states);
  }

  lemma ServeStep(prio: seq<nat>, limit: nat, order: seq<nat>, a: Board, b: Board, k: nat, j: nat)
    requires InRange(prio, order) && k < |order| && limit < SIZE_T
    requires forall i | 0 <= i < |order| && i != k :: order[i] != order[k]
    requires Serving(prio, limit, order, a, k, j) && Effect(prio, limit, a, b, order[k])
    ensures j < limit ==> Serving(prio, limit, order, b, k, j + 1)
    ensures j == limit && k + 1 < |order| ==> Serving(prio, limit, order, b, k + 1, 0)
    ensures j == limit && k + 1 == |order| ==> Drained(prio, limit, order, b, 0)
  {
    var z := order[k];
    if j < limit {
      assert Copies(z, j + 1) == Copies(z, j) + [z];
    } else {
      Extend(order, limit, k);
      assert order[..|order|] == order;
      if k + 1 < |order| { assert Copies(order[k + 1], 0) == []; } else { assert Copies(z, 0) == []; }
    }
  }

  lemma NextCount(x: nat)
    ensures (x % SIZE_T + 1) % SIZE_T == (x + 1) % SIZE_T
  {
  }

  lemma DrainStep(prio: seq<nat>, limit: nat, order: seq<nat>, a: Board, b: Board, m: nat)
    requires InRange(prio, order) && limit < SIZE_T
    requires forall i | 0 <= i < |order| - 1 :: order[i] != order[|order| - 1]
    requires Drained(prio, limit, order, a, m) && Effect(prio, limit, a, b, order[|order| - 1])
    ensures Drained(prio, limit, order, b, m + 1)
  {
    var z := order[|order| - 1];
    var r := Reprints(limit, m);
    NextCount(limit + 1 + m);
    assert Copies(z, r + 1) == Copies(z, r) + [z];
  }

  /** One turn of a run, from a state in which task `order[k]` is being served. */
  lemma ServeTurn(prio: seq<nat>, limit: nat, order: seq<nat>, a: Board, b: Board, k: nat, j: nat)
    requires |prio| > 0 && IsOrder(prio, order) && k < |order| && limit < SIZE_T
    requires Serving(prio, limit, order, a, k, j) && StepRel(prio, limit, a, b)
    ensures j < limit ==> Serving(prio, limit, order, b, k, j + 1)
    ensures j == limit && k + 1 < |order| ==> Serving(prio, limit, order, b, k + 1, 0)
    ensures j == limit && k + 1 == |order| ==> Drained(prio, limit, order, b, 0)
  {
    PicksServed(prio, limit, order, a, b, k, j);
    StepEffect(prio, limit, a, b);
    Distinct(prio, order, k);
    ServeStep(prio, limit, order, a, b, k, j);
  }

  /** The number of turns made before call `j` of the task served in place `k`. */
  function Turn(limit: nat, k: nat, j: nat): nat {
    k * (limit + 1) + j
  }

  lemma NextTask(limit: nat, k: nat)
    ensures Turn(limit, k, limit) + 1 == Turn(limit, k + 1, 0)
  {
    assert (k + 1) * (limit + 1) == k * (limit + 1) + (limit + 1);
  }

  lemma TurnExists(limit: nat, tasks: nat, n: nat) returns (k: nat, j: nat)
    requires n < Turn(limit, tasks, 0)
    ensures k < tasks && j <= limit && n == Turn(limit, k, j)
  {
    k, j := 0, n;
    while j > limit
      invariant k < tasks && n == Turn(limit, k, j)
      decreases j
    {
      assert (k + 1) * (limit + 1) == k * (limit + 1) + (limit + 1);
      if k + 1 == tasks { assert false; }
      k, j := k + 1, j - (limit + 1);
    }
  }

  lemma StartsServing(prio: seq<nat>, limit: nat, order: seq<nat>)
    requires InRange(prio, order)
    ensures Serving(prio, limit, order, Initial(|prio|), 0, 0)
  {
    assert Copies(order[0], 0) == [];
  }

  /** In every run, turn `Turn(limit, k, j)` finds task `order[k]` being served for the j-th time. */
  lemma {:induction false} RunServes(
    prio: seq<nat>, limit: nat, order: seq<nat>, run: seq<Board>, k: nat, j: nat)
    requires |prio| > 0 && limit < SIZE_T && IsOrder(prio, order) && IsRun(prio, limit, run)
    requires k < |order| && j <= limit && Turn(limit, k, j) < |run|
    ensures Serving(prio, limit, order, run[Turn(limit, k, j)], k, j)
    decreases k, j
  {
    hide StepRel, Serving;
    var n := Turn(limit, k, j);
    if k == 0 && j == 0 {
      StartsServing(prio, limit, order);
    } else if j > 0 {
      RunServes(prio, limit, order, run, k, j - 1);
      assert Linked(prio, limit, run, n - 1);
      ServeTurn(prio, limit, order, run[n - 1], run[n], k, j - 1);
    } else {
      NextTask(limit, k - 1);
      RunServes(prio, limit, order, run, k - 1, limit);
      assert Linked(prio, limit, run, n - 1);
      ServeTurn(prio, limit, order, run[n - 1], run[n], k - 1, limit);
    }
  }

  /** In every run, the state `m` turns after the last block. */
  lemma {:induction false} RunDrains(prio: seq<nat>, limit: nat, order: seq<nat>, run: seq<Board>, m: nat)
    requires |prio| > 0 && limit < SIZE_T && IsOrder(prio, order) && IsRun(prio, limit, run)
    requires Turn(limit, |prio|, m) < |run|
    ensures Drained(prio, limit, order, run[Turn(limit, |prio|, m)], m)
    decreases m
  {
    hide StepRel, Serving, Drained;
    var n := Turn(limit, |prio|, m);
    if m == 0 {
      var k := |prio| - 1;
      NextTask(limit, k);
      RunServes(prio, limit, order, run, k, limit);
      assert Linked(prio, limit, run, n - 1);
      ServeTurn(prio, limit, order, run[n - 1], run[n], k, limit);
    } else {
      RunDrains(prio, limit, order, run, m - 1);
      assert Linked(prio, limit, run, n - 1);
      PicksIdle(prio, limit, order, run[n - 1], run[n], m - 1);
      StepEffect(prio, limit, run[n - 1], run[n]);
      Distinct(prio, order, |order| - 1);
      DrainStep(prio, limit, order, run[n - 1], run[n], m - 1);
    }
  }

  ghost predicate AllTerminated(b: Board) {
    forall s | s in b.states :: s == Term
  }

  /**
   The whole run: after exactly `tasks * (limit + 1)` turns every task has terminated, not earlier,
   and the output is `limit` lines of each task, as contiguous blocks in serving order.
   */
  lemma WholeRun(prio: seq<nat>, limit: nat, order: seq<nat>, run: seq<Board>, n: nat)
    requires |prio| > 0 && limit < SIZE_T && IsOrder(prio, order)
    requires IsRun(prio, limit, run) && n < |run|
    ensures n < |prio| * (limit + 1) ==> !AllTerminated(run[n])
    ensures n == |prio| * (limit + 1) ==> AllTerminated(run[n]) && run[n].out == Blocks(order, limit)
  {
    if n < |prio| * (limit + 1) {
      var k, j := TurnExists(limit, |prio|, n);
      RunServes(prio, limit, order, run, k, j);
      assert run[n].states[order[k]] in run[n].states;
    } else if n == |prio| * (limit + 1) {
      RunDrains(prio, limit, order, run, 0);
      var z := order[|order| - 1];
      assert Copies(z, 0) == [];
      forall x | 0 <= x < |prio|
        ensures run[n].states[x] == Term
      {
        var p := Place(prio, order, x);
      }
    }
  }

  /**
   The first scan of the program as it stands marks print_1, print_2 and print_4, each of which had the highest
   priority so far. When print_4 has ended, a scan marks print_1 and print_2, and print_3 is not looked at yet.
   */
  lemma FirstScans()
    ensures Marked([New, New, New, New], [1, 4, 3, 5]) == [Run, Run, New, Run]
    ensures Marked([Ready, Ready, New, Term], [1, 4, 3, 5]) == [Run, Run, New, Term]
  {
    hide Marked;
    Marks([New, New, New, New], [1, 4, 3, 5]);
    Marks([Ready, Ready, New, Term], [1, 4, 3, 5]);
  }

  lemma Marks(states: seq<TaskState>, prio: seq<nat>)
    requires |states| == 4 && prio == [1, 4, 3, 5]
    requires Runnable(states[0]) && Runnable(states[1]) && states[2] == New
    ensures Marked(states, prio) == [Run, Run, New, if Runnable(states[3]) then Run else states[3]]
  {
    assert prio[0] == 1 && prio[1] == 4 && prio[2] == 3 && prio[3] == 5;
    assert !Candidate(states, prio, 2) by { assert Runnable(states[1]) && prio[1] > prio[2]; }
    assert Candidate(states, prio, 0) && Candidate(states, prio, 1);
  }

  /** The program as it stands: print_4, print_2, print_3 and print_1, 20 lines each, after 84 turns. */
  lemma FourTasks(run: seq<Board>)
    requires IsRun([1, 4, 3, 5], 20, run) && |run| > 84
    ensures AllTerminated(run[84]) && run[84].out == Copies(3, 20) + Copies(1, 20) + Copies(2, 20) + Copies(0, 20)
  {
    var prio: seq<nat>, order: seq<nat> := [1, 4, 3, 5], [3, 1, 2, 0];
    assert prio[0] == 1 && prio[1] == 4 && prio[2] == 3 && prio[3] == 5;
    assert forall x | 0 <= x < 4 :: x in order by {
      assert order[0] == 3 && order[1] == 1 && order[2] == 2 && order[3] == 0;
    }
    WholeRun(prio, 20, order, run, 84);
    hide IsRun, Copies;
    Extend(order, 20, 0);
    Extend(order, 20, 1);
    Extend(order, 20, 2);
    Extend(order, 20, 3);
    assert order[..0] == [] && order[..4] == order && Blocks([], 20) == [];
    assert [] + Copies(3, 20) == Copies(3, 20);
  }

  lemma {:induction false} ReprintsExactly(limit: nat, m: nat)
    requires limit < SIZE_T
    ensures Reprints(limit, m) == 0 <==> (limit == 0 || m < SIZE_T - limit)
    decreases m
  {
    if m > 0 {
      ReprintsExactly(limit, m - 1);
    }
  }

  /**
   What follows the last block. The idle main loop keeps calling the last task, so its counter
   wraps: nothing more is printed if, and only if, fewer than 2^32 - limit further turns are made
   (or the limit is zero). With an unbounded counter the output would stay as it is for ever.
   */
  lemma QuietAfterwards(prio: seq<nat>, limit: nat, order: seq<nat>, run: seq<Board>, n: nat)
    requires |prio| > 0 && limit < SIZE_T && IsOrder(prio, order)
    requires IsRun(prio, limit, run) && |prio| * (limit + 1) <= n < |run|
    ensures run[n].out == Blocks(order, limit) <==>
            (limit == 0 || n - |prio| * (limit + 1) < SIZE_T - limit)
    ensures Blocks(order, limit) <= run[n].out
    ensures forall i | |Blocks(order, limit)| <= i < |run[n].out| :: run[n].out[i] == order[|order| - 1]
  {
    var m := n - |prio| * (limit + 1);
    RunDrains(prio, limit, order, run, m);
    ReprintsExactly(limit, m);
    assert |run[n].out| == |Blocks(order, limit)| + Reprints(limit, m);
  }

  /** A serving order exists for all priorities, and there is only one. */
  lemma OrderExists(prio: seq<nat>) returns (order: seq<nat>)
    ensures IsOrder(prio, order)
  {
    order := OrderPrefix(prio, |prio|);
  }

  /** Insertion of task `n - 1` into the order of the tasks below it. */
  lemma {:induction false} OrderPrefix(prio: seq<nat>, n: nat) returns (order: seq<nat>)
    requires n <= |prio|
    ensures |order| == n
    ensures forall i | 0 <= i < n :: order[i] < n
    ensures forall i, j | 0 <= i < j < n :: Before(prio, order[i], order[j])
    ensures forall x | 0 <= x < n :: x in order
    decreases n
  {
    order := [];
    if n > 0 {
      var rest := OrderPrefix(prio, n - 1);
      var p := 0;
      while p < n - 1 && Before(prio, rest[p], n - 1)
        invariant p <= n - 1
        invariant forall i | 0 <= i < p :: Before(prio, rest[i], n - 1)
      {
        p := p + 1;
      }
      order := rest[..p] + [n - 1] + rest[p..];
      assert forall x | 0 <= x < n - 1 :: x in rest ==> x in rest[..p] || x in rest[p..];
    }
  }

  /** The n-th task of `b` is the n-th task of `a`, or is served after it. */
  lemma NotServedEarlier(prio: seq<nat>, a: seq<nat>, b: seq<nat>, n: nat)
    requires IsOrder(prio, a) && IsOrder(prio, b) && 0 < n <= |prio|
    requires a[..n - 1] == b[..n - 1]
    ensures a[n - 1] == b[n - 1] || Before(prio, a[n - 1], b[n - 1])
  {
    var i := Place(prio, a, b[n - 1]);
    if i < n - 1 {
      assert a[..n - 1][i] == b[..n - 1][i];
      Distinct(prio, b, n - 1);
    }
  }

  lemma {:induction false} OrderUnique(prio: seq<nat>, a: seq<nat>, b: seq<nat>, n: nat)
    requires IsOrder(prio, a) && IsOrder(prio, b) && n <= |prio|
    ensures a[..n] == b[..n]
    decreases n
  {
    if n > 0 {
      OrderUnique(prio, a, b, n - 1);
      NotServedEarlier(prio, a, b, n);
      NotServedEarlier(prio, b, a, n);
      assert a[..n] == a[..n - 1] + [a[n - 1]];
      assert b[..n] == b[..n - 1] + [b[n - 1]];
    }
  }
}
