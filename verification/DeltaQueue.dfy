/** The sleep queue: tasks wait in a list whose entries store only the number of
    ticks after their predecessor, so that a timer tick touches the head alone.
    The reference it is measured against is the plain list of absolute
    countdowns, where every tick decrements every entry. */
module DeltaQueue {
  import opened Basics

  const MAX_SLEEP_ENTRIES: nat := 256

  datatype Entry<T> = Entry(delta: nat, id: T)

  datatype Countdown<T> = Countdown(id: T, left: nat)

  // ---------------------------------------------------------------- delta form

  /** The walk of `insert`: pass every entry that expires strictly earlier, then
      take over the remaining ticks from the successor. */
  function InsertWalk<T>(q: seq<Entry<T>>, id: T, ticks: nat): (r: seq<Entry<T>>)
    ensures |r| == |q| + 1
  {
    if q == [] then [Entry(ticks, id)]
    else if ticks <= q[0].delta then
      [Entry(ticks, id), q[0].(delta := q[0].delta - ticks)] + q[1..]
    else
      [q[0]] + InsertWalk(q[1..], id, ticks - q[0].delta)
  }

  /** A zero sleep and a full queue are both silent no-ops. */
  function Insert<T>(q: seq<Entry<T>>, id: T, ticks: nat): (r: seq<Entry<T>>)
  {
    if ticks == 0 || |q| == MAX_SLEEP_ENTRIES then q else InsertWalk(q, id, ticks)
  }

  function DecrementHead<T>(q: seq<Entry<T>>): (r: seq<Entry<T>>)
    ensures |r| == |q|
  {
    if q == [] || q[0].delta == 0 then q else [q[0].(delta := q[0].delta - 1)] + q[1..]
  }

  /** What is left after every expired head has been popped. */
  function DropExpired<T>(q: seq<Entry<T>>): (r: seq<Entry<T>>)
    ensures |r| <= |q|
  {
    if q != [] && q[0].delta == 0 then DropExpired(q[1..]) else q
  }

  /** The ids of the popped heads, in the order in which they are woken. */
  function ExpiredIds<T>(q: seq<Entry<T>>): (r: seq<T>)
  {
    if q != [] && q[0].delta == 0 then [q[0].id] + ExpiredIds(q[1..]) else []
  }

  function Tick<T>(q: seq<Entry<T>>): (r: seq<Entry<T>>)
  {
    DropExpired(DecrementHead(q))
  }

  function Woken<T>(q: seq<Entry<T>>): (r: seq<T>)
  {
    ExpiredIds(DecrementHead(q))
  }

  /** Between ticks the head, if there is one, still has time to wait. */
  predicate HeadPositive<T>(q: seq<Entry<T>>)
  {
    q != [] ==> 0 < q[0].delta
  }

  // ------------------------------------------------------------ reference form

  /** The absolute countdowns, `passed` ticks being accounted for already. */
  function Countdowns<T>(q: seq<Entry<T>>, passed: nat): (r: seq<Countdown<T>>)
    ensures |r| == |q|
  {
    if q == [] then []
    else [Countdown(q[0].id, passed + q[0].delta)] + Countdowns(q[1..], passed + q[0].delta)
  }

  /** Insertion into a list of countdowns: in front of the first one that is not
      earlier. Every other entry keeps its id and its countdown. */
  function InsertCountdown<T>(a: seq<Countdown<T>>, c: Countdown<T>): (r: seq<Countdown<T>>)
  {
    if a == [] || c.left <= a[0].left then [c] + a
    else [a[0]] + InsertCountdown(a[1..], c)
  }

  /** One tick of wall-clock time for every sleeper; the expired ones leave. */
  function Elapse<T>(a: seq<Countdown<T>>): (r: seq<Countdown<T>>)
  {
    if a == [] then []
    else if a[0].left <= 1 then Elapse(a[1..])
    else [Countdown(a[0].id, a[0].left - 1)] + Elapse(a[1..])
  }

  /** The sleepers whose countdown ends with this tick. */
  function Due<T>(a: seq<Countdown<T>>): (r: seq<T>)
  {
    if a == [] then []
    else if a[0].left <= 1 then [a[0].id] + Due(a[1..])
    else Due(a[1..])
  }

  // ---------------------------------------------------------------- refinement

  lemma {:induction false} InsertWalkRefines<T>(q: seq<Entry<T>>, id: T, ticks: nat, passed: nat)
    ensures Countdowns(InsertWalk(q, id, ticks), passed)
         == InsertCountdown(Countdowns(q, passed), Countdown(id, passed + ticks))
  {
    if q == [] {
    } else if ticks <= q[0].delta {
      var r := InsertWalk(q, id, ticks);
      assert r[1..] == [q[0].(delta := q[0].delta - ticks)] + q[1..];
      assert r[1..][1..] == q[1..];
      assert Countdowns(r[1..], passed + ticks) == Countdowns(q, passed);
    } else {
      InsertWalkRefines(q[1..], id, ticks - q[0].delta, passed + q[0].delta);
      assert InsertWalk(q, id, ticks)[1..] == InsertWalk(q[1..], id, ticks - q[0].delta);
      assert Countdowns(q, passed)[1..] == Countdowns(q[1..], passed + q[0].delta);
    }
  }

  /** `insert` is insertion into the list of countdowns: nobody else's wake-up
      moves, and the new sleeper waits exactly as long as asked. */
  lemma {:induction false} InsertRefines<T>(q: seq<Entry<T>>, id: T, ticks: nat)
    ensures Countdowns(Insert(q, id, ticks), 0)
         == if ticks == 0 || |q| == MAX_SLEEP_ENTRIES then Countdowns(q, 0)
            else InsertCountdown(Countdowns(q, 0), Countdown(id, ticks))
    ensures HeadPositive(q) ==> HeadPositive(Insert(q, id, ticks))
  {
    InsertWalkRefines(q, id, ticks, 0);
  }

  lemma {:induction false} ElapseLater<T>(q: seq<Entry<T>>, passed: nat)
    requires 1 <= passed
    ensures Elapse(Countdowns(q, passed + 1)) == Countdowns(q, passed)
    ensures Due(Countdowns(q, passed + 1)) == []
  {
    if q != [] {
      var a := Countdowns(q, passed + 1);
      ElapseLater(q[1..], passed + q[0].delta);
      assert a[1..] == Countdowns(q[1..], passed + q[0].delta + 1);
    }
  }

  /** After the head has been decremented, popping the zero heads is exactly what
      one tick does to the countdowns. */
  lemma {:induction false} DropRefines<T>(q: seq<Entry<T>>)
    ensures Elapse(Countdowns(q, 1)) == Countdowns(DropExpired(q), 0)
    ensures Due(Countdowns(q, 1)) == ExpiredIds(q)
    ensures HeadPositive(DropExpired(q))
  {
    if q != [] {
      assert Countdowns(q, 1)[1..] == Countdowns(q[1..], 1 + q[0].delta);
      if q[0].delta == 0 {
        DropRefines(q[1..]);
      } else {
        ElapseLater(q[1..], q[0].delta);
      }
    }
  }

  /** One timer tick wakes exactly the sleepers whose countdown ends now, in queue
      order, and takes one tick off every other countdown. */
  lemma {:induction false} TickRefines<T>(q: seq<Entry<T>>)
    requires HeadPositive(q)
    ensures Countdowns(Tick(q), 0) == Elapse(Countdowns(q, 0))
    ensures Woken(q) == Due(Countdowns(q, 0))
    ensures HeadPositive(Tick(q))
  {
    var d := DecrementHead(q);
    DropRefines(d);
    if q != [] {
      assert d[1..] == q[1..];
      assert Countdowns(d, 1) == Countdowns(q, 0);
    }
  }

  // ------------------------------------------------------ the n-th tick, exactly

  datatype Op<T> = Sleep(id: T, ticks: nat) | ClockTick

  function Apply<T>(q: seq<Entry<T>>, op: Op<T>): (r: seq<Entry<T>>)
  {
    match op
    case Sleep(id, ticks) => Insert(q, id, ticks)
    case ClockTick => Tick(q)
  }

  function WakesOf<T>(q: seq<Entry<T>>, op: Op<T>): (r: seq<T>)
  {
    if op.ClockTick? then Woken(q) else []
  }

  function RunQueue<T>(q: seq<Entry<T>>, ops: seq<Op<T>>): (r: seq<Entry<T>>)
    decreases ops
  {
    if ops == [] then q else RunQueue(Apply(q, ops[0]), ops[1..])
  }

  /** Everybody woken during the run, in order. */
  function RunWoken<T>(q: seq<Entry<T>>, ops: seq<Op<T>>): (r: seq<T>)
    decreases ops
  {
    if ops == [] then [] else WakesOf(q, ops[0]) + RunWoken(Apply(q, ops[0]), ops[1..])
  }

  function TickCount<T>(ops: seq<Op<T>>): (n: nat)
  {
    if ops == [] then 0 else (if ops[0].ClockTick? then 1 else 0) + TickCount(ops[1..])
  }

  function Sooner(a: Option<nat>, n: nat): (r: nat)
  {
    if a.Some? && a.value < n then a.value else n
  }

  /** The ticks that the earliest of the entries of `id` has to go, if it has any. */
  function Earliest<T(==)>(a: seq<Countdown<T>>, id: T): (r: Option<nat>)
  {
    if a == [] then None
    else if a[0].id == id then Some(Sooner(Earliest(a[1..], id), a[0].left))
    else Earliest(a[1..], id)
  }

  /** It is the minimum over all entries of `id`. */
  lemma {:induction false} EarliestIsMinimum<T>(a: seq<Countdown<T>>, id: T)
    ensures Earliest(a, id).None? <==> forall i :: 0 <= i < |a| ==> a[i].id != id
    ensures Earliest(a, id).Some? ==> exists i :: 0 <= i < |a| && a[i] == Countdown(id, Earliest(a, id).value)
    ensures Earliest(a, id).Some? ==> forall i :: 0 <= i < |a| && a[i].id == id ==> Earliest(a, id).value <= a[i].left
  {
    if a != [] {
      var rest := a[1..];
      EarliestIsMinimum(rest, id);
      assert forall i :: 0 <= i < |rest| ==> rest[i] == a[i + 1];
      assert forall i :: 1 <= i < |a| ==> a[i] == rest[i - 1];
      if Earliest(rest, id).Some? {
        var k :| 0 <= k < |rest| && rest[k] == Countdown(id, Earliest(rest, id).value);
        assert a[k + 1] == rest[k];
      }
      if a[0].id == id {
        assert a[0] == Countdown(id, a[0].left);
      }
    }
  }

  /** The new countdown goes right behind those that end earlier; the others stay. */
  lemma {:induction false} InsertKeepsOthers<T>(a: seq<Countdown<T>>, c: Countdown<T>) returns (k: nat)
    ensures k <= |a| && InsertCountdown(a, c) == a[..k] + [c] + a[k..]
    ensures (forall i :: 0 <= i < k ==> a[i].left < c.left) && (k < |a| ==> c.left <= a[k].left)
  {
    if a == [] || c.left <= a[0].left {
      k := 0;
      assert a[..0] + [c] + a[0..] == [c] + a;
    } else {
      var rest := a[1..];
      var j := InsertKeepsOthers(rest, c);
      k := j + 1;
      assert forall i :: 1 <= i < k ==> a[i] == rest[i - 1];
      assert a[..k] == [a[0]] + rest[..j] && a[k..] == rest[j..];
      assert InsertCountdown(a, c) == [a[0]] + InsertCountdown(rest, c);
      Regroup([a[0]], rest[..j], [c], rest[j..]);
    }
  }

  lemma Regroup<T>(a: seq<T>, b: seq<T>, c: seq<T>, d: seq<T>)
    ensures a + (b + c + d) == (a + b) + c + d
  {
  }

  /** One tick: `id` is woken exactly if its earliest countdown ends, and otherwise has
      one tick less to go. */
  lemma {:induction false} ElapseTracks<T>(a: seq<Countdown<T>>, id: T)
    ensures id in Due(a) <==> Earliest(a, id).Some? && Earliest(a, id).value <= 1
    ensures id !in Due(a) ==>
              Earliest(Elapse(a), id) ==
              match Earliest(a, id) case None => None case Some(n) => Some(n - 1)
    decreases |a|
  {
    if a != [] {
      ElapseTracks(a[1..], id);
      if a[0].left > 1 {
        assert Elapse(a)[1..] == Elapse(a[1..]);
      }
    }
  }

  lemma {:induction false} InsertTracks<T>(a: seq<Countdown<T>>, c: Countdown<T>, id: T)
    ensures Earliest(InsertCountdown(a, c), id) ==
            if c.id == id then Some(Sooner(Earliest(a, id), c.left)) else Earliest(a, id)
  {
    var r := InsertCountdown(a, c);
    if a == [] || c.left <= a[0].left {
      assert r[1..] == a;
    } else {
      InsertTracks(a[1..], c, id);
      assert r[1..] == InsertCountdown(a[1..], c);
    }
  }

  /** What an insertion does to the earliest entry of any id. */
  lemma InsertEarliest<T>(q: seq<Entry<T>>, other: T, ticks: nat, id: T)
    ensures Earliest(Countdowns(Insert(q, other, ticks), 0), id) ==
            if other == id && ticks != 0 && |q| != MAX_SLEEP_ENTRIES
            then Some(Sooner(Earliest(Countdowns(q, 0), id), ticks))
            else Earliest(Countdowns(q, 0), id)
  {
    InsertRefines(q, other, ticks);
    InsertTracks(Countdowns(q, 0), Countdown(other, ticks), id);
  }

  /** Between ticks every countdown is positive. */
  lemma {:induction false} CountdownsPositive<T>(q: seq<Entry<T>>, passed: nat, id: T)
    requires 0 < passed || HeadPositive(q)
    ensures Earliest(Countdowns(q, passed), id).Some? ==> Earliest(Countdowns(q, passed), id).value >= 1
  {
    if q != [] {
      assert Countdowns(q, passed)[1..] == Countdowns(q[1..], passed + q[0].delta);
      CountdownsPositive(q[1..], passed + q[0].delta, id);
    }
  }

  /** The n-th tick exactly: whatever else is put to sleep in between, and however many
      entries the sleeper has, it is not woken before its earliest entry ends, and is
      woken by the tick with which that one ends. */
  lemma {:induction false} WokenByExactlyTheNthTick<T>(q: seq<Entry<T>>, id: T, left: nat, ops: seq<Op<T>>)
    requires HeadPositive(q) && Earliest(Countdowns(q, 0), id) == Some(left)
    requires forall op :: op in ops && op.Sleep? ==> op.id != id
    ensures TickCount(ops) < left ==> id !in RunWoken(q, ops)
    ensures TickCount(ops) < left ==> HeadPositive(RunQueue(q, ops))
    ensures TickCount(ops) < left ==> Earliest(Countdowns(RunQueue(q, ops), 0), id) == Some(left - TickCount(ops))
    ensures left <= TickCount(ops) ==> id in RunWoken(q, ops)
    decreases |ops|
  {
    CountdownsPositive(q, 0, id);
    if ops != [] {
      var q' := Apply(q, ops[0]);
      match ops[0] {
        case Sleep(other, ticks) =>
          InsertRefines(q, other, ticks);
          InsertEarliest(q, other, ticks, id);
          WokenByExactlyTheNthTick(q', id, left, ops[1..]);
        case ClockTick =>
          TickRefines(q);
          ElapseTracks(Countdowns(q, 0), id);
          if 1 < left {
            WokenByExactlyTheNthTick(q', id, left - 1, ops[1..]);
          }
      }
    }
  }

  /** Without an entry a task is never woken. */
  lemma {:induction false} NeverWokenWithoutEntry<T>(q: seq<Entry<T>>, id: T, ops: seq<Op<T>>)
    requires HeadPositive(q) && Earliest(Countdowns(q, 0), id).None?
    requires forall op :: op in ops && op.Sleep? ==> op.id != id
    ensures id !in RunWoken(q, ops)
    decreases |ops|
  {
    if ops != [] {
      match ops[0] {
        case Sleep(other, ticks) =>
          InsertRefines(q, other, ticks);
          InsertEarliest(q, other, ticks, id);
        case ClockTick =>
          TickRefines(q);
          ElapseTracks(Countdowns(q, 0), id);
      }
      NeverWokenWithoutEntry(Apply(q, ops[0]), id, ops[1..]);
    }
  }

  /** When the earliest entry of `id` ends once it was put to sleep for `ticks`: a request
      for no time and one that meets a full queue change nothing. */
  function DueAfter<T(==)>(q: seq<Entry<T>>, id: T, ticks: nat): (r: Option<nat>)
  {
    var older := Earliest(Countdowns(q, 0), id);
    if ticks == 0 || |q| == MAX_SLEEP_ENTRIES then older else Some(Sooner(older, ticks))
  }

  /** A task put to sleep for `ticks` is woken when the earlier of this and its older
      entries ends, and not before; on a full queue, when its older entries say so, or
      never. */
  lemma {:induction false} SleepLastsExactly<T>(q: seq<Entry<T>>, id: T, ticks: nat, ops: seq<Op<T>>)
    requires HeadPositive(q)
    requires forall op :: op in ops && op.Sleep? ==> op.id != id
    ensures id in RunWoken(Insert(q, id, ticks), ops) <==>
            DueAfter(q, id, ticks).Some? && DueAfter(q, id, ticks).value <= TickCount(ops)
  {
    var r := Insert(q, id, ticks);
    InsertRefines(q, id, ticks);
    InsertEarliest(q, id, ticks, id);
    match DueAfter(q, id, ticks)
    case None => NeverWokenWithoutEntry(r, id, ops);
    case Some(n) => WokenByExactlyTheNthTick(r, id, n, ops);
  }

  /** The sleeper is woken by exactly the tick it asked for. */
  ghost predicate Honoured<T>(q: seq<Entry<T>>, id: T, ops: seq<Op<T>>)
  {
    id !in RunWoken(q, ops) && id in RunWoken(q, ops + [ClockTick])
  }

  /** So a request is honoured exactly if no older entry of the same id has less to go,
      and there is room for it, or an older entry for the same moment. */
  lemma {:induction false} SleepIsHonouredIff<T>(q: seq<Entry<T>>, id: T, ticks: nat, ops: seq<Op<T>>)
    requires HeadPositive(q) && TickCount(ops) + 1 == ticks
    requires forall op :: op in ops && op.Sleep? ==> op.id != id
    ensures Honoured(Insert(q, id, ticks), id, ops) <==>
            && (forall c :: c in Countdowns(q, 0) && c.id == id ==> ticks <= c.left)
            && (|q| != MAX_SLEEP_ENTRIES || Countdown(id, ticks) in Countdowns(q, 0))
  {
    hide RunWoken, Countdowns, Insert, Earliest, TickCount;
    var a := Countdowns(q, 0);
    OneMoreTick(ops);
    SleepLastsExactly(q, id, ticks, ops);
    SleepLastsExactly(q, id, ticks, ops + [ClockTick]);
    EarliestIsMinimum(a, id);
    if Earliest(a, id).Some? {
      var i :| 0 <= i < |a| && a[i] == Countdown(id, Earliest(a, id).value);
      assert a[i] in a;
    }
  }

  lemma {:induction false} OneMoreTick<T>(ops: seq<Op<T>>)
    ensures TickCount(ops + [ClockTick]) == TickCount(ops) + 1
  {
    if ops != [] {
      assert (ops + [ClockTick])[1..] == ops[1..] + [ClockTick];
      OneMoreTick(ops[1..]);
    }
  }

  lemma {:induction false} CountdownIds<T>(q: seq<Entry<T>>, passed: nat)
    ensures forall i :: 0 <= i < |q| ==> Countdowns(q, passed)[i].id == q[i].id
  {
    if q != [] {
      CountdownIds(q[1..], passed + q[0].delta);
      assert forall i :: 0 < i < |q| ==> Countdowns(q, passed)[i] == Countdowns(q[1..], passed + q[0].delta)[i - 1];
    }
  }

  // ------------------------------------------------------- the queue in an array

  ghost predicate AllSome<T>(s: seq<Option<T>>)
  {
    forall i :: 0 <= i < |s| ==> s[i].Some?
  }

  ghost function Values<T>(s: seq<Option<T>>): (r: seq<T>)
    requires AllSome(s)
    ensures |r| == |s|
    ensures forall i :: 0 <= i < |s| ==> r[i] == s[i].value
  {
    seq(|s|, i requires 0 <= i < |s| => s[i].value)
  }

  /** `e` placed at `pos`, its ticks taken out of the entry that follows. */
  ghost function Spliced<T>(q: seq<Entry<T>>, pos: nat, e: Entry<T>): (r: seq<Entry<T>>)
    requires pos <= |q|
    requires pos < |q| ==> e.delta <= q[pos].delta
    ensures |r| == |q| + 1
    ensures r[pos] == e
    ensures forall i :: 0 <= i < pos ==> r[i] == q[i]
    ensures pos < |q| ==> r[pos + 1] == q[pos].(delta := q[pos].delta - e.delta)
    ensures forall i :: pos + 1 < i < |r| ==> r[i] == q[i - 1]
  {
    if pos == |q| then q + [e]
    else q[..pos] + [e, q[pos].(delta := q[pos].delta - e.delta)] + q[pos + 1..]
  }

  lemma WalkStarts<T>(q: seq<Entry<T>>, id: T, left: nat)
    ensures InsertWalk(q, id, left) == q[..0] + InsertWalk(q[0..], id, left)
  {
    hide InsertWalk;
    assert q[0..] == q;
  }

  lemma WalkPasses<T>(q: seq<Entry<T>>, id: T, pos: nat, left: nat)
    requires pos < |q| && q[pos].delta < left
    ensures q[..pos] + InsertWalk(q[pos..], id, left)
         == q[..pos + 1] + InsertWalk(q[pos + 1..], id, left - q[pos].delta)
  {
    assert q[pos..][1..] == q[pos + 1..];
  }

  lemma WalkStops<T>(q: seq<Entry<T>>, id: T, pos: nat, left: nat)
    requires pos <= |q|
    requires pos < |q| ==> left <= q[pos].delta
    ensures q[..pos] + InsertWalk(q[pos..], id, left) == Spliced(q, pos, Entry(left, id))
  {
    if pos < |q| {
      assert q[pos..][1..] == q[pos + 1..];
    }
  }

  /** Active entries sit contiguously in `[0..len)`; all later slots are empty. */
  class SleepQueue<T> {
    const entries: array<Option<Entry<T>>>
    var len: nat

    ghost predicate Valid()
      reads this, entries
    {
      && entries.Length == MAX_SLEEP_ENTRIES
      && len <= MAX_SLEEP_ENTRIES
      && AllSome(entries[..len])
      && forall i :: len <= i < MAX_SLEEP_ENTRIES ==> entries[i].None?
    }

    ghost function Queue(): (q: seq<Entry<T>>)
      requires Valid()
      reads this, entries
    {
      Values(entries[..len])
    }

    constructor ()
      ensures Valid() && fresh(entries) && Queue() == []
    {
      entries := new Option<Entry<T>>[MAX_SLEEP_ENTRIES](_ => None);
      len := 0;
    }

    /** How to recognise the represented queue, entry by entry. */
    lemma QueueIs(q: seq<Entry<T>>)
      requires entries.Length == MAX_SLEEP_ENTRIES && len == |q| <= MAX_SLEEP_ENTRIES
      requires forall i :: 0 <= i < |q| ==> entries[i] == Some(q[i])
      requires forall i :: |q| <= i < MAX_SLEEP_ENTRIES ==> entries[i].None?
      ensures Valid() && Queue() == q
    {
    }

    /** Walks past every entry that expires strictly before the new one. */
    method InsertionPoint(id: T, ticks: nat) returns (pos: nat, remaining: nat)
      requires Valid() && 0 < ticks
      ensures pos <= len
      ensures pos < len ==> remaining <= Queue()[pos].delta
      ensures InsertWalk(Queue(), id, ticks) == Spliced(Queue(), pos, Entry(remaining, id))
    {
      hide InsertWalk, Spliced;
      ghost var q := Queue();
      pos, remaining := 0, ticks;
      WalkStarts(q, id, ticks);
      while pos < len && entries[pos].value.delta < remaining
        invariant 0 <= pos <= len
        invariant InsertWalk(q, id, ticks) == q[..pos] + InsertWalk(q[pos..], id, remaining)
      {
        assert entries[pos].value == q[pos];
        WalkPasses(q, id, pos, remaining);
        remaining := remaining - entries[pos].value.delta;
        pos := pos + 1;
      }
      WalkStops(q, id, pos, remaining);
    }

    /** Finds the insertion point, shifts the tail right, writes the entry and
        takes its ticks out of the successor. */
    method Add(id: T, ticks: nat)
      requires Valid()
      modifies this, entries
      ensures Valid()
      ensures Queue() == Insert(old(Queue()), id, ticks)
    {
      if ticks == 0 || len == MAX_SLEEP_ENTRIES {
        return;
      }
      ghost var q := Queue();
      var pos, remaining := InsertionPoint(id, ticks);
      ShiftRight(pos, q);
      entries[pos] := Some(Entry(remaining, id));
      len := len + 1;
      if pos + 1 < len {
        var next := entries[pos + 1].value;
        entries[pos + 1] := Some(next.(delta := next.delta - remaining));
      }
      QueueIs(Spliced(q, pos, Entry(remaining, id)));
    }

    /** Moves `[pos..len)` one slot to the right, leaving `pos` empty. */
    method ShiftRight(pos: nat, ghost q: seq<Entry<T>>)
      requires Valid() && q == Queue() && len < MAX_SLEEP_ENTRIES && pos <= len
      modifies entries
      ensures forall i :: 0 <= i < pos ==> entries[i] == Some(q[i])
      ensures entries[pos].None?
      ensures forall i :: pos < i <= len ==> entries[i] == Some(q[i - 1])
      ensures forall i :: len < i < MAX_SLEEP_ENTRIES ==> entries[i].None?
    {
      var i := len;
      while pos < i
        invariant pos <= i <= len
        invariant entries[i].None?
        invariant forall j :: 0 <= j < i ==> entries[j] == Some(q[j])
        invariant forall j :: i < j <= len ==> entries[j] == Some(q[j - 1])
        invariant forall j :: len < j < MAX_SLEEP_ENTRIES ==> entries[j].None?
      {
        entries[i] := entries[i - 1];
        entries[i - 1] := None;
        i := i - 1;
      }
    }

    /** First half of a tick: only the head is touched. */
    method DecrementFirst()
      requires Valid()
      modifies entries
      ensures Valid()
      ensures Queue() == DecrementHead(old(Queue()))
    {
      ghost var q := Queue();
      assert forall i :: 0 <= i < len ==> entries[i] == Some(q[i]);
      if 0 < len && 0 < entries[0].value.delta {
        entries[0] := Some(entries[0].value.(delta := entries[0].value.delta - 1));
      }
      QueueIs(DecrementHead(q));
    }

    /** Pops the head and closes the gap one slot at a time. */
    method PopFirst() returns (id: T)
      requires Valid() && 0 < len
      modifies this, entries
      ensures Valid()
      ensures id == old(Queue())[0].id
      ensures Queue() == old(Queue())[1..]
    {
      ghost var q := Queue();
      ghost var rest := q[1..];
      id := entries[0].value.id;
      entries[0] := None;
      var i := 0;
      while i < len - 1
        invariant len == |q| && 0 <= i <= len - 1
        invariant entries[i].None?
        invariant forall j :: 0 <= j < i ==> entries[j] == Some(rest[j])
        invariant forall j :: i < j < len ==> entries[j] == Some(q[j])
        invariant forall j :: len <= j < MAX_SLEEP_ENTRIES ==> entries[j].None?
      {
        entries[i] := entries[i + 1];
        entries[i + 1] := None;
        i := i + 1;
      }
      len := len - 1;
      QueueIs(rest);
    }
  }
}
