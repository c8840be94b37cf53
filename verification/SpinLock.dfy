/** The spinlock: a signed byte that every CPU decrements, watches and resets with single
    instructions, under any interleaving of any number of CPUs. */
module SpinLock {

  /** Where a CPU is: elsewhere, at `lock; decb`, in the `cmpb` loop, or past the acquire. */
  datatype Place = Away | AtDec | Spinning | Holding

  /** The low byte of `slock`, as the processor reads it, and each CPU's place. */
  datatype State = State(slock: int, at: seq<Place>)

  /** A signed byte after `decb`. */
  function DecByte(b: int): int
    requires -128 <= b <= 127
  {
    if b == -128 then 127 else b - 1
  }

  predicate Bytes(s: State)
  {
    -128 <= s.slock <= 127
  }

  function Unlocked(n: nat): State
  {
    State(1, seq(n, i => Away))
  }

  /** CPU c executes its next instruction. */
  function Step(s: State, c: nat): (t: State)
    requires Bytes(s) && c < |s.at|
    ensures Bytes(t) && |t.at| == |s.at|
  {
    match s.at[c]
    case Away => s.(at := s.at[c := AtDec])
    case AtDec =>
      var b := DecByte(s.slock);
      State(b, s.at[c := if b >= 0 then Holding else Spinning])
    case Spinning => s.(at := s.at[c := if s.slock <= 0 then Spinning else AtDec])
    case Holding => State(1, s.at[c := Away])
  }

  /** n CPUs interleaved as `sched` says, from an unlocked lock. */
  function Run(n: nat, sched: seq<nat>): (s: State)
    requires forall i :: 0 <= i < |sched| ==> sched[i] < n
    ensures Bytes(s) && |s.at| == n
  {
    if sched == [] then Unlocked(n)
    else Step(Run(n, sched[..|sched| - 1]), sched[|sched| - 1])
  }

  function Number(at: seq<Place>, p: Place): nat
  {
    if at == [] then 0 else Number(at[..|at| - 1], p) + (if at[|at| - 1] == p then 1 else 0)
  }

  lemma NumberBound(at: seq<Place>)
    ensures Number(at, Holding) + Number(at, Spinning) + Number(at, AtDec) <= |at|
  {
  }

  lemma {:induction false} NumberUpdate(at: seq<Place>, c: nat, q: Place, p: Place)
    requires c < |at|
    ensures Number(at[c := q], p)
            == Number(at, p) - (if at[c] == p then 1 else 0) + (if q == p then 1 else 0)
  {
    var n := |at| - 1;
    if c < n {
      assert at[c := q][..n] == at[..n][c := q];
      NumberUpdate(at[..n], c, q, p);
    } else {
      assert at[c := q][..n] == at[..n];
    }
  }

  lemma {:induction false} NumberZero(at: seq<Place>, p: Place)
    ensures Number(at, p) == 0 <==> forall c :: 0 <= c < |at| ==> at[c] != p
  {
    if at == [] {
    } else {
      NumberZero(at[..|at| - 1], p);
      assert forall c :: 0 <= c < |at| - 1 ==> at[..|at| - 1][c] == at[c];
    }
  }

  /** With nobody past the acquire the byte is 1; with somebody, it is 0 less the decrements
      that failed since, and those CPUs are still spinning. */
  ghost predicate Sound(s: State)
  {
    var held := Number(s.at, Holding);
    && (held == 0 ==> s.slock == 1)
    && (held != 0 ==> held == 1 && s.slock <= 0 <= s.slock + Number(s.at, Spinning))
  }

  lemma StepSound(s: State, c: nat)
    requires Bytes(s) && |s.at| <= 129 && c < |s.at| && Sound(s)
    ensures Sound(Step(s, c))
  {
    var t := Step(s, c);
    NumberUpdate(s.at, c, t.at[c], Holding);
    NumberUpdate(s.at, c, t.at[c], Spinning);
    NumberUpdate(s.at, c, t.at[c], AtDec);
    NumberBound(s.at);
    NumberZero(s.at, Holding);
    NumberZero(s.at, AtDec);
  }

  lemma StepExclusive(s: State, c: nat)
    requires Bytes(s) && |s.at| <= 129 && c < |s.at| && Sound(s)
    ensures Exclusive(Step(s, c))
  {
    StepSound(s, c);
    NumberOne(Step(s, c).at, Holding);
  }

  lemma {:induction false} RunSound(n: nat, sched: seq<nat>)
    requires n <= 129 && forall i :: 0 <= i < |sched| ==> sched[i] < n
    ensures Sound(Run(n, sched))
  {
    if sched == [] {
      NumberZero(Unlocked(n).at, Holding);
    } else {
      RunSound(n, sched[..|sched| - 1]);
      StepSound(Run(n, sched[..|sched| - 1]), sched[|sched| - 1]);
    }
  }

  ghost predicate Exclusive(s: State)
  {
    forall c, d :: 0 <= c < d < |s.at| ==> !(s.at[c] == Holding && s.at[d] == Holding)
  }

  lemma NumberOne(at: seq<Place>, p: Place)
    ensures Number(at, p) <= 1 <==> forall c, d :: 0 <= c < d < |at| ==> !(at[c] == p && at[d] == p)
  {
    if at == [] {
    } else {
      var n := |at| - 1;
      NumberOne(at[..n], p);
      NumberZero(at[..n], p);
      assert forall c :: 0 <= c < n ==> at[..n][c] == at[c];
    }
  }

  /** `spin_is_locked`. */
  predicate IsLocked(s: State)
  {
    s.slock <= 0
  }

  /** Whatever the interleaving, up to 129 CPUs exclude each other, and the lock reads as
      locked exactly while some CPU is past the acquire. */
  lemma MutualExclusion(n: nat, sched: seq<nat>)
    requires n <= 129 && forall i :: 0 <= i < |sched| ==> sched[i] < n
    ensures Exclusive(Run(n, sched))
    ensures IsLocked(Run(n, sched)) <==> exists c :: 0 <= c < n && Run(n, sched).at[c] == Holding
    ensures !IsLocked(Run(n, sched)) ==> Run(n, sched).slock == 1
  {
    RunSound(n, sched);
    NumberOne(Run(n, sched).at, Holding);
    NumberZero(Run(n, sched).at, Holding);
  }

  /** The decrement never wraps around the byte. */
  lemma NeverWraps(n: nat, sched: seq<nat>, c: nat)
    requires n <= 129 && forall i :: 0 <= i < |sched| ==> sched[i] < n
    requires c < n && Run(n, sched).at[c] == AtDec
    ensures Run(n, sched).slock > -128
  {
    var s := Run(n, sched);
    RunSound(n, sched);
    NumberBound(s.at);
    NumberZero(s.at, AtDec);
  }

  /** No CPU is ever stuck: once the lock is free, two steps of one that waits or calls acquire it. */
  lemma FreeLockIsTaken(n: nat, sched: seq<nat>, c: nat)
    requires n <= 129 && forall i :: 0 <= i < |sched| ==> sched[i] < n
    requires c < n && (forall d :: 0 <= d < n ==> Run(n, sched).at[d] != Holding)
    ensures Run(n, sched).at[c] == AtDec ==> Step(Run(n, sched), c).at[c] == Holding
    ensures Run(n, sched).at[c] != AtDec ==> Step(Step(Run(n, sched), c), c).at[c] == Holding
  {
    RunSound(n, sched);
    NumberZero(Run(n, sched).at, Holding);
  }

  // ----- entries and releases -----

  /** How often, in a schedule, CPU c takes a step at a given place. */
  function Steps(n: nat, sched: seq<nat>, c: nat, p: Place): nat
    requires forall i :: 0 <= i < |sched| ==> sched[i] < n
  {
    if sched == [] then 0
    else
      var before := sched[..|sched| - 1];
      var d := sched[|sched| - 1];
      Steps(n, before, c, p) + if d == c && Run(n, before).at[c] == p then 1 else 0
  }

  /** How often any CPU takes a step at a given place. */
  function AllSteps(n: nat, sched: seq<nat>, p: Place): nat
    requires forall i :: 0 <= i < |sched| ==> sched[i] < n
  {
    if sched == [] then 0
    else
      var before := sched[..|sched| - 1];
      AllSteps(n, before, p) + if Run(n, before).at[sched[|sched| - 1]] == p then 1 else 0
  }

  /** Under every schedule each CPU releases the lock at most as often as it enters, and it is in the
      lock's code exactly while it has entered once more than it has released. */
  lemma {:induction false} EntriesAndReleases(n: nat, sched: seq<nat>, c: nat)
    requires c < n && forall i :: 0 <= i < |sched| ==> sched[i] < n
    ensures Steps(n, sched, c, Away) - Steps(n, sched, c, Holding) == if Run(n, sched).at[c] == Away then 0 else 1
  {
    if sched == [] {
    } else {
      EntriesAndReleases(n, sched[..|sched| - 1], c);
    }
  }

  /** Under every schedule the CPUs in the lock's code number the entries less the releases. */
  lemma {:induction false} InsideCount(n: nat, sched: seq<nat>)
    requires forall i :: 0 <= i < |sched| ==> sched[i] < n
    ensures var at := Run(n, sched).at;
            Number(at, AtDec) + Number(at, Spinning) + Number(at, Holding)
            == AllSteps(n, sched, Away) - AllSteps(n, sched, Holding)
  {
    if sched == [] {
      NumberZero(Unlocked(n).at, AtDec);
      NumberZero(Unlocked(n).at, Spinning);
      NumberZero(Unlocked(n).at, Holding);
    } else {
      var before, c := sched[..|sched| - 1], sched[|sched| - 1];
      InsideCount(n, before);
      var s := Run(n, before);
      var q := Step(s, c).at[c];
      NumberUpdate(s.at, c, q, AtDec);
      NumberUpdate(s.at, c, q, Spinning);
      NumberUpdate(s.at, c, q, Holding);
    }
  }

  /** While the holder does not release, a spinning CPU leaves the byte alone and stays where it is,
      and nobody else gets past the acquire, however the others are scheduled. */
  lemma {:induction false} HeldKeepsOut(n: nat, sched: seq<nat>, more: seq<nat>, h: nat, c: nat)
    requires n <= 129 && (forall i :: 0 <= i < |sched| ==> sched[i] < n)
    requires (forall i :: 0 <= i < |more| ==> more[i] < n) && h !in more
    requires h < n && c < n && Run(n, sched).at[h] == Holding && c != h
    ensures Run(n, sched + more).at[h] == Holding && Run(n, sched + more).at[c] != Holding
    ensures Run(n, sched).at[c] == Spinning ==>
              Run(n, sched + more).at[c] == Spinning && Step(Run(n, sched + more), c) == Run(n, sched + more)
    decreases |more|
  {
    MutualExclusion(n, sched + more);
    if more == [] {
      assert sched + more == sched;
    } else {
      var k := |more| - 1;
      assert (sched + more)[..|sched| + k] == sched + more[..k];
      HeldKeepsOut(n, sched, more[..k], h, c);
    }
  }

  // ----- the bound on the number of CPUs is exact -----

  /** CPUs 0, 1, ..., k-1 each enter and decrement once. */
  function Pile(k: nat): seq<nat>
    ensures |Pile(k)| == 2 * k && forall i :: 0 <= i < |Pile(k)| ==> Pile(k)[i] < k
  {
    if k == 0 then [] else Pile(k - 1) + [k - 1, k - 1]
  }

  lemma {:induction false} RunMore(n: nat, sched: seq<nat>, c: nat)
    requires c < n && forall i :: 0 <= i < |sched| ==> sched[i] < n
    ensures Run(n, sched + [c, c]) == Step(Step(Run(n, sched), c), c)
  {
    assert (sched + [c, c])[..|sched| + 1] == sched + [c];
    assert (sched + [c])[..|sched|] == sched;
  }

  lemma {:induction false} PileRun(n: nat, k: nat)
    requires 0 < k <= n && k <= 129
    ensures Run(n, Pile(k)).slock == 1 - k
    ensures Run(n, Pile(k)).at[0] == Holding && forall c :: k <= c < n ==> Run(n, Pile(k)).at[c] == Away
  {
    if k == 1 {
      assert Pile(0) == [];
      RunMore(n, [], 0);
      assert Pile(1) == [] + [0, 0];
    } else {
      PileRun(n, k - 1);
      RunMore(n, Pile(k - 1), k - 1);
    }
  }

  /** With 130 CPUs or more, some interleaving lets two of them past the acquire. */
  lemma TooManyCpus(n: nat) returns (sched: seq<nat>)
    requires n >= 130
    ensures forall i :: 0 <= i < |sched| ==> sched[i] < n
    ensures !Exclusive(Run(n, sched))
  {
    sched := Pile(129) + [129, 129];
    PileRun(n, 129);
    RunMore(n, Pile(129), 129);
    assert Run(n, sched).at[0] == Holding && Run(n, sched).at[129] == Holding;
  }

  ghost predicate Schedules(n: nat, sched: seq<nat>)
  {
    forall i :: 0 <= i < |sched| ==> sched[i] < n
  }

  /** The lock is safe for exactly the machines of at most 129 CPUs. */
  lemma SafeExactly(n: nat)
    ensures (forall sched :: Schedules(n, sched) ==> Exclusive(Run(n, sched))) <==> n <= 129
  {
    if n <= 129 {
      forall sched | Schedules(n, sched)
        ensures Exclusive(Run(n, sched))
      {
        MutualExclusion(n, sched);
      }
    } else {
      var sched := TooManyCpus(n);
      assert Schedules(n, sched);
    }
  }

  /** The lock in memory, and the CPUs that share it. */
  class Lock {
    var slock: int
    var at: seq<Place>

    /** The lock as up to 129 CPUs can leave it. */
    ghost predicate Valid()
      reads this
    {
      Bytes(State(slock, at)) && |at| <= 129 && Sound(State(slock, at))
    }

    constructor (n: nat)
      ensures State(slock, at) == Unlocked(n)
      ensures n <= 129 ==> Valid()
    {
      slock, at := 1, seq(n, i => Away);
      new;
      NumberZero(at, Holding);
    }

    /** In a valid state no two CPUs are past the acquire. */
    lemma ValidExclusive()
      requires Valid()
      ensures Exclusive(State(slock, at))
      ensures IsLocked(State(slock, at)) <==> exists c :: 0 <= c < |at| && at[c] == Holding
    {
      NumberOne(at, Holding);
      NumberZero(at, Holding);
    }

    /** One instruction of one CPU: a step of the protocol, which up to 129 CPUs may take in any
        order without ever sharing the lock. */
    method Execute(c: nat)
      requires Bytes(State(slock, at)) && c < |at|
      modifies this
      ensures State(slock, at) == Step(old(State(slock, at)), c)
      ensures old(Valid()) ==> Valid() && Exclusive(State(slock, at))
    {
      ghost var before := State(slock, at);
      if Valid() {
        StepSound(before, c);
        StepExclusive(before, c);
      }
      match at[c]
      case Away =>
        at := at[c := AtDec];
      case AtDec =>
        slock := if slock == -128 then 127 else slock - 1;
        at := at[c := if slock >= 0 then Holding else Spinning];
      case Spinning =>
        if slock > 0 {
          at := at[c := AtDec];
        }
      case Holding =>
        slock := 1;
        at := at[c := Away];
    }
  }
}
