/**
 * The glue between the host and the two emulated processors. The Z80 and
 * 6502 cores themselves are not part of this model: each core is the record
 * of what it has been told to do (reset, NMI, a step that took so many
 * cycles), and the cycles each step takes are given by a cost function
 * that stands for the core's `step()` results.
 */
module EmuCpu {

  datatype Event = Reset | Nmi | Step(cycles: int)

  /** Cycles taken by the first `k` steps. */
  function Spent(cost: nat -> int, k: nat): int
  {
    if k == 0 then 0 else Spent(cost, k - 1) + cost(k - 1)
  }

  /** With steps of at least one cycle, k steps take at least k cycles. */
  lemma {:induction false} SpentAtLeast(cost: nat -> int, k: nat)
    requires forall i :: cost(i) >= 1
    ensures Spent(cost, k) >= k
  {
    if k > 0 {
      SpentAtLeast(cost, k - 1);
    }
  }

  /** The number of steps after `k` that first reaches `budget`. */
  function StepsFrom(budget: int, cost: nat -> int, k: nat): (n: nat)
    requires forall i :: cost(i) >= 1
    requires forall j :: 0 <= j < k ==> Spent(cost, j) < budget
    ensures k <= n && Spent(cost, n) >= budget
    ensures forall j :: 0 <= j < n ==> Spent(cost, j) < budget
    decreases budget - k
  {
    SpentAtLeast(cost, k);
    if Spent(cost, k) >= budget then k else StepsFrom(budget, cost, k + 1)
  }

  /**
   * How many steps a budget of `budget` cycles runs: the fewest whose
   * cycles add up to at least the budget.
   */
  function Steps(budget: int, cost: nat -> int): (n: nat)
    requires forall i :: cost(i) >= 1
    ensures Spent(cost, n) >= budget
    ensures forall j :: 0 <= j < n ==> Spent(cost, j) < budget
  {
    StepsFrom(budget, cost, 0)
  }

  /**
   * The stepping stops at the first step that reaches the budget, so it
   * overshoots by less than that step's cost, and a budget of 0 or less
   * runs no step at all.
   */
  lemma StepsOvershoot(budget: int, cost: nat -> int)
    requires forall i :: cost(i) >= 1
    ensures var n := Steps(budget, cost);
      (budget <= 0 <==> n == 0)
      && (n > 0 ==> Spent(cost, n) - budget < cost(n - 1))
  {
    var n := Steps(budget, cost);
    if n > 0 {
      assert Spent(cost, n - 1) < budget;
    }
  }

  /** Any step count with the defining property is `Steps`. */
  lemma StepsUnique(budget: int, cost: nat -> int, n: nat)
    requires forall i :: cost(i) >= 1
    requires Spent(cost, n) >= budget
    requires forall j :: 0 <= j < n ==> Spent(cost, j) < budget
    ensures n == Steps(budget, cost)
  {
    var s := Steps(budget, cost);
    assert Spent(cost, s) >= budget && Spent(cost, n) >= budget;
  }

  /** The record of the first `n` steps. */
  function StepLog(cost: nat -> int, n: nat): (log: seq<Event>)
    ensures |log| == n
  {
    seq(n, i requires 0 <= i => Step(cost(i)))
  }

  /** The two cores and the 6502's cycle counter. */
  class Cpus {
    var z80: seq<Event>
    var m6502: seq<Event>
    var clockticks: int

    /**
     * The two global cores as `init_cpus` leaves them: the debug hook is
     * set (not modelled) and `cpu_reset` resets both.
     */
    constructor()
      ensures z80 == [Event.Reset] && m6502 == [Event.Reset] && clockticks == 0
    {
      z80 := [Event.Reset];
      m6502 := [Event.Reset];
      clockticks := 0;
    }

    /** `cpu_reset`: both cores are reset. */
    method Reset()
      modifies this
      ensures z80 == old(z80) + [Event.Reset] && m6502 == old(m6502) + [Event.Reset]
      ensures clockticks == old(clockticks)
    {
      z80 := z80 + [Event.Reset];
      m6502 := m6502 + [Event.Reset];
    }

    /** `cpu_z80_nmi`. */
    method Z80Nmi()
      modifies this
      ensures z80 == old(z80) + [Nmi] && m6502 == old(m6502) && clockticks == old(clockticks)
    {
      z80 := z80 + [Nmi];
    }

    /** `cpu_6502_nmi`. */
    method M6502Nmi()
      modifies this
      ensures m6502 == old(m6502) + [Nmi] && z80 == old(z80) && clockticks == old(clockticks)
    {
      m6502 := m6502 + [Nmi];
    }

    /**
     * `cpu_clockcycles`: nothing while the guest is stopped; otherwise only
     * the core `z80Mode` selects is stepped, until the steps' cycles reach
     * `numClocks`. The Z80 counts the budget down; the 6502 counts its
     * `clockticks` up from 0.
     */
    method ClockCycles(running: bool, z80Mode: bool, numClocks: int, cost: nat -> int)
      requires forall i :: cost(i) >= 1
      modifies this
      ensures !running ==> z80 == old(z80) && m6502 == old(m6502) && clockticks == old(clockticks)
      ensures running && z80Mode ==>
        z80 == old(z80) + StepLog(cost, Steps(numClocks, cost)) && m6502 == old(m6502) && clockticks == old(clockticks)
      ensures running && !z80Mode ==>
        m6502 == old(m6502) + StepLog(cost, Steps(numClocks, cost)) && z80 == old(z80)
        && clockticks == Spent(cost, Steps(numClocks, cost))
    {
      if running {
        var k := 0;
        if z80Mode {
          var left := numClocks;
          while left > 0
            invariant left == numClocks - Spent(cost, k)
            invariant forall j :: 0 <= j < k ==> Spent(cost, j) < numClocks
            invariant z80 == old(z80) + StepLog(cost, k) && m6502 == old(m6502) && clockticks == old(clockticks)
            decreases left
          {
            var c := cost(k);
            z80 := z80 + [Step(c)];
            assert StepLog(cost, k + 1) == StepLog(cost, k) + [Step(c)];
            left := left - c;
            k := k + 1;
          }
        } else {
          clockticks := 0;
          while clockticks < numClocks
            invariant clockticks == Spent(cost, k)
            invariant forall j :: 0 <= j < k ==> Spent(cost, j) < numClocks
            invariant m6502 == old(m6502) + StepLog(cost, k) && z80 == old(z80)
            decreases numClocks - clockticks
          {
            var c := cost(k);
            m6502 := m6502 + [Step(c)];
            assert StepLog(cost, k + 1) == StepLog(cost, k) + [Step(c)];
            clockticks := clockticks + c;
            k := k + 1;
          }
        }
        StepsUnique(numClocks, cost, k);
      }
    }
  }
}
