/** The PWM dimming loop: every iteration writes the current duty cycle to
    the TIM3 channel 1 compare register, then moves the duty by 10 up or
    down, reversing at 1000 and at 0. The timer counts 1000 ticks per period
    (`Period` is 999), so a compare of 1000 is 100%.

    `dutyCycle` is a `uint32_t`, so its `+= 10` and `-= 10` are written with
    their wrap-around modulo 2^32; the invariant shows it never happens. */
module PwmDimming {
  import opened Bytes

  /** The step and the turning point of the duty cycle. */
  const STEP: nat := 10
  const TOP: nat := 1000

  /** `htim3.Init.Period`: the counter runs 0..999. */
  const PERIOD: nat := 999

  /** The iterations in one full fade up and down: 100 up, 100 down. */
  const CYCLE: nat := 200

  /** `dutyCycle` and `increasing` (a `uint8_t` used as a flag). */
  datatype Pwm = Pwm(duty: u32, increasing: bool)

  /** The values set before the loop. */
  function Init(): (s: Pwm)
    ensures s.duty == 0 && s.increasing
  {
    Pwm(0, true)
  }

  /** The duty cycle update of one iteration, with 32-bit wrap-around. From
      a state satisfying `Inv` the update never wraps: going up adds exactly
      10, going down subtracts exactly 10, the invariant is kept, and the
      direction turns down exactly when the duty reaches 1000 and up exactly
      when a decrement reaches 0. */
  function Step(s: Pwm): (s': Pwm)
    ensures s.increasing ==> s'.increasing == (s'.duty < TOP)
    ensures !s.increasing ==> s'.increasing == (s'.duty == 0)
    ensures Inv(s) ==> Inv(s')
    ensures Inv(s) && s.increasing ==> s'.duty == s.duty + STEP && (!s'.increasing <==> s.duty + STEP == TOP)
    ensures Inv(s) && !s.increasing ==> s'.duty == s.duty - STEP && (s'.increasing <==> s.duty == STEP)
  {
    if s.increasing then
      var d := ((s.duty + STEP) % U32) as u32;
      Pwm(d, !(d >= TOP))
    else
      var d := ((s.duty - STEP) % U32) as u32;
      Pwm(d, d == 0)
  }

  /** One iteration: the compare value written (the duty before the update)
      and the next state. */
  datatype Iteration = Iteration(compare: u32, next: Pwm)

  function Iterate(s: Pwm): (it: Iteration)
    ensures it.compare == s.duty && it.next == Step(s)
  {
    Iteration(s.duty, Step(s))
  }

  /** What the loop keeps: a multiple of 10 within [0, 1000], with room to
      move in the current direction. */
  predicate Inv(s: Pwm)
  {
    && s.duty % STEP == 0 && s.duty <= TOP
    && (s.increasing ==> s.duty <= TOP - STEP)
    && (!s.increasing ==> s.duty >= STEP)
  }

  /** The state after `k` iterations of one cycle: up from 0 for 100 steps,
      then down from 1000. */
  function Phase(k: nat): (s: Pwm)
    requires k < CYCLE
    ensures Inv(s)
  {
    if k < TOP / STEP then Pwm(STEP * k, true) else Pwm(STEP * (CYCLE - k), false)
  }

  lemma StepPhase(k: nat)
    requires k < CYCLE
    ensures Step(Phase(k)) == Phase((k + 1) % CYCLE)
  {
  }

  /** The phase index advances by one, modulo the cycle. */
  lemma NextIndex(n: nat)
    ensures (n % CYCLE + 1) % CYCLE == (n + 1) % CYCLE
  {
    var q := n / CYCLE;
    var k := n % CYCLE;
    assert n == q * CYCLE + k;
    if k + 1 < CYCLE {
      assert n + 1 == q * CYCLE + (k + 1);
    } else {
      assert n + 1 == (q + 1) * CYCLE;
    }
  }

  /** The state after `n` iterations from `s`. */
  function Run(s: Pwm, n: nat): (s': Pwm)
    decreases n
  {
    if n == 0 then s else Step(Run(s, n - 1))
  }

  /** The fade is periodic with period 200: after `n` iterations the state is
      the `n mod 200`-th phase, so the duty runs 0, 10, …, 1000, 990, …, 10
      and starts again at 0. */
  lemma {:induction false} Periodic(n: nat)
    ensures Run(Init(), n) == Phase(n % CYCLE)
    decreases n
  {
    if n > 0 {
      var k := (n - 1) % CYCLE;
      Periodic(n - 1);
      assert Run(Init(), n) == Step(Phase(k));
      StepPhase(k);
      NextIndex(n - 1);
      assert (k + 1) % CYCLE == n % CYCLE;
    }
  }

  /** From reset the invariant holds forever. */
  lemma {:induction false} AlwaysInv(n: nat)
    ensures Inv(Run(Init(), n))
    ensures Run(Init(), n).duty <= TOP && Run(Init(), n).duty % STEP == 0
  {
    Periodic(n);
  }

  /** The main loop for `n` iterations: the compare values written. Each is
      at most `Period + 1`, that is at most 100% duty, and the sequence
      follows the periodic fade. */
  method MainLoop(n: nat) returns (compares: seq<u32>)
    ensures |compares| == n
    ensures forall i :: 0 <= i < n ==> compares[i] == Phase(i % CYCLE).duty
    ensures forall i :: 0 <= i < n ==> compares[i] <= PERIOD + 1 && compares[i] % STEP == 0
  {
    var s := Init();
    compares := [];
    var i := 0;
    while i < n
      invariant 0 <= i <= n && |compares| == i
      invariant s == Phase(i % CYCLE)
      invariant forall j :: 0 <= j < i ==> compares[j] == Phase(j % CYCLE).duty
      invariant forall j :: 0 <= j < i ==> compares[j] <= PERIOD + 1 && compares[j] % STEP == 0
    {
      var it := Iterate(s);
      compares := compares + [it.compare];
      StepPhase(i % CYCLE);
      NextIndex(i);
      s := it.next;
      i := i + 1;
    }
  }
}
