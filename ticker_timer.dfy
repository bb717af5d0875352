/**
 * The system clock driver on top of the nRF5 Bluetooth controller's ticker
 * (drivers/timer/ticker_timer.c): the tickless-idle handshake, the wrapping
 * 32-bit cycle counter and the return code of driver initialisation.
 * The ticker library itself is foreign: its calls appear as the updates the
 * driver issues and the statuses it is handed.
 */
module TickerTimer {

  const Uint16Max: nat := 0xFFFF
  const Uint32Modulus: nat := 0x1_0000_0000

  /** An int32_t. */
  predicate IsInt32(x: int) {
    -0x8000_0000 <= x < 0x8000_0000
  }

  /**
   * The uint16_t `lazy` count _timer_idle_enter asks the ticker for when the
   * kernel wants to idle for `ticks` ticks (negative: forever).
   */
  function Lazy(ticks: int): (lazy: nat)
    requires IsInt32(ticks)
    ensures 1 <= lazy <= Uint16Max
    ensures ticks < 0 || ticks >= Uint16Max ==> lazy == Uint16Max
    ensures 0 <= ticks < Uint16Max ==> lazy == ticks + 1
  {
    if ticks < 0 || ticks >= Uint16Max then Uint16Max else ticks + 1
  }

  /** Asking for a longer idle period never yields a shorter lazy count. */
  lemma LazyMonotone(a: int, b: int)
    requires IsInt32(a) && IsInt32(b)
    requires 0 <= a <= b
    ensures Lazy(a) <= Lazy(b)
  {
  }

  /** An idle period the kernel leaves open is the longest the ticker can skip. */
  lemma LazyOfForeverIsLongest(ticks: int, other: int)
    requires IsInt32(ticks) && IsInt32(other)
    requires ticks < 0
    ensures Lazy(other) <= Lazy(ticks)
  {
  }

  /** The two statuses ticker.h defines besides failure. */
  const TickerStatusSuccess: nat := 0
  const TickerStatusFailure: nat := 1
  const TickerStatusBusy: nat := 2

  /**
   * The return value of _sys_clock_driver_init given what ticker_init and
   * ticker_start report: -1 when the ticker could not be initialised, 0 when
   * the periodic timeout was started or queued, and otherwise the start status.
   */
  function ClockDriverInit(initStatus: nat, startStatus: nat): (ret: int)
    ensures ret == -1 <==> initStatus != 0
    ensures ret == 0 <==> initStatus == 0 && (startStatus == TickerStatusSuccess || startStatus == TickerStatusBusy)
    ensures initStatus == 0 && ret != 0 ==> ret == startStatus
  {
    if initStatus != 0 then -1
    else if startStatus == TickerStatusSuccess || startStatus == TickerStatusBusy then 0
    else startStatus
  }

  /** The tick period in microseconds, 1000000 / CONFIG_SYS_CLOCK_TICKS_PER_SEC: the whole microseconds that fit in one tick. */
  function TickPeriodUs(ticksPerSec: nat): (us: nat)
    requires ticksPerSec > 0
    ensures us * ticksPerSec <= 1_000_000 < (us + 1) * ticksPerSec
  {
    var q := 1_000_000 / ticksPerSec;
    DivisionBounds(1_000_000, ticksPerSec, q);
    q
  }

  lemma DivisionBounds(n: nat, d: nat, q: nat)
    requires d > 0 && q == n / d
    ensures q * d <= n < (q + 1) * d
  {
    assert n == q * d + n % d;
    assert (q + 1) * d == q * d + d;
  }

  /** The context pointer ticker_op_done receives: which of the two flags to clear. */
  datatype Flag = EnterFlag | ExitFlag

  /** A ticker_update request: the lazy count, and the flag its completion clears. */
  datatype TickerUpdate = TickerUpdate(lazy: nat, done: Flag)

  /** The driver's static state. */
  class TicklessTimer {
    /** _tickless_enter_mutex: set by idle entry, cleared when idle exit's update completes. */
    var enterMutex: bool
    /** _tickless_exit_mutex: set by idle exit, cleared when idle entry's update completes. */
    var exitMutex: bool
    /** clock_accumulated_count, a uint32_t. */
    var accumulated: nat
    /** _sys_idle_elapsed_ticks as last set by the timeout handler. */
    var idleElapsedTicks: int
    /** The ticker_update requests issued so far, oldest first. */
    var updates: seq<TickerUpdate>
    /** sys_clock_hw_cycles_per_tick, a uint32_t. */
    const cyclesPerTick: nat

    ghost predicate Valid()
      reads this
    {
      && accumulated < Uint32Modulus
      && cyclesPerTick < Uint32Modulus
      && forall u :: u in updates ==> 1 <= u.lazy <= Uint16Max
    }

    constructor (cyclesPerTick: nat)
      requires cyclesPerTick < Uint32Modulus
      ensures Valid()
      ensures this.cyclesPerTick == cyclesPerTick
      ensures !enterMutex && !exitMutex && accumulated == 0 && updates == []
    {
      this.cyclesPerTick := cyclesPerTick;
      enterMutex := false;
      exitMutex := false;
      accumulated := 0;
      idleElapsedTicks := 0;
      updates := [];
    }

    /**
     * _timer_idle_enter: unless an entry is already in progress, mark one and
     * ask the ticker to skip Lazy(ticks) expiries; completion releases exit.
     */
    method IdleEnter(ticks: int)
      requires Valid() && IsInt32(ticks)
      modifies this`enterMutex, this`updates
      ensures Valid()
      ensures old(enterMutex) ==> enterMutex && updates == old(updates)
      ensures !old(enterMutex) ==> enterMutex && updates == old(updates) + [TickerUpdate(Lazy(ticks), ExitFlag)]
    {
      if !enterMutex {
        enterMutex := true;
        var lazy := Lazy(ticks);
        updates := updates + [TickerUpdate(lazy, ExitFlag)];
      }
    }

    /**
     * _timer_idle_exit: unless an exit is already in progress, mark one and
     * ask the ticker to fire on every expiry again (lazy 1); completion
     * releases entry.
     */
    method IdleExit()
      requires Valid()
      modifies this`exitMutex, this`updates
      ensures Valid()
      ensures old(exitMutex) ==> exitMutex && updates == old(updates)
      ensures !old(exitMutex) ==> exitMutex && updates == old(updates) + [TickerUpdate(1, EnterFlag)]
    {
      if !exitMutex {
        exitMutex := true;
        updates := updates + [TickerUpdate(1, EnterFlag)];
      }
    }

    /** ticker_op_done: clear exactly the flag passed as context. */
    method OpDone(context: Flag)
      modifies this`enterMutex, this`exitMutex
      ensures context == EnterFlag ==> !enterMutex && exitMutex == old(exitMutex)
      ensures context == ExitFlag ==> !exitMutex && enterMutex == old(enterMutex)
    {
      match context
      case EnterFlag => enterMutex := false;
      case ExitFlag => exitMutex := false;
    }

    /**
     * ticker_timeout: one tick's worth of cycles is added to the 32-bit
     * counter, wrapping, and the ticks elapsed during idle become lazy + 1.
     */
    method Timeout(lazy: nat)
      requires Valid() && lazy <= Uint16Max
      modifies this`accumulated, this`idleElapsedTicks
      ensures Valid()
      ensures accumulated == WrappingAdd(old(accumulated), cyclesPerTick)
      ensures idleElapsedTicks == lazy + 1
    {
      accumulated := WrappingAdd(accumulated, cyclesPerTick);
      idleElapsedTicks := lazy + 1;
    }

    /** sys_cycle_get_32: the counter, unchanged. */
    method CycleGet() returns (cycles: nat)
      requires Valid()
      ensures cycles == accumulated && cycles < Uint32Modulus
    {
      cycles := accumulated;
    }
  }

  /** uint32_t addition. */
  function WrappingAdd(a: nat, b: nat): (r: nat)
    requires a < Uint32Modulus && b < Uint32Modulus
    ensures r < Uint32Modulus
    ensures a + b < Uint32Modulus ==> r == a + b
    ensures a + b >= Uint32Modulus ==> r == a + b - Uint32Modulus
  {
    (a + b) % Uint32Modulus
  }

  /**
   * What readers of the cycle counter rely on: however often it has wrapped,
   * the unsigned difference between two readings one timeout apart is the
   * cycles of one tick.
   */
  lemma WrappingAddDifference(a: nat, b: nat)
    requires a < Uint32Modulus && b < Uint32Modulus
    ensures (WrappingAdd(a, b) - a) % Uint32Modulus == b
  {
    if a + b >= Uint32Modulus {
      assert WrappingAdd(a, b) - a == b - Uint32Modulus;
    }
  }
}
