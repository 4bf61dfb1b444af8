/** The timer descriptor of socket/monitor/timer.cpp: how a configuration in
    seconds and milliseconds becomes an `itimerspec`, and what setting it does
    to the descriptor. Instants are milliseconds, as reals. */
module TimerFd {

  type u32 = x: int | 0 <= x < 0x1_0000_0000

  const THOUSAND: int := 1000
  const MILLION: int := 1_000_000
  const LEAST_DURATION: int := 10

  datatype Timespec = Timespec(sec: nat, nsec: nat)

  datatype Itimerspec = Itimerspec(interval: Timespec, value: Timespec)

  datatype Config = Config(intervalSec: u32, intervalMs: u32, valueSec: u32, valueMs: u32)

  /** A one-shot timer: disarmed, counting down to an instant, or past that
      instant with the expiration not read yet. */
  datatype Descriptor = Disarmed | Armed(at: real) | Expired(at: real)

  function Nanos(ts: Timespec): nat {
    ts.sec * 1_000_000_000 + ts.nsec
  }

  predicate Fits(sec: u32, ms: u32) {
    sec + ms / THOUSAND < 0x1_0000_0000
  }

  /** One SETTIMESPEC expansion, with the 32-bit wrap of `x += y / 1000`. */
  method SetTimespec(sec: u32, ms: u32) returns (ts: Timespec)
    ensures ts == TimespecOf(sec, ms)
  {
    var x: u32, y: u32 := sec, ms;
    if y >= THOUSAND {
      x := (x + y / THOUSAND) % 0x1_0000_0000;
      y := y % THOUSAND;
    }
    ts := Timespec(x, 0);
    if y != 0 {
      ts := ts.(nsec := y * MILLION);
    }
  }

  method ToItimerspec(cfg: Config) returns (its: Itimerspec)
    ensures its == ItimerspecOf(cfg)
  {
    var interval := SetTimespec(cfg.intervalSec, cfg.intervalMs);
    var value := SetTimespec(cfg.valueSec, cfg.valueMs);
    its := Itimerspec(interval, value);
  }

  function TimespecOf(sec: u32, ms: u32): (ts: Timespec)
  {
    Timespec((sec + ms / THOUSAND) % 0x1_0000_0000, ms % THOUSAND * MILLION)
  }

  function ItimerspecOf(cfg: Config): Itimerspec {
    Itimerspec(TimespecOf(cfg.intervalSec, cfg.intervalMs), TimespecOf(cfg.valueSec, cfg.valueMs))
  }

  /** The conversion keeps the configured time exactly when the seconds do not
      wrap; it is always in the range the kernel accepts. */
  lemma ConversionExact(sec: u32, ms: u32)
    ensures TimespecOf(sec, ms).nsec < 1_000_000_000
    ensures Nanos(TimespecOf(sec, ms)) == sec * 1_000_000_000 + ms * MILLION <==> Fits(sec, ms)
  {
    var total := sec + ms / THOUSAND;
    assert ms == ms / THOUSAND * THOUSAND + ms % THOUSAND;
    Wrapped(total);
  }

  /** Interval and value come each from their own fields, and keep their time. */
  lemma ConfigExact(cfg: Config)
    ensures var its := ItimerspecOf(cfg);
            && (Fits(cfg.intervalSec, cfg.intervalMs) ==>
                  Nanos(its.interval) == cfg.intervalSec * 1_000_000_000 + cfg.intervalMs * 1_000_000)
            && (Fits(cfg.valueSec, cfg.valueMs) ==>
                  Nanos(its.value) == cfg.valueSec * 1_000_000_000 + cfg.valueMs * 1_000_000)
  {
    ConversionExact(cfg.intervalSec, cfg.intervalMs);
    ConversionExact(cfg.valueSec, cfg.valueMs);
    hide TimespecOf, Nanos, Fits;
  }

  /** A configuration whose seconds fit disarms the timer only when it asks for
      zero; when they wrap, a multiple of 2^32 seconds disarms it too. */
  lemma DisarmsExactly(sec: u32, ms: u32)
    ensures Nanos(TimespecOf(sec, ms)) == 0 <==>
              ms % THOUSAND == 0 && (sec + ms / THOUSAND == 0 || sec + ms / THOUSAND == 0x1_0000_0000)
  {
    Wrapped(sec + ms / THOUSAND);
    BothZero((sec + ms / THOUSAND) % 0x1_0000_0000, ms % THOUSAND);
  }

  lemma BothZero(sec: nat, rest: nat)
    ensures Nanos(Timespec(sec, rest * MILLION)) == 0 <==> sec == 0 && rest == 0
  {
  }

  lemma Wrapped(total: nat)
    requires total < 2 * 0x1_0000_0000
    ensures total % 0x1_0000_0000 == if total < 0x1_0000_0000 then total else total - 0x1_0000_0000
  {
  }

  /** `timerfd_settime` with a relative one-shot value at instant `now`. */
  function Settime(its: Itimerspec, now: real): Descriptor {
    if Nanos(its.value) == 0 then Disarmed else Armed(now + Nanos(its.value) as real / 1_000_000.0)
  }

  /** `timer_.reset(Timer::Config{0, 0, 0, ms})`. */
  function ResetMs(ms: u32, now: real): Descriptor {
    Settime(ItimerspecOf(Config(0, 0, 0, ms)), now)
  }

  /** A relative reset in milliseconds arms the timer for exactly that many
      milliseconds, and disarms it only for zero. */
  lemma ResetMsExact(ms: u32, now: real)
    ensures ResetMs(ms, now) == if ms == 0 then Disarmed else Armed(now + ms as real)
  {
    ConversionExact(0, ms);
    assert Nanos(TimespecOf(0, ms)) == ms * MILLION;
    assert (ms * MILLION) as real == ms as real * 1_000_000.0;
  }
}
