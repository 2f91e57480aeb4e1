/**
 `ticks_to_duration` and `duration_to_ticks`: computed in two parts, equal to one exact
 rounded-down quotient, and inverse to each other up to rounding.
 */
module Ticks {
  import opened Arith

  const NANOS: nat := 1_000_000_000

  datatype Duration = Duration(secs: nat, nanos: nat)

  function TotalNanos(d: Duration): nat {
    d.secs * 1_000_000_000 + d.nanos
  }

  function TicksToDuration(ticks: nat, freq: nat): Duration
    requires freq > 0
  {
    Duration(ticks / freq, ticks % freq * NANOS / freq)
  }

  function DurationToTicks(d: Duration, freq: nat): nat {
    SaturatingAdd(SaturatingMul(d.secs, freq), d.nanos * freq / NANOS)
  }

  /** The nanosecond part is below one second, and the whole is rounded down once. */
  lemma TicksToDurationExact(ticks: nat, freq: nat)
    requires freq > 0
    ensures TicksToDuration(ticks, freq).nanos < 1_000_000_000
    ensures TotalNanos(TicksToDuration(ticks, freq)) == ticks * 1_000_000_000 / freq
  {
    var q, r := ticks / freq, ticks % freq;
    DivModDef(ticks, freq);
    assert ticks * NANOS == r * NANOS + (q * NANOS) * freq by {
      assert (q * freq + r) * NANOS == (q * NANOS) * freq + r * NANOS;
    }
    ModAddMul(r * NANOS, q * NANOS, freq);
    DivModDef(r * NANOS, freq);
    if r * NANOS / freq >= NANOS {
      MulMono(NANOS, r * NANOS / freq, freq);
    }
  }

  lemma DurationToTicksExact(d: Duration, freq: nat)
    requires d.nanos < 1_000_000_000
    ensures DurationToTicks(d, freq) == Min(TotalNanos(d) * freq / 1_000_000_000, USIZE_LIMIT - 1)
  {
    var whole, part := d.secs * freq, d.nanos * freq;
    assert TotalNanos(d) * freq == part + whole * NANOS by {
      assert (d.secs * NANOS + d.nanos) * freq == (d.secs * freq) * NANOS + d.nanos * freq;
    }
    Saturated(whole, part);
  }

  lemma Saturated(whole: nat, part: nat)
    ensures SaturatingAdd(if whole < USIZE_LIMIT then whole else USIZE_LIMIT - 1, part / 1_000_000_000)
         == Min((part + whole * NANOS) / NANOS, USIZE_LIMIT - 1)
  {
    ModAddMul(part, whole, NANOS);
  }

  /** Back and forth loses less than a tick for every started GHz, and never gains one. */
  lemma TicksRoundTrip(ticks: nat, freq: nat)
    requires 0 < freq && ticks < USIZE_LIMIT
    ensures var back := DurationToTicks(TicksToDuration(ticks, freq), freq);
            back <= ticks <= back + (freq + 1_000_000_000 - 2) / 1_000_000_000
  {
    var d := TicksToDuration(ticks, freq);
    TicksToDurationExact(ticks, freq);
    DurationToTicksExact(d, freq);
    var a := ticks * NANOS / freq;
    DivModDef(ticks * NANOS, freq);
    assert ticks * NANOS - freq < a * freq <= ticks * NANOS;
    DivModDef(a * freq, NANOS);
  }

  lemma DurationToTicksMonotone(d: Duration, e: Duration, freq: nat)
    requires d.nanos < 1_000_000_000 && e.nanos < 1_000_000_000 && TotalNanos(d) <= TotalNanos(e)
    ensures DurationToTicks(d, freq) <= DurationToTicks(e, freq)
  {
    DurationToTicksExact(d, freq);
    DurationToTicksExact(e, freq);
    MulMono(TotalNanos(d), TotalNanos(e), freq);
    DivModDef(TotalNanos(d) * freq, NANOS);
    DivModDef(TotalNanos(e) * freq, NANOS);
  }
}
