/** The timer device state behind timer.c: TSC-deadline mode, or the LAPIC one-shot count. */
module Timer {
  import opened Words
  import opened Clock

  datatype Source = NoSource | TscDeadline | Lapic

  /** The local timer's vector entry. */
  datatype Lvt = Lvt(vector: nat, tscMode: bool, masked: bool)

  /** vector is g_vector and lapicVector is lapic.c's g_timer_vector, 0 until a mode is set;
      deadline: the TSC-deadline register, 0 when disarmed; count: the LAPIC initial count. */
  datatype Device = Device(
    src: Source, rate: Rate, vector: nat, lapicVector: nat, lvt: Lvt, deadline: nat, count: nat)

  /** lapic_timer_stop, which does nothing before a mode has been set. */
  function LapicStop(d: Device): Device {
    if d.lapicVector == 0 then d else d.(lvt := Lvt(d.lapicVector, false, true), count := 0)
  }

  /** timer_oneshot_ns at counter value tsc. */
  function Oneshot(d: Device, ns: nat, tsc: nat): Device {
    if d.rate.num == 0 || d.rate.scale == 0 then d
    else match d.src
      case NoSource => d
      case TscDeadline => d.(lapicVector := d.vector, lvt := Lvt(d.vector, true, false), count := 0,
                             deadline := (tsc + OneshotTicks(ns, d.rate)) % TWO64)
      case Lapic =>
        if d.lapicVector == 0 then d
        else d.(lvt := Lvt(d.lapicVector, false, false), count := Min(OneshotTicks(ns, d.rate), 0xffff_ffff))
  }

  /** timer_stop */
  function Stop(d: Device): Device {
    match d.src
    case NoSource => d
    case TscDeadline => LapicStop(d.(deadline := 0))
    case Lapic => LapicStop(d)
  }

  /** A timer interrupt is still to come. */
  predicate CanFire(d: Device) {
    !d.lvt.masked && if d.lvt.tscMode then d.deadline != 0 else d.count != 0
  }

  /** After timer_init has succeeded with a vector that is not 0. */
  predicate Ready(d: Device) {
    d.src != NoSource && d.vector == d.lapicVector && d.vector > 0 && d.rate.num > 0 && d.rate.scale > 0
  }

  /** Stopping leaves the timer masked and disarmed; starting leaves it unmasked, with the
      deadline or the count that many ticks away, at least one (a count no more than 32 bits
      hold); and each undoes all that an earlier start or stop did. */
  lemma LastCallDecides(d: Device, ns: nat, tsc: nat, ns': nat, tsc': nat)
    requires Ready(d)
    ensures var z := Stop(d);
            && Ready(z) && !CanFire(z) && z == d.(lvt := z.lvt, deadline := z.deadline, count := 0)
            && z.lvt.masked && z.lvt.vector == d.vector
            && z.deadline == if d.src == TscDeadline then 0 else d.deadline
    ensures var a, ticks := Oneshot(d, ns, tsc), Max(ns * d.rate.scale / 0x1_0000_0000 % 0x1_0000_0000_0000_0000, 1);
            && Ready(a) && a == d.(lvt := a.lvt, deadline := a.deadline, count := a.count)
            && a.lvt == Lvt(d.vector, d.src == TscDeadline, false)
            && (d.src == TscDeadline ==> a.count == 0 && a.deadline == (tsc + ticks) % 0x1_0000_0000_0000_0000)
            && (d.src == Lapic ==> a.deadline == d.deadline && a.count == Min(ticks, 0xffff_ffff))
            && (tsc + ticks <= U64_MAX ==> CanFire(a))
    ensures Stop(Oneshot(d, ns, tsc)) == Stop(d) && Oneshot(Stop(d), ns, tsc) == Oneshot(d, ns, tsc)
    ensures Oneshot(Oneshot(d, ns, tsc), ns', tsc') == Oneshot(d, ns', tsc')
  {
  }

  /** Without a source starts and stops have no effect, and without a rate or a scale starts
      have none. */
  lemma UninitialisedIsInert(d: Device, ns: nat, tsc: nat)
    ensures d.src == NoSource ==> Oneshot(d, ns, tsc) == d && Stop(d) == d
    ensures d.rate.num == 0 || d.rate.scale == 0 ==> Oneshot(d, ns, tsc) == d
  {
  }

  /** The count of a LAPIC one-shot is the wait in ticks, rounded down by less than a tick and
      ns / 2^32 more, as far as it is at least one and fits. */
  lemma LapicCount(d: Device, ns: nat, tsc: nat)
    requires Ready(d) && d.src == Lapic && Exact(d.rate) && ExactNs(ns, d.rate)
    ensures var c, r := Oneshot(d, ns, tsc).count, d.rate;
            && 1 <= c <= 0xffff_ffff
            && (1 < c ==> c * r.den <= ns * r.num)
            && (c < 0xffff_ffff ==> ns * r.num * TWO32 < (c + 1) * r.den * TWO32 + ns * r.den)
  {
    TicksBounds(ns, d.rate);
    LastCallDecides(d, ns, tsc, ns, tsc);
    var t, c := TicksFromNs(ns, d.rate.scale), Oneshot(d, ns, tsc).count;
    if t < c { MulMono(t + 1, c + 1, d.rate.den * TWO32); }
    if c < t { MulMono(c, t, d.rate.den); }
  }

  class TimerDevice {
    var src: Source
    var num: nat
    var den: nat
    var scale: nat
    var vector: nat
    var lapicVector: nat
    var lvt: Lvt
    var deadline: nat
    var count: nat

    ghost predicate Valid()
      reads this`num, this`den, this`scale
    {
      num <= U64_MAX && den <= U64_MAX && scale <= U64_MAX
    }

    ghost function View(): Device
      reads this
    {
      Device(src, Rate(num, den, scale), vector, lapicVector, lvt, deadline, count)
    }

    /** The globals before timer_init. */
    constructor ()
      ensures Valid() && View() == Device(NoSource, Rate(0, 1, 0), 0, 0, Lvt(0, false, true), 0, 0)
    {
      src, num, den, scale := NoSource, 0, 1, 0;
      vector, lapicVector, lvt, deadline, count := 0, 0, Lvt(0, false, true), 0, 0;
    }

    method SetScale(n: nat, d: nat)
      requires n <= U64_MAX && d <= U64_MAX
      modifies this`scale
      ensures scale == RateOf(n, d).scale && scale <= U64_MAX
      ensures scale == if d == 0 then 0 else if n * TWO32 / d <= U64_MAX then n * TWO32 / d else U64_MAX
    {
      scale := MulU64DivU64(n, TWO32, d);
    }

    /** timer_init; the processor's features and the two calibrations are inputs. The LAPIC
        calibration itself gives at least 1, but does not run without a vector. */
    method Init(v: nat, hasDeadline: bool, hasInvariantTsc: bool, tscHz: nat, lapicPerUs: nat) returns (rc: int)
      requires Valid() && tscHz <= U64_MAX && 0 < lapicPerUs <= 0xffff_ffff
      modifies this
      ensures Valid() && rc == if hasInvariantTsc && tscHz > 0 && (hasDeadline || v > 0) then 0 else -1
      ensures rc == 0 ==>
        var d := View();
        && Configured(d.rate) && d.vector == v && !CanFire(d)
        && (v > 0 ==> Ready(d) && d.lvt == Lvt(v, false, true) && d.count == 0)
        && d.src == (if hasDeadline then TscDeadline else Lapic)
        && d.rate == RateOf(if hasDeadline then tscHz else lapicPerUs * 1000, NS_PER_SEC)
        && d.deadline == if hasDeadline then 0 else old(deadline)
      ensures rc != 0 ==>
        var d, reached := old(View()).(vector := v), hasInvariantTsc && tscHz > 0;
        View() == if reached then d.(lapicVector := 0, lvt := Lvt(0, false, false), count := 0) else d
    {
      vector := v;
      if !hasInvariantTsc || tscHz == 0 { return -1; }
      if hasDeadline {
        src, num, den := TscDeadline, tscHz, NS_PER_SEC;
        HzIsConfigured(tscHz);
        SetScale(num, den);
        lapicVector, lvt, count := v, Lvt(v, true, false), 0;
        StopTimer();
        return 0;
      }
      lapicVector, lvt, count := v, Lvt(v, false, false), 0;
      if v == 0 { return -1; }
      lvt := Lvt(v, false, true);
      HzIsConfigured(lapicPerUs * 1000);
      src, num, den := Lapic, lapicPerUs * 1000, NS_PER_SEC;
      SetScale(num, den);
      StopTimer();
      rc := 0;
    }

    method OneshotNs(ns: nat, tsc: nat)
      modifies this`deadline, this`count, this`lvt, this`lapicVector
      ensures View() == Oneshot(old(View()), ns, tsc)
    {
      if num == 0 || scale == 0 { return; }
      var ticks := ComputeTicks(ns, scale);
      if ticks == 0 { ticks := 1; }
      match src {
        case NoSource =>
        case TscDeadline =>
          lapicVector, lvt, count := vector, Lvt(vector, true, false), 0;
          deadline := (tsc + ticks) % TWO64;
        case Lapic =>
          if ticks > 0xffff_ffff { ticks := 0xffff_ffff; }
          if lapicVector != 0 {
            lvt, count := Lvt(lapicVector, false, false), ticks;
          }
      }
    }

    method StopTimer()
      modifies this`deadline, this`count, this`lvt
      ensures View() == Stop(old(View()))
    {
      if src == TscDeadline { deadline := 0; }
      if src != NoSource && lapicVector != 0 {
        lvt, count := Lvt(lapicVector, false, true), 0;
      }
    }

    method Now(tsc: nat) returns (ns: nat)
      requires Valid() && tsc <= U64_MAX
      ensures ns == NowNs(tsc, View().rate) && ns <= U64_MAX
      ensures ns == if num == 0 then 0 else if tsc * den / num <= U64_MAX then tsc * den / num else U64_MAX
    {
      if num == 0 { return 0; }
      ns := MulU64DivU64(tsc, den, num);
    }
  }

  lemma HzIsConfigured(hz: nat)
    requires 0 < hz <= U64_MAX
    ensures Configured(RateOf(hz, NS_PER_SEC))
  {
    DivAtLeast(hz * TWO32, NS_PER_SEC, 1);
  }
}
