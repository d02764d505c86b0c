/** The older planner in `trips/services.py`: it shares out the trip's miles
    day by day at a fixed 55 mph, at most 11 hours a day, until the miles or
    the 70-hour cycle run out. */
module TripServices {
  import opened Rounding

  const AvgSpeed: real := 55.0
  const MaxDailyHours: real := 11.0
  const FuelInterval: real := 1000.0

  /** The most miles one day may cover: 11 hours at 55 mph. */
  const MaxDailyMiles: real := MaxDailyHours * AvgSpeed

  /** One entry of the returned list: `day`, `driving_hours`, `fuel_stops`. */
  datatype ServiceLog = ServiceLog(day: int, drivingHours: real, fuelStops: int)

  /** Miles driven today: the least of what is left, the daily cap and what the
      remaining cycle allows at 55 mph. */
  function MilesToday(remainingMiles: real, remainingCycle: real): (m: real)
    ensures m <= remainingMiles && m <= MaxDailyMiles && m <= remainingCycle * AvgSpeed
    ensures m == remainingMiles || m == MaxDailyMiles || m == remainingCycle * AvgSpeed
  {
    Min3(remainingMiles, MaxDailyMiles, remainingCycle * AvgSpeed)
  }

  /** Hours logged for a day's miles, rounded to hundredths. */
  function HoursFor(miles: real): (h: real)
    ensures -0.005 <= h - miles / AvgSpeed <= 0.005
  {
    Round2(miles / AvgSpeed)
  }

  /** The entry logged for `miles` driven on `day`. */
  function LogFor(miles: real, day: int): (log: ServiceLog)
    ensures log.day == day
  {
    ServiceLog(day, HoursFor(miles), Floor(miles / FuelInterval))
  }

  // ---------------------------------------------------------------------------
  // Termination
  //
  // The two measures below are reached through one extra call (the `layer`
  // argument counts it down), so that a proof about `Allocate` does not see
  // their arithmetic unless it asks for it through `CycleUnitsIs` or `StepsIs`.

  /** Whole hundredths of cycle left (plus one while any is left). A day whose
      rounded hours are positive takes at least one hundredth. */
  function CycleUnits(remainingCycle: real): nat {
    CycleUnitsFrom(remainingCycle, 1)
  }

  /** Days still needed if every day drove as far as it may today. A day logged
      as 0.0 hours leaves the cycle unchanged but takes one of these. */
  function Steps(remainingMiles: real, remainingCycle: real): nat {
    StepsFrom(remainingMiles, remainingCycle, 1)
  }

  function CycleUnitsFrom(remainingCycle: real, layer: nat): nat
    decreases layer
  {
    if layer > 0 then CycleUnitsFrom(remainingCycle, layer - 1)
    else if remainingCycle > 0.0 then Floor(100.0 * remainingCycle) + 1
    else 0
  }

  function StepsFrom(remainingMiles: real, remainingCycle: real, layer: nat): nat
    decreases layer
  {
    if layer > 0 then StepsFrom(remainingMiles, remainingCycle, layer - 1)
    else if remainingMiles > 0.0 && remainingCycle > 0.0 then
      PositiveQuotient(remainingMiles, Min(MaxDailyMiles, remainingCycle * AvgSpeed));
      Ceil(remainingMiles / Min(MaxDailyMiles, remainingCycle * AvgSpeed))
    else 0
  }

  lemma CycleUnitsIs(remainingCycle: real)
    ensures CycleUnits(remainingCycle) ==
      if remainingCycle > 0.0 then Floor(100.0 * remainingCycle) + 1 else 0
  {
    assert CycleUnitsFrom(remainingCycle, 1) == CycleUnitsFrom(remainingCycle, 0);
  }

  lemma StepsIs(remainingMiles: real, remainingCycle: real)
    ensures Steps(remainingMiles, remainingCycle) ==
      if remainingMiles > 0.0 && remainingCycle > 0.0
      then Ceil(remainingMiles / Min(MaxDailyMiles, remainingCycle * AvgSpeed))
      else 0
  {
    assert StepsFrom(remainingMiles, remainingCycle, 1) == StepsFrom(remainingMiles, remainingCycle, 0);
  }

  lemma PositiveQuotient(a: real, b: real)
    requires a > 0.0 && b > 0.0
    ensures a / b > 0.0
  {
  }

  lemma DivMinusOne(a: real, c: real)
    requires c > 0.0
    ensures (a - c) / c == a / c - 1.0
  {
    var q := a / c;
    var r := (a - c) / c;
    assert q * c == a;
    assert r * c == a - c;
    var e := r + 1.0 - q;
    assert e * c == 0.0;
    assert e == 0.0;
  }

  lemma CeilMinusOne(x: real)
    ensures Ceil(x - 1.0) == Ceil(x) - 1
  {
  }

  /** A day logged as 0.0 hours covered at most 0.275 miles. */
  lemma ZeroHoursFewMiles(miles: real)
    requires HoursFor(miles) == 0.0
    ensures miles <= 0.275
  {
  }

  /** A day logged with positive hours takes at least one hundredth of the cycle. */
  lemma ProgressHours(remainingMiles: real, remainingCycle: real)
    requires remainingMiles > 0.0 && remainingCycle > 0.0
    requires HoursFor(MilesToday(remainingMiles, remainingCycle)) > 0.0
    ensures CycleUnits(remainingCycle - HoursFor(MilesToday(remainingMiles, remainingCycle)))
            < CycleUnits(remainingCycle)
  {
    var m := MilesToday(remainingMiles, remainingCycle);
    var h := HoursFor(m);
    Round2Hundredths(m / AvgSpeed);
    assert h >= 0.01;
    CycleUnitsIs(remainingCycle);
    CycleUnitsIs(remainingCycle - h);
    if remainingCycle - h > 0.0 {
      assert Floor(100.0 * (remainingCycle - h)) < Floor(100.0 * remainingCycle);
    }
  }

  /** A day logged as 0.0 hours keeps the cycle and drives as far as the cycle
      allows, so one day fewer is needed. */
  lemma ProgressZero(remainingMiles: real, remainingCycle: real)
    requires remainingMiles > 0.0 && remainingCycle > 0.0
    requires HoursFor(MilesToday(remainingMiles, remainingCycle)) == 0.0
    ensures Steps(remainingMiles - MilesToday(remainingMiles, remainingCycle), remainingCycle)
            < Steps(remainingMiles, remainingCycle)
  {
    var m := MilesToday(remainingMiles, remainingCycle);
    ZeroHoursFewMiles(m);
    StepsIs(remainingMiles, remainingCycle);
    StepsIs(remainingMiles - m, remainingCycle);
    var c := remainingCycle * AvgSpeed;
    if m != remainingMiles {
      assert m == c;
      assert Min(MaxDailyMiles, c) == c;
      DivMinusOne(remainingMiles, c);
      CeilMinusOne(remainingMiles / c);
    }
  }

  /** Every turn of the loop lowers the cycle's hundredths, or keeps them and
      lowers the days still needed. */
  lemma Progress(remainingMiles: real, remainingCycle: real)
    requires remainingMiles > 0.0 && remainingCycle > 0.0
    ensures var m := MilesToday(remainingMiles, remainingCycle);
            var h := HoursFor(m);
            CycleUnits(remainingCycle - h) < CycleUnits(remainingCycle) ||
            (CycleUnits(remainingCycle - h) == CycleUnits(remainingCycle) &&
             Steps(remainingMiles - m, remainingCycle - h) < Steps(remainingMiles, remainingCycle))
  {
    var m := MilesToday(remainingMiles, remainingCycle);
    Round2Between(m / AvgSpeed, 0);
    if HoursFor(m) > 0.0 {
      ProgressHours(remainingMiles, remainingCycle);
    } else {
      ProgressZero(remainingMiles, remainingCycle);
      assert remainingCycle - HoursFor(m) == remainingCycle;
    }
  }

  // ---------------------------------------------------------------------------
  // The loop as a function

  /** The miles of every day the loop runs, and the miles and cycle it leaves. */
  datatype Allocation = Allocation(dailyMiles: seq<real>, leftMiles: real, leftCycle: real)

  function Allocate(remainingMiles: real, remainingCycle: real): Allocation
    decreases CycleUnits(remainingCycle), Steps(remainingMiles, remainingCycle)
  {
    if remainingMiles > 0.0 && remainingCycle > 0.0 then
      var m := MilesToday(remainingMiles, remainingCycle);
      Progress(remainingMiles, remainingCycle);
      var rest := Allocate(remainingMiles - m, remainingCycle - HoursFor(m));
      Allocation([m] + rest.dailyMiles, rest.leftMiles, rest.leftCycle)
    else
      Allocation([], remainingMiles, remainingCycle)
  }

  /** The entries for consecutive days starting at `firstDay`. */
  function DailyLogs(dailyMiles: seq<real>, firstDay: int): (logs: seq<ServiceLog>)
    ensures |logs| == |dailyMiles|
  {
    if dailyMiles == [] then []
    else [LogFor(dailyMiles[0], firstDay)] + DailyLogs(dailyMiles[1..], firstDay + 1)
  }

  /** What `generate_eld_logs(total_miles, cycle_used)` returns. */
  function ServiceSchedule(totalMiles: real, cycleUsed: real): seq<ServiceLog> {
    DailyLogs(Allocate(totalMiles, 70.0 - cycleUsed).dailyMiles, 1)
  }

  /** `generate_eld_logs`: the cycle left is not clamped at 0, and there is no
      cap on the number of days. */
  method GenerateEldLogs(totalMiles: real, cycleUsed: real) returns (logs: seq<ServiceLog>)
    ensures logs == ServiceSchedule(totalMiles, cycleUsed)
    ensures forall i :: 0 <= i < |logs| ==>
      logs[i].day == i + 1 && 0.0 <= logs[i].drivingHours <= MaxDailyHours && logs[i].fuelStops == 0
  {
    var remainingMiles := totalMiles;
    var remainingCycle := 70.0 - cycleUsed;
    logs := [];
    var day := 1;
    ghost var target := ServiceSchedule(totalMiles, cycleUsed);
    while remainingMiles > 0.0 && remainingCycle > 0.0
      invariant logs + DailyLogs(Allocate(remainingMiles, remainingCycle).dailyMiles, day) == target
      decreases CycleUnits(remainingCycle), Steps(remainingMiles, remainingCycle)
    {
      var maxMilesToday := Min3(remainingMiles, MaxDailyHours * AvgSpeed, remainingCycle * AvgSpeed);
      var drivingHours := Round2(maxMilesToday / AvgSpeed);
      Progress(remainingMiles, remainingCycle);
      StepPreserves(logs, remainingMiles, remainingCycle, day, target);
      logs := logs + [ServiceLog(day, drivingHours, Floor(maxMilesToday / FuelInterval))];
      remainingMiles := remainingMiles - maxMilesToday;
      remainingCycle := remainingCycle - drivingHours;
      day := day + 1;
    }
    ServiceDays(totalMiles, cycleUsed);
  }

  /** One turn of the loop keeps "entries so far, then the entries still to
      come, make the whole list". */
  lemma StepPreserves(done: seq<ServiceLog>, remainingMiles: real, remainingCycle: real, day: int,
                      target: seq<ServiceLog>)
    requires remainingMiles > 0.0 && remainingCycle > 0.0
    requires done + DailyLogs(Allocate(remainingMiles, remainingCycle).dailyMiles, day) == target
    ensures var m := MilesToday(remainingMiles, remainingCycle);
            (done + [LogFor(m, day)]) +
            DailyLogs(Allocate(remainingMiles - m, remainingCycle - HoursFor(m)).dailyMiles, day + 1) == target
  {
    AllocateStep(remainingMiles, remainingCycle, day);
  }

  /** One turn of the loop: today's entry, then the entries of the days after. */
  lemma AllocateStep(remainingMiles: real, remainingCycle: real, day: int)
    requires remainingMiles > 0.0 && remainingCycle > 0.0
    ensures var m := MilesToday(remainingMiles, remainingCycle);
            DailyLogs(Allocate(remainingMiles, remainingCycle).dailyMiles, day) ==
            [LogFor(m, day)] + DailyLogs(Allocate(remainingMiles - m, remainingCycle - HoursFor(m)).dailyMiles, day + 1)
  {
  }

  // ---------------------------------------------------------------------------
  // Properties of the loop from any state

  function SumMiles(miles: seq<real>): real {
    if miles == [] then 0.0 else miles[0] + SumMiles(miles[1..])
  }

  function TotalHours(logs: seq<ServiceLog>): real {
    if logs == [] then 0.0 else logs[0].drivingHours + TotalHours(logs[1..])
  }

  /** The recursion of `Allocate`, one day at a time. */
  lemma AllocateUnfold(remainingMiles: real, remainingCycle: real)
    requires remainingMiles > 0.0 && remainingCycle > 0.0
    ensures var m := MilesToday(remainingMiles, remainingCycle);
            var rest := Allocate(remainingMiles - m, remainingCycle - HoursFor(m));
            var a := Allocate(remainingMiles, remainingCycle);
            a.dailyMiles != [] && a.dailyMiles[0] == m && a.dailyMiles[1..] == rest.dailyMiles &&
            a.leftMiles == rest.leftMiles && a.leftCycle == rest.leftCycle
  {
    var m := MilesToday(remainingMiles, remainingCycle);
    var rest := Allocate(remainingMiles - m, remainingCycle - HoursFor(m));
    assert ([m] + rest.dailyMiles)[1..] == rest.dailyMiles;
  }

  lemma SumMilesCons(miles: seq<real>)
    requires miles != []
    ensures SumMiles(miles) == miles[0] + SumMiles(miles[1..])
  {
  }

  /** Entry `i` is the one for the `i`-th day's miles, numbered from `firstDay`. */
  lemma {:induction false} DailyLogsAt(dailyMiles: seq<real>, firstDay: int, i: int)
    requires 0 <= i < |dailyMiles|
    ensures DailyLogs(dailyMiles, firstDay)[i] == LogFor(dailyMiles[i], firstDay + i)
  {
    if i > 0 {
      DailyLogsAt(dailyMiles[1..], firstDay + 1, i - 1);
    }
  }

  lemma TotalHoursCons(dailyMiles: seq<real>, firstDay: int)
    requires dailyMiles != []
    ensures TotalHours(DailyLogs(dailyMiles, firstDay))
            == HoursFor(dailyMiles[0]) + TotalHours(DailyLogs(dailyMiles[1..], firstDay + 1))
  {
    var logs := DailyLogs(dailyMiles, firstDay);
    assert logs[1..] == DailyLogs(dailyMiles[1..], firstDay + 1);
  }

  /** Every day covers more than 0 and at most 605 miles. */
  lemma {:induction false} AllocateDailyMiles(remainingMiles: real, remainingCycle: real)
    ensures forall i :: 0 <= i < |Allocate(remainingMiles, remainingCycle).dailyMiles| ==>
      0.0 < Allocate(remainingMiles, remainingCycle).dailyMiles[i] <= MaxDailyMiles
    decreases CycleUnits(remainingCycle), Steps(remainingMiles, remainingCycle)
  {
    if remainingMiles > 0.0 && remainingCycle > 0.0 {
      var m := MilesToday(remainingMiles, remainingCycle);
      Progress(remainingMiles, remainingCycle);
      AllocateUnfold(remainingMiles, remainingCycle);
      var rest := Allocate(remainingMiles - m, remainingCycle - HoursFor(m)).dailyMiles;
      AllocateDailyMiles(remainingMiles - m, remainingCycle - HoursFor(m));
      var ms := Allocate(remainingMiles, remainingCycle).dailyMiles;
      forall i | 0 <= i < |ms|
        ensures 0.0 < ms[i] <= MaxDailyMiles
      {
        if i > 0 {
          assert ms[i] == rest[i - 1];
        }
      }
    }
  }

  /** The miles driven and the miles left add up to the miles at the start, the
      miles left are never negative, and miles are left over only when the cycle
      ran out. */
  lemma {:induction false} AllocateMiles(remainingMiles: real, remainingCycle: real)
    ensures SumMiles(Allocate(remainingMiles, remainingCycle).dailyMiles)
            + Allocate(remainingMiles, remainingCycle).leftMiles == remainingMiles
    ensures remainingMiles > 0.0 ==> Allocate(remainingMiles, remainingCycle).leftMiles >= 0.0
    ensures Allocate(remainingMiles, remainingCycle).leftMiles > 0.0 ==>
      Allocate(remainingMiles, remainingCycle).leftCycle <= 0.0
    decreases CycleUnits(remainingCycle), Steps(remainingMiles, remainingCycle)
  {
    if remainingMiles > 0.0 && remainingCycle > 0.0 {
      var m := MilesToday(remainingMiles, remainingCycle);
      Progress(remainingMiles, remainingCycle);
      AllocateUnfold(remainingMiles, remainingCycle);
      AllocateMiles(remainingMiles - m, remainingCycle - HoursFor(m));
      SumMilesCons(Allocate(remainingMiles, remainingCycle).dailyMiles);
    }
  }

  /** The hours logged and the cycle left add up to the cycle at the start. */
  lemma {:induction false} AllocateCycle(remainingMiles: real, remainingCycle: real, firstDay: int)
    ensures TotalHours(DailyLogs(Allocate(remainingMiles, remainingCycle).dailyMiles, firstDay))
            + Allocate(remainingMiles, remainingCycle).leftCycle == remainingCycle
    decreases CycleUnits(remainingCycle), Steps(remainingMiles, remainingCycle)
  {
    if remainingMiles > 0.0 && remainingCycle > 0.0 {
      var m := MilesToday(remainingMiles, remainingCycle);
      Progress(remainingMiles, remainingCycle);
      AllocateUnfold(remainingMiles, remainingCycle);
      AllocateCycle(remainingMiles - m, remainingCycle - HoursFor(m), firstDay + 1);
      TotalHoursCons(Allocate(remainingMiles, remainingCycle).dailyMiles, firstDay);
    }
  }

  /** A positive cycle is overdrawn by at most half a hundredth of an hour:
      the last day's rounding is the only way below 0. */
  lemma {:induction false} AllocateOverdraw(remainingMiles: real, remainingCycle: real)
    requires remainingCycle > 0.0
    ensures Allocate(remainingMiles, remainingCycle).leftCycle >= -0.005
    decreases CycleUnits(remainingCycle), Steps(remainingMiles, remainingCycle)
  {
    if remainingMiles > 0.0 {
      var m := MilesToday(remainingMiles, remainingCycle);
      var h := HoursFor(m);
      assert h <= remainingCycle + 0.005;
      Progress(remainingMiles, remainingCycle);
      AllocateUnfold(remainingMiles, remainingCycle);
      if remainingCycle - h > 0.0 {
        AllocateOverdraw(remainingMiles - m, remainingCycle - h);
      }
    }
  }

  /** A day of at most 605 miles logs between 0 and 11 hours and no fuel stop. */
  lemma DayBounds(miles: real, day: int)
    requires 0.0 < miles <= MaxDailyMiles
    ensures 0.0 <= LogFor(miles, day).drivingHours <= MaxDailyHours
    ensures LogFor(miles, day).fuelStops == 0
  {
    Round2Between(miles / AvgSpeed, 1100);
    Round2Between(miles / AvgSpeed, 0);
  }

  /** With at most half a hundredth of an hour of cycle left, a day drives as
      far as the cycle allows and is logged as 0.0 hours. */
  lemma ZeroHourDay(remainingMiles: real, remainingCycle: real)
    requires remainingMiles > 0.0 && 0.0 < remainingCycle <= 0.005
    ensures MilesToday(remainingMiles, remainingCycle) == Min(remainingMiles, remainingCycle * AvgSpeed)
    ensures HoursFor(MilesToday(remainingMiles, remainingCycle)) == 0.0
  {
    Round2Tiny(MilesToday(remainingMiles, remainingCycle) / AvgSpeed);
  }

  /** With at most half a hundredth of an hour of cycle left, the cycle never
      shrinks, every day drives at most `remaining_cycle * 55` miles, and the
      loop stops only once the miles are used up. */
  lemma {:induction false} ZeroHourRun(remainingMiles: real, remainingCycle: real)
    requires remainingMiles > 0.0 && 0.0 < remainingCycle <= 0.005
    ensures forall i :: 0 <= i < |Allocate(remainingMiles, remainingCycle).dailyMiles| ==>
      Allocate(remainingMiles, remainingCycle).dailyMiles[i] <= remainingCycle * AvgSpeed
    ensures Allocate(remainingMiles, remainingCycle).leftCycle == remainingCycle
    ensures Allocate(remainingMiles, remainingCycle).leftMiles == 0.0
    decreases Steps(remainingMiles, remainingCycle)
  {
    var m := MilesToday(remainingMiles, remainingCycle);
    ZeroHourDay(remainingMiles, remainingCycle);
    ProgressZero(remainingMiles, remainingCycle);
    AllocateUnfold(remainingMiles, remainingCycle);
    if m < remainingMiles {
      ZeroHourRun(remainingMiles - m, remainingCycle);
      var ms := Allocate(remainingMiles, remainingCycle).dailyMiles;
      var rest := Allocate(remainingMiles - m, remainingCycle).dailyMiles;
      forall i | 0 <= i < |ms|
        ensures ms[i] <= remainingCycle * AvgSpeed
      {
        if i > 0 {
          assert ms[i] == rest[i - 1];
        }
      }
    } else {
      assert Allocate(remainingMiles - m, remainingCycle) == Allocation([], 0.0, remainingCycle);
    }
  }

  /** A day of at most `remaining_cycle * 55` miles, with at most half a
      hundredth of an hour of cycle, is logged as 0.0 hours. */
  lemma TinyDayHours(miles: real, remainingCycle: real)
    requires 0.0 < miles <= remainingCycle * AvgSpeed && remainingCycle <= 0.005
    ensures HoursFor(miles) == 0.0
  {
    assert miles / AvgSpeed <= remainingCycle;
    Round2Tiny(miles / AvgSpeed);
  }

  /** ... so every one of those days is logged as 0.0 hours ... */
  lemma ZeroHourLogs(remainingMiles: real, remainingCycle: real, firstDay: int)
    requires remainingMiles > 0.0 && 0.0 < remainingCycle <= 0.005
    ensures forall i :: 0 <= i < |DailyLogs(Allocate(remainingMiles, remainingCycle).dailyMiles, firstDay)| ==>
      DailyLogs(Allocate(remainingMiles, remainingCycle).dailyMiles, firstDay)[i].drivingHours == 0.0
  {
    var ms := Allocate(remainingMiles, remainingCycle).dailyMiles;
    ZeroHourRun(remainingMiles, remainingCycle);
    AllocateDailyMiles(remainingMiles, remainingCycle);
    forall i | 0 <= i < |ms|
      ensures DailyLogs(ms, firstDay)[i].drivingHours == 0.0
    {
      DailyLogsAt(ms, firstDay, i);
      TinyDayHours(ms[i], remainingCycle);
    }
  }

  /** A quotient in (0, 1] rounds up to 1. */
  lemma CeilOfFraction(a: real, c: real)
    requires 0.0 < a <= c
    ensures Ceil(a / c) == 1
  {
    assert (a / c) * c == a;
    assert a / c <= 1.0;
  }

  /** ... and it runs one day per `remaining_cycle * 55` miles, rounded up. */
  lemma {:induction false} ZeroHourDayCount(remainingMiles: real, remainingCycle: real)
    requires remainingMiles > 0.0 && 0.0 < remainingCycle <= 0.005
    ensures |Allocate(remainingMiles, remainingCycle).dailyMiles|
            == Ceil(remainingMiles / (remainingCycle * AvgSpeed))
    decreases Steps(remainingMiles, remainingCycle)
  {
    var c := remainingCycle * AvgSpeed;
    var m := MilesToday(remainingMiles, remainingCycle);
    ZeroHourDay(remainingMiles, remainingCycle);
    ProgressZero(remainingMiles, remainingCycle);
    AllocateUnfold(remainingMiles, remainingCycle);
    if m < remainingMiles {
      ZeroHourDayCount(remainingMiles - m, remainingCycle);
      DivMinusOne(remainingMiles, c);
      CeilMinusOne(remainingMiles / c);
    } else {
      assert Allocate(remainingMiles - m, remainingCycle).dailyMiles == [];
      CeilOfFraction(remainingMiles, c);
    }
  }

  // ---------------------------------------------------------------------------
  // Properties of `generate_eld_logs` on its inputs

  /** Entries are numbered 1, 2, ..., N; each logs between 0 and 11 hours and no
      fuel stop, since no day covers more than 605 miles. */
  lemma ServiceDays(totalMiles: real, cycleUsed: real)
    ensures forall i :: 0 <= i < |ServiceSchedule(totalMiles, cycleUsed)| ==>
      ServiceSchedule(totalMiles, cycleUsed)[i].day == i + 1 &&
      0.0 <= ServiceSchedule(totalMiles, cycleUsed)[i].drivingHours <= MaxDailyHours &&
      ServiceSchedule(totalMiles, cycleUsed)[i].fuelStops == 0
  {
    var ms := Allocate(totalMiles, 70.0 - cycleUsed).dailyMiles;
    var logs := ServiceSchedule(totalMiles, cycleUsed);
    AllocateDailyMiles(totalMiles, 70.0 - cycleUsed);
    forall i | 0 <= i < |logs|
      ensures logs[i].day == i + 1 && 0.0 <= logs[i].drivingHours <= MaxDailyHours && logs[i].fuelStops == 0
    {
      DailyLogsAt(ms, 1, i);
      DayBounds(ms[i], i + 1);
    }
  }

  /** Nothing is logged exactly when there are no miles or the cycle is used up. */
  lemma ServiceEmpty(totalMiles: real, cycleUsed: real)
    ensures ServiceSchedule(totalMiles, cycleUsed) == [] <==> totalMiles <= 0.0 || cycleUsed >= 70.0
  {
    if totalMiles > 0.0 && cycleUsed < 70.0 {
      AllocateUnfold(totalMiles, 70.0 - cycleUsed);
    }
  }

  /** The hours logged never exceed the cycle left at the start by more than
      half a hundredth of an hour. */
  lemma ServiceWithinCycle(totalMiles: real, cycleUsed: real)
    requires cycleUsed < 70.0
    ensures TotalHours(ServiceSchedule(totalMiles, cycleUsed)) <= 70.0 - cycleUsed + 0.005
  {
    AllocateCycle(totalMiles, 70.0 - cycleUsed, 1);
    AllocateOverdraw(totalMiles, 70.0 - cycleUsed);
  }

  /** With at most half a hundredth of an hour of cycle left (`cycle_used`
      just under 70), every entry logs 0.0 hours and the number of entries is
      the miles divided by `remaining_cycle * 55`, rounded up: it grows without
      bound as the cycle left shrinks. */
  lemma ServiceZeroHourDays(totalMiles: real, cycleUsed: real)
    requires totalMiles > 0.0 && 69.995 <= cycleUsed < 70.0
    ensures |ServiceSchedule(totalMiles, cycleUsed)| == Ceil(totalMiles / ((70.0 - cycleUsed) * AvgSpeed))
    ensures forall i :: 0 <= i < |ServiceSchedule(totalMiles, cycleUsed)| ==>
      ServiceSchedule(totalMiles, cycleUsed)[i].drivingHours == 0.0
  {
    var rc := 70.0 - cycleUsed;
    ZeroHourDayCount(totalMiles, rc);
    ZeroHourLogs(totalMiles, rc, 1);
  }

  /** When the loop stops with cycle to spare, every mile has been driven. */
  lemma ServiceCoversMiles(totalMiles: real, cycleUsed: real)
    requires totalMiles > 0.0
    requires Allocate(totalMiles, 70.0 - cycleUsed).leftCycle > 0.0
    ensures SumMiles(Allocate(totalMiles, 70.0 - cycleUsed).dailyMiles) == totalMiles
  {
    AllocateMiles(totalMiles, 70.0 - cycleUsed);
  }
}
