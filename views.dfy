/** The live Hours-of-Service log planner, `TripView.create_eld_logs` in
    trips/views.py: a greedy day-by-day split of a route's driving time under a
    per-day cap and the driver's remaining 70-hour cycle, with at most one fuel
    stop a day and a hard stop after day 14.

    The planner is proved against `Run`, a recursive description of the same
    loop that also yields the state the loop ends in; the lemmas below state
    what the loop promises in terms of `Run` and of `Schedule`, its value on a
    trip's inputs. */
module TripViews {
  import opened Rounding

  const MaxDrivingPerDay: real := 11.0
  const CycleLimit: real := 70.0
  /** One hour each for pickup and dropoff: on duty but not driving. */
  const OnDutyExtra: real := 2.0
  const MetersPerMile: real := 1609.344
  const MilesPerFuelStop: real := 1000.0
  /** The safety cap: the loop stops once `day` exceeds this. */
  const MaxDays: int := 14

  /** What the routing step hands the planner: nothing at all when geocoding or
      routing failed (`{}`), otherwise the route's distance and duration. */
  datatype RouteInfo = NoRoute | Route(distanceMeters: real, durationSeconds: real)

  /** `route_info.get('duration_seconds', 0)` */
  function DurationSeconds(route: RouteInfo): (s: real)
    ensures route.NoRoute? ==> s == 0.0
    ensures route.Route? ==> s == route.durationSeconds
  {
    match route
    case NoRoute => 0.0
    case Route(_, duration) => duration
  }

  /** `route_info.get('distance_meters', 0)` */
  function DistanceMeters(route: RouteInfo): (m: real)
    ensures route.NoRoute? ==> m == 0.0
    ensures route.Route? ==> m == route.distanceMeters
  {
    match route
    case NoRoute => 0.0
    case Route(distance, _) => distance
  }

  /** One persisted `ELDLog` row, without its link to the trip. */
  datatype EldLog = EldLog(day: int, drivingHours: real, restHours: real, fuelStops: int)

  /** Fuel stops owed for the whole trip: one per started 1000 miles. */
  function TotalFuelStops(distanceMeters: real): (n: int)
    ensures n >= 0
    ensures n == 0 <==> distanceMeters <= 0.0
    ensures n > 0 ==> (n - 1) as real * 1609344.0 < distanceMeters <= n as real * 1609344.0
  {
    var distanceMiles := distanceMeters / MetersPerMile;
    if distanceMiles > 0.0 then Ceil(distanceMiles / MilesPerFuelStop) else 0
  }

  /** The loop's variables at the top of an iteration. */
  datatype Planner = Planner(
    remainingDriving: real,
    remainingCycle: real,
    day: int,
    fuelAssigned: int,
    totalFuelStops: int)

  /** The variables as they are just before the loop is entered. */
  function Start(cycleHoursUsed: real, route: RouteInfo): (p: Planner)
    ensures p.day == 1 && p.fuelAssigned == 0 && p.remainingCycle >= 0.0
    ensures p.remainingCycle == (if cycleHoursUsed < CycleLimit then CycleLimit - cycleHoursUsed else 0.0)
    ensures p.remainingDriving * 3600.0 == DurationSeconds(route)
    ensures p.totalFuelStops == TotalFuelStops(DistanceMeters(route))
  {
    Planner(
      DurationSeconds(route) / 3600.0,
      Max(0.0, CycleLimit - cycleHoursUsed),
      1,
      0,
      TotalFuelStops(DistanceMeters(route)))
  }

  /** The loop's guard. */
  predicate Continues(p: Planner) {
    p.remainingDriving > 0.0 || (p.day == 1 && p.totalFuelStops > 0)
  }

  /** Hours granted today: the least of the daily cap and both budgets, rounded. */
  function DrivingToday(p: Planner): (d: real)
    ensures d <= MaxDrivingPerDay
    ensures d <= p.remainingDriving + 0.005 && d <= p.remainingCycle + 0.005
    ensures p.remainingDriving >= 0.0 && p.remainingCycle >= 0.0 ==> d >= 0.0
    ensures -0.005 <= d - Min3(MaxDrivingPerDay, p.remainingDriving, p.remainingCycle) <= 0.005
  {
    var allowed := Min3(MaxDrivingPerDay, p.remainingDriving, p.remainingCycle);
    Round2Between(allowed, 1100);
    Round2Between(allowed, 0);
    Round2(allowed)
  }

  /** Today's fuel stop: one while stops are still owed, first come first served. */
  function FuelToday(p: Planner): (n: int)
    ensures n == 0 || n == 1
    ensures n == 1 <==> p.fuelAssigned < p.totalFuelStops
  {
    if p.fuelAssigned < p.totalFuelStops then 1 else 0
  }

  /** What is left of a 24-hour day after driving and the fixed on-duty time. */
  function RestHours(drivingHours: real): (r: real)
    ensures r >= 0.0
  {
    Round2Between(Max(0.0, 24.0 - drivingHours - OnDutyExtra), 0);
    Round2(Max(0.0, 24.0 - drivingHours - OnDutyExtra))
  }

  /** The record one iteration appends. */
  function Today(p: Planner): (log: EldLog)
    ensures log.day == p.day
  {
    var d := DrivingToday(p);
    EldLog(p.day, d, RestHours(d), FuelToday(p))
  }

  /** The variables after one iteration's updates, before the day-14 test. */
  function Advance(p: Planner): (q: Planner)
    ensures q.day == p.day + 1 && q.totalFuelStops == p.totalFuelStops
    ensures q.remainingDriving >= 0.0 && q.remainingCycle >= 0.0
    ensures q.fuelAssigned == p.fuelAssigned + FuelToday(p)
  {
    var d := DrivingToday(p);
    Planner(
      Max(0.0, p.remainingDriving - d),
      Max(0.0, p.remainingCycle - d),
      p.day + 1,
      p.fuelAssigned + FuelToday(p),
      p.totalFuelStops)
  }

  /** The records the loop appends from state `p` on, and the state it leaves. */
  datatype Outcome = Outcome(logs: seq<EldLog>, last: Planner)

  function Run(p: Planner): Outcome
    decreases MaxDays + 1 - p.day
  {
    if !Continues(p) then Outcome([], p)
    else
      var q := Advance(p);
      if q.day > MaxDays then Outcome([Today(p)], q)
      else
        var rest := Run(q);
        Outcome([Today(p)] + rest.logs, rest.last)
  }

  /** The logs `create_eld_logs` produces for a trip and its route. */
  function Schedule(cycleHoursUsed: real, route: RouteInfo): seq<EldLog> {
    Run(Start(cycleHoursUsed, route)).logs
  }

  function TotalDriving(logs: seq<EldLog>): real {
    if logs == [] then 0.0 else logs[0].drivingHours + TotalDriving(logs[1..])
  }

  function TotalFuel(logs: seq<EldLog>): int {
    if logs == [] then 0 else logs[0].fuelStops + TotalFuel(logs[1..])
  }

  /** `TripView.create_eld_logs`, with `ELDLog.objects.create` replaced by
      appending the record to `logs`. */
  method CreateEldLogs(cycleHoursUsed: real, route: RouteInfo) returns (logs: seq<EldLog>)
    ensures logs == Schedule(cycleHoursUsed, route)
    ensures |logs| <= MaxDays
    ensures forall i :: 0 <= i < |logs| ==> logs[i].day == i + 1
  {
    var durationSeconds := DurationSeconds(route);
    var distanceMeters := DistanceMeters(route);
    var totalDrivingHours := durationSeconds / 3600.0;

    var remainingDriving := totalDrivingHours;
    var remainingCycle := Max(0.0, CycleLimit - cycleHoursUsed);
    var totalFuelStops := TotalFuelStops(distanceMeters);

    logs := [];
    var day := 1;
    var fuelAssigned := 0;
    ghost var target := Run(Start(cycleHoursUsed, route)).logs;
    while remainingDriving > 0.0 || (day == 1 && totalFuelStops > 0)
      invariant 1 <= day <= MaxDays
      invariant logs + Run(Planner(remainingDriving, remainingCycle, day, fuelAssigned, totalFuelStops)).logs == target
      decreases MaxDays + 1 - day
    {
      ghost var p := Planner(remainingDriving, remainingCycle, day, fuelAssigned, totalFuelStops);
      ghost var before := logs;
      var allowed := Min3(MaxDrivingPerDay, remainingDriving, remainingCycle);
      var drivingHours := Round2(allowed);
      remainingDriving := Max(0.0, remainingDriving - drivingHours);
      remainingCycle := Max(0.0, remainingCycle - drivingHours);

      var fuelStops := 0;
      if fuelAssigned < totalFuelStops {
        fuelStops := 1;
        fuelAssigned := fuelAssigned + 1;
      }

      var restHours := Round2(Max(0.0, 24.0 - drivingHours - OnDutyExtra));
      logs := logs + [EldLog(day, drivingHours, restHours, fuelStops)];
      day := day + 1;
      StepMatches(p, drivingHours, restHours, fuelStops);
      StepPreserves(before, p, target);
      assert Planner(remainingDriving, remainingCycle, day, fuelAssigned, totalFuelStops) == Advance(p);
      assert logs == before + [Today(p)];
      if day > MaxDays {
        break;
      }
    }
    RunShape(Start(cycleHoursUsed, route));
  }

  /** The values one turn of the loop computes are those of `Today` and `Advance`. */
  lemma StepMatches(p: Planner, drivingHours: real, restHours: real, fuelStops: int)
    requires drivingHours == Round2(Min3(MaxDrivingPerDay, p.remainingDriving, p.remainingCycle))
    requires restHours == Round2(Max(0.0, 24.0 - drivingHours - OnDutyExtra))
    requires fuelStops == if p.fuelAssigned < p.totalFuelStops then 1 else 0
    ensures Today(p) == EldLog(p.day, drivingHours, restHours, fuelStops)
    ensures Advance(p) == Planner(
      Max(0.0, p.remainingDriving - drivingHours),
      Max(0.0, p.remainingCycle - drivingHours),
      p.day + 1,
      p.fuelAssigned + fuelStops,
      p.totalFuelStops)
  {
  }

  /** One turn of the loop keeps "records so far, then the records still to
      come, make the whole schedule". */
  lemma StepPreserves(done: seq<EldLog>, p: Planner, target: seq<EldLog>)
    requires Continues(p) && done + Run(p).logs == target
    ensures Advance(p).day <= MaxDays ==> (done + [Today(p)]) + Run(Advance(p)).logs == target
    ensures Advance(p).day > MaxDays ==> done + [Today(p)] == target
  {
    RunStep(p);
    assert done + Run(p).logs == (done + [Today(p)]) + (Run(p).logs[1..]);
  }

  // ---------------------------------------------------------------------------
  // Properties of the loop from any state

  /** The loop appends at most one record per remaining day up to day 14, the
      records are numbered consecutively from the current day, and when it ends
      before day 14 it ends because its guard failed. */
  lemma {:induction false} RunShape(p: Planner)
    requires p.day <= MaxDays
    ensures |Run(p).logs| <= MaxDays + 1 - p.day
    ensures Run(p).last.day == p.day + |Run(p).logs|
    ensures Run(p).last.day <= MaxDays ==> !Continues(Run(p).last)
    ensures forall i :: 0 <= i < |Run(p).logs| ==> Run(p).logs[i].day == p.day + i
    decreases MaxDays + 1 - p.day
  {
    if Continues(p) && Advance(p).day <= MaxDays {
      RunShape(Advance(p));
    }
  }

  /** Fuel stops fill the earliest days, one per day, until the owed stops run out. */
  lemma {:induction false} RunFuel(p: Planner)
    ensures forall i :: 0 <= i < |Run(p).logs| ==>
      Run(p).logs[i].fuelStops == (if p.fuelAssigned + i < p.totalFuelStops then 1 else 0)
    decreases MaxDays + 1 - p.day
  {
    if Continues(p) && Advance(p).day <= MaxDays {
      RunFuel(Advance(p));
    }
  }

  /** Rest is never negative, whatever the inputs. */
  lemma {:induction false} RunRest(p: Planner)
    ensures forall i :: 0 <= i < |Run(p).logs| ==> Run(p).logs[i].restHours >= 0.0
    decreases MaxDays + 1 - p.day
  {
    if Continues(p) && Advance(p).day <= MaxDays {
      RunRest(Advance(p));
    }
  }

  /** The rest recorded for a day is what remains of 22 non-driving hours. */
  lemma RestIsRemainder(k: int)
    ensures RestHours(k as real / 100.0) == Max(0.0, 22.0 - k as real / 100.0)
  {
    assert 24.0 - k as real / 100.0 - OnDutyExtra == (2200 - k) as real / 100.0;
    Round2Exact(2200 - k);
    Round2Exact(0);
  }

  /** With both budgets non-negative, every day drives between 0 and 11 hours,
      rests 22 hours minus its driving, and both budgets stay non-negative. */
  lemma {:induction false} RunDriving(p: Planner)
    requires p.remainingDriving >= 0.0 && p.remainingCycle >= 0.0
    ensures Run(p).last.remainingDriving >= 0.0 && Run(p).last.remainingCycle >= 0.0
    ensures forall i :: 0 <= i < |Run(p).logs| ==>
      0.0 <= Run(p).logs[i].drivingHours <= MaxDrivingPerDay &&
      Run(p).logs[i].restHours == 22.0 - Run(p).logs[i].drivingHours
    decreases MaxDays + 1 - p.day
  {
    if Continues(p) {
      var d := DrivingToday(p);
      var allowed := Min3(MaxDrivingPerDay, p.remainingDriving, p.remainingCycle);
      Round2Hundredths(allowed);
      RestIsRemainder(RoundHalfEven(100.0 * allowed));
      if Advance(p).day <= MaxDays {
        RunDriving(Advance(p));
      }
    }
  }

  /** The cycle budget, floored at 0 on every update, ends non-negative. */
  lemma {:induction false} RunCycleStaysNonNegative(p: Planner)
    requires p.remainingCycle >= 0.0
    ensures Run(p).last.remainingCycle >= 0.0
    decreases MaxDays + 1 - p.day
  {
    if Continues(p) && Advance(p).day <= MaxDays {
      RunCycleStaysNonNegative(Advance(p));
    }
  }

  /** Each day's driving is taken from both budgets: the total driven lies between
      what each budget lost and that plus half a hundredth per day of rounding. */
  lemma {:induction false} RunConservation(p: Planner)
    ensures p.remainingDriving - Run(p).last.remainingDriving <= TotalDriving(Run(p).logs)
    ensures TotalDriving(Run(p).logs)
            <= p.remainingDriving - Run(p).last.remainingDriving + |Run(p).logs| as real / 200.0
    ensures p.remainingCycle - Run(p).last.remainingCycle <= TotalDriving(Run(p).logs)
    ensures p.remainingCycle >= 0.0 ==>
      TotalDriving(Run(p).logs) <= p.remainingCycle - Run(p).last.remainingCycle + |Run(p).logs| as real / 200.0
    decreases MaxDays + 1 - p.day
  {
    if Continues(p) {
      var q := Advance(p);
      var logs := Run(p).logs;
      if q.day <= MaxDays {
        RunConservation(q);
        assert logs[1..] == Run(q).logs;
      } else {
        assert logs[1..] == [];
      }
    }
  }

  /** Once either budget is down to half a hundredth of an hour or less, every
      later day's allowance rounds to 0.0 hours, neither budget shrinks any
      more, and if driving remains the loop runs on to the day-14 cutoff. */
  lemma {:induction false} RunStalled(p: Planner)
    requires p.remainingDriving >= 0.0 && p.remainingCycle >= 0.0 && p.day <= MaxDays
    requires Min(p.remainingDriving, p.remainingCycle) <= 0.005
    ensures forall i :: 0 <= i < |Run(p).logs| ==> Run(p).logs[i].drivingHours == 0.0
    ensures Run(p).last.remainingDriving == p.remainingDriving
    ensures Run(p).last.remainingCycle == p.remainingCycle
    ensures p.remainingDriving > 0.0 ==> |Run(p).logs| == MaxDays + 1 - p.day
    decreases MaxDays + 1 - p.day
  {
    if Continues(p) {
      Round2Tiny(Min3(MaxDrivingPerDay, p.remainingDriving, p.remainingCycle));
      assert DrivingToday(p) == 0.0;
      if Advance(p).day <= MaxDays {
        RunStalled(Advance(p));
      }
    }
  }

  // ---------------------------------------------------------------------------
  // Properties of the planner on a trip's inputs

  /** At most 14 records, numbered 1, 2, ..., N. */
  lemma ScheduleDays(cycleHoursUsed: real, route: RouteInfo)
    ensures |Schedule(cycleHoursUsed, route)| <= MaxDays
    ensures forall i :: 0 <= i < |Schedule(cycleHoursUsed, route)| ==>
      Schedule(cycleHoursUsed, route)[i].day == i + 1
  {
    RunShape(Start(cycleHoursUsed, route));
  }

  lemma {:induction false} TotalFuelOfPrefix(logs: seq<EldLog>, k: int)
    requires k >= 0
    requires forall i :: 0 <= i < |logs| ==> logs[i].fuelStops == (if i < k then 1 else 0)
    ensures TotalFuel(logs) == if k < |logs| then k else |logs|
  {
    if logs != [] {
      TotalFuelOfPrefix(logs[1..], if k > 0 then k - 1 else 0);
    }
  }

  /** The owed stops go one per day to the earliest days; the stops recorded
      add up to the smaller of the stops owed and the days scheduled, so any
      excess is dropped. */
  lemma ScheduleFuel(cycleHoursUsed: real, route: RouteInfo)
    ensures forall i :: 0 <= i < |Schedule(cycleHoursUsed, route)| ==>
      Schedule(cycleHoursUsed, route)[i].fuelStops ==
        (if i < TotalFuelStops(DistanceMeters(route)) then 1 else 0)
    ensures TotalFuel(Schedule(cycleHoursUsed, route)) ==
      if TotalFuelStops(DistanceMeters(route)) < |Schedule(cycleHoursUsed, route)|
      then TotalFuelStops(DistanceMeters(route))
      else |Schedule(cycleHoursUsed, route)|
  {
    RunFuel(Start(cycleHoursUsed, route));
    TotalFuelOfPrefix(Schedule(cycleHoursUsed, route), TotalFuelStops(DistanceMeters(route)));
  }

  /** For a route of non-negative duration, every day drives at most 11 hours
      and rests 22 minus its driving, so rest lies between 11 and 22 hours. */
  lemma ScheduleDriving(cycleHoursUsed: real, route: RouteInfo)
    requires DurationSeconds(route) >= 0.0
    ensures forall i :: 0 <= i < |Schedule(cycleHoursUsed, route)| ==>
      0.0 <= Schedule(cycleHoursUsed, route)[i].drivingHours <= MaxDrivingPerDay &&
      Schedule(cycleHoursUsed, route)[i].restHours == 22.0 - Schedule(cycleHoursUsed, route)[i].drivingHours
  {
    RunDriving(Start(cycleHoursUsed, route));
  }

  /** Every record's rest is non-negative, for any cycle and any route. */
  lemma ScheduleRestNonNegative(cycleHoursUsed: real, route: RouteInfo)
    ensures forall i :: 0 <= i < |Schedule(cycleHoursUsed, route)| ==>
      Schedule(cycleHoursUsed, route)[i].restHours >= 0.0
  {
    RunRest(Start(cycleHoursUsed, route));
  }

  /** No record at all exactly when there is no driving and no fuel stop owed. */
  lemma ScheduleEmpty(cycleHoursUsed: real, route: RouteInfo)
    ensures Schedule(cycleHoursUsed, route) == [] <==>
      DurationSeconds(route) <= 0.0 && DistanceMeters(route) <= 0.0
  {
    var p := Start(cycleHoursUsed, route);
    assert p.remainingDriving > 0.0 <==> DurationSeconds(route) > 0.0;
  }

  /** A route with no driving but some distance still gets one day: day 1,
      no driving, its one fuel stop, 22 hours of rest. */
  lemma ZeroDrivingOneDay(cycleHoursUsed: real, route: RouteInfo)
    requires DurationSeconds(route) == 0.0 && DistanceMeters(route) > 0.0
    ensures Schedule(cycleHoursUsed, route) == [EldLog(1, 0.0, 22.0, 1)]
  {
    var p := Start(cycleHoursUsed, route);
    assert p.remainingDriving == 0.0 && p.totalFuelStops > 0 && p.remainingCycle >= 0.0;
    TodayExact(p, 0);
    assert !Continues(Advance(p));
    RunStep(p);
  }

  /** The total driven never exceeds the cycle budget the trip started with,
      beyond half a hundredth of an hour per day of rounding. */
  lemma ScheduleWithinCycle(cycleHoursUsed: real, route: RouteInfo)
    ensures TotalDriving(Schedule(cycleHoursUsed, route))
            <= Max(0.0, CycleLimit - cycleHoursUsed) + |Schedule(cycleHoursUsed, route)| as real / 200.0
  {
    var p := Start(cycleHoursUsed, route);
    RunConservation(p);
    RunCycleStaysNonNegative(p);
  }

  /** When the loop ends before the day-14 cutoff, it has scheduled the whole
      driving time: the total driven is the route's duration in hours, up to
      half a hundredth of an hour per day of rounding. */
  lemma ScheduleCoversDriving(cycleHoursUsed: real, route: RouteInfo)
    requires DurationSeconds(route) >= 0.0
    requires |Schedule(cycleHoursUsed, route)| < MaxDays
    ensures DurationSeconds(route) / 3600.0 <= TotalDriving(Schedule(cycleHoursUsed, route))
    ensures TotalDriving(Schedule(cycleHoursUsed, route))
            <= DurationSeconds(route) / 3600.0 + |Schedule(cycleHoursUsed, route)| as real / 200.0
  {
    var p := Start(cycleHoursUsed, route);
    RunShape(p);
    RunConservation(p);
    RunDriving(p);
  }

  /** A driver with at most half a hundredth of an hour of cycle left gets 14
      days of no driving for any route with driving time. */
  lemma ScheduleCycleSpent(cycleHoursUsed: real, route: RouteInfo)
    requires cycleHoursUsed >= CycleLimit - 0.005 && DurationSeconds(route) > 0.0
    ensures |Schedule(cycleHoursUsed, route)| == MaxDays
    ensures forall i :: 0 <= i < MaxDays ==> Schedule(cycleHoursUsed, route)[i].drivingHours == 0.0
  {
    RunStalled(Start(cycleHoursUsed, route));
  }

  /** A route of at most 18 seconds rounds to 0.0 hours every day, so it is
      never driven and the loop runs to the day-14 cutoff. */
  lemma ScheduleTinyRoute(cycleHoursUsed: real, route: RouteInfo)
    requires 0.0 < DurationSeconds(route) <= 18.0
    ensures |Schedule(cycleHoursUsed, route)| == MaxDays
    ensures forall i :: 0 <= i < MaxDays ==> Schedule(cycleHoursUsed, route)[i].drivingHours == 0.0
  {
    RunStalled(Start(cycleHoursUsed, route));
  }

  // ---------------------------------------------------------------------------
  // Worked cases

  /** One iteration, spelled out: today's record, then the records of the days
      after it unless the cutoff is reached. */
  lemma RunStep(p: Planner)
    requires Continues(p)
    ensures Run(p).logs == [Today(p)] + (if Advance(p).day > MaxDays then [] else Run(Advance(p)).logs)
  {
  }

  /** A day that empties the driving budget is the last one the loop runs. */
  lemma RunLastDay(p: Planner)
    requires p.day >= 1 && p.remainingDriving > 0.0 && Advance(p).remainingDriving == 0.0
    ensures Run(p).logs == [Today(p)]
  {
    assert !Continues(Advance(p));
  }

  /** A day that leaves driving to do, before the cutoff, is followed by the next. */
  lemma RunNextDay(p: Planner)
    requires p.remainingDriving > 0.0 && Advance(p).day <= MaxDays
    ensures Run(p).logs == [Today(p)] + Run(Advance(p)).logs
  {
  }

  /** A day whose allowance is a whole number of hundredths between 0 and 11
      drives exactly that and rests 22 hours minus it. */
  lemma TodayExact(p: Planner, k: int)
    requires 0 <= k <= 1100
    requires Min3(MaxDrivingPerDay, p.remainingDriving, p.remainingCycle) == k as real / 100.0
    ensures Today(p) == EldLog(p.day, k as real / 100.0, 22.0 - k as real / 100.0, FuelToday(p))
    ensures Advance(p).remainingDriving == Max(0.0, p.remainingDriving - k as real / 100.0)
    ensures Advance(p).remainingCycle == Max(0.0, p.remainingCycle - k as real / 100.0)
  {
    Round2Exact(k);
    RestIsRemainder(k);
  }

  /** No route: nothing is scheduled, whatever the cycle. */
  lemma NoRouteNoLogs(cycleHoursUsed: real)
    ensures Schedule(cycleHoursUsed, NoRoute) == []
  {
    ScheduleEmpty(cycleHoursUsed, NoRoute);
  }

  /** A route of at most 11 hours, a whole number of hundredths, with no
      distance and enough cycle left, is driven in full on day 1, with 22 hours
      minus the drive as rest and no fuel stop. */
  lemma ShortRouteOneDay(cycleHoursUsed: real, route: RouteInfo, k: int)
    requires 0 < k <= 1100
    requires DurationSeconds(route) == 36.0 * k as real && DistanceMeters(route) <= 0.0
    requires CycleLimit - cycleHoursUsed >= k as real / 100.0
    ensures Schedule(cycleHoursUsed, route) == [EldLog(1, k as real / 100.0, 22.0 - k as real / 100.0, 0)]
  {
    var p := Start(cycleHoursUsed, route);
    assert p.remainingDriving == k as real / 100.0 && p.totalFuelStops == 0;
    TodayExact(p, k);
    RunLastDay(p);
  }

  /** When the cycle has at most 11 hours left, a whole number of hundredths,
      and the route needs more than that, day 1 uses up the cycle and days 2
      to 14 drive nothing. */
  lemma CycleRunsOutOnDayOne(cycleHoursUsed: real, route: RouteInfo, k: int)
    requires 0 < k <= 1100
    requires CycleLimit - cycleHoursUsed == k as real / 100.0
    requires DurationSeconds(route) > 36.0 * k as real
    ensures |Schedule(cycleHoursUsed, route)| == MaxDays
    ensures Schedule(cycleHoursUsed, route)[0].drivingHours == k as real / 100.0
    ensures forall i :: 1 <= i < MaxDays ==> Schedule(cycleHoursUsed, route)[i].drivingHours == 0.0
  {
    var p := Start(cycleHoursUsed, route);
    assert p.remainingDriving > k as real / 100.0 && p.remainingCycle == k as real / 100.0;
    TodayExact(p, k);
    var q := Advance(p);
    assert q.remainingCycle == 0.0 && q.remainingDriving > 0.0 && q.day == 2;
    RunStalled(q);
    RunNextDay(p);
  }
}
