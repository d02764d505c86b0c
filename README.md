# Hours-of-Service log planner

A trucking trip is given a route (distance and driving time) and the hours
the driver has already used of a 70-hour cycle. The planner cuts the driving
time into daily logs. Each log records the day number, the hours driven, the
hours of rest and the number of fuel stops. No day may drive more than 11
hours, and the driving must fit into what is left of the cycle.

The repository has two versions of the planner, and both are modelled:

- `rounding.dfy` (module `Rounding`) gives the Python built-ins the planners
  use on exact reals: `min`, `max`, `math.floor`, `math.ceil` and
  `round(x, 2)`. `round` rounds half to even, as Python's does, and the
  lemmas state what rounding to hundredths does and does not move.
- `views.dfy` (module `TripViews`) models `TripView.create_eld_logs`, the
  planner the application uses. `CreateEldLogs` is its `while` loop, with the
  break after day 14. Saving each log to the database becomes appending it to
  the result sequence. The method is proved equal to `Schedule`, which is
  `Run` applied to the loop's start state. `Run` is a recursive description
  of the same loop. It also returns the state the loop ends in, and the
  properties are proved about it:
  - there are at most 14 logs, numbered 1..N;
  - each day drives 0–11 hours and rests 22 minus its driving;
  - fuel stops fill the earliest days, one per day;
  - driving and the cycle are conserved, up to rounding;
  - the loop can stall, as the code does. Once either budget is at most half
    a hundredth of an hour, each day's allowance rounds to 0.0 hours. Neither
    budget then shrinks, so the loop pads with zero-hour days until day 14.
    This happens with a spent cycle, with `cycle_hours_used` of 69.995 or
    more, and, in exact arithmetic, with a route of at most 18 seconds
    (`RunStalled`).
- `services.dfy` (module `TripServices`) models `generate_eld_logs`, the
  older planner. It shares out miles at 55 mph, at most 11 hours a day, with
  no cap on the number of days and no clamp on the cycle. `GenerateEldLogs`
  is its loop, proved equal to `ServiceSchedule`. That is `DailyLogs` over
  the daily miles computed by `Allocate`, the loop written as a recursive
  function. Termination is not
  obvious:
  - once at most half a hundredth of an hour is left in the cycle, a day
    is logged as `round(miles / 55, 2) == 0.0` hours and the cycle stops
    shrinking;
  - the loop then ends only because the miles run out.

  `Allocate` therefore decreases lexicographically: first the cycle in whole
  hundredths, then the number of days still needed at the current pace. The
  zero-hour days are proved and described in `ServiceZeroHourDays`.

All arithmetic is on exact reals. `int` stands in for Python's integers.

## Model

| member | source | states |
|---|---|---|
| Rounding.Floor | trips/services.py:25 | `math.floor`: the greatest integer not above x |
| Rounding.Ceil | trips/views.py:103 | `math.ceil`: the least integer not below x |
| Rounding.RoundHalfEven | trips/views.py:110 | the integer nearest to y, a tie going to the even neighbour, as Python's `round` does |
| Rounding.Round2Hundredths | trips/views.py:110 | `round(x, 2)` is the nearest whole number of hundredths, ties to even |
| Rounding.Min | trips/services.py:14-18 | the building block of `Min3` (Python's `min` is only called with three arguments), also used by `StepsFrom` and `RunStalled`: a lower bound of both arguments |
| Rounding.MinIsArgument | trips/services.py:14-18 | ... and one of them, so it is the lesser |
| Rounding.Max | trips/views.py:99 | Python's two-argument `max`: an upper bound of both arguments |
| Rounding.MaxIsArgument | trips/views.py:111-112 | ... and one of them, so it is the greater |
| Rounding.Min3 | trips/views.py:109 | Python's three-argument `min`: a lower bound of all three arguments |
| Rounding.Min3IsArgument | trips/services.py:14-18 | ... and one of them, so it is the least |
| Rounding.RoundTo | trips/views.py:110 | `round(x, digits)` as a definition: move the point `digits` places, round half to even, move it back; `RoundToHundredths` states its value for two digits |
| Rounding.RoundToHundredths | trips/views.py:110 | rounding to two digits is one half-even rounding of 100·x, divided by 100 |
| Rounding.Round2 | trips/services.py:20 | `round(x, 2)` moves x by at most 0.005 |
| Rounding.Round2Exact | trips/views.py:120 | a value that is already a whole number of hundredths is unchanged by `round(x, 2)` |
| Rounding.Round2Between | trips/views.py:110 | `round(x, 2)` never crosses a whole number of hundredths, so it keeps bounds such as 0 and 11 |
| Rounding.Round2Tiny | trips/services.py:20 | anything from 0 to 0.005 rounds to 0.0, because the tie at 0.005 goes to the even 0 |
| TripViews.DurationSeconds | trips/views.py:91 | `route_info.get('duration_seconds', 0)`: 0 for an empty route, otherwise the route's duration |
| TripViews.DistanceMeters | trips/views.py:92 | `route_info.get('distance_meters', 0)`: 0 for an empty route, otherwise the route's distance |
| TripViews.TotalFuelStops | trips/views.py:102-103 | the fuel stops owed: 0 exactly when the distance is not positive, otherwise the n with (n-1)·1000 < miles <= n·1000 |
| TripViews.Start | trips/views.py:91-107 | the loop starts on day 1 with no fuel assigned, the driving budget in hours, and the cycle budget max(0, 70 - used), which is never negative |
| TripViews.DrivingToday | trips/views.py:109-110 | a day's driving is within 0.005 of min(11, driving left, cycle left); it is at most 11, and it is non-negative when both budgets are |
| TripViews.FuelToday | trips/views.py:115-118 | a day gets one fuel stop exactly when fewer than the owed stops have been assigned, otherwise none |
| TripViews.RestHours | trips/views.py:120 | rest is never negative |
| TripViews.Continues | trips/views.py:108 | the loop guard, as a definition: driving left, or day 1 with a fuel stop owed; `ScheduleEmpty` and `RunShape` state what it decides |
| TripViews.Today | trips/views.py:122 | the record carries the current day number |
| TripViews.Advance | trips/views.py:111-124 | one iteration's updates: both budgets are floored at 0, the day goes up by one, and fuel assigned grows by today's stop |
| TripViews.Run | trips/views.py:105-127 | the loop from any state, as a definition: the records it appends and the state it stops in; `RunShape`, `RunFuel`, `RunDriving`, `RunRest`, `RunConservation` and `RunStalled` state its contract |
| TripViews.Schedule | trips/views.py:86-129 | the records for a trip's inputs, as a definition: `Run` from `Start`; the `Schedule*` lemmas state its contract |
| TripViews.CreateEldLogs | trips/views.py:86-129 | the loop, with the day-14 break, produces exactly `Schedule`: at most 14 records, numbered 1..N |
| TripViews.StepMatches | trips/views.py:109-120 | the values one pass of the loop body computes are `Today` and `Advance` of the state it starts from |
| TripViews.StepPreserves | trips/views.py:122-127 | one pass keeps "records so far plus records still to come is the whole schedule", and after the break the records so far are the whole schedule |
| TripViews.RunShape | trips/views.py:124-127 | from day d the loop appends at most 15 - d records, numbered d, d+1, ...; it ends at day d + N, and if that is not past 14 it ended because the guard failed |
| TripViews.RunFuel | trips/views.py:115-118 | record i has a fuel stop exactly when fewer than the owed stops were assigned before it |
| TripViews.RunRest | trips/views.py:120 | every record's rest is non-negative, from any state |
| TripViews.RestIsRemainder | trips/views.py:120 | for driving of k hundredths, rest is exactly max(0, 22 - driving) |
| TripViews.RunDriving | trips/views.py:109-120 | with non-negative budgets, every day drives 0 to 11 hours and rests 22 minus that, and both budgets stay non-negative |
| TripViews.RunConservation | trips/views.py:109-112 | the hours driven are at least what each budget lost, and at most that plus 0.005 per day |
| TripViews.RunStalled | trips/views.py:108-127 | once either budget is at most 0.005 hours (both non-negative), every later day drives 0 hours and both budgets stay unchanged; if driving is left, the loop runs to day 14 |
| TripViews.ScheduleDays | trips/views.py:106-127 | at most 14 records, numbered 1, 2, ..., N |
| TripViews.TotalFuelOfPrefix | trips/views.py:115-118 | records whose stops fill exactly the first k days add up to min(k, N) stops |
| TripViews.ScheduleFuel | trips/views.py:102-118 | record i has a stop exactly when i is below the stops owed, and the stops add up to min(owed, N), so any excess is dropped |
| TripViews.ScheduleDriving | trips/views.py:109-120 | for a route of non-negative duration, every day drives 0 to 11 hours and rests 22 minus that |
| TripViews.ScheduleRestNonNegative | trips/views.py:120 | for any inputs, every record's rest is non-negative |
| TripViews.ScheduleEmpty | trips/views.py:108 | there are no records exactly when the duration is not positive and the distance is not positive (no fuel stop owed) |
| TripViews.ZeroDrivingOneDay | trips/views.py:108-122 | no driving time but some distance: one record, day 1, 0 hours driving, 22 hours rest, 1 fuel stop |
| TripViews.RunCycleStaysNonNegative | trips/views.py:112 | a non-negative cycle budget stays non-negative to the end of the loop |
| TripViews.ScheduleWithinCycle | trips/views.py:99-112 | for any inputs, total driving is at most max(0, 70 - used) plus 0.005 per day |
| TripViews.ScheduleCoversDriving | trips/views.py:108-127 | when the loop ends before day 14, total driving equals the route's hours, up to 0.005 per day (a stalled loop reaches day 14, see `RunStalled`) |
| TripViews.ScheduleCycleSpent | trips/views.py:99-127 | a driver with at most 0.005 hours of cycle left (`cycle_hours_used` of 69.995 or more) gets 14 zero-driving days for any route with driving time |
| TripViews.ScheduleTinyRoute | trips/views.py:91-127 | a route of at most 18 seconds (in exact arithmetic) is never driven: 14 days of 0.0 hours |
| TripViews.RunStep | trips/views.py:108-127 | one iteration: today's record, then the later records unless the cutoff is reached |
| TripViews.RunLastDay | trips/views.py:108-111 | a day that empties the driving budget is the last one |
| TripViews.RunNextDay | trips/views.py:108-127 | a day that leaves driving to do, before the cutoff, is followed by the next day's records |
| TripViews.TodayExact | trips/views.py:109-120 | an allowance of k hundredths from 0 to 11 hours is driven exactly, with 22 minus it as rest, and is taken from both budgets |
| TripViews.NoRouteNoLogs | trips/views.py:91-108 | a failed route lookup (an empty route) schedules nothing |
| TripViews.ShortRouteOneDay | trips/views.py:108-127 | a route of at most 11 hours in whole hundredths, with no distance and enough cycle, is one day: all its driving, 22 minus that as rest, no fuel stop |
| TripViews.CycleRunsOutOnDayOne | trips/views.py:108-127 | with k hundredths of cycle left (at most 11 hours) and a longer route, day 1 drives k/100, then days 2 to 14 drive 0 |
| TripServices.MilesToday | trips/services.py:14-18 | a day's miles are at most the miles left, at most 11·55 and at most the cycle left at 55 mph |
| TripServices.HoursFor | trips/services.py:20 | a day's logged hours are within 0.005 of its miles divided by 55 |
| TripServices.LogFor | trips/services.py:22-26 | an entry carries the given day number |
| TripServices.ZeroHoursFewMiles | trips/services.py:20 | a day logged as 0.0 hours covers at most 0.275 miles |
| TripServices.ProgressHours | trips/services.py:20-29 | a day logged with positive hours shrinks the cycle by at least one hundredth |
| TripServices.ProgressZero | trips/services.py:14-28 | a day logged as 0.0 hours reduces the days still needed at the current pace |
| TripServices.Progress | trips/services.py:13-29 | every iteration decreases (cycle hundredths, days needed) lexicographically, so the loop terminates |
| TripServices.Allocate | trips/services.py:13-29 | the loop as a definition: each day's miles and the miles and cycle it leaves; `AllocateDailyMiles`, `AllocateMiles`, `AllocateCycle`, `AllocateOverdraw` and the `ZeroHour*` lemmas state its contract |
| TripServices.DailyLogs | trips/services.py:22-30 | one entry per day's miles |
| TripServices.ServiceSchedule | trips/services.py:7-32 | the entries for a call's inputs, as a definition: `DailyLogs` over `Allocate` from the cycle left, 70 - used; the `Service*` lemmas state its contract |
| TripServices.GenerateEldLogs | trips/services.py:7-32 | the loop produces exactly `ServiceSchedule`, whose entries are numbered 1..N, each driving 0 to 11 hours with no fuel stop |
| TripServices.StepPreserves | trips/services.py:13-30 | one pass keeps "entries so far plus entries still to come is the whole list" |
| TripServices.AllocateStep | trips/services.py:13-30 | one iteration: today's entry, then the entries for the miles and cycle left |
| TripServices.AllocateUnfold | trips/services.py:13-29 | while miles and cycle are both positive, the first day covers `MilesToday` and the rest follows from what is left |
| TripServices.DailyLogsAt | trips/services.py:22-30 | entry i is the entry for the i-th day's miles, numbered from the first day |
| TripServices.AllocateDailyMiles | trips/services.py:13-18 | every day covers more than 0 and at most 605 miles |
| TripServices.AllocateMiles | trips/services.py:13-28 | the miles driven plus the miles left equal the miles at the start; the miles left are never negative, and are left over only when the cycle ran out |
| TripServices.AllocateCycle | trips/services.py:13-29 | the hours logged plus the cycle left equal the cycle at the start |
| TripServices.AllocateOverdraw | trips/services.py:13-29 | a positive cycle is overdrawn by at most 0.005 hours |
| TripServices.DayBounds | trips/services.py:16-25 | a day of at most 605 miles logs 0 to 11 hours and no fuel stop |
| TripServices.ZeroHourDay | trips/services.py:14-20 | with at most 0.005 hours of cycle left, a day covers min(miles left, cycle·55) and is logged as 0.0 hours |
| TripServices.ZeroHourRun | trips/services.py:13-29 | with at most 0.005 hours of cycle left, the cycle never shrinks, every day covers at most cycle·55 miles, and the loop ends with no miles left |
| TripServices.TinyDayHours | trips/services.py:20 | a day of at most cycle·55 miles, with at most 0.005 hours of cycle, is logged as 0.0 hours |
| TripServices.ZeroHourLogs | trips/services.py:20-30 | with at most 0.005 hours of cycle left, every entry is logged as 0.0 hours |
| TripServices.ZeroHourDayCount | trips/services.py:13-30 | with at most 0.005 hours of cycle left, there are ceil(miles / (cycle·55)) entries |
| TripServices.ServiceDays | trips/services.py:11-30 | entries are numbered 1, 2, ..., N; each logs 0 to 11 hours and no fuel stop |
| TripServices.ServiceEmpty | trips/services.py:9-13 | the list is empty exactly when there are no miles or the cycle used is 70 or more |
| TripServices.ServiceWithinCycle | trips/services.py:9-29 | the hours logged exceed the cycle left at the start by at most 0.005 |
| TripServices.ServiceZeroHourDays | trips/services.py:9-30 | with `cycle_used` in [69.995, 70), every entry logs 0.0 hours and there are ceil(miles / ((70 - used)·55)) of them: a number with no bound |
| TripServices.ServiceCoversMiles | trips/services.py:13-28 | when the loop stops with cycle left, the days' miles add up to exactly the miles at the start |

## Left out

- Floating point: Python floats become exact reals. The divisions by 3600,
  1609.344 and 55, and the subtractions in both loops, are exact. So is
  `round(x, 2)`, which rounds the exact value half to even. Binary rounding
  of floats is not reproduced. The thresholds can move: with floats, a route
  of exactly 18 seconds is rounded up to 0.01 hours rather than down. The
  termination proof of `generate_eld_logs` (`TripServices.Progress`) does
  not carry over to floats. With a cycle left of a few ulps, a day's miles
  can be below half an ulp of the miles left, so subtracting them changes
  nothing and the loop does not end.
- `TripView.post`, `geocode` and `get_route` (trips/views.py:12-84) are not
  part of this model. They handle HTTP, the two network services and their
  error suppression. The planner sees only their result: `RouteInfo` is
  either `NoRoute` (the empty dict) or a route's distance and duration.
- Persistence: `ELDLog.objects.create` becomes a sequence append. The
  record's link to its trip, and the trip's other fields, are not modelled.
  Only `cycle_hours_used` reaches the planner. trips/models.py and
  trips/serializers.py are not part of this model.
- TripViews.ScheduleDriving: requires a non-negative route duration. For a
  negative duration the code logs negative driving and more than 22 hours of
  rest. `Run` models that case, but no bound is stated for it. The same
  requirement is on TripViews.ScheduleCoversDriving.
- TripViews.RunDriving: states its bounds only from states whose budgets are
  both non-negative, which every state reached from `Start` has when the
  duration is non-negative.
- TripViews.ShortRouteOneDay: stated for durations and cycles that are whole
  hundredths of an hour. A value between hundredths is rounded first, which
  `TripViews.DrivingToday` and `TripViews.RunConservation` cover in general.
- TripViews.CycleRunsOutOnDayOne: stated for cycles that are whole
  hundredths of an hour, for the same reason.
- TripServices.ServiceWithinCycle: states the bound for `cycle_used < 70`.
  Otherwise the list is empty (`TripServices.ServiceEmpty`) and the bound is
  the negative cycle itself.
- TripServices.GenerateEldLogs: no cap on the number of days. The source has
  none, and `TripServices.ServiceZeroHourDays` shows how many zero-hour days
  it can produce. The 14-day cap belongs only to the other planner.
