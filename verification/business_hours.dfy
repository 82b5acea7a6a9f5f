/**
  `BusinessUtils.isBusinessHours` and `getBusinessStatus`, with the clock read
  replaced by the day of the week and the hour it would have returned.
 */
module BusinessHours {

  /** `Date.prototype.getDay`: 0 is Sunday, 6 is Saturday. */
  type Weekday = d: int | 0 <= d <= 6

  /** `Date.prototype.getHours`: the hour of the local time. */
  type Hour = h: int | 0 <= h <= 23

  const Sunday: Weekday := 0
  const OpeningHour: Hour := 9
  /** The last hour whose minutes all count as open. */
  const LastOpenHour: Hour := 19

  const OpenText := "We are currently open! Call us now."
  const ClosedText :=
    "We are currently closed. We will respond to your message during business hours (9 AM - 7 PM, Mon-Sat)."

  /** Open Monday to Saturday from 09:00 until 19:59. */
  predicate IsBusinessHours(day: Weekday, hour: Hour) {
    day != Sunday && OpeningHour <= hour <= LastOpenHour
  }

  /** The status sentence appended to WhatsApp enquiries. */
  function BusinessStatus(day: Weekday, hour: Hour): (status: string)
    ensures status == OpenText <==> IsBusinessHours(day, hour)
    ensures status == ClosedText <==> !IsBusinessHours(day, hour)
  {
    if IsBusinessHours(day, hour) then OpenText else ClosedText
  }

  /** Sunday is closed at every hour. */
  lemma SundayClosed(hour: Hour)
    ensures !IsBusinessHours(Sunday, hour)
    ensures BusinessStatus(Sunday, hour) == ClosedText
  {
  }

  /** The boundaries: 08:xx closed, 09:xx open, 19:xx still open, 20:xx closed. */
  lemma HourBoundaries(day: Weekday)
    requires day != Sunday
    ensures !IsBusinessHours(day, 8) && IsBusinessHours(day, 9)
    ensures IsBusinessHours(day, 19) && !IsBusinessHours(day, 20)
  {
  }

  /** Every working day has the same hours. */
  lemma SameHoursEveryWorkingDay(d1: Weekday, d2: Weekday, hour: Hour)
    requires d1 != Sunday && d2 != Sunday
    ensures IsBusinessHours(d1, hour) <==> IsBusinessHours(d2, hour)
  {
  }

  /** The open hours of a day form one unbroken stretch. */
  lemma OpenHoursContiguous(day: Weekday, h1: Hour, h: Hour, h2: Hour)
    requires h1 <= h <= h2
    requires IsBusinessHours(day, h1) && IsBusinessHours(day, h2)
    ensures IsBusinessHours(day, h)
  {
  }

  /** The number of open hours from `hour` to the end of `day`. */
  function OpenHoursFrom(day: Weekday, hour: int): (n: nat)
    requires 0 <= hour <= 24
    ensures n <= 24 - hour
    ensures day == Sunday ==> n == 0
    decreases 24 - hour
  {
    if hour == 24 then 0
    else (if IsBusinessHours(day, hour) then 1 else 0) + OpenHoursFrom(day, hour + 1)
  }

  /** The number of open hours from `day` to the end of the week. */
  function OpenHoursOfWeekFrom(day: int): (n: nat)
    requires 0 <= day <= 7
    decreases 7 - day
  {
    if day == 7 then 0 else OpenHoursFrom(day, 0) + OpenHoursOfWeekFrom(day + 1)
  }

  /** Each working day has eleven open hours (09 through 19). */
  lemma {:induction false} OpenHoursPerWorkingDay(day: Weekday, hour: int)
    requires day != Sunday && 0 <= hour <= 24
    ensures OpenHoursFrom(day, hour) ==
      if hour <= OpeningHour then 11
      else if hour <= LastOpenHour + 1 then LastOpenHour + 1 - hour
      else 0
    decreases 24 - hour
  {
    if hour < 24 {
      OpenHoursPerWorkingDay(day, hour + 1);
    }
  }

  /** The week has 66 open hours: six days of eleven. */
  lemma OpenHoursPerWeek()
    ensures OpenHoursOfWeekFrom(0) == 66
  {
    forall d: Weekday | d != Sunday ensures OpenHoursFrom(d, 0) == 11 {
      OpenHoursPerWorkingDay(d, 0);
    }
    assert OpenHoursFrom(0, 0) == 0;
  }
}
