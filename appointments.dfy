/**
 * The pure rules of the appointment routes: the fixed weekly slot table, the
 * availability filter, the slot-conflict test both booking entry points apply, and
 * the filter and order of the staff appointment list.
 */
module Appointments {
  import opened Wrappers
  import opened Domain
  import opened Seqs
  import opened Text

  /** The weekday of `date` as `getUTCDay` numbers it, 0 = Sunday ... 6 = Saturday; day 0 (1970-01-01) was a Thursday. */
  function Weekday(date: Date): (day: int)
    ensures 0 <= day < 7
  {
    (date + 4) % 7
  }

  /** The weekday repeats every seven days, and 1970-01-04 was a Sunday. */
  lemma WeekdayFacts(date: Date)
    ensures Weekday(date + 7) == Weekday(date)
    ensures Weekday(date + 1) == (Weekday(date) + 1) % 7
    ensures Weekday(3) == 0
  {
  }

  /** One row of the weekly slot table: whether the studio is closed, and the bookable start times in order. */
  datatype DayConfig = DayConfig(closed: bool, times: seq<Time>)

  const WeekdayTimes: seq<Time> := ["07:00", "09:30", "12:00", "14:30", "17:00"]
  const SaturdayTimes: seq<Time> := ["09:00", "10:30", "12:00", "13:30", "15:00"]

  predicate IsDigit(c: char) {
    '0' <= c <= '9'
  }

  /** The `^\d{2}:\d{2}$` pattern both booking schemas check a time against. */
  predicate TimeFormat(t: string) {
    |t| == 5 && IsDigit(t[0]) && IsDigit(t[1]) && t[2] == ':' && IsDigit(t[3]) && IsDigit(t[4])
  }

  /**
   * The slot table for weekday `day`: Sunday closed, Monday to Friday five fixed times,
   * Saturday five others; the service's duration plays no part.
   */
  function DayConfigOf(day: int): (c: DayConfig)
    requires 0 <= day < 7
    ensures c.closed <==> day == 0
    ensures c.closed ==> c.times == []
    ensures |c.times| == if day == 0 then 0 else 5
    ensures 1 <= day <= 5 ==> c.times == DayConfigOf(1).times
    ensures forall t :: t in c.times ==> TimeFormat(t)
    ensures forall i, j :: 0 <= i < j < |c.times| ==> StrLe(c.times[i], c.times[j]) && c.times[i] != c.times[j]
  {
    if day == 0 then DayConfig(true, [])
    else if day == 6 then DayConfig(false, SaturdayTimes)
    else DayConfig(false, WeekdayTimes)
  }

  /** The time format admits labels the table never offers, and booking does not consult the table. */
  lemma FormatAdmitsTimesOutsideTable()
    ensures TimeFormat("99:99")
    ensures forall day :: 0 <= day < 7 ==> "99:99" !in DayConfigOf(day).times
  {
  }

  /** The public booking schema: a non-empty name, a phone of at least eight UTF-16 code units, an HH:MM time. */
  predicate PublicBookingValid(name: string, phone: string, time: Time) {
    Utf16Length(name) >= 1 && Utf16Length(phone) >= 8 && TimeFormat(time)
  }

  /** The manual booking schema: an HH:MM time, and a client id or else a non-empty name and phone. */
  predicate ManualBookingValid(clientId: Option<Id>, name: Option<string>, phone: Option<string>, time: Time) {
    && TimeFormat(time)
    && (clientId.Some? || (name.Some? && name.value != "" && phone.Some? && phone.value != ""))
  }

  /** The service exists and is active: the test availability and both booking entry points apply first. */
  predicate Bookable(services: map<Id, Service>, serviceId: Id) {
    serviceId in services && services[serviceId].active
  }

  /** Some appointment, whatever its status, already holds `time` for (`serviceId`, `date`). */
  predicate SlotBooked(ledger: map<Id, Appointment>, serviceId: Id, date: Date, time: Time) {
    exists k :: k in ledger && ledger[k].serviceId == serviceId && ledger[k].date == date && ledger[k].time == time
  }

  /** The times of all appointments for (`serviceId`, `date`), with no status filter. */
  function BookedTimes(ledger: map<Id, Appointment>, serviceId: Id, date: Date): set<Time> {
    set k | k in ledger && ledger[k].serviceId == serviceId && ledger[k].date == date :: ledger[k].time
  }

  /**
   * GET /availability: the free start times for `serviceId` on `date`, or InvalidService
   * when the service is missing or inactive (the ledger is then not consulted).
   */
  function AvailableTimes(services: map<Id, Service>, ledger: map<Id, Appointment>, serviceId: Id, date: Date)
    : (r: Result<seq<Time>>)
    ensures r.Err? <==> !Bookable(services, serviceId)
    ensures r.Err? ==> r.error == InvalidService
    ensures r.Ok? ==> Subseq(r.value, DayConfigOf(Weekday(date)).times)
    ensures r.Ok? ==> forall t :: t in r.value <==>
                        t in DayConfigOf(Weekday(date)).times && !SlotBooked(ledger, serviceId, date, t)
    ensures r.Ok? ==> forall k :: k in ledger && ledger[k].serviceId == serviceId && ledger[k].date == date ==>
                        ledger[k].time !in r.value
    ensures r.Ok? && Weekday(date) == 0 ==> r.value == []
  {
    if !Bookable(services, serviceId) then Err(InvalidService)
    else
      var booked := BookedTimes(ledger, serviceId, date);
      var config := DayConfigOf(Weekday(date));
      if config.closed then Ok([])
      else Ok(Filter(config.times, t => t !in booked))
  }

  /**
   * Changing one appointment's status never frees or takes a slot: canceled and
   * no-show appointments keep occupying their time.
   */
  lemma StatusChangeKeepsAvailability(
    services: map<Id, Service>, ledger: map<Id, Appointment>, id: Id, status: Status, serviceId: Id, date: Date)
    requires id in ledger
    ensures AvailableTimes(services, ledger[id := ledger[id].(status := status)], serviceId, date)
         == AvailableTimes(services, ledger, serviceId, date)
  {
    var ledger' := ledger[id := ledger[id].(status := status)];
    assert forall k :: k in ledger' <==> k in ledger;
    assert forall k :: k in ledger ==>
      ledger'[k].serviceId == ledger[k].serviceId && ledger'[k].date == ledger[k].date && ledger'[k].time == ledger[k].time;
    assert BookedTimes(ledger', serviceId, date) == BookedTimes(ledger, serviceId, date);
  }

  /** A freshly recorded appointment takes its slot out of the availability of its service and date. */
  lemma BookingTakesSlot(services: map<Id, Service>, ledger: map<Id, Appointment>, a: Appointment)
    requires Bookable(services, a.serviceId)
    ensures a.time !in AvailableTimes(services, ledger[a.id := a], a.serviceId, a.date).value
  {
    var ledger' := ledger[a.id := a];
    assert a.id in ledger' && ledger'[a.id] == a;
    assert SlotBooked(ledger', a.serviceId, a.date, a.time);
  }

  /** The staff list filter: an optional date and an optional status string ("" means no filter). */
  predicate ListMatch(a: Appointment, date: Option<Date>, status: Option<string>) {
    && (date.None? || a.date == date.value)
    && (status.None? || status.value == "" || StatusName(a.status) == status.value)
  }

  /** The staff list order: by date, then by time label. */
  predicate ChronoLe(a: Appointment, b: Appointment) {
    a.date < b.date || (a.date == b.date && StrLe(a.time, b.time))
  }

  lemma ChronoLeIsTotalPreorder()
    ensures TotalPreorder(ChronoLe)
  {
    StrLeIsTotalOrder();
  }

  /** GET /appointments: the matching appointments ordered by (date, time) ascending. */
  function ListAppointments(rows: seq<Appointment>, date: Option<Date>, status: Option<string>): (r: seq<Appointment>)
    ensures forall a :: a in r <==> a in rows && ListMatch(a, date, status)
    ensures SortedBy(r, ChronoLe)
    ensures Distinct(rows) ==> Distinct(r)
  {
    var matching := Filter(rows, a => ListMatch(a, date, status));
    ChronoLeIsTotalPreorder();
    SortKeeps(matching, ChronoLe);
    assert Distinct(rows) ==> Distinct(matching) by {
      if Distinct(rows) { FilterDistinct(rows, a => ListMatch(a, date, status)); }
    }
    Sort(matching, ChronoLe)
  }
}
