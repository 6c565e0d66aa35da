/**
 * The studio's database and the route handlers that read and write it. Every table is
 * a map from id to record; one counter hands out ids and doubles as the creation clock,
 * so a row created later has a larger id and a larger `createdAt`. Each handler runs as
 * one atomic step.
 */
module Store {
  import opened Wrappers
  import opened Domain
  import opened Seqs
  import Appointments
  import Testimonials
  import Services
  import Clients
  import SettingsRules
  import Text

  function ServiceKey(s: Service): Id { s.id }
  function ClientKey(c: Client): Id { c.id }
  function AppointmentKey(a: Appointment): Id { a.id }
  function TestimonialKey(t: Testimonial): Id { t.id }
  function SettingsKey(s: Settings): Id { s.id }

  // ---------------------------------------------------------------- facts about one table

  /** The ids of the clients that `search` matches. */
  ghost function MatchingIds(clients: map<Id, Client>, search: string): set<Id> {
    KeysWhere(clients, Clients.SearchFilter(search))
  }

  /** The matching list holds one entry per matching client, so `total` counts the matching clients. */
  lemma MatchingCount(clients: map<Id, Client>, n: nat, search: string)
    requires Keyed(clients, n, ClientKey)
    ensures |Clients.Matching(Rows(clients, n, ClientKey), search)| == |MatchingIds(clients, search)|
  {
    var rows := Rows(clients, n, ClientKey);
    RowsMembers(clients, n, ClientKey);
    CountKeysWhere(clients, ClientKey, Clients.SearchFilter(search), Clients.Matching(rows, search));
  }

  /** GET /clients over the client table: a page of its matching clients, by name, and the matching count. */
  lemma ClientPageOfTable(clients: map<Id, Client>, n: nat, page: Option<int>, perPage: Option<int>,
                          search: Option<string>, r: Clients.ClientPage)
    requires Keyed(clients, n, ClientKey)
    requires page.Some? ==> page.value >= 1
    requires perPage.Some? ==> perPage.value >= 1
    requires r == Clients.ListClients(Rows(clients, n, ClientKey), page, perPage, search)
    ensures forall c :: c in r.items ==> && c.id in clients && clients[c.id] == c
                                         && Clients.MatchesSearch(c, search.GetOr(""))
    ensures SortedBy(r.items, Clients.NameLe)
    ensures r.total == |MatchingIds(clients, search.GetOr(""))|
  {
    PageComesFromTable(clients, n, search.GetOr(""), r.page, r.perPage);
    MatchingCount(clients, n, search.GetOr(""));
  }

  /** A page of the matching list holds matching clients of the table, in name order. */
  lemma PageComesFromTable(clients: map<Id, Client>, n: nat, search: string, page: int, perPage: int)
    requires Keyed(clients, n, ClientKey)
    requires page >= 1 && perPage >= 1
    ensures var items := Clients.PageWindow(Clients.Matching(Rows(clients, n, ClientKey), search), page, perPage);
            && (forall c :: c in items ==> c.id in clients && clients[c.id] == c && Clients.MatchesSearch(c, search))
            && SortedBy(items, Clients.NameLe)
  {
    RowsMembers(clients, n, ClientKey);
    Clients.PageOfMatching(Rows(clients, n, ClientKey), search, page, perPage);
  }

  /** The ids of the published testimonials of the table. */
  ghost function PublishedIds(testimonials: map<Id, Testimonial>): set<Id> {
    KeysWhere(testimonials, Testimonials.IsPublished)
  }

  /** The published list has one entry per published row of the table. */
  lemma PublishedCount(testimonials: map<Id, Testimonial>, n: nat)
    requires Keyed(testimonials, n, TestimonialKey)
    ensures |Testimonials.PublishedList(Rows(testimonials, n, TestimonialKey))| == |PublishedIds(testimonials)|
  {
    var rows := Rows(testimonials, n, TestimonialKey);
    RowsMembers(testimonials, n, TestimonialKey);
    var ordered := Testimonials.NewestPublished(rows);
    CountKeysWhere(testimonials, TestimonialKey, Testimonials.IsPublished, ordered);
  }

  /** The published list of the testimonial table holds exactly its published rows, newest first. */
  lemma PublishedMatchTable(testimonials: map<Id, Testimonial>, n: nat, r: seq<Testimonials.PublishedTestimonial>)
    requires Keyed(testimonials, n, TestimonialKey)
    requires r == Testimonials.PublishedList(Rows(testimonials, n, TestimonialKey))
    ensures forall k :: k in testimonials && testimonials[k].status == Published ==>
              Testimonials.Project(testimonials[k]) in r
    ensures forall p :: p in r ==> && p.id in testimonials && testimonials[p.id].status == Published
                                   && Testimonials.Project(testimonials[p.id]) == p
    ensures forall i, j :: 0 <= i < j < |r| ==> r[i].createdAt >= r[j].createdAt
    ensures |r| == |PublishedIds(testimonials)|
  {
    var rows := Rows(testimonials, n, TestimonialKey);
    RowsMembers(testimonials, n, TestimonialKey);
    PublishedCount(testimonials, n);
    var ordered := Testimonials.NewestPublished(rows);
    forall k | k in testimonials && testimonials[k].status == Published
      ensures Testimonials.Project(testimonials[k]) in r
    {
      assert testimonials[k] in rows && Testimonials.IsPublished(testimonials[k]);
    }
    forall p | p in r ensures && p.id in testimonials && testimonials[p.id].status == Published
                              && Testimonials.Project(testimonials[p.id]) == p {
      var i :| 0 <= i < |r| && r[i] == p;
      var t := ordered[i];
      assert t in ordered;
      assert t in rows;
    }
  }

  /** A new testimonial for an appointment and a link no other row has keeps both columns unique. */
  lemma StillOnePerAppointmentAndLink(testimonials: map<Id, Testimonial>, t: Testimonial)
    requires forall j, k :: (j in testimonials && k in testimonials
                             && testimonials[j].appointmentId == testimonials[k].appointmentId) ==> j == k
    requires forall j, k :: (j in testimonials && k in testimonials
                             && testimonials[j].uniqueLink == testimonials[k].uniqueLink) ==> j == k
    requires t.id !in testimonials
    requires forall k :: k in testimonials ==> testimonials[k].appointmentId != t.appointmentId
    requires forall k :: k in testimonials ==> testimonials[k].uniqueLink != t.uniqueLink
    ensures var m := testimonials[t.id := t];
            && (forall j, k :: (j in m && k in m && m[j].appointmentId == m[k].appointmentId) ==> j == k)
            && (forall j, k :: (j in m && k in m && m[j].uniqueLink == m[k].uniqueLink) ==> j == k)
  {
  }

  /** A table lists no rows exactly when it is empty. */
  lemma RowsEmpty<T(!new)>(m: map<Id, T>, n: nat, id: T -> Id)
    requires Keyed(m, n, id)
    ensures m == map[] <==> Rows(m, n, id) == []
  {
    var rows := Rows(m, n, id);
    if m != map[] {
      var k :| k in m;
      assert m[k] in rows;
    }
    if rows != [] {
      assert rows[0] in rows;
    }
  }

  /** When every settings row was created at the moment of its id, the row with the largest id is the latest. */
  lemma LatestIsNewest(settings: map<Id, Settings>, n: nat, s: Settings)
    requires Keyed(settings, n, SettingsKey)
    requires forall k :: k in settings ==> settings[k].createdAt == k
    requires s.id in settings && settings[s.id] == s
    requires forall k :: k in settings ==> k <= s.id
    ensures SettingsRules.Latest(Rows(settings, n, SettingsKey)) == Some(s)
  {
    var rows := Rows(settings, n, SettingsKey);
    RowsMembers(settings, n, SettingsKey);
    assert s in rows;
    SettingsRules.LatestIsUnique(rows, s);
  }

  /**
   * The database constraints: each row sits under its own id, below the counter `n`;
   * appointments point at existing clients and services; a testimonial points at an
   * existing appointment, and its appointment and its link are unique among
   * testimonials; testimonials and settings were created at the moment their id was
   * handed out.
   */
  ghost predicate Consistent(services: map<Id, Service>, clients: map<Id, Client>, appointments: map<Id, Appointment>,
                             testimonials: map<Id, Testimonial>, settings: map<Id, Settings>, n: nat)
  {
    && Keyed(services, n, ServiceKey)
    && Keyed(clients, n, ClientKey)
    && Keyed(appointments, n, AppointmentKey)
    && Keyed(testimonials, n, TestimonialKey)
    && Keyed(settings, n, SettingsKey)
    && (forall k :: k in appointments ==> appointments[k].clientId in clients && appointments[k].serviceId in services)
    && (forall k :: k in testimonials ==> testimonials[k].appointmentId in appointments && testimonials[k].createdAt == k)
    && (forall j, k :: (j in testimonials && k in testimonials
                        && testimonials[j].appointmentId == testimonials[k].appointmentId) ==> j == k)
    && (forall j, k :: (j in testimonials && k in testimonials
                        && testimonials[j].uniqueLink == testimonials[k].uniqueLink) ==> j == k)
    && (forall k :: k in settings ==> settings[k].createdAt == k)
  }

  /** A new pending testimonial under the next id, for an appointment and a link no row has yet, keeps the database consistent. */
  lemma AddTestimonialKeepsConsistent(services: map<Id, Service>, clients: map<Id, Client>, appointments: map<Id, Appointment>,
                                      testimonials: map<Id, Testimonial>, settings: map<Id, Settings>, n: nat, t: Testimonial)
    requires Consistent(services, clients, appointments, testimonials, settings, n)
    requires t.id == n && t.createdAt == n && t.appointmentId in appointments
    requires forall k :: k in testimonials ==> testimonials[k].appointmentId != t.appointmentId
    requires forall k :: k in testimonials ==> testimonials[k].uniqueLink != t.uniqueLink
    ensures Consistent(services, clients, appointments, testimonials[n := t], settings, n + 1)
  {
    StillOnePerAppointmentAndLink(testimonials, t);
    KeyedRaise(services, n, ServiceKey);
    KeyedRaise(clients, n, ClientKey);
    KeyedRaise(appointments, n, AppointmentKey);
    KeyedAdd(testimonials, n, TestimonialKey, t);
    KeyedRaise(settings, n, SettingsKey);
  }

  /** Removing a service with its appointments, none of which has a testimonial, keeps the database consistent. */
  lemma DeleteServiceKeepsConsistent(services: map<Id, Service>, clients: map<Id, Client>, appointments: map<Id, Appointment>,
                                     testimonials: map<Id, Testimonial>, settings: map<Id, Settings>, n: nat, id: Id)
    requires Consistent(services, clients, appointments, testimonials, settings, n)
    requires forall k :: k in testimonials ==> appointments[testimonials[k].appointmentId].serviceId != id
    ensures var kept := map k | k in appointments && appointments[k].serviceId != id :: appointments[k];
            Consistent(services - {id}, clients, kept, testimonials, settings, n)
  {
  }

  class Store {
    var services: map<Id, Service>
    var clients: map<Id, Client>
    var appointments: map<Id, Appointment>
    var testimonials: map<Id, Testimonial>
    var settings: map<Id, Settings>
    /** The next id to hand out, and the current time of the creation clock. */
    var nextId: nat

    /** The database constraints hold for the tables as they are now. */
    ghost predicate Valid()
      reads this
    {
      Consistent(services, clients, appointments, testimonials, settings, nextId)
    }

    /** An empty database. */
    constructor()
      ensures Valid()
      ensures services == map[] && clients == map[] && appointments == map[]
      ensures testimonials == map[] && settings == map[] && nextId == 0
    {
      services, clients, appointments, testimonials, settings := map[], map[], map[], map[], map[];
      nextId := 0;
    }

    /** The rows of the table in id order. */
    function ServiceRows(): (r: seq<Service>)
      reads this
      requires Keyed(services, nextId, ServiceKey)
      ensures forall s :: s in r <==> s.id in services && services[s.id] == s
      ensures forall k :: k in services ==> services[k] in r
      ensures Distinct(r)
    {
      RowsMembers(services, nextId, ServiceKey);
      Rows(services, nextId, ServiceKey)
    }

    /** The rows of the table in id order. */
    function ClientRows(): (r: seq<Client>)
      reads this
      requires Keyed(clients, nextId, ClientKey)
      ensures forall c :: c in r <==> c.id in clients && clients[c.id] == c
      ensures forall k :: k in clients ==> clients[k] in r
      ensures Distinct(r)
    {
      RowsMembers(clients, nextId, ClientKey);
      Rows(clients, nextId, ClientKey)
    }

    /** The rows of the table in id order. */
    function AppointmentRows(): (r: seq<Appointment>)
      reads this
      requires Keyed(appointments, nextId, AppointmentKey)
      ensures forall a :: a in r <==> a.id in appointments && appointments[a.id] == a
      ensures forall k :: k in appointments ==> appointments[k] in r
      ensures Distinct(r)
    {
      RowsMembers(appointments, nextId, AppointmentKey);
      Rows(appointments, nextId, AppointmentKey)
    }

    /** The rows of the table in id order. */
    function TestimonialRows(): (r: seq<Testimonial>)
      reads this
      requires Keyed(testimonials, nextId, TestimonialKey)
      ensures forall t :: t in r <==> t.id in testimonials && testimonials[t.id] == t
      ensures forall k :: k in testimonials ==> testimonials[k] in r
      ensures Distinct(r)
    {
      RowsMembers(testimonials, nextId, TestimonialKey);
      Rows(testimonials, nextId, TestimonialKey)
    }

    /** The rows of the table in id order. */
    function SettingsRows(): (r: seq<Settings>)
      reads this
      requires Keyed(settings, nextId, SettingsKey)
      ensures forall s :: s in r <==> s.id in settings && settings[s.id] == s
      ensures forall k :: k in settings ==> settings[k] in r
      ensures Distinct(r)
    {
      RowsMembers(settings, nextId, SettingsKey);
      Rows(settings, nextId, SettingsKey)
    }

    /** `client.create`: a new client under the next id. */
    method AddClient(name: string, phone: string) returns (c: Client)
      requires Valid()
      modifies this
      ensures Valid()
      ensures c == Client(old(nextId), name, phone) && c.id !in old(clients)
      ensures clients == old(clients)[c.id := c] && nextId == old(nextId) + 1
      ensures services == old(services) && appointments == old(appointments)
      ensures testimonials == old(testimonials) && settings == old(settings)
    {
      c := Client(nextId, name, phone);
      clients := clients[c.id := c];
      nextId := nextId + 1;
    }

    /** `appointment.create`: a new appointment under the next id, for an existing client and service. */
    method AddAppointment(clientId: Id, serviceId: Id, date: Date, time: Time, status: Status, notes: Option<string>)
      returns (a: Appointment)
      requires Valid()
      requires clientId in clients && serviceId in services
      modifies this
      ensures Valid()
      ensures a == Appointment(old(nextId), clientId, serviceId, date, time, status, notes) && a.id !in old(appointments)
      ensures appointments == old(appointments)[a.id := a] && nextId == old(nextId) + 1
      ensures services == old(services) && clients == old(clients)
      ensures testimonials == old(testimonials) && settings == old(settings)
    {
      a := Appointment(nextId, clientId, serviceId, date, time, status, notes);
      appointments := appointments[a.id := a];
      nextId := nextId + 1;
    }

    /** `client.update` of the name alone. */
    method RenameClient(id: Id, name: string)
      requires Valid() && id in clients
      modifies this
      ensures Valid()
      ensures clients == old(clients)[id := old(clients)[id].(name := name)]
      ensures services == old(services) && appointments == old(appointments)
      ensures testimonials == old(testimonials) && settings == old(settings) && nextId == old(nextId)
    {
      clients := clients[id := clients[id].(name := name)];
    }

    // ---------------------------------------------------------------- appointments

    /** `client.findFirst({ where: { phone } })`: the oldest client with that phone, if any. */
    function ClientByPhone(phone: string): (r: Option<Client>)
      reads this
      requires Valid()
      ensures r.Some? ==> r.value.id in clients && clients[r.value.id] == r.value && r.value.phone == phone
      ensures r.Some? ==> forall k :: k in clients && clients[k].phone == phone ==> r.value.id <= k
      ensures r.None? <==> forall k :: k in clients ==> clients[k].phone != phone
    {
      FindFirst(clients, nextId, ClientKey, (c: Client) => c.phone == phone)
    }

    /** GET /availability over the table: the free times of the day, or InvalidService for a service
     * that is missing or inactive; a booked slot stays taken whatever the status of its appointment. */
    function Availability(serviceId: Id, date: Date): (r: Result<seq<Time>>)
      reads this
      ensures r.Err? <==> !(serviceId in services && services[serviceId].active)
      ensures r.Err? ==> r.error == InvalidService
      ensures r.Ok? ==> forall t :: t in r.value <==>
                          && t in Appointments.DayConfigOf(Appointments.Weekday(date)).times
                          && !exists k :: k in appointments && appointments[k].serviceId == serviceId
                                          && appointments[k].date == date && appointments[k].time == t
      ensures r.Ok? && Appointments.Weekday(date) == 0 ==> r.value == []
    {
      Appointments.AvailableTimes(services, appointments, serviceId, date)
    }

    /**
     * POST /appointments (public form): validate, require a bookable service and a free
     * slot, then find the client by phone (renaming them to the name just given) or
     * register a new one, and record a scheduled appointment.
     */
    method BookPublic(name: string, phone: string, serviceId: Id, date: Date, time: Time, notes: Option<string>)
      returns (r: Result<Appointment>)
      requires Valid()
      modifies this
      ensures Valid()
      ensures !Appointments.PublicBookingValid(name, phone, time) ==> r == Err(InvalidInput)
      ensures Appointments.PublicBookingValid(name, phone, time) && !Appointments.Bookable(old(services), serviceId)
              ==> r == Err(InvalidService)
      ensures (&& Appointments.PublicBookingValid(name, phone, time)
               && Appointments.Bookable(old(services), serviceId)
               && Appointments.SlotBooked(old(appointments), serviceId, date, time)) ==> r == Err(SlotTaken)
      ensures r.Ok? <==> && Appointments.PublicBookingValid(name, phone, time)
                         && Appointments.Bookable(old(services), serviceId)
                         && !Appointments.SlotBooked(old(appointments), serviceId, date, time)
      ensures r.Err? ==> unchanged(this)
      ensures r.Ok? ==> && r.value.serviceId == serviceId && r.value.date == date && r.value.time == time
                        && r.value.status == Scheduled && r.value.notes == notes
                        && r.value.id !in old(appointments)
                        && appointments == old(appointments)[r.value.id := r.value]
                        && clients == old(clients)[r.value.clientId := Client(r.value.clientId, name, phone)]
      ensures r.Ok? && old(ClientByPhone(phone)).Some? ==> r.value.clientId == old(ClientByPhone(phone)).value.id
      ensures r.Ok? && old(ClientByPhone(phone)).None? ==> r.value.clientId !in old(clients)
      ensures services == old(services) && testimonials == old(testimonials) && settings == old(settings)
    {
      if !Appointments.PublicBookingValid(name, phone, time) {
        return Err(InvalidInput);
      }
      if !Appointments.Bookable(services, serviceId) {
        return Err(InvalidService);
      }
      if Appointments.SlotBooked(appointments, serviceId, date, time) {
        return Err(SlotTaken);
      }
      var clientId: Id;
      var found := ClientByPhone(phone);
      if found.None? {
        var c := AddClient(name, phone);
        clientId := c.id;
      } else {
        clientId := found.value.id;
        if found.value.name != name {
          RenameClient(clientId, name);
        } else {
          assert clients == clients[clientId := Client(clientId, name, phone)];
        }
      }
      var a := AddAppointment(clientId, serviceId, date, time, Scheduled, notes);
      r := Ok(a);
    }

    /**
     * POST /appointments/manual (staff): like the public form, but the client is given by
     * id (which must exist) or else found by phone or registered, never renamed; the
     * status defaults to scheduled.
     */
    method BookManual(clientId: Option<Id>, name: Option<string>, phone: Option<string>, serviceId: Id,
                      date: Date, time: Time, status: Option<Status>, notes: Option<string>)
      returns (r: Result<Appointment>)
      requires Valid()
      modifies this
      ensures Valid()
      ensures !Appointments.ManualBookingValid(clientId, name, phone, time) ==> r == Err(InvalidInput)
      ensures Appointments.ManualBookingValid(clientId, name, phone, time) && !Appointments.Bookable(old(services), serviceId)
              ==> r == Err(InvalidService)
      ensures (&& Appointments.ManualBookingValid(clientId, name, phone, time)
               && Appointments.Bookable(old(services), serviceId)
               && Appointments.SlotBooked(old(appointments), serviceId, date, time)) ==> r == Err(SlotTaken)
      ensures (&& Appointments.ManualBookingValid(clientId, name, phone, time)
               && Appointments.Bookable(old(services), serviceId)
               && !Appointments.SlotBooked(old(appointments), serviceId, date, time)
               && clientId.Some? && clientId.value !in old(clients)) ==> r == Err(StoreFault)
      ensures r.Ok? <==> && Appointments.ManualBookingValid(clientId, name, phone, time)
                         && Appointments.Bookable(old(services), serviceId)
                         && !Appointments.SlotBooked(old(appointments), serviceId, date, time)
                         && (clientId.Some? ==> clientId.value in old(clients))
      ensures r.Err? ==> unchanged(this)
      ensures r.Ok? ==> && r.value.serviceId == serviceId && r.value.date == date && r.value.time == time
                        && r.value.status == status.GetOr(Scheduled) && r.value.notes == notes
                        && r.value.id !in old(appointments)
                        && appointments == old(appointments)[r.value.id := r.value]
      ensures r.Ok? && clientId.Some? ==> r.value.clientId == clientId.value && clients == old(clients)
      ensures r.Ok? && clientId.None? && old(ClientByPhone(phone.value)).Some? ==>
                r.value.clientId == old(ClientByPhone(phone.value)).value.id && clients == old(clients)
      ensures r.Ok? && clientId.None? && old(ClientByPhone(phone.value)).None? ==>
                && r.value.clientId !in old(clients)
                && clients == old(clients)[r.value.clientId := Client(r.value.clientId, name.value, phone.value)]
      ensures services == old(services) && testimonials == old(testimonials) && settings == old(settings)
    {
      if !Appointments.ManualBookingValid(clientId, name, phone, time) {
        return Err(InvalidInput);
      }
      if !Appointments.Bookable(services, serviceId) {
        return Err(InvalidService);
      }
      if Appointments.SlotBooked(appointments, serviceId, date, time) {
        return Err(SlotTaken);
      }
      var finalClientId: Id;
      if clientId.Some? {
        if clientId.value !in clients {
          return Err(StoreFault);
        }
        finalClientId := clientId.value;
      } else {
        var found := ClientByPhone(phone.value);
        match found {
          case None =>
            var c := AddClient(name.value, phone.value);
            finalClientId := c.id;
          case Some(c) =>
            finalClientId := c.id;
        }
      }
      var a := AddAppointment(finalClientId, serviceId, date, time, status.GetOr(Scheduled), notes);
      r := Ok(a);
    }

    /** PATCH /appointments/:id/status: only the status changes; a missing appointment is a store fault. */
    method UpdateStatus(id: Id, status: Status) returns (r: Result<Appointment>)
      requires Valid()
      modifies this
      ensures Valid()
      ensures id !in old(appointments) ==> r == Err(StoreFault) && unchanged(this)
      ensures id in old(appointments) ==> && r == Ok(old(appointments)[id].(status := status))
                                          && appointments == old(appointments)[id := r.value]
      ensures services == old(services) && clients == old(clients) && testimonials == old(testimonials)
      ensures settings == old(settings) && nextId == old(nextId)
    {
      if id !in appointments {
        return Err(StoreFault);
      }
      var a := appointments[id].(status := status);
      appointments := appointments[id := a];
      r := Ok(a);
    }

    /** GET /appointments (staff): the matching appointments of the table, each once, by date and then time. */
    function ListAppointments(date: Option<Date>, status: Option<string>): (r: seq<Appointment>)
      reads this
      requires Keyed(appointments, nextId, AppointmentKey)
      ensures forall k :: k in appointments && Appointments.ListMatch(appointments[k], date, status) ==> appointments[k] in r
      ensures forall a :: a in r ==> a.id in appointments && appointments[a.id] == a && Appointments.ListMatch(a, date, status)
      ensures SortedBy(r, Appointments.ChronoLe)
      ensures Distinct(r)
    {
      Appointments.ListAppointments(AppointmentRows(), date, status)
    }
  
    // ---------------------------------------------------------------- testimonials

    /** `testimonial.findUnique({ where: { appointmentId } })`: the one testimonial of an appointment, if any. */
    function TestimonialFor(appointmentId: Id): (r: Option<Testimonial>)
      reads this
      requires Valid()
      ensures r.Some? ==> r.value.id in testimonials && testimonials[r.value.id] == r.value
      ensures r.Some? ==> forall k :: k in testimonials && testimonials[k].appointmentId == appointmentId <==> k == r.value.id
      ensures r.None? <==> forall k :: k in testimonials ==> testimonials[k].appointmentId != appointmentId
    {
      FindFirst(testimonials, nextId, TestimonialKey, (t: Testimonial) => t.appointmentId == appointmentId)
    }

    /** `testimonial.findUnique({ where: { uniqueLink } })`: the one testimonial behind a link, if any. */
    function TestimonialByLink(link: string): (r: Option<Testimonial>)
      reads this
      requires Valid()
      ensures r.Some? ==> r.value.id in testimonials && testimonials[r.value.id] == r.value
      ensures r.Some? ==> forall k :: k in testimonials && testimonials[k].uniqueLink == link <==> k == r.value.id
      ensures r.None? <==> forall k :: k in testimonials ==> testimonials[k].uniqueLink != link
    {
      FindFirst(testimonials, nextId, TestimonialKey, (t: Testimonial) => t.uniqueLink == link)
    }

    /** A stored testimonial is the one its appointment finds. */
    lemma FoundByAppointment(t: Testimonial)
      requires Valid()
      requires t.id in testimonials && testimonials[t.id] == t
      ensures TestimonialFor(t.appointmentId) == Some(t)
    {
      var r := TestimonialFor(t.appointmentId);
      assert r.Some?;
      assert r.value.id == t.id;
    }

    /** A stored testimonial is the one its link finds. */
    lemma FoundByLink(t: Testimonial)
      requires Valid()
      requires t.id in testimonials && testimonials[t.id] == t
      ensures TestimonialByLink(t.uniqueLink) == Some(t)
    {
      var r := TestimonialByLink(t.uniqueLink);
      assert r.Some?;
      assert r.value.id == t.id;
    }

    /** `testimonial.create` for an appointment without one, under a link not yet in use. */
    method AddTestimonial(appointmentId: Id, clientName: string, clientPhone: string, link: string)
      returns (t: Testimonial)
      requires Valid()
      requires appointmentId in appointments
      requires forall k :: k in testimonials ==> testimonials[k].appointmentId != appointmentId
      requires forall k :: k in testimonials ==> testimonials[k].uniqueLink != link
      modifies this
      ensures Valid()
      ensures t == Testimonial(old(nextId), appointmentId, clientName, clientPhone, link, 0, "", Pending, old(nextId))
      ensures testimonials == old(testimonials)[t.id := t] && nextId == old(nextId) + 1
      ensures services == old(services) && clients == old(clients) && appointments == old(appointments)
      ensures settings == old(settings)
    {
      t := Testimonial(nextId, appointmentId, clientName, clientPhone, link, 0, "", Pending, nextId);
      AddTestimonialKeepsConsistent(services, clients, appointments, testimonials, settings, nextId, t);
      testimonials := testimonials[t.id := t];
      nextId := nextId + 1;
    }

    /**
     * POST /testimonials/generate-link/:appointmentId: NotFound for a missing appointment;
     * the existing testimonial when the appointment has one; otherwise a new pending
     * testimonial carrying the client's name and phone and a link made from `random`
     * (a link already in use violates the uniqueness constraint). `created` tells the
     * 201 answer from the 200 one.
     */
    method GenerateLink(appointmentId: Id, random: seq<Testimonials.Byte>) returns (r: Result<Testimonial>, created: bool)
      requires Valid()
      requires |random| == 16
      modifies this
      ensures Valid()
      ensures !created ==> unchanged(this)
      ensures appointmentId !in old(appointments) ==> r == Err(NotFound) && !created
      ensures appointmentId in old(appointments) && old(TestimonialFor(appointmentId)).Some? ==>
                r == Ok(old(TestimonialFor(appointmentId)).value) && !created
      ensures (&& appointmentId in old(appointments) && old(TestimonialFor(appointmentId)).None?
               && old(TestimonialByLink(Testimonials.GenerateUniqueLink(random))).Some?) ==> r == Err(StoreFault) && !created
      ensures created <==> && appointmentId in old(appointments) && old(TestimonialFor(appointmentId)).None?
                           && old(TestimonialByLink(Testimonials.GenerateUniqueLink(random))).None?
      ensures created ==> var client := old(clients[appointments[appointmentId].clientId]);
                          && r == Ok(Testimonial(old(nextId), appointmentId, client.name, client.phone,
                                                 Testimonials.GenerateUniqueLink(random), 0, "", Pending, old(nextId)))
                          && testimonials == old(testimonials)[r.value.id := r.value]
                          && nextId == old(nextId) + 1
      ensures services == old(services) && clients == old(clients) && appointments == old(appointments)
      ensures settings == old(settings)
    {
      created := false;
      if appointmentId !in appointments {
        return Err(NotFound), false;
      }
      var existing := TestimonialFor(appointmentId);
      if existing.Some? {
        return Ok(existing.value), false;
      }
      var link := Testimonials.GenerateUniqueLink(random);
      if TestimonialByLink(link).Some? {
        return Err(StoreFault), false;
      }
      var client := clients[appointments[appointmentId].clientId];
      var t := AddTestimonial(appointmentId, client.name, client.phone, link);
      r, created := Ok(t), true;
    }

    /** `testimonial.update` of fields other than the appointment, the link and the creation time. */
    method ReplaceTestimonial(t: Testimonial)
      requires Valid()
      requires t.id in testimonials
      requires t.appointmentId == testimonials[t.id].appointmentId && t.uniqueLink == testimonials[t.id].uniqueLink
      requires t.createdAt == testimonials[t.id].createdAt
      modifies this
      ensures Valid()
      ensures testimonials == old(testimonials)[t.id := t]
      ensures services == old(services) && clients == old(clients) && appointments == old(appointments)
      ensures settings == old(settings) && nextId == old(nextId)
    {
      testimonials := testimonials[t.id := t];
    }

    /**
     * POST /testimonials/submit/:uniqueLink: validate the rating and text, find the
     * testimonial by link, refuse one already submitted, then record the rating and text
     * and publish it.
     */
    method Submit(link: string, rating: int, text: string) returns (r: Result<Testimonial>)
      requires Valid()
      modifies this
      ensures Valid()
      ensures !Testimonials.ValidSubmission(rating, text) ==> r == Err(InvalidInput)
      ensures Testimonials.ValidSubmission(rating, text) && old(TestimonialByLink(link)).None? ==> r == Err(NotFound)
      ensures (&& Testimonials.ValidSubmission(rating, text) && old(TestimonialByLink(link)).Some?
               && old(TestimonialByLink(link)).value.status != Pending) ==> r == Err(AlreadySubmitted)
      ensures r.Ok? <==> && Testimonials.ValidSubmission(rating, text) && old(TestimonialByLink(link)).Some?
                         && old(TestimonialByLink(link)).value.status == Pending
      ensures r.Err? ==> unchanged(this)
      ensures r.Ok? ==> && r.value == old(TestimonialByLink(link)).value.(rating := rating, text := text, status := Published)
                        && testimonials == old(testimonials)[r.value.id := r.value]
      ensures services == old(services) && clients == old(clients) && appointments == old(appointments)
      ensures settings == old(settings) && nextId == old(nextId)
    {
      if !Testimonials.ValidSubmission(rating, text) {
        return Err(InvalidInput);
      }
      var found := TestimonialByLink(link);
      if found.None? {
        return Err(NotFound);
      }
      if found.value.status != Pending {
        return Err(AlreadySubmitted);
      }
      var t := found.value.(rating := rating, text := text, status := Published);
      ReplaceTestimonial(t);
      r := Ok(t);
    }

    /** GET /testimonials/public/:uniqueLink: the client's name, the service's name and the status, or NotFound. */
    function FormFor(link: string): (r: Result<Testimonials.FormView>)
      reads this
      requires Valid()
      ensures r.Err? <==> forall k :: k in testimonials ==> testimonials[k].uniqueLink != link
      ensures r.Err? ==> r.error == NotFound
      ensures r.Ok? ==> exists k :: && k in testimonials && testimonials[k].uniqueLink == link
                                    && r.value.clientName == testimonials[k].clientName
                                    && r.value.status == testimonials[k].status
                                    && r.value.serviceName == services[appointments[testimonials[k].appointmentId].serviceId].name
    {
      match TestimonialByLink(link)
      case None => Err(NotFound)
      case Some(t) =>
        var service := services[appointments[t.appointmentId].serviceId];
        Ok(Testimonials.FormView(t.clientName, service.name, t.status))
    }

    /** GET /testimonials/published over the table: every published testimonial once, newest first. */
    function PublishedList(): (r: seq<Testimonials.PublishedTestimonial>)
      reads this
      requires Keyed(testimonials, nextId, TestimonialKey)
      ensures forall k :: k in testimonials && testimonials[k].status == Published ==>
                Testimonials.Project(testimonials[k]) in r
      ensures forall p :: p in r ==> && p.id in testimonials && testimonials[p.id].status == Published
                                     && Testimonials.Project(testimonials[p.id]) == p
      ensures forall i, j :: 0 <= i < j < |r| ==> r[i].createdAt >= r[j].createdAt
      ensures |r| == |PublishedIds(testimonials)|
    {
      var r := Testimonials.PublishedList(Rows(testimonials, nextId, TestimonialKey));
      PublishedMatchTable(testimonials, nextId, r);
      r
    }

    /** DELETE /testimonials/:id: removes the row; a missing one is a store fault. */
    method DeleteTestimonial(id: Id) returns (r: Result<Testimonial>)
      requires Valid()
      modifies this
      ensures Valid()
      ensures id !in old(testimonials) ==> r == Err(StoreFault) && unchanged(this)
      ensures id in old(testimonials) ==> r == Ok(old(testimonials)[id]) && testimonials == old(testimonials) - {id}
      ensures services == old(services) && clients == old(clients) && appointments == old(appointments)
      ensures settings == old(settings) && nextId == old(nextId)
    {
      if id !in testimonials {
        return Err(StoreFault);
      }
      r := Ok(testimonials[id]);
      testimonials := testimonials - {id};
    }

    // ---------------------------------------------------------------- services

    /** GET /services over the table: exactly the active services, each once, by name. */
    function ListServices(): (r: seq<Service>)
      reads this
      requires Keyed(services, nextId, ServiceKey)
      ensures forall k :: k in services && services[k].active ==> services[k] in r
      ensures forall s :: s in r ==> s.id in services && services[s.id] == s && s.active
      ensures forall i, j :: 0 <= i < j < |r| ==> Text.StrLe(r[i].name, r[j].name)
      ensures Distinct(r)
    {
      Services.ActiveByName(ServiceRows())
    }

    /** GET /services/:id over the table: an active service, or NotFound for a missing or inactive one. */
    function ServiceDetail(id: Id): (r: Result<Service>)
      reads this
      ensures r.Ok? <==> id in services && services[id].active
      ensures r.Ok? ==> r.value == services[id]
      ensures r.Err? ==> r.error == NotFound
    {
      Services.Detail(services, id)
    }

    /** POST /services: a new service, active unless said otherwise. */
    method CreateService(name: string, description: Option<string>, durationMinutes: int, price: real, active: Option<bool>)
      returns (r: Result<Service>)
      requires Valid()
      modifies this
      ensures Valid()
      ensures !Services.ValidServiceInput(name, durationMinutes, price) ==> r == Err(InvalidInput) && unchanged(this)
      ensures Services.ValidServiceInput(name, durationMinutes, price) ==>
                && r == Ok(Service(old(nextId), name, description, durationMinutes, price, active.GetOr(true)))
                && r.value.id !in old(services)
                && services == old(services)[r.value.id := r.value] && nextId == old(nextId) + 1
      ensures clients == old(clients) && appointments == old(appointments)
      ensures testimonials == old(testimonials) && settings == old(settings)
    {
      if !Services.ValidServiceInput(name, durationMinutes, price) {
        return Err(InvalidInput);
      }
      var s := Service(nextId, name, description, durationMinutes, price, active.GetOr(true));
      services := services[s.id := s];
      nextId := nextId + 1;
      r := Ok(s);
    }

    /**
     * PUT /services/:id: replaces name, duration and price; an omitted description or
     * active flag keeps its value; a missing service is a store fault.
     */
    method UpdateService(id: Id, name: string, description: Option<string>, durationMinutes: int, price: real,
                         active: Option<bool>) returns (r: Result<Service>)
      requires Valid()
      modifies this
      ensures Valid()
      ensures !Services.ValidServiceInput(name, durationMinutes, price) ==> r == Err(InvalidInput)
      ensures Services.ValidServiceInput(name, durationMinutes, price) && id !in old(services) ==> r == Err(StoreFault)
      ensures r.Err? ==> unchanged(this)
      ensures r.Ok? <==> Services.ValidServiceInput(name, durationMinutes, price) && id in old(services)
      ensures r.Ok? ==> var s := old(services)[id];
                        && r.value == Service(id, name, if description.Some? then description else s.description,
                                              durationMinutes, price, active.GetOr(s.active))
                        && services == old(services)[id := r.value]
      ensures clients == old(clients) && appointments == old(appointments)
      ensures testimonials == old(testimonials) && settings == old(settings) && nextId == old(nextId)
    {
      if !Services.ValidServiceInput(name, durationMinutes, price) {
        return Err(InvalidInput);
      }
      if id !in services {
        return Err(StoreFault);
      }
      var old_ := services[id];
      var s := Service(id, name, if description.Some? then description else old_.description,
                       durationMinutes, price, active.GetOr(old_.active));
      services := services[id := s];
      r := Ok(s);
    }

    /** PATCH /services/:id/activate: sets the active flag alone; a missing service is a store fault. */
    method SetActive(id: Id, active: bool) returns (r: Result<Service>)
      requires Valid()
      modifies this
      ensures Valid()
      ensures id !in old(services) ==> r == Err(StoreFault) && unchanged(this)
      ensures id in old(services) ==> && r == Ok(old(services)[id].(active := active))
                                      && services == old(services)[id := r.value]
      ensures clients == old(clients) && appointments == old(appointments)
      ensures testimonials == old(testimonials) && settings == old(settings) && nextId == old(nextId)
    {
      if id !in services {
        return Err(StoreFault);
      }
      var s := services[id].(active := active);
      services := services[id := s];
      r := Ok(s);
    }

    /** Some testimonial belongs to an appointment of service `serviceId`. */
    predicate ServiceHasTestimonial(serviceId: Id)
      reads this
    {
      exists k :: && k in testimonials && testimonials[k].appointmentId in appointments
                  && appointments[testimonials[k].appointmentId].serviceId == serviceId
    }

    /**
     * DELETE /services/:id: first removes every appointment of the service, which the
     * database refuses when one of them has a testimonial; then removes the service,
     * a store fault when it does not exist.
     */
    method DeleteService(id: Id) returns (r: Result<Service>)
      requires Valid()
      modifies this
      ensures Valid()
      ensures old(ServiceHasTestimonial(id)) || id !in old(services) ==> r == Err(StoreFault)
      ensures r.Ok? <==> !old(ServiceHasTestimonial(id)) && id in old(services)
      ensures r.Err? ==> unchanged(this)
      ensures r.Ok? ==> && r == Ok(old(services)[id])
                        && services == old(services) - {id}
                        && appointments == map k | k in old(appointments) && old(appointments)[k].serviceId != id
                                             :: old(appointments)[k]
      ensures clients == old(clients) && testimonials == old(testimonials)
      ensures settings == old(settings) && nextId == old(nextId)
    {
      if ServiceHasTestimonial(id) {
        return Err(StoreFault);
      }
      var kept := map k | k in appointments && appointments[k].serviceId != id :: appointments[k];
      if id !in services {
        assert kept == appointments;
        return Err(StoreFault);
      }
      DeleteServiceKeepsConsistent(services, clients, appointments, testimonials, settings, nextId, id);
      appointments := kept;
      r := Ok(services[id]);
      services := services - {id};
    }

    // ---------------------------------------------------------------- clients

    /** GET /clients over the table: one page of the matching clients, by name. */
    function ListClients(page: Option<int>, perPage: Option<int>, search: Option<string>): (r: Clients.ClientPage)
      reads this
      requires Keyed(clients, nextId, ClientKey)
      requires page.Some? ==> page.value >= 1
      requires perPage.Some? ==> perPage.value >= 1
      ensures r.page == page.GetOr(Clients.DefaultPage) && r.perPage == perPage.GetOr(Clients.DefaultPerPage)
      ensures forall c :: c in r.items ==> && c.id in clients && clients[c.id] == c
                                           && Clients.MatchesSearch(c, search.GetOr(""))
      ensures SortedBy(r.items, Clients.NameLe)
      ensures |r.items| <= r.perPage
      ensures r.items == Clients.PageWindow(Clients.Matching(Rows(clients, nextId, ClientKey), search.GetOr("")), r.page, r.perPage)
      ensures r.total == |MatchingIds(clients, search.GetOr(""))|
      ensures r.totalPages == Clients.CeilDiv(r.total, r.perPage)
      ensures r.items != [] <==> r.page <= r.totalPages
    {
      var r := Clients.ListClients(Rows(clients, nextId, ClientKey), page, perPage, search);
      ClientPageOfTable(clients, nextId, page, perPage, search, r);
      r
    }

    /** GET /clients/:id over the table: the client with all of their appointments, latest first, or NotFound. */
    function ClientDetail(id: Id): (r: Result<Clients.ClientDetail>)
      reads this
      requires Keyed(appointments, nextId, AppointmentKey)
      ensures r.Err? <==> id !in clients
      ensures r.Err? ==> r.error == NotFound
      ensures r.Ok? ==> r.value.client == clients[id]
      ensures r.Ok? ==> forall k :: k in appointments && appointments[k].clientId == id ==>
                          appointments[k] in r.value.appointments
      ensures r.Ok? ==> forall a :: a in r.value.appointments ==>
                          a.id in appointments && appointments[a.id] == a && a.clientId == id
      ensures r.Ok? ==> forall i, j :: 0 <= i < j < |r.value.appointments| ==>
                          r.value.appointments[i].date >= r.value.appointments[j].date
      ensures r.Ok? ==> Distinct(r.value.appointments)
    {
      Clients.Detail(clients, AppointmentRows(), id)
    }

    /** POST /clients: a new client; a phone already on file is not refused. */
    method CreateClient(name: string, phone: string) returns (r: Result<Client>)
      requires Valid()
      modifies this
      ensures Valid()
      ensures !Clients.ValidClientInput(name, phone) ==> r == Err(InvalidInput) && unchanged(this)
      ensures Clients.ValidClientInput(name, phone) ==>
                && r == Ok(Client(old(nextId), name, phone)) && r.value.id !in old(clients)
                && clients == old(clients)[r.value.id := r.value] && nextId == old(nextId) + 1
      ensures services == old(services) && appointments == old(appointments)
      ensures testimonials == old(testimonials) && settings == old(settings)
    {
      if !Clients.ValidClientInput(name, phone) {
        return Err(InvalidInput);
      }
      var c := AddClient(name, phone);
      r := Ok(c);
    }

    /** PUT /clients/:id: replaces name and phone; a missing client is a store fault. */
    method UpdateClient(id: Id, name: string, phone: string) returns (r: Result<Client>)
      requires Valid()
      modifies this
      ensures Valid()
      ensures !Clients.ValidClientInput(name, phone) ==> r == Err(InvalidInput)
      ensures Clients.ValidClientInput(name, phone) && id !in old(clients) ==> r == Err(StoreFault)
      ensures r.Err? ==> unchanged(this)
      ensures r.Ok? <==> Clients.ValidClientInput(name, phone) && id in old(clients)
      ensures r.Ok? ==> r == Ok(Client(id, name, phone)) && clients == old(clients)[id := r.value]
      ensures services == old(services) && appointments == old(appointments)
      ensures testimonials == old(testimonials) && settings == old(settings) && nextId == old(nextId)
    {
      if !Clients.ValidClientInput(name, phone) {
        return Err(InvalidInput);
      }
      if id !in clients {
        return Err(StoreFault);
      }
      var c := Client(id, name, phone);
      clients := clients[id := c];
      r := Ok(c);
    }

    // ---------------------------------------------------------------- settings

    /** GET /settings (staff): the most recently created settings row, or None when there is none. */
    function LatestSettings(): (r: Option<Settings>)
      reads this
      requires Valid()
      ensures r.None? <==> settings == map[]
      ensures r.Some? ==> r.value.id in settings && settings[r.value.id] == r.value
      ensures r.Some? ==> forall k :: k in settings ==> settings[k].createdAt <= r.value.createdAt && k <= r.value.id
    {
      RowsEmpty(settings, nextId, SettingsKey);
      SettingsRules.Latest(SettingsRows())
    }

    /** GET /settings/public over the table: the public columns of the latest row, or None. */
    function PublicSettings(): (r: Option<SettingsRules.PublicSettings>)
      reads this
      requires Valid()
      ensures r.None? <==> settings == map[]
      ensures r.Some? ==> exists k :: && k in settings
                                      && (forall j :: j in settings ==> j <= k)
                                      && r.value == SettingsRules.PublicSettings(
                                           settings[k].openingHours, settings[k].socialLinks, settings[k].texts)
    {
      var latest := LatestSettings();
      if latest.Some? then
        assert latest.value.id in settings;
        SettingsRules.PublicView(latest)
      else
        SettingsRules.PublicView(latest)
    }

    /**
     * PUT /settings: merges the supplied fields into the latest row, or creates the first
     * row with `{}` for each omitted field. Either way the result is what the latest row
     * then holds.
     */
    method PutSettings(openingHours: Option<Json>, socialLinks: Option<Json>, texts: Option<Json>)
      returns (r: Settings)
      requires Valid()
      modifies this
      ensures Valid()
      ensures LatestSettings() == Some(r)
      ensures old(LatestSettings()).Some? ==> && r == SettingsRules.Merge(old(LatestSettings()).value, openingHours, socialLinks, texts)
                                              && nextId == old(nextId)
      ensures old(LatestSettings()).None? ==> && r == SettingsRules.Initial(old(nextId), old(nextId), openingHours, socialLinks, texts)
                                              && nextId == old(nextId) + 1
      ensures settings == old(settings)[r.id := r]
      ensures services == old(services) && clients == old(clients) && appointments == old(appointments)
      ensures testimonials == old(testimonials)
    {
      var latest := LatestSettings();
      if latest.Some? {
        r := SettingsRules.Merge(latest.value, openingHours, socialLinks, texts);
        ReplaceSettings(r);
      } else {
        r := SettingsRules.Initial(nextId, nextId, openingHours, socialLinks, texts);
        AddSettings(r);
      }
    }

    /** The settings row with the largest id is the one GET /settings answers. */
    lemma NewestIsLatest(s: Settings)
      requires Valid()
      requires s.id in settings && settings[s.id] == s
      requires forall k :: k in settings ==> k <= s.id
      ensures LatestSettings() == Some(s)
    {
      LatestIsNewest(settings, nextId, s);
    }

    /** `settings.update` of the JSON columns of an existing row. */
    method ReplaceSettings(s: Settings)
      requires Valid()
      requires s.id in settings && s.createdAt == settings[s.id].createdAt
      requires forall k :: k in settings ==> k <= s.id
      modifies this
      ensures Valid()
      ensures LatestSettings() == Some(s)
      ensures settings == old(settings)[s.id := s] && nextId == old(nextId)
      ensures services == old(services) && clients == old(clients) && appointments == old(appointments)
      ensures testimonials == old(testimonials)
    {
      settings := settings[s.id := s];
      NewestIsLatest(s);
    }

    /** `settings.create`: the first row, under the next id. */
    method AddSettings(s: Settings)
      requires Valid()
      requires settings == map[] && s.id == nextId && s.createdAt == nextId
      modifies this
      ensures Valid()
      ensures LatestSettings() == Some(s)
      ensures settings == map[s.id := s] && nextId == old(nextId) + 1
      ensures services == old(services) && clients == old(clients) && appointments == old(appointments)
      ensures testimonials == old(testimonials)
    {
      settings := map[s.id := s];
      nextId := nextId + 1;
      NewestIsLatest(s);
    }

}

  // ---------------------------------------------------------------- scenarios across handlers

  /** The same slot cannot be booked twice through the public form, whatever the second client. */
  method BookSlotTwice(store: Store, name: string, phone: string, otherName: string, otherPhone: string,
                       serviceId: Id, date: Date, time: Time)
    returns (first: Result<Appointment>, second: Result<Appointment>)
    requires store.Valid()
    requires Appointments.PublicBookingValid(otherName, otherPhone, time)
    modifies store
    ensures store.Valid()
    ensures first.Ok? ==> second == Err(SlotTaken)
  {
    first := store.BookPublic(name, phone, serviceId, date, time, None);
    if first.Ok? {
      assert first.value.id in store.appointments;
    }
    second := store.BookPublic(otherName, otherPhone, serviceId, date, time, None);
  }

  /** A staff booking is refused for a slot the public form already took, and the reverse. */
  method ManualAfterPublic(store: Store, name: string, phone: string, clientId: Id,
                           serviceId: Id, date: Date, time: Time)
    returns (first: Result<Appointment>, second: Result<Appointment>)
    requires store.Valid()
    modifies store
    ensures store.Valid()
    ensures first.Ok? ==> second == Err(SlotTaken)
  {
    first := store.BookPublic(name, phone, serviceId, date, time, None);
    if first.Ok? {
      assert first.value.id in store.appointments;
    }
    second := store.BookManual(Some(clientId), None, None, serviceId, date, time, None, None);
  }

  /** A testimonial link takes one submission: the second is refused and changes nothing. */
  method SubmitTwice(store: Store, link: string, rating: int, text: string, rating2: int, text2: string)
    returns (first: Result<Testimonial>, second: Result<Testimonial>)
    requires store.Valid()
    requires Testimonials.ValidSubmission(rating2, text2)
    modifies store
    ensures store.Valid()
    ensures first.Ok? ==> first.value.status == Published && second == Err(AlreadySubmitted)
  {
    first := store.Submit(link, rating, text);
    if first.Ok? {
      store.FoundByLink(first.value);
    }
    second := store.Submit(link, rating2, text2);
  }

  /** Asking twice for an appointment's link creates one testimonial and answers the same row both times. */
  method GenerateLinkTwice(store: Store, appointmentId: Id, random: seq<Testimonials.Byte>, random2: seq<Testimonials.Byte>)
    returns (first: Result<Testimonial>, second: Result<Testimonial>)
    requires store.Valid()
    requires |random| == 16 && |random2| == 16
    modifies store
    ensures store.Valid()
    ensures first.Ok? ==> second == first
  {
    var created, created2;
    first, created := store.GenerateLink(appointmentId, random);
    if first.Ok? {
      store.FoundByAppointment(first.value);
    }
    second, created2 := store.GenerateLink(appointmentId, random2);
  }
}
