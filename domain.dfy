/**
 * The records of the studio's database tables (services, clients, appointments,
 * testimonials, settings) and the outcomes a route handler reports.
 */
module Domain {
  import opened Wrappers

  type Id = nat

  /** A calendar date, as the number of days since 1970-01-01 (UTC midnight of that day). */
  type Date = int

  /** A time-of-day label such as "14:30"; the handlers compare it only as a string. */
  type Time = string

  /** A JSON object stored in a settings column; its values are kept opaque. */
  type Json = map<string, string>

  datatype Status = Scheduled | Done | Canceled | NoShow

  /** The string the database stores for a status. */
  function StatusName(s: Status): string {
    match s
    case Scheduled => "scheduled"
    case Done => "done"
    case Canceled => "canceled"
    case NoShow => "no_show"
  }

  datatype TestimonialStatus = Pending | Published

  datatype Service = Service(
    id: Id,
    name: string,
    description: Option<string>,
    durationMinutes: int,
    price: real,
    active: bool)

  datatype Client = Client(id: Id, name: string, phone: string)

  datatype Appointment = Appointment(
    id: Id,
    clientId: Id,
    serviceId: Id,
    date: Date,
    time: Time,
    status: Status,
    notes: Option<string>)

  datatype Testimonial = Testimonial(
    id: Id,
    appointmentId: Id,
    clientName: string,
    clientPhone: string,
    uniqueLink: string,
    rating: int,
    text: string,
    status: TestimonialStatus,
    createdAt: nat)

  datatype Settings = Settings(
    id: Id,
    openingHours: Json,
    socialLinks: Json,
    texts: Json,
    createdAt: nat)

  /**
   * Why a handler answered with an error:
   *   InvalidInput     -- the request failed schema validation (400)
   *   InvalidService   -- the service is missing or inactive (400)
   *   SlotTaken        -- (service, date, time) is already booked (409)
   *   NotFound         -- the handler's own lookup found nothing (404)
   *   AlreadySubmitted -- the testimonial is no longer pending (400)
   *   StoreFault       -- the database rejected the write: a missing row to update or delete,
   *                       a foreign-key or a uniqueness violation (reported as 500)
   */
  datatype Error = InvalidInput | InvalidService | SlotTaken | NotFound | AlreadySubmitted | StoreFault

  datatype Result<T> = Ok(value: T) | Err(error: Error)
}
