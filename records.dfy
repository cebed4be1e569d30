/** The documents of the doctors_Portal database that the server's decision
    logic reads, and the outcomes its request guards produce. */
module Records {

  /** A value that may be absent (JavaScript's `undefined` or `null`). */
  datatype Option<T> = None | Some(value: T)

  /** A document of the appointment_Options collection: a treatment, its price
      and the slots it offers on every day. */
  datatype AppointmentOption = AppointmentOption(name: string, price: int, slots: seq<string>)

  /** A document of the bookings collection, reduced to the fields the server reads. */
  datatype Booking = Booking(appointmentDate: string, email: string, treatment: string, slot: string)

  /** A document of the users collection; `role` is absent for an ordinary user. */
  datatype User = User(email: string, role: Option<string>)

  /** The payload of a verified access token. */
  datatype Claims = Claims(email: string)

  /** What a guard or guarded handler does with a request: hand a value to the
      next stage, answer with an HTTP error status and a message, or throw. */
  datatype Decision<T> =
    | Proceed(value: T)
    | Reject(status: nat, message: string)
    | Unhandled(reason: string)

  const Unauthorized: nat := 401
  const Forbidden: nat := 403
  const UnauthorizedMessage := "Unauthorized Access"
  const ForbiddenMessage := "Access Forbidden"
}
