/** Values shared by the booking back end: identifiers, calendar dates and times of day,
    the entity enums, the entity records and the outcome of a service call. */
module Domain {

  /** A database identifier (the generated primary key of every table). */
  type Id = nat

  /** java.time.LocalDate as its epoch day (day 0 is 1970-01-01). */
  type Date = int

  const MinutesPerDay: int := 1440

  /** java.time.LocalTime at minute precision: minutes since midnight. */
  type Time = t: int | 0 <= t < MinutesPerDay

  datatype DayOfWeek = Monday | Tuesday | Wednesday | Thursday | Friday | Saturday | Sunday

  /** LocalDate.getDayOfWeek: the epoch day plus three, modulo seven, counts from Monday. */
  function Weekday(d: Date): DayOfWeek
  {
    match (d + 3) % 7
    case 0 => Monday
    case 1 => Tuesday
    case 2 => Wednesday
    case 3 => Thursday
    case 4 => Friday
    case 5 => Saturday
    case _ => Sunday
  }

  /** LocalTime.plusMinutes: the time of day wraps around midnight. */
  function PlusMinutes(t: Time, minutes: nat): (r: Time)
    ensures t + minutes < MinutesPerDay ==> r == t + minutes
    ensures MinutesPerDay <= t + minutes < 2 * MinutesPerDay ==> r == t + minutes - MinutesPerDay
  {
    (t + minutes) % MinutesPerDay
  }

  datatype SlotStatus = Available | Reserved
  datatype AppointmentStatus = Confirmed | Cancelled
  datatype VisitType = InPerson | Telehealth
  datatype EmploymentStatus = Active | Inactive
  datatype Role = PatientRole | AdminRole

  datatype Specialty = Specialty(name: string)

  datatype Doctor = Doctor(firstName: string, lastName: string, specialtyId: Id,
                           employmentStatus: EmploymentStatus)

  /** A weekly availability window of one doctor. */
  datatype Availability = Availability(doctorId: Id, dayOfWeek: DayOfWeek, startTime: Time, endTime: Time)

  datatype AppointmentSlot = AppointmentSlot(doctorId: Id, date: Date, startTime: Time, endTime: Time,
                                             status: SlotStatus)

  /** The slot reference is None once a cancellation has detached it. */
  datatype Appointment = Appointment(patientId: Id, slotId: Option<Id>, doctorId: Id, date: Date,
                                     visitType: VisitType, status: AppointmentStatus)

  /** The login record of an identity-provider subject. */
  datatype Auth = Auth(oktaId: string, role: Role)

  datatype Patient = Patient(authId: Id, firstName: string, lastName: string, dob: Date)

  datatype Option<T> = None | Some(value: T)

  /** How a service call fails: an unknown id, a rule of the service, or a database constraint.
      Every failure rolls the transaction back. */
  datatype Error = NotFound | Rejected | ConstraintViolation

  datatype Result<T> = Success(value: T) | Failure(error: Error)
}
