/** Booking, rescheduling and cancelling appointments, and the slot and appointment queries.
    Each transactional operation is specified by a function from the tables before the call
    to the tables after it and the call's result; the methods at the end perform the same
    steps on the store, field by field, and roll back on failure. */
module AppointmentService {
  import opened Domain
  import opened Store

  /** The request body of a booking or a reschedule; the doctor id it carries is never read. */
  datatype AppointmentRequest = AppointmentRequest(patientId: Id, slotId: Id, doctorId: Id,
                                                   visitType: Option<VisitType>)

  /** An available slot as reported to the booking form. */
  datatype SlotResponse = SlotResponse(slotId: Id, doctorId: Id, date: Date, startTime: Time,
                                       endTime: Time, status: SlotStatus)

  // Queries

  /** getAvailableSlots: the slots of the doctor on the date whose status is AVAILABLE. */
  function AvailableSlots(t: Tables, doctorId: Id, date: Date, today: Date): (r: set<SlotResponse>)
    requires today <= date
    ensures forall id :: id in t.slots ==>
      (SlotResponse(id, doctorId, date, t.slots[id].startTime, t.slots[id].endTime, Available) in r
       <==> t.slots[id] == AppointmentSlot(doctorId, date, t.slots[id].startTime, t.slots[id].endTime, Available))
    ensures forall v :: v in r ==>
      && v.slotId in t.slots && v.doctorId == doctorId && v.date == date && v.status == Available
      && t.slots[v.slotId] == AppointmentSlot(doctorId, date, v.startTime, v.endTime, Available)
  {
    set id | id in t.slots && t.slots[id].doctorId == doctorId && t.slots[id].date == date
                           && t.slots[id].status == Available
      :: SlotResponse(id, doctorId, date, t.slots[id].startTime, t.slots[id].endTime, Available)
  }

  /** getNonCancelledAppointmentsCount. */
  function NonCancelledCount(t: Tables): (r: nat)
    ensures r == 0 <==> forall a :: a in t.appointments ==> t.appointments[a].status == Cancelled
  {
    var live := NonCancelled(t.appointments);
    if exists a :: a in t.appointments && t.appointments[a].status != Cancelled then
      var a :| a in t.appointments && t.appointments[a].status != Cancelled;
      assert a in live;
      |live|
    else
      assert live == {};
      |live|
  }

  /** getAllAppointmentsByPatientId: fails when the patient has no appointment at all. */
  function AppointmentsOfPatient(t: Tables, patientId: Id): (r: Result<set<Id>>)
    ensures r.Failure? <==> forall a :: a in t.appointments ==> t.appointments[a].patientId != patientId
    ensures r.Success? ==> forall a :: a in t.appointments ==> (a in r.value <==> t.appointments[a].patientId == patientId)
    ensures r.Success? ==> r.value <= t.appointments.Keys
  {
    if exists a :: a in t.appointments && t.appointments[a].patientId == patientId
    then Success(set a | a in t.appointments && t.appointments[a].patientId == patientId)
    else Failure(NotFound)
  }

  /** getAllAppointmentsByOktaId: fails when no patient is linked to the subject; an empty
      list is not a failure here. */
  function AppointmentsByOktaId(t: Tables, oktaId: string): (r: Result<set<Id>>)
    ensures r.Failure? <==> PatientIdsFor(t, oktaId) == {}
    ensures r.Success? ==> forall a :: a in t.appointments ==>
      (a in r.value <==> t.appointments[a].patientId in PatientIdsFor(t, oktaId))
    ensures r.Success? ==> r.value <= t.appointments.Keys
  {
    var ps := PatientIdsFor(t, oktaId);
    if ps == {} then Failure(NotFound)
    else Success(set a | a in t.appointments && t.appointments[a].patientId in ps)
  }

  // Transitions

  /** The part of booking shared by create and update once patient and slot are found:
      the slot must be AVAILABLE, the patient must not already have a non-cancelled
      appointment with the slot's doctor on the slot's date, and the insert must not break
      the unique slot column. The new appointment takes doctor and date from the slot. */
  function BookSlot(t: Tables, patientId: Id, slotId: Id, visitType: VisitType): (r: Step<Id>)
    requires slotId in t.slots
    ensures var slot := t.slots[slotId];
      && (r.result.Failure? ==> r.after == t)
      && (r.result == Failure(Rejected) <==>
            slot.status != Available || HasActiveAppointment(t.appointments, patientId, slot.doctorId, slot.date))
      && (r.result == Failure(ConstraintViolation) <==>
            && slot.status == Available && !HasActiveAppointment(t.appointments, patientId, slot.doctorId, slot.date)
            && HeldBy(t.appointments, slotId))
      && (r.result.Success? ==>
            && r.result.value == t.nextId
            && r.after == t.(appointments := t.appointments[t.nextId := Appointment(patientId, Some(slotId), slot.doctorId,
                                                                                   slot.date, visitType, Confirmed)],
                             slots := t.slots[slotId := slot.(status := Reserved)],
                             nextId := t.nextId + 1))
  {
    var slot := t.slots[slotId];
    if slot.status != Available then Step(t, Failure(Rejected))
    else if HasActiveAppointment(t.appointments, patientId, slot.doctorId, slot.date) then Step(t, Failure(Rejected))
    else if HeldBy(t.appointments, slotId) then Step(t, Failure(ConstraintViolation))
    else
      var booking := Appointment(patientId, Some(slotId), slot.doctorId, slot.date, visitType, Confirmed);
      Step(t.(appointments := t.appointments[t.nextId := booking],
              slots := t.slots[slotId := slot.(status := Reserved)],
              nextId := t.nextId + 1),
           Success(t.nextId))
  }

  /** createAppointment. */
  function CreateResult(t: Tables, req: AppointmentRequest): (r: Step<Id>)
    requires req.visitType.Some?
    ensures r.result.Failure? ==> r.after == t
    ensures r.result == Failure(NotFound) <==> req.patientId !in t.patients || req.slotId !in t.slots
    ensures r.result == Failure(Rejected) <==>
      && req.patientId in t.patients && req.slotId in t.slots
      && (|| t.slots[req.slotId].status != Available
          || HasActiveAppointment(t.appointments, req.patientId, t.slots[req.slotId].doctorId, t.slots[req.slotId].date))
    ensures r.result.Success? ==>
      var id := r.result.value;
      var slot := t.slots[req.slotId];
      && (Wellformed(t) ==> id !in t.appointments)
      && r.after.appointments == t.appointments[id := Appointment(req.patientId, Some(req.slotId), slot.doctorId,
                                                                  slot.date, req.visitType.value, Confirmed)]
      && r.after.slots == t.slots[req.slotId := slot.(status := Reserved)]
      && r.after == t.(appointments := r.after.appointments, slots := r.after.slots, nextId := r.after.nextId)
  {
    if req.patientId !in t.patients || req.slotId !in t.slots then Step(t, Failure(NotFound))
    else BookSlot(t, req.patientId, req.slotId, req.visitType.value)
  }

  /** The slot table with the given slot, if any, set back to AVAILABLE. */
  function FreeSlot(slots: map<Id, AppointmentSlot>, slotId: Option<Id>): (r: map<Id, AppointmentSlot>)
    ensures r.Keys == slots.Keys
    ensures forall s :: s in r ==> KeyOf(r[s]) == KeyOf(slots[s])
    ensures forall s :: s in r ==> r[s].status == (if slotId == Some(s) then Available else slots[s].status)
  {
    if slotId.Some? && slotId.value in slots then slots[slotId.value := slots[slotId.value].(status := Available)]
    else slots
  }

  /** Cancelling one appointment: its slot, if any, goes back to AVAILABLE and the appointment
      becomes CANCELLED; `detach` says whether it also gives up its slot reference. */
  function CancelStep(t: Tables, id: Id, detach: bool): (r: Tables)
    requires id in t.appointments
    ensures id in r.appointments && r.appointments == t.appointments[id := r.appointments[id]]
    ensures r.appointments[id].status == Cancelled
    ensures r.appointments[id].slotId == if detach then None else t.appointments[id].slotId
    ensures r.slots == FreeSlot(t.slots, t.appointments[id].slotId)
    ensures r == t.(appointments := r.appointments, slots := r.slots)
  {
    var a := t.appointments[id];
    var cancelled := if detach then a.(slotId := None, status := Cancelled) else a.(status := Cancelled);
    t.(slots := FreeSlot(t.slots, a.slotId), appointments := t.appointments[id := cancelled])
  }

  /** cancelAppointment: the slot, if any, goes back to AVAILABLE and is detached. */
  function CancelResult(t: Tables, id: Id): (r: Step<()>)
    ensures r.result.Failure? <==> id !in t.appointments
    ensures r.result.Failure? ==> r.after == t
    ensures r.result.Success? ==>
      var a := t.appointments[id];
      && r.after.appointments == t.appointments[id := a.(slotId := None, status := Cancelled)]
      && r.after.slots == FreeSlot(t.slots, a.slotId)
      && r.after == t.(appointments := r.after.appointments, slots := r.after.slots)
  {
    if id !in t.appointments then Step(t, Failure(NotFound))
    else Step(CancelStep(t, id, true), Success(()))
  }

  /** Rescheduling: cancel the old appointment and free its slot, then book the requested slot
      as createAppointment does, on the tables after the cancellation. Any failure rolls back. */
  function Reschedule(t: Tables, id: Id, req: AppointmentRequest, detach: bool): (r: Step<Id>)
    ensures r.result.Failure? ==> r.after == t
    ensures r.result == Failure(NotFound) <==>
      id !in t.appointments || req.patientId !in t.patients || req.slotId !in t.slots
    ensures id in t.appointments && req.patientId in t.patients && req.slotId in t.slots ==>
      var prev := t.appointments[id];
      var appointments := t.appointments[id := if detach then prev.(slotId := None, status := Cancelled)
                                                else prev.(status := Cancelled)];
      var slots := FreeSlot(t.slots, prev.slotId);
      var s := slots[req.slotId];
      var visitType := if req.visitType.Some? then req.visitType.value else prev.visitType;
      && (r.result == Failure(Rejected) <==>
            s.status != Available || HasActiveAppointment(appointments, req.patientId, s.doctorId, s.date))
      && (r.result == Failure(ConstraintViolation) <==>
            && s.status == Available && !HasActiveAppointment(appointments, req.patientId, s.doctorId, s.date)
            && HeldBy(appointments, req.slotId))
      && (r.result.Success? ==>
            && r.result.value == t.nextId
            && r.after == t.(appointments := appointments[t.nextId := Appointment(req.patientId, Some(req.slotId),
                                                                               s.doctorId, s.date, visitType, Confirmed)],
                             slots := slots[req.slotId := s.(status := Reserved)],
                             nextId := t.nextId + 1))
  {
    if id !in t.appointments then Step(t, Failure(NotFound))
    else
      var t1 := CancelStep(t, id, detach);
      if req.patientId !in t1.patients || req.slotId !in t1.slots then Step(t, Failure(NotFound))
      else
        var visitType := if req.visitType.Some? then req.visitType.value else t.appointments[id].visitType;
        var booked := BookSlot(t1, req.patientId, req.slotId, visitType);
        if booked.result.Failure? then Step(t, booked.result) else booked
  }

  /** updateAppointment as written: the cancelled appointment keeps its slot reference. */
  function UpdateResult(t: Tables, id: Id, req: AppointmentRequest): (r: Step<Id>)
    ensures r.result.Success? && IdsBelow(t.appointments, t.nextId) ==>
      id in t.appointments && id in r.after.appointments && r.after.appointments[id].slotId == t.appointments[id].slotId
  {
    Reschedule(t, id, req, false)
  }

  /** updateAppointment as evidently intended: the cancelled appointment gives up its slot,
      as cancelAppointment does. */
  function UpdateResultDetaching(t: Tables, id: Id, req: AppointmentRequest): (r: Step<Id>)
    ensures r.result.Success? && IdsBelow(t.appointments, t.nextId) ==>
      id in r.after.appointments && r.after.appointments[id].slotId == None
  {
    Reschedule(t, id, req, true)
  }

  // Invariants of the booking tables

  /** Some CONFIRMED appointment refers to the slot. */
  predicate ConfirmedHolder(appointments: map<Id, Appointment>, s: Id)
  {
    exists a :: a in appointments && appointments[a].slotId == Some(s) && appointments[a].status == Confirmed
  }

  /** A slot is RESERVED exactly when a CONFIRMED appointment holds it. */
  predicate ReservedIffHeld(t: Tables)
  {
    forall s :: s in t.slots ==> (t.slots[s].status == Reserved <==> ConfirmedHolder(t.appointments, s))
  }

  /** Only non-cancelled appointments hold slots. */
  predicate OnlyConfirmedHoldSlots(appointments: map<Id, Appointment>)
  {
    forall a :: a in appointments && appointments[a].slotId.Some? ==> appointments[a].status == Confirmed
  }

  /** No patient has two non-cancelled appointments with one doctor on one day. */
  predicate NoDoubleBooking(appointments: map<Id, Appointment>)
  {
    forall a, b ::
      a in appointments && b in appointments && a != b
      && appointments[a].status != Cancelled && appointments[b].status != Cancelled
      ==> !(appointments[a].patientId == appointments[b].patientId
            && appointments[a].doctorId == appointments[b].doctorId
            && appointments[a].date == appointments[b].date)
  }

  /** What every booking operation, including the reschedule as written, keeps. */
  predicate Consistent(t: Tables)
  {
    Wellformed(t) && ReservedIffHeld(t) && NoDoubleBooking(t.appointments)
  }

  /** The full booking invariant: consistency, and slots are held only by confirmed appointments. */
  predicate BookingInvariant(t: Tables)
  {
    Consistent(t) && OnlyConfirmedHoldSlots(t.appointments)
  }

  lemma HoldersAfterInsert(appointments: map<Id, Appointment>, n: Id, b: Appointment)
    requires n !in appointments
    ensures forall s: Id :: ConfirmedHolder(appointments[n := b], s) <==>
      ConfirmedHolder(appointments, s) || (b.slotId == Some(s) && b.status == Confirmed)
  {
    var after := appointments[n := b];
    forall s: Id ensures ConfirmedHolder(after, s) <==>
      ConfirmedHolder(appointments, s) || (b.slotId == Some(s) && b.status == Confirmed)
    {
      if ConfirmedHolder(appointments, s) {
        var a :| a in appointments && appointments[a].slotId == Some(s) && appointments[a].status == Confirmed;
        assert after[a] == appointments[a];
      }
      if b.slotId == Some(s) && b.status == Confirmed {
        assert after[n] == b;
      }
      if ConfirmedHolder(after, s) {
        var a :| a in after && after[a].slotId == Some(s) && after[a].status == Confirmed;
        if a != n {
          assert appointments[a] == after[a];
        }
      }
    }
  }

  lemma HoldersAfterCancel(appointments: map<Id, Appointment>, id: Id, c: Appointment)
    requires id in appointments && SlotHeldOnce(appointments) && c.status == Cancelled
    ensures forall s: Id :: ConfirmedHolder(appointments[id := c], s) <==>
      ConfirmedHolder(appointments, s) && appointments[id].slotId != Some(s)
  {
    var after := appointments[id := c];
    forall s: Id ensures ConfirmedHolder(after, s) <==>
      ConfirmedHolder(appointments, s) && appointments[id].slotId != Some(s)
    {
      if ConfirmedHolder(appointments, s) && appointments[id].slotId != Some(s) {
        var a :| a in appointments && appointments[a].slotId == Some(s) && appointments[a].status == Confirmed;
        assert a != id;
        assert after[a] == appointments[a];
      }
      if ConfirmedHolder(after, s) {
        var a :| a in after && after[a].slotId == Some(s) && after[a].status == Confirmed;
        assert a != id;
        assert appointments[a] == after[a];
      }
    }
  }

  lemma NoDoubleBookingAfterInsert(appointments: map<Id, Appointment>, n: Id, b: Appointment)
    requires n !in appointments && NoDoubleBooking(appointments)
    requires !HasActiveAppointment(appointments, b.patientId, b.doctorId, b.date)
    ensures NoDoubleBooking(appointments[n := b])
  {
  }

  lemma NoDoubleBookingAfterCancel(appointments: map<Id, Appointment>, id: Id, c: Appointment)
    requires NoDoubleBooking(appointments) && c.status == Cancelled
    ensures NoDoubleBooking(appointments[id := c])
  {
  }

  /** A successful booking commits: the new appointment refers to existing rows and its slot
      was held by no other appointment. */
  lemma BookSlotKeepsWellformed(t: Tables, patientId: Id, slotId: Id, visitType: VisitType)
    requires Wellformed(t) && patientId in t.patients && slotId in t.slots
    ensures Wellformed(BookSlot(t, patientId, slotId, visitType).after)
  {
    var slot := t.slots[slotId];
    if slot.status == Available && !HasActiveAppointment(t.appointments, patientId, slot.doctorId, slot.date)
       && !HeldBy(t.appointments, slotId)
    {
      var n := t.nextId;
      var b := Appointment(patientId, Some(slotId), slot.doctorId, slot.date, visitType, Confirmed);
      InsertBookingKeepsWellformed(t, n, b, slotId);
    }
  }

  lemma InsertBookingKeepsWellformed(t: Tables, n: Id, b: Appointment, slotId: Id)
    requires Wellformed(t) && n == t.nextId && slotId in t.slots
    requires b.patientId in t.patients && b.doctorId == t.slots[slotId].doctorId && b.slotId == Some(slotId)
    requires !HeldBy(t.appointments, slotId)
    ensures Wellformed(t.(appointments := t.appointments[n := b],
                          slots := t.slots[slotId := t.slots[slotId].(status := Reserved)],
                          nextId := n + 1))
  {
    var appointments := t.appointments[n := b];
    var slots := t.slots[slotId := t.slots[slotId].(status := Reserved)];
    assert n !in t.appointments;
    assert SlotHeldOnce(appointments);
    assert forall a :: a in appointments ==>
      && appointments[a].patientId in t.patients && appointments[a].doctorId in t.doctors
      && (appointments[a].slotId.Some? ==> appointments[a].slotId.value in slots);
    KeepsWellformed(t, slots, appointments, n + 1);
  }

  /** A successful booking keeps consistency, and keeps slots with confirmed appointments only. */
  lemma BookSlotKeepsConsistent(t: Tables, patientId: Id, slotId: Id, visitType: VisitType)
    requires Consistent(t) && patientId in t.patients && slotId in t.slots
    ensures Consistent(BookSlot(t, patientId, slotId, visitType).after)
    ensures OnlyConfirmedHoldSlots(t.appointments) ==>
      OnlyConfirmedHoldSlots(BookSlot(t, patientId, slotId, visitType).after.appointments)
  {
    BookSlotKeepsWellformed(t, patientId, slotId, visitType);
    var slot := t.slots[slotId];
    if slot.status == Available && !HasActiveAppointment(t.appointments, patientId, slot.doctorId, slot.date)
       && !HeldBy(t.appointments, slotId)
    {
      var n := t.nextId;
      var b := Appointment(patientId, Some(slotId), slot.doctorId, slot.date, visitType, Confirmed);
      assert n !in t.appointments;
      HoldersAfterInsert(t.appointments, n, b);
      NoDoubleBookingAfterInsert(t.appointments, n, b);
    }
  }

  /** The cancelling half of cancel and reschedule commits. */
  lemma CancelStepKeepsWellformed(t: Tables, id: Id, detach: bool)
    requires Wellformed(t) && id in t.appointments
    ensures Wellformed(CancelStep(t, id, detach))
  {
    var a := t.appointments[id];
    var c := if detach then a.(slotId := None, status := Cancelled) else a.(status := Cancelled);
    var appointments := t.appointments[id := c];
    var slots := FreeSlot(t.slots, a.slotId);
    assert SlotHeldOnce(appointments) by {
      forall x, y | x in appointments && y in appointments && appointments[x].slotId.Some?
                    && appointments[x].slotId == appointments[y].slotId
        ensures x == y
      {
        assert t.appointments[x].slotId == t.appointments[y].slotId;
      }
    }
    KeepsWellformed(t, slots, appointments, t.nextId);
  }

  /** The cancelling half of cancel and reschedule keeps consistency. */
  lemma CancelStepKeepsConsistent(t: Tables, id: Id, detach: bool)
    requires Consistent(t) && id in t.appointments
    ensures Consistent(CancelStep(t, id, detach))
    ensures detach && OnlyConfirmedHoldSlots(t.appointments) ==>
      OnlyConfirmedHoldSlots(CancelStep(t, id, detach).appointments)
  {
    var a := t.appointments[id];
    var c := if detach then a.(slotId := None, status := Cancelled) else a.(status := Cancelled);
    CancelStepKeepsWellformed(t, id, detach);
    HoldersAfterCancel(t.appointments, id, c);
    NoDoubleBookingAfterCancel(t.appointments, id, c);
  }

  /** Booking keeps the full invariant. */
  lemma CreateKeepsInvariant(t: Tables, req: AppointmentRequest)
    requires req.visitType.Some?
    requires BookingInvariant(t)
    ensures BookingInvariant(CreateResult(t, req).after)
  {
    if req.patientId in t.patients && req.slotId in t.slots {
      BookSlotKeepsConsistent(t, req.patientId, req.slotId, req.visitType.value);
    }
  }

  /** Cancelling keeps the full invariant. */
  lemma CancelKeepsInvariant(t: Tables, id: Id)
    requires BookingInvariant(t)
    ensures BookingInvariant(CancelResult(t, id).after)
  {
    if id in t.appointments {
      CancelStepKeepsConsistent(t, id, true);
    }
  }

  /** Cancelling twice: the second cancellation succeeds and changes no slot. */
  lemma CancelTwiceChangesNoSlot(t: Tables, id: Id)
    requires id in t.appointments
    ensures var once := CancelResult(t, id).after;
      CancelResult(once, id).result.Success? && CancelResult(once, id).after.slots == once.slots
  {
  }

  /** The reschedule as written keeps consistency, whether or not it detaches the old slot. */
  lemma RescheduleKeepsConsistent(t: Tables, id: Id, req: AppointmentRequest, detach: bool)
    requires Consistent(t)
    ensures Consistent(Reschedule(t, id, req, detach).after)
  {
    var r := Reschedule(t, id, req, detach);
    if r.result.Success? {
      var t1 := CancelStep(t, id, detach);
      var visitType := if req.visitType.Some? then req.visitType.value else t.appointments[id].visitType;
      CancelStepKeepsConsistent(t, id, detach);
      BookSlotKeepsConsistent(t1, req.patientId, req.slotId, visitType);
      assert r == BookSlot(t1, req.patientId, req.slotId, visitType);
    }
  }

  /** The corrected reschedule keeps the full invariant. */
  lemma UpdateDetachingKeepsInvariant(t: Tables, id: Id, req: AppointmentRequest)
    requires BookingInvariant(t)
    ensures BookingInvariant(UpdateResultDetaching(t, id, req).after)
  {
    RescheduleKeepsConsistent(t, id, req, true);
    var r := UpdateResultDetaching(t, id, req);
    if r.result.Success? {
      var prev := t.appointments[id];
      var s := FreeSlot(t.slots, prev.slotId)[req.slotId];
      var visitType := if req.visitType.Some? then req.visitType.value else prev.visitType;
      DetachedHoldersConfirmed(t.appointments, id, t.nextId,
                               Appointment(req.patientId, Some(req.slotId), s.doctorId, s.date, visitType, Confirmed));
    }
  }

  /** Cancelling one appointment with its slot detached and adding a confirmed one keeps slots
      held only by confirmed appointments. */
  lemma DetachedHoldersConfirmed(appointments: map<Id, Appointment>, id: Id, n: Id, booking: Appointment)
    requires OnlyConfirmedHoldSlots(appointments) && id in appointments && booking.status == Confirmed
    ensures OnlyConfirmedHoldSlots(appointments[id := appointments[id].(slotId := None, status := Cancelled)][n := booking])
  {
  }

  /** As written, moving an appointment to the slot it already holds never succeeds: after the
      cancellation the slot is AVAILABLE, but the cancelled appointment still refers to it. */
  lemma RescheduleToSameSlotFails(t: Tables, id: Id, req: AppointmentRequest)
    requires id in t.appointments && t.appointments[id].slotId == Some(req.slotId)
    requires req.patientId in t.patients && req.slotId in t.slots
    ensures UpdateResult(t, id, req).result.Failure?
    ensures UpdateResult(t, id, req).after == t
  {
    var apps := t.appointments[id := t.appointments[id].(status := Cancelled)];
    assert apps[id].slotId == Some(req.slotId);
    assert HeldBy(apps, req.slotId);
  }

  /** Rescheduling to another free slot with the same doctor on the same day succeeds: the
      duplicate check runs after the old appointment is cancelled. */
  lemma RescheduleSameDayAllowed(t: Tables, id: Id, req: AppointmentRequest)
    requires BookingInvariant(t) && id in t.appointments
    requires t.appointments[id].status == Confirmed
    requires req.patientId == t.appointments[id].patientId && req.slotId in t.slots
    requires t.appointments[id].slotId != Some(req.slotId)
    requires t.slots[req.slotId].status == Available
    requires t.slots[req.slotId].doctorId == t.appointments[id].doctorId
    requires t.slots[req.slotId].date == t.appointments[id].date
    ensures UpdateResult(t, id, req).result.Success?
  {
    var t1 := CancelStep(t, id, false);
    var slot := t.slots[req.slotId];
    assert req.patientId in t.patients;
    assert t1.slots[req.slotId] == slot;
    assert !HasActiveAppointment(t1.appointments, req.patientId, slot.doctorId, slot.date) by {
      forall a | a in t1.appointments && t1.appointments[a].status != Cancelled
        ensures !(t1.appointments[a].patientId == req.patientId && t1.appointments[a].doctorId == slot.doctorId
                  && t1.appointments[a].date == slot.date)
      {
        assert a != id;
      }
    }
    assert !HeldBy(t1.appointments, req.slotId) by {
      assert !ConfirmedHolder(t.appointments, req.slotId);
      forall a | a in t1.appointments ensures t1.appointments[a].slotId != Some(req.slotId) {
        if a != id {
          assert t1.appointments[a] == t.appointments[a];
        }
      }
    }
  }

  // Counting

  /** A successful booking adds one non-cancelled appointment. */
  lemma NonCancelledAfterBooking(t: Tables, req: AppointmentRequest)
    requires req.visitType.Some? && Wellformed(t)
    requires CreateResult(t, req).result.Success?
    ensures NonCancelledCount(CreateResult(t, req).after) == NonCancelledCount(t) + 1
  {
    var slot := t.slots[req.slotId];
    var n := CreateResult(t, req).result.value;
    var booking := Appointment(req.patientId, Some(req.slotId), slot.doctorId, slot.date, req.visitType.value, Confirmed);
    assert CreateResult(t, req).after.appointments == t.appointments[n := booking];
    NonCancelledInsert(t.appointments, n, booking);
  }

  lemma NonCancelledInsert(appointments: map<Id, Appointment>, n: Id, booking: Appointment)
    requires n !in appointments && booking.status != Cancelled
    ensures NonCancelled(appointments[n := booking]) == NonCancelled(appointments) + {n}
    ensures |NonCancelled(appointments[n := booking])| == |NonCancelled(appointments)| + 1
  {
    var after := appointments[n := booking];
    forall a ensures a in NonCancelled(after) <==> a in NonCancelled(appointments) + {n} {
      if a != n {
        assert a in after <==> a in appointments;
      }
    }
    assert NonCancelled(after) == NonCancelled(appointments) + {n};
  }

  /** Cancelling a confirmed appointment removes one non-cancelled appointment. */
  lemma NonCancelledAfterCancel(t: Tables, id: Id)
    requires id in t.appointments && t.appointments[id].status == Confirmed
    ensures NonCancelledCount(CancelResult(t, id).after) == NonCancelledCount(t) - 1
  {
    var after := CancelResult(t, id).after.appointments;
    assert NonCancelled(after) == NonCancelled(t.appointments) - {id};
  }

  /** A booked slot leaves the available list. */
  lemma BookingHidesSlot(t: Tables, req: AppointmentRequest, today: Date)
    requires req.visitType.Some? && CreateResult(t, req).result.Success?
    requires today <= t.slots[req.slotId].date
    ensures var slot := t.slots[req.slotId];
      var shown := SlotResponse(req.slotId, slot.doctorId, slot.date, slot.startTime, slot.endTime, Available);
      && shown in AvailableSlots(t, slot.doctorId, slot.date, today)
      && shown !in AvailableSlots(CreateResult(t, req).after, slot.doctorId, slot.date, today)
  {
    var after := CreateResult(t, req).after;
    assert req.slotId in after.slots && after.slots[req.slotId].status == Reserved;
  }

  /** A cancelled appointment's slot is listed as available again. */
  lemma CancelShowsSlot(t: Tables, id: Id, today: Date)
    requires Wellformed(t) && id in t.appointments && t.appointments[id].slotId.Some?
    requires today <= t.slots[t.appointments[id].slotId.value].date
    ensures var s := t.appointments[id].slotId.value;
      var slot := t.slots[s];
      SlotResponse(s, slot.doctorId, slot.date, slot.startTime, slot.endTime, Available)
        in AvailableSlots(CancelResult(t, id).after, slot.doctorId, slot.date, today)
  {
    var s := t.appointments[id].slotId.value;
    var after := CancelResult(t, id).after;
    assert after.slots[s] == t.slots[s].(status := Available);
  }

  // The reschedule leaves the old slot attached

  /** A store with two patients, one doctor and two slots on the same day; patient 3's
      appointment 7 is confirmed on slot 5, slot 6 is free. */
  function RescheduleScenario(): Tables
  {
    Tables(map[0 := Specialty("Cardiology")],
           map[1 := Doctor("Ada", "Lee", 0, Active)],
           map[],
           map[5 := AppointmentSlot(1, 100, 540, 570, Reserved), 6 := AppointmentSlot(1, 100, 570, 600, Available)],
           map[7 := Appointment(3, Some(5), 1, 100, InPerson, Confirmed)],
           map[2 := Auth("subject-a", PatientRole), 4 := Auth("subject-b", PatientRole)],
           map[3 := Patient(2, "Sam", "Roe", 0), 4 := Patient(4, "Kim", "Park", 0)],
           8)
  }

  /** The scenario's rows stay below the id generator and their foreign keys resolve. */
  lemma ScenarioRowsLinked()
    ensures var t := RescheduleScenario();
      AllIdsBelowNext(t) && ForeignKeys(t) && OnePatientPerAuth(t.patients) && SlotHeldOnce(t.appointments)
  {
  }

  /** The scenario's unique columns hold. */
  lemma ScenarioUniqueColumns()
    ensures var t := RescheduleScenario();
      UniqueOktaIds(t.auths) && SlotKeysDistinct(t.slots)
  {
    var t := RescheduleScenario();
    assert t.auths[2].oktaId != t.auths[4].oktaId;
    assert KeyOf(t.slots[5]) != KeyOf(t.slots[6]);
  }

  /** The scenario is a committed state. */
  lemma ScenarioWellformed()
    ensures Wellformed(RescheduleScenario())
  {
    ScenarioRowsLinked();
    ScenarioUniqueColumns();
  }

  /** The scenario satisfies the full booking invariant. */
  lemma ScenarioSatisfiesInvariant()
    ensures BookingInvariant(RescheduleScenario())
  {
    ScenarioWellformed();
    var t := RescheduleScenario();
    assert t.appointments[7].slotId == Some(5);
    assert ConfirmedHolder(t.appointments, 5);
  }

  /** Rescheduling appointment 7 to slot 6 as written succeeds, but the cancelled appointment
      still holds slot 5. */
  lemma RescheduleKeepsOldReference()
    ensures var after := UpdateResult(RescheduleScenario(), 7, AppointmentRequest(3, 6, 1, None));
      && after.result == Success(8)
      && after.after.appointments[7].slotId == Some(5) && after.after.appointments[7].status == Cancelled
      && after.after.slots[5].status == Available
      && !OnlyConfirmedHoldSlots(after.after.appointments)
  {
    var t := RescheduleScenario();
    var t1 := CancelStep(t, 7, false);
    assert !HasActiveAppointment(t1.appointments, 3, 1, 100);
    assert !HeldBy(t1.appointments, 6);
  }

  /** After that reschedule, slot 5 is listed as available, yet when patient 4 books it the
      insert violates the unique slot column. */
  lemma RescheduleStrandsOldSlot()
    ensures var after := UpdateResult(RescheduleScenario(), 7, AppointmentRequest(3, 6, 1, None)).after;
      && SlotResponse(5, 1, 100, 540, 570, Available) in AvailableSlots(after, 1, 100, 100)
      && CreateResult(after, AppointmentRequest(4, 5, 1, Some(InPerson))).result == Failure(ConstraintViolation)
  {
    RescheduleKeepsOldReference();
    var t := RescheduleScenario();
    var after := UpdateResult(t, 7, AppointmentRequest(3, 6, 1, None)).after;
    assert after.slots[5] == AppointmentSlot(1, 100, 540, 570, Available);
    assert after.appointments == t.appointments[7 := t.appointments[7].(status := Cancelled)][8 :=
      Appointment(3, Some(6), 1, 100, InPerson, Confirmed)];
    assert !HasActiveAppointment(after.appointments, 4, 1, 100) by {
      assert forall a :: a in after.appointments ==> a == 7 || a == 8;
    }
    assert HeldBy(after.appointments, 5) by {
      assert after.appointments[7].slotId == Some(5);
    }
  }

  /** The corrected reschedule of the same scenario leaves slot 5 bookable again. */
  lemma DetachingRescheduleFreesOldSlot()
    ensures var after := UpdateResultDetaching(RescheduleScenario(), 7, AppointmentRequest(3, 6, 1, None));
      && after.result == Success(8)
      && after.after.appointments[7].slotId == None
      && !HeldBy(after.after.appointments, 5)
      && CreateResult(after.after, AppointmentRequest(4, 5, 1, Some(InPerson))).result == Success(9)
  {
    DetachedScenario();
    var t := RescheduleScenario();
    var t2 := UpdateResultDetaching(t, 7, AppointmentRequest(3, 6, 1, None)).after;
    assert !HasActiveAppointment(t2.appointments, 4, 1, 100) by {
      assert forall a :: a in t2.appointments ==> a == 7 || a == 8;
    }
    assert !HeldBy(t2.appointments, 5) by {
      assert forall a :: a in t2.appointments ==> a == 7 || a == 8;
    }
  }

  /** The tables after the corrected reschedule of the scenario. */
  lemma DetachedScenario()
    ensures var t := RescheduleScenario();
      var r := UpdateResultDetaching(t, 7, AppointmentRequest(3, 6, 1, None));
      && r.result == Success(8)
      && r.after.appointments == t.appointments[7 := Appointment(3, None, 1, 100, InPerson, Cancelled)][8 :=
           Appointment(3, Some(6), 1, 100, InPerson, Confirmed)]
      && r.after.slots == map[5 := AppointmentSlot(1, 100, 540, 570, Available), 6 := AppointmentSlot(1, 100, 570, 600, Reserved)]
      && r.after.patients == t.patients && r.after.nextId == 9
  {
    var t := RescheduleScenario();
    var t1 := CancelStep(t, 7, true);
    assert !HasActiveAppointment(t1.appointments, 3, 1, 100);
    assert !HeldBy(t1.appointments, 6);
  }

  // The service methods

  /** createAppointment on the store. */
  method CreateAppointment(db: Store, req: AppointmentRequest) returns (r: Result<Id>)
    requires req.visitType.Some?
    modifies db
    ensures Step(db.Snapshot(), r) == CreateResult(old(db.Snapshot()), req)
    ensures old(BookingInvariant(db.Snapshot())) ==> BookingInvariant(db.Snapshot())
  {
    if BookingInvariant(db.Snapshot()) {
      CreateKeepsInvariant(db.Snapshot(), req);
    }
    if req.patientId !in db.patients {
      return Failure(NotFound);
    }
    if req.slotId !in db.slots {
      return Failure(NotFound);
    }
    var slot := db.slots[req.slotId];
    if slot.status != Available {
      return Failure(Rejected);
    }
    if HasActiveAppointment(db.appointments, req.patientId, slot.doctorId, slot.date) {
      return Failure(Rejected);
    }
    if HeldBy(db.appointments, req.slotId) {
      return Failure(ConstraintViolation);
    }
    var id := db.nextId;
    db.appointments := db.appointments[id := Appointment(req.patientId, Some(req.slotId), slot.doctorId,
                                                         slot.date, req.visitType.value, Confirmed)];
    db.nextId := id + 1;
    db.slots := db.slots[req.slotId := slot.(status := Reserved)];
    return Success(id);
  }

  /** updateAppointment on the store, with the old appointment's slot detached as the
      cancellation does: the cancellation is applied first and undone if the booking that
      follows fails. */
  method UpdateAppointment(db: Store, id: Id, req: AppointmentRequest) returns (r: Result<Id>)
    modifies db
    ensures Step(db.Snapshot(), r) == UpdateResultDetaching(old(db.Snapshot()), id, req)
  {
    if id !in db.appointments {
      return Failure(NotFound);
    }
    var before := db.Snapshot();
    var appointment := db.appointments[id];
    if appointment.slotId.Some? && appointment.slotId.value in db.slots {
      var oldSlot := appointment.slotId.value;
      db.slots := db.slots[oldSlot := db.slots[oldSlot].(status := Available)];
    }
    db.appointments := db.appointments[id := appointment.(slotId := None, status := Cancelled)];
    var cancelled := db.Snapshot();
    assert cancelled == CancelStep(before, id, true);
    if req.patientId !in db.patients || req.slotId !in db.slots {
      db.Restore(before);
      return Failure(NotFound);
    }
    var newSlot := db.slots[req.slotId];
    if newSlot.status != Available || HasActiveAppointment(db.appointments, req.patientId, newSlot.doctorId, newSlot.date) {
      db.Restore(before);
      return Failure(Rejected);
    }
    if HeldBy(db.appointments, req.slotId) {
      db.Restore(before);
      return Failure(ConstraintViolation);
    }
    var visitType := if req.visitType.Some? then req.visitType.value else appointment.visitType;
    var newId := db.nextId;
    db.appointments := db.appointments[newId := Appointment(req.patientId, Some(req.slotId), newSlot.doctorId,
                                                            newSlot.date, visitType, Confirmed)];
    db.nextId := newId + 1;
    db.slots := db.slots[req.slotId := newSlot.(status := Reserved)];
    assert Step(db.Snapshot(), Success(newId)) == BookSlot(cancelled, req.patientId, req.slotId, visitType);
    return Success(newId);
  }

  /** cancelAppointment on the store. */
  method CancelAppointment(db: Store, id: Id) returns (r: Result<()>)
    modifies db
    ensures Step(db.Snapshot(), r) == CancelResult(old(db.Snapshot()), id)
    ensures old(BookingInvariant(db.Snapshot())) ==> BookingInvariant(db.Snapshot())
  {
    if BookingInvariant(db.Snapshot()) {
      CancelKeepsInvariant(db.Snapshot(), id);
    }
    if id !in db.appointments {
      return Failure(NotFound);
    }
    var appointment := db.appointments[id];
    if appointment.slotId.Some? {
      var slotId := appointment.slotId.value;
      if slotId in db.slots {
        db.slots := db.slots[slotId := db.slots[slotId].(status := Available)];
      }
      appointment := appointment.(slotId := None);
    }
    db.appointments := db.appointments[id := appointment.(status := Cancelled)];
    return Success(());
  }
}
