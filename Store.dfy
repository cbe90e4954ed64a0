/** The relational database behind the services, held in memory: one map per table from
    generated id to record, and the id generator. The repositories' derived queries are
    the filter functions at the end of this module. */
module Store {
  import opened Domain

  /** A snapshot of every table. */
  datatype Tables = Tables(
    specialties: map<Id, Specialty>,
    doctors: map<Id, Doctor>,
    availabilities: map<Id, Availability>,
    slots: map<Id, AppointmentSlot>,
    appointments: map<Id, Appointment>,
    auths: map<Id, Auth>,
    patients: map<Id, Patient>,
    nextId: Id)

  /** The tables after a service call, and what the call returned. */
  datatype Step<T> = Step(after: Tables, result: Result<T>)

  /** What identifies a generated slot: doctor, date, start and end. */
  datatype SlotKey = SlotKey(doctorId: Id, date: Date, startTime: Time, endTime: Time)

  function KeyOf(s: AppointmentSlot): SlotKey
  {
    SlotKey(s.doctorId, s.date, s.startTime, s.endTime)
  }

  function SlotKeys(slots: map<Id, AppointmentSlot>): set<SlotKey>
  {
    set id | id in slots :: KeyOf(slots[id])
  }

  predicate IdsBelow<T>(m: map<Id, T>, bound: Id)
  {
    forall id :: id in m ==> id < bound
  }

  predicate AllIdsBelowNext(t: Tables)
  {
    && IdsBelow(t.specialties, t.nextId) && IdsBelow(t.doctors, t.nextId)
    && IdsBelow(t.availabilities, t.nextId) && IdsBelow(t.slots, t.nextId)
    && IdsBelow(t.appointments, t.nextId) && IdsBelow(t.auths, t.nextId)
    && IdsBelow(t.patients, t.nextId)
  }

  /** The foreign keys of the schema (every join column is non-nullable except the slot of an appointment). */
  predicate ForeignKeys(t: Tables)
  {
    && (forall id :: id in t.doctors ==> t.doctors[id].specialtyId in t.specialties)
    && (forall id :: id in t.availabilities ==> t.availabilities[id].doctorId in t.doctors)
    && (forall id :: id in t.slots ==> t.slots[id].doctorId in t.doctors)
    && (forall id :: id in t.appointments ==>
          && t.appointments[id].patientId in t.patients
          && t.appointments[id].doctorId in t.doctors
          && (t.appointments[id].slotId.Some? ==> t.appointments[id].slotId.value in t.slots))
    && (forall id :: id in t.patients ==> t.patients[id].authId in t.auths)
  }

  /** The unique column Auth.oktaId. */
  predicate UniqueOktaIds(auths: map<Id, Auth>)
  {
    forall a, b :: a in auths && b in auths && auths[a].oktaId == auths[b].oktaId ==> a == b
  }

  /** The one-to-one link from Patient to Auth. */
  predicate OnePatientPerAuth(patients: map<Id, Patient>)
  {
    forall p, q :: p in patients && q in patients && patients[p].authId == patients[q].authId ==> p == q
  }

  /** The unique column Appointment.slot_id: no two appointments refer to the same slot. */
  predicate SlotHeldOnce(appointments: map<Id, Appointment>)
  {
    forall a, b ::
      a in appointments && b in appointments && appointments[a].slotId.Some? && appointments[a].slotId == appointments[b].slotId
      ==> a == b
  }

  /** No two slots share doctor, date, start and end (kept by slot generation's existence check). */
  predicate SlotKeysDistinct(slots: map<Id, AppointmentSlot>)
  {
    forall a, b :: a in slots && b in slots && KeyOf(slots[a]) == KeyOf(slots[b]) ==> a == b
  }

  /** What the database guarantees of every committed state. */
  predicate Wellformed(t: Tables)
  {
    && AllIdsBelowNext(t)
    && ForeignKeys(t)
    && UniqueOktaIds(t.auths)
    && OnePatientPerAuth(t.patients)
    && SlotHeldOnce(t.appointments)
    && SlotKeysDistinct(t.slots)
  }

  /** A change to the slot statuses and the appointments that keeps every other table, every
      slot's key and the id generator's lower bound, and that respects the appointment table's
      own constraints, commits. */
  lemma {:induction false} KeepsWellformed(t: Tables, slots: map<Id, AppointmentSlot>, appointments: map<Id, Appointment>, next: Id)
    requires Wellformed(t)
    requires slots.Keys == t.slots.Keys
    requires forall s :: s in slots ==> KeyOf(slots[s]) == KeyOf(t.slots[s])
    requires t.nextId <= next && IdsBelow(appointments, next)
    requires forall a :: a in appointments ==>
      && appointments[a].patientId in t.patients && appointments[a].doctorId in t.doctors
      && (appointments[a].slotId.Some? ==> appointments[a].slotId.value in slots)
    requires SlotHeldOnce(appointments)
    ensures Wellformed(t.(slots := slots, appointments := appointments, nextId := next))
  {
    var t' := t.(slots := slots, appointments := appointments, nextId := next);
    assert AllIdsBelowNext(t');
    assert forall id :: id in slots ==> slots[id].doctorId == t.slots[id].doctorId;
    assert ForeignKeys(t');
    assert SlotKeysDistinct(slots);
  }

  /** Inserting a slot under a fresh id adds exactly its key. */
  lemma SlotKeysAfterInsert(slots: map<Id, AppointmentSlot>, n: Id, s: AppointmentSlot)
    requires n !in slots
    ensures SlotKeys(slots[n := s]) == SlotKeys(slots) + {KeyOf(s)}
  {
    var after := slots[n := s];
    forall k | k in SlotKeys(slots) ensures k in SlotKeys(after) {
      var id :| id in slots && KeyOf(slots[id]) == k;
      assert after[id] == slots[id];
    }
    assert KeyOf(after[n]) == KeyOf(s);
  }

  /** A slot of a known doctor whose key is not taken commits under the next id. */
  lemma AddSlotKeepsWellformed(t: Tables, s: AppointmentSlot)
    requires Wellformed(t) && s.doctorId in t.doctors && KeyOf(s) !in SlotKeys(t.slots)
    ensures Wellformed(t.(slots := t.slots[t.nextId := s], nextId := t.nextId + 1))
  {
    var slots := t.slots[t.nextId := s];
    assert t.nextId !in t.slots;
    assert SlotKeysDistinct(slots) by {
      forall id | id in t.slots ensures KeyOf(t.slots[id]) != KeyOf(s) {
        assert KeyOf(t.slots[id]) in SlotKeys(t.slots);
      }
    }
  }

  /** A doctor of a known specialty commits under the next id. */
  lemma AddDoctorKeepsWellformed(t: Tables, d: Doctor)
    requires Wellformed(t) && d.specialtyId in t.specialties
    ensures Wellformed(t.(doctors := t.doctors[t.nextId := d], nextId := t.nextId + 1))
  {
  }

  /** Replacing a doctor's row by one of a known specialty commits. */
  lemma ReplaceDoctorKeepsWellformed(t: Tables, id: Id, d: Doctor)
    requires Wellformed(t) && id in t.doctors && d.specialtyId in t.specialties
    ensures Wellformed(t.(doctors := t.doctors[id := d]))
  {
  }

  /** An availability window of a known doctor commits under the next id. */
  lemma AddAvailabilityKeepsWellformed(t: Tables, a: Availability)
    requires Wellformed(t) && a.doctorId in t.doctors
    ensures Wellformed(t.(availabilities := t.availabilities[t.nextId := a], nextId := t.nextId + 1))
  {
  }

  /** Deleting availability rows commits. */
  lemma DropAvailabilitiesKeepsWellformed(t: Tables, kept: map<Id, Availability>)
    requires Wellformed(t)
    requires forall id :: id in kept ==> id in t.availabilities && kept[id] == t.availabilities[id]
    ensures Wellformed(t.(availabilities := kept))
  {
  }

  // Repository queries

  /** Whether some appointment refers to the slot (the unique slot column would reject another). */
  predicate HeldBy(appointments: map<Id, Appointment>, slotId: Id)
  {
    exists a :: a in appointments && appointments[a].slotId == Some(slotId)
  }

  /** findByPatient_PatientIdAndDoctor_DoctorIdAndDateAndStatusNot(..., CANCELLED) finds something. */
  predicate HasActiveAppointment(appointments: map<Id, Appointment>, patientId: Id, doctorId: Id, date: Date)
  {
    exists a :: a in appointments && appointments[a].patientId == patientId
      && appointments[a].doctorId == doctorId && appointments[a].date == date
      && appointments[a].status != Cancelled
  }

  /** The appointments whose status is not CANCELLED. */
  function NonCancelled(appointments: map<Id, Appointment>): set<Id>
  {
    set a | a in appointments && appointments[a].status != Cancelled
  }

  /** The doctors whose employment status is ACTIVE. */
  function ActiveDoctors(doctors: map<Id, Doctor>): set<Id>
  {
    set d | d in doctors && doctors[d].employmentStatus == Active
  }

  /** authRepository.findByOktaId, as the set of matching ids (at most one in a wellformed store). */
  function AuthIdsFor(auths: map<Id, Auth>, oktaId: string): set<Id>
  {
    set a | a in auths && auths[a].oktaId == oktaId
  }

  /** patientRepository.findByAuth_OktaId, as the set of matching ids. */
  function PatientIdsFor(t: Tables, oktaId: string): set<Id>
  {
    set p | p in t.patients && t.patients[p].authId in t.auths && t.auths[t.patients[p].authId].oktaId == oktaId
  }

  /** The repositories of the application as one in-memory store. */
  class Store {
    var specialties: map<Id, Specialty>
    var doctors: map<Id, Doctor>
    var availabilities: map<Id, Availability>
    var slots: map<Id, AppointmentSlot>
    var appointments: map<Id, Appointment>
    var auths: map<Id, Auth>
    var patients: map<Id, Patient>
    var nextId: Id

    /** An empty database. */
    constructor ()
      ensures Snapshot() == Tables(map[], map[], map[], map[], map[], map[], map[], 0)
      ensures Valid()
    {
      specialties, doctors, availabilities, slots := map[], map[], map[], map[];
      appointments, auths, patients, nextId := map[], map[], map[], 0;
    }

    function Snapshot(): Tables
      reads this
    {
      Tables(specialties, doctors, availabilities, slots, appointments, auths, patients, nextId)
    }

    predicate Valid()
      reads this
    {
      Wellformed(Snapshot())
    }

    /** Rolling a transaction back: every table returns to the snapshot. */
    method Restore(t: Tables)
      modifies this
      ensures Snapshot() == t
    {
      specialties, doctors, availabilities, slots := t.specialties, t.doctors, t.availabilities, t.slots;
      appointments, auths, patients, nextId := t.appointments, t.auths, t.patients, t.nextId;
    }
  }
}
