# Medical appointment booking: a Dafny model

This project models the booking engine of a medical-appointment web application, a Spring Boot
back end with a React front end.

**Records and the database.** Doctors belong to specialties. They publish weekly availability
windows, from which thirty-minute appointment slots are generated for the coming month. Patients
book, reschedule and cancel appointments on those slots. A patient's profile is created the first
time the signed-in user (an identity-provider subject, the `oktaId`) asks for it.

The model treats the database as one in-memory store (`Store.Store`): one map per table from
generated id to record, plus the id generator. `Store.Tables` is a snapshot of the whole store.
`Store.Wellformed` collects what the schema guarantees of every committed state:
- the foreign keys;
- the unique columns `Auth.oktaId` and `Appointment.slot_id`;
- the one-to-one link from patient to login;
- the distinct slot keys kept by slot generation;
- ids below the generator.

**Service calls.** Each transactional service call is specified as a function from the tables to a
`Step` (the tables after the call, and its `Result`). A method on the store is proved to perform
exactly that step. Every failure leaves the tables as they were, which is how the transaction
rollback is modelled.

**The four services.**
- Appointments (`AppointmentService`): booking, rescheduling, cancelling, available slots and
  counts. The booking invariant covers three things: a slot is RESERVED exactly when a CONFIRMED
  appointment holds it, only CONFIRMED appointments hold slots, and no patient has two active
  appointments with one doctor on one day.
- Doctors (`DoctorService`): slot generation from availability windows, creating and updating
  doctors with their windows, and the soft delete. It also answers the ACTIVE-only queries.
- Specialties (`SpecialtyService`): the name check on creation, renaming, lookup, count, and a
  delete guarded by the doctors' foreign key.
- Users (`UserService`): get-or-create of the login and the patient profile. ADMIN logins are
  refused.

**Front-end formatting utilities.** There are three:
- `NumberFormat.RoundToSignificant`: banded floor rounding of counts.
- `EnumFormat.CapitalizeAndFormat`: enum token to display label.
- `EnumFormat.ToEnumFormat`: display label back to enum token.

**Time.** `LocalDate` is an epoch day; its weekday is `(day + 3) % 7` counted from Monday.
`LocalTime` is a minute of the day, 0 to 1439. Today's date and the end of the one-month horizon
are parameters.

## Model

| member | source | states |
|---|---|---|
| NumberFormat.RoundToSignificant | react/src/utilities/roundToSignificant.js:15-21 | At or above 1000, 100 and 10 the result is the largest multiple of 1000, 100 and 10 not above the input; 50 to 99 gives 50; below 10 the input is returned. The result never exceeds the input and stays in its band. |
| NumberFormat.RoundIdempotent | react/src/utilities/roundToSignificant.js:15-21 | Rounding twice equals rounding once. |
| NumberFormat.RoundMonotone | react/src/utilities/roundToSignificant.js:15-21 | A larger input never gives a smaller result. |
| NumberFormat.RoundExamples | react/src/utilities/roundToSignificant.js:16-20 | 1234 gives 1000, 87 gives 50, 42 gives 40, 7 gives 7. |
| EnumFormat.CapitalizeAndFormat | react/src/utilities/capitalizeAndFormat.js:17-23 | Same length as the input; no underscore; a space exactly where the input had an underscore or a space; every other character is the input's up to case; a letter is upper-case exactly when it starts a word (first, or after a non-word character). The empty input gives the empty label. |
| EnumFormat.CapitalizeIdempotent | react/src/utilities/capitalizeAndFormat.js:17-23 | Formatting a label again changes nothing. |
| EnumFormat.CapitalizeExamples | react/src/utilities/capitalizeAndFormat.js:9-15 | "IN_PERSON" gives "In Person" and "PENDING" gives "Pending". |
| EnumFormat.ToEnumFormat | react/src/utilities/toEnumFormat.js:18-23 | The token holds no white space and no lower-case letter. |
| EnumFormat.ReplaceSpaceRunsIsSqueeze | react/src/utilities/toEnumFormat.js:21 | Replacing white space equals the reference definition in which each maximal run of white space becomes one underscore. |
| EnumFormat.ToEnumIdempotent | react/src/utilities/toEnumFormat.js:18-23 | Converting a token again changes nothing. |
| EnumFormat.ToEnumExamples | react/src/utilities/toEnumFormat.js:10-16 | "In Person" gives "IN_PERSON" and "Pending" gives "PENDING". |
| EnumFormat.RoundTrip | react/src/utilities/toEnumFormat.js:18-23 | For a token of upper-case letters, digits and single underscores, converting its label back gives the token. |
| AppointmentService.AvailableSlots | springboot/src/main/java/york/medical/services/AppointmentService.java:40-45 | Exactly the AVAILABLE slots of the doctor on the date are listed, each entry carrying that slot's own id, doctor, date and times, reported as AVAILABLE; the doctor's employment status is not consulted. |
| AppointmentService.AppointmentsOfPatient | springboot/src/main/java/york/medical/services/AppointmentService.java:69-79 | Not found exactly when the patient has no appointment; otherwise exactly the ids of the patient's appointments, and nothing else. |
| AppointmentService.AppointmentsByOktaId | springboot/src/main/java/york/medical/services/AppointmentService.java:51-62 | Not found exactly when no profile belongs to the subject; otherwise exactly the ids of the appointments of the subject's profile, and nothing else. |
| AppointmentService.NonCancelledCount | springboot/src/main/java/york/medical/services/AppointmentService.java:64-66 | The count is zero exactly when every appointment is CANCELLED; NonCancelledAfterBooking and NonCancelledAfterCancel state how the operations move it. |
| AppointmentService.CreateResult | springboot/src/main/java/york/medical/services/AppointmentService.java:82-120 | Not found exactly when the patient or the slot is unknown. Rejected exactly when the slot is not AVAILABLE or the patient already has a non-cancelled appointment with the slot's doctor that day. On success, one new CONFIRMED appointment takes the slot's doctor and date and the request's visit type, that slot becomes RESERVED, and nothing else changes. Every failure leaves the tables unchanged. |
| AppointmentService.BookSlot | springboot/src/main/java/york/medical/services/AppointmentService.java:93-117 | The booking once patient and slot are found: rejected exactly when the slot is not AVAILABLE or the patient has a non-cancelled appointment with its doctor that day; a unique-column violation exactly when it passes those checks and an appointment still refers to the slot; otherwise a CONFIRMED appointment under the next id with the slot's doctor and date, and the slot RESERVED. Failures leave the tables unchanged. |
| AppointmentService.FreeSlot | springboot/src/main/java/york/medical/services/AppointmentService.java:130-134 | The held slot, if any, becomes AVAILABLE; every slot keeps its key; other slots are unchanged. |
| AppointmentService.CancelStep | springboot/src/main/java/york/medical/services/AppointmentService.java:130-135 | Cancelling one appointment: only that appointment changes, to CANCELLED, keeping or dropping its slot reference as asked; its slot, if any, becomes AVAILABLE; nothing else changes. |
| AppointmentService.CancelResult | springboot/src/main/java/york/medical/services/AppointmentService.java:178-199 | Not found exactly when the id is unknown. Otherwise the appointment becomes CANCELLED and gives up its slot, which becomes AVAILABLE; nothing else changes. |
| AppointmentService.Reschedule | springboot/src/main/java/york/medical/services/AppointmentService.java:124-174 | Not found exactly when the appointment, the patient or the new slot is unknown. Otherwise, judged on the tables after the cancellation (so the old slot counts as AVAILABLE and the old appointment as CANCELLED): rejected exactly when the new slot is not AVAILABLE or the patient has another non-cancelled appointment with its doctor that day; a unique-column violation exactly when it passes and some appointment still refers to the slot. On success the old appointment is CANCELLED (slot kept or detached as asked), its slot AVAILABLE, a new CONFIRMED appointment under the next id takes the new slot's doctor and date and the request's visit type, else the old one, and the new slot is RESERVED; nothing else changes. Every failure leaves the tables unchanged. |
| AppointmentService.UpdateResult | springboot/src/main/java/york/medical/services/AppointmentService.java:130-136 | As written: after a successful reschedule the cancelled appointment still refers to its old slot. |
| AppointmentService.UpdateResultDetaching | springboot/src/main/java/york/medical/services/AppointmentService.java:130-136 | As intended: after a successful reschedule the cancelled appointment refers to no slot. |
| AppointmentService.CreateKeepsInvariant | springboot/src/main/java/york/medical/services/AppointmentService.java:105-117 | Booking keeps the booking invariant. |
| AppointmentService.CancelKeepsInvariant | springboot/src/main/java/york/medical/services/AppointmentService.java:184-195 | Cancelling keeps the booking invariant. |
| AppointmentService.CancelTwiceChangesNoSlot | springboot/src/main/java/york/medical/services/AppointmentService.java:184-191 | A second cancel succeeds and changes no slot. |
| AppointmentService.RescheduleKeepsConsistent | springboot/src/main/java/york/medical/services/AppointmentService.java:126-171 | Rescheduling, as written or with the slot detached, keeps "RESERVED exactly when held by a CONFIRMED appointment" and "no double booking". |
| AppointmentService.UpdateDetachingKeepsInvariant | springboot/src/main/java/york/medical/services/AppointmentService.java:130-136 | With the old slot detached, rescheduling keeps the whole booking invariant, including that only CONFIRMED appointments hold slots. |
| AppointmentService.RescheduleSameDayAllowed | springboot/src/main/java/york/medical/services/AppointmentService.java:150-155 | Moving a CONFIRMED appointment to another free slot of the same doctor on the same day succeeds, because the duplicate check runs after the cancellation. |
| AppointmentService.NonCancelledAfterBooking | springboot/src/main/java/york/medical/services/AppointmentService.java:64-66 | A booking raises the count of non-cancelled appointments by one. |
| AppointmentService.NonCancelledAfterCancel | springboot/src/main/java/york/medical/services/AppointmentService.java:64-66 | Cancelling a CONFIRMED appointment lowers that count by one. |
| AppointmentService.BookingHidesSlot | springboot/src/main/java/york/medical/services/AppointmentService.java:40-45 | A booked slot was listed as available before and is not listed after. |
| AppointmentService.CancelShowsSlot | springboot/src/main/java/york/medical/services/AppointmentService.java:40-45 | After a cancellation, the freed slot is listed as available. |
| AppointmentService.RescheduleKeepsOldReference | springboot/src/main/java/york/medical/services/AppointmentService.java:130-136 | As written, a reschedule succeeds but leaves the cancelled appointment pointing at its old slot, now AVAILABLE, so a non-CONFIRMED appointment holds a slot. |
| AppointmentService.RescheduleStrandsOldSlot | springboot/src/main/java/york/medical/entities/Appointment.java:25 | After that reschedule the old slot is listed as available, but booking it for another patient breaks the unique slot column. |
| AppointmentService.RescheduleToSameSlotFails | springboot/src/main/java/york/medical/services/AppointmentService.java:130-171 | As written, moving an appointment to the slot it holds never succeeds and changes nothing, because the cancelled appointment still refers to that slot. |
| AppointmentService.DetachingRescheduleFreesOldSlot | springboot/src/main/java/york/medical/services/AppointmentService.java:184-191 | With the slot detached as cancelAppointment does, the old slot is held by nobody and another patient can book it. |
| AppointmentService.CreateAppointment | springboot/src/main/java/york/medical/services/AppointmentService.java:82-120 | The method performs exactly the CreateResult step and keeps the booking invariant. |
| AppointmentService.UpdateAppointment | springboot/src/main/java/york/medical/services/AppointmentService.java:122-174 | The method performs exactly the corrected reschedule (the old slot detached, see Findings), undoing the cancellation when the booking fails. |
| AppointmentService.CancelAppointment | springboot/src/main/java/york/medical/services/AppointmentService.java:176-199 | The method performs exactly the CancelResult step and keeps the booking invariant. |
| DoctorService.DaySlots | springboot/src/main/java/york/medical/services/DoctorService.java:184-201 | The slots the corrected inner loop creates, in order, stopping at the first slot that would end after the window. It carries no contract itself; DaySlotsShape states its properties. |
| DoctorService.DaySlotsShape | springboot/src/main/java/york/medical/services/DoctorService.java:184-201 | The slots of a window are each thirty minutes long, inside the window, back to back from its start, and as many as fit whole; a trailing partial slot is not created. |
| DoctorService.DaySlotsExample | springboot/src/main/java/york/medical/services/DoctorService.java:184-201 | A 9:00 to 10:45 window yields 9:00, 9:30 and 10:00, and drops the last quarter hour. |
| DoctorService.GeneratedKeysShape | springboot/src/main/java/york/medical/services/DoctorService.java:179-203 | A slot is generated exactly for the window's doctor, on a date from today through the horizon's end whose weekday is the window's, with times from the window's slots. |
| DoctorService.GeneratedKeys | springboot/src/main/java/york/medical/services/DoctorService.java:179-203 | An empty horizon, or a window too short for one slot, yields no slot. |
| DoctorService.SaveSlotIfAbsent | springboot/src/main/java/york/medical/services/DoctorService.java:189-198 | An existing doctor, date, start and end is skipped; otherwise the AVAILABLE slot is stored under the next id; no two slots ever share a key. |
| DoctorService.GenerateDaySlots | springboot/src/main/java/york/medical/services/DoctorService.java:184-201 | The inner loop adds exactly the keys of the window's slots on the date, only as AVAILABLE slots of the doctor, and keeps every existing slot; when all keys exist it changes nothing. |
| DoctorService.GenerateTimeSlots | springboot/src/main/java/york/medical/services/DoctorService.java:177-208 | The slot keys afterwards are the old keys plus exactly the generated ones; existing slots are kept and new ones are AVAILABLE; generating again, when every key exists, changes nothing. |
| DoctorService.WrittenStep | springboot/src/main/java/york/medical/services/DoctorService.java:185-188 | One pass of the loop as written: when the slot does not cross midnight, it is taken exactly when it ends by the window's end; when it crosses midnight, its end lies before its start. |
| DoctorService.WrittenSlots | springboot/src/main/java/york/medical/services/DoctorService.java:185-201 | At most one slot per pass, starting at the window's start. |
| DoctorService.WrittenStepWraps | springboot/src/main/java/york/medical/services/DoctorService.java:185-188 | As written, a 23:40 to 23:50 window visits the slot from 23:40 to 00:10. |
| DoctorService.PastMidnightNeverExits | springboot/src/main/java/york/medical/services/DoctorService.java:185-201 | As written, for every window in which some step wraps past midnight, the inner loop visits a slot on every pass, however many passes: it never exits. |
| DoctorService.WrapsStep | springboot/src/main/java/york/medical/services/DoctorService.java:185-200 | In a wrapping window, each pass of the loop as written takes a slot and moves to a start from which the window still wraps. |
| DoctorService.PastMidnightWindowWraps | springboot/src/main/java/york/medical/services/DoctorService.java:185-187 | That window is one whose last step wraps past midnight. |
| DoctorService.WrittenMatchesDaySlots | springboot/src/main/java/york/medical/services/DoctorService.java:185-201 | When no step wraps, the loop as written exits and visits exactly the slots of the corrected loop. |
| DoctorService.WindowKeysShape | springboot/src/main/java/york/medical/services/DoctorService.java:94-103 | A key comes from a list of windows exactly when it comes from one of them. |
| DoctorService.WindowSlotsFit | springboot/src/main/java/york/medical/services/DoctorService.java:94-103 | Every slot saved for a doctor's windows is thirty minutes long, inside one window, on a date of the horizon with that window's weekday. |
| DoctorService.AddWindows | springboot/src/main/java/york/medical/services/DoctorService.java:94-103 | Saving the windows adds only that doctor's availability rows and AVAILABLE slots. The new rows are those the windows ask for, and the slot keys gained are the windows' keys. |
| DoctorService.NewDoctor | springboot/src/main/java/york/medical/services/DoctorService.java:84-88 | The employment status defaults to ACTIVE. |
| DoctorService.CreateDoctor | springboot/src/main/java/york/medical/services/DoctorService.java:78-110 | Not found, with the tables unchanged, for an unknown specialty. Otherwise the doctor is stored under the next id and the request's windows and their slots are added. |
| DoctorService.CreatedDoctorSchedule | springboot/src/main/java/york/medical/services/DoctorService.java:90-104 | The new doctor's availability rows are exactly the request's windows; no other doctor's change. |
| DoctorService.CreatedDoctorListed | springboot/src/main/java/york/medical/services/DoctorService.java:70-75 | A doctor created ACTIVE is listed under their specialty, and the doctor count grows by one. |
| DoctorService.EditedDoctor | springboot/src/main/java/york/medical/services/DoctorService.java:117-126 | The names come from the request; a status or specialty given in the request is taken from it, and an absent one keeps the old value. |
| DoctorService.OtherSchedules | springboot/src/main/java/york/medical/services/DoctorService.java:130 | Deleting the doctor's availability rows keeps every other doctor's row under its own id, unchanged, and removes every row of the doctor. |
| DoctorService.UpdateDoctor | springboot/src/main/java/york/medical/services/DoctorService.java:113-148 | Not found, with the tables unchanged, for an unknown doctor or an unknown requested specialty. Otherwise the row is edited, and when the request carries a list the doctor's windows are replaced and their slots generated. |
| DoctorService.UpdatedDoctorSchedule | springboot/src/main/java/york/medical/services/DoctorService.java:128-141 | After an update carrying a list, the doctor's availability rows are exactly the list's windows, other doctors' are unchanged, and every earlier slot remains. |
| DoctorService.Deactivate | springboot/src/main/java/york/medical/services/DoctorService.java:152-159 | Not found exactly for an unknown id. Otherwise only that doctor's status changes, to INACTIVE, and the doctor stays. |
| DoctorService.DeactivateKeepsWellformed | springboot/src/main/java/york/medical/services/DoctorService.java:152-159 | The soft delete commits: availabilities, slots and appointments still refer to an existing doctor. |
| DoctorService.DeactivateIdempotent | springboot/src/main/java/york/medical/services/DoctorService.java:157 | Deleting twice is deleting once. |
| DoctorService.DeleteDoctor | springboot/src/main/java/york/medical/services/DoctorService.java:151-173 | The method performs exactly the Deactivate step. |
| DoctorService.DoctorsBySpecialty | springboot/src/main/java/york/medical/services/DoctorService.java:70-75 | Only ACTIVE doctors are listed; an ACTIVE doctor is listed exactly when they belong to the specialty. |
| DoctorService.DoctorsCount | springboot/src/main/java/york/medical/services/DoctorService.java:43-45 | The count of ACTIVE doctors never exceeds the number of doctors, and is zero exactly when no doctor is ACTIVE. |
| DoctorService.DeactivateLeavesLists | springboot/src/main/java/york/medical/services/DoctorService.java:43-45 | A deleted doctor leaves every specialty's list, and the count drops by one exactly when the doctor was ACTIVE. |
| SpecialtyService.GetSpecialtyById | springboot/src/main/java/york/medical/services/SpecialtyService.java:38-45 | Not found exactly for an unknown id; otherwise the row stored under the id. |
| SpecialtyService.SpecialtiesCount | springboot/src/main/java/york/medical/services/SpecialtyService.java:24-26 | The count is zero exactly when there is no specialty; CountIsNames relates it to the names in use. |
| SpecialtyService.CountIsNames | springboot/src/main/java/york/medical/services/SpecialtyService.java:24-26 | While names are unique, the count equals the number of names in use. |
| SpecialtyService.CreateStep | springboot/src/main/java/york/medical/services/SpecialtyService.java:48-58 | Refused exactly when the name is in use, with the table unchanged; otherwise exactly that specialty is stored under the next id. |
| SpecialtyService.CreateKeepsNamesUnique | springboot/src/main/java/york/medical/services/SpecialtyService.java:51-54 | Creating keeps specialty names unique. |
| SpecialtyService.CreateThenGet | springboot/src/main/java/york/medical/services/SpecialtyService.java:54 | A fresh name is stored, found under the returned id, and the count grows by one. |
| SpecialtyService.CreateTwiceRejected | springboot/src/main/java/york/medical/services/SpecialtyService.java:51-52 | Creating the same name twice refuses the second call. |
| SpecialtyService.UpdateStep | springboot/src/main/java/york/medical/services/SpecialtyService.java:61-71 | Not found exactly for an unknown id; otherwise only that specialty's name changes. |
| SpecialtyService.UpdateCanShareName | springboot/src/main/java/york/medical/services/SpecialtyService.java:64-67 | Renaming does no uniqueness check: two specialties can end up with one name. |
| SpecialtyService.DeleteStep | springboot/src/main/java/york/medical/services/SpecialtyService.java:74-84 | Not found exactly for an unknown id. A specialty some doctor belongs to cannot be deleted, because of the doctor's foreign key. Otherwise exactly that specialty is removed. |
| SpecialtyService.DeleteKeepsWellformed | springboot/src/main/java/york/medical/services/SpecialtyService.java:77-80 | A delete that goes through leaves every doctor with an existing specialty. |
| SpecialtyService.DeleteThenGet | springboot/src/main/java/york/medical/services/SpecialtyService.java:77-80 | After a delete the id is not found and the count is one lower. |
| SpecialtyService.CreateSpecialty | springboot/src/main/java/york/medical/services/SpecialtyService.java:47-58 | The method performs exactly the CreateStep step. |
| SpecialtyService.UpdateSpecialty | springboot/src/main/java/york/medical/services/SpecialtyService.java:60-71 | The method performs exactly the UpdateStep step. |
| SpecialtyService.DeleteSpecialty | springboot/src/main/java/york/medical/services/SpecialtyService.java:73-84 | The method performs exactly the DeleteStep step. |
| UserService.AtMostOneEach | springboot/src/main/java/york/medical/entities/Auth.java:18 | A subject has at most one login and at most one profile, and a profile of the subject belongs to the subject's login. |
| UserService.FindAuth | springboot/src/main/java/york/medical/services/UserService.java:27-28 | Finds the subject's login exactly when one exists. |
| UserService.FindPatient | springboot/src/main/java/york/medical/services/UserService.java:30-31 | Finds the subject's profile exactly when one exists. |
| UserService.GetPatientByOktaId | springboot/src/main/java/york/medical/services/UserService.java:26-32 | Not found exactly when the subject has no login or no profile; otherwise the profile linked to the subject's login. |
| UserService.LoginStep | springboot/src/main/java/york/medical/services/UserService.java:37-43 | The login found, or a new PATIENT login under the next id when there is none; afterwards the subject has exactly one login. |
| UserService.LoginRole | springboot/src/main/java/york/medical/services/UserService.java:46-48 | The login is ADMIN exactly when the subject already had an ADMIN login. |
| UserService.CreateProfileStep | springboot/src/main/java/york/medical/services/UserService.java:34-60 | Refused exactly for an ADMIN subject, with the tables unchanged and no login kept. On success only logins and profiles change: an existing login is kept, a missing one is added as PATIENT under the next id; an existing profile is returned with the profiles unchanged, otherwise exactly one profile is added holding the form's names and date of birth; afterwards the subject has exactly one profile, the one returned. |
| UserService.NewProfileKeepsWellformed | springboot/src/main/java/york/medical/services/UserService.java:53-58 | A new profile is linked to the subject's login and commits. |
| UserService.CreateThenGet | springboot/src/main/java/york/medical/services/UserService.java:51-59 | The profile created or found is the one getPatientByOktaId then returns. |
| UserService.CreateProfileIdempotent | springboot/src/main/java/york/medical/services/UserService.java:51-52 | A second request for the same subject returns the same profile and changes nothing. |
| UserService.ExistingProfileReturned | springboot/src/main/java/york/medical/services/UserService.java:51-52 | An existing profile is returned unchanged; the form's names and date of birth are ignored. |
| UserService.FirstRequestCreatesBoth | springboot/src/main/java/york/medical/services/UserService.java:37-59 | A first request stores a PATIENT login and a profile with the form's names and date of birth, linked to that login. |
| UserService.LoginWithoutProfileCreatesProfile | springboot/src/main/java/york/medical/services/UserService.java:37-59 | A subject with a PATIENT login and no profile keeps the login and gets one profile under the next id, holding the form's values and linked to that login. |
| UserService.CreatePatientProfile | springboot/src/main/java/york/medical/services/UserService.java:34-60 | The method performs exactly the CreateProfileStep step. |

## Left out

- The controllers, the security configuration, the data seeding script and every React page: HTTP mapping, login wiring and user interface with no logic of their own.
- getAllDoctors, getDoctorById and getAllSpecialties: plain reads of a whole table or one row, with no rule to state.
- The response mapping helpers (mapAppointmentToResponse, mapToDoctorResponse, mapSlotToResponse): field copying. Slot listings are modelled as records carrying the slot's own fields.
- The clock: `LocalDate.now()` and `plusMonths(1)` are passed in as today and the horizon's end.
- Concurrency: calls are sequential, and each transaction is all-or-nothing.
- Exception types and messages: a failure is NotFound, Rejected (a rule of the service) or ConstraintViolation (a database constraint). The RuntimeException wrappers are not modelled.
- AppointmentService.CreateResult: requires a visit type, because the request's `visitType` is `@NotNull` and validated by the controller.
- AppointmentService.AvailableSlots: requires a date not before today, because the request's date is `@FutureOrPresent`.
- DoctorService.CreateDoctor: requires a specialty id, because it is `@NotNull` in the request.
- DoctorService.AddWindows: states the stored availability rows as a set. Two identical windows in one request each get a row, and that count is not stated.
- DoctorService.GenerateDaySlots: follows the corrected inner loop, which stops before a slot would end after the window without wrapping past midnight (see Findings). The loop as written is modelled by WrittenStep and WrittenSlots.
- SpecialtyService.CreateStep: a request body carrying an id of its own is treated as a new specialty. When renaming has already given two specialties one name, the source's lookup by name fails rather than answering "already exists"; both outcomes are a refusal.
- UserService.CreatePatientProfile: the form checks (non-blank names, date of birth not in the future) belong to the controller. The service copies the values as given, so the model does not require them.
- AppointmentService.UpdateAppointment: performs the corrected reschedule, in which the cancelled appointment gives up its slot (see Findings). The code as written is modelled by UpdateResult, which no store method performs.
- AppointmentService.UpdateAppointment: does not restate the booking invariant in its own contract. UpdateDetachingKeepsInvariant proves it for the step the method performs.
- NumberFormat.RoundToSignificant: takes an integer. Its callers pass counts; fractional, negative-zero, NaN or infinite JavaScript numbers are not modelled.
- Text handling is ASCII for letters and case; white space is the regular-expression class `\s`.

## Findings

| source | as written | input that shows it | evidently intended | confidence | as-written member | corrected member |
|---|---|---|---|---|---|---|
| springboot/src/main/java/york/medical/services/AppointmentService.java:130-136 | Rescheduling cancels the old appointment and frees its slot, but the cancelled appointment keeps its reference to that slot. | Appointment 7 holds slot 5 and is rescheduled to slot 6. Slot 5 is then listed as available, yet another patient's booking of slot 5 breaks the unique slot column. | Detach the old slot as cancelAppointment does (line 190), so the freed slot can be booked again. | high; not executed | AppointmentService.RescheduleStrandsOldSlot | AppointmentService.UpdateDetachingKeepsInvariant |
| springboot/src/main/java/york/medical/services/DoctorService.java:185-188 | The slot end is `plusMinutes(30)`, which wraps past midnight, so the loop's guard can never stop it. | A window from 23:40 to 23:50: the first slot runs from 23:40 to 00:10, and the loop then walks the day forever. The same happens for every window with a start past 23:30 on its half-hour steps. | Stop before a slot would end after the window, with no wrap; every slot lies inside the window and the loop ends. | high; not executed | DoctorService.PastMidnightNeverExits | DoctorService.DaySlotsShape |
