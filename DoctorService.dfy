/** Doctors, their weekly availability windows, and the appointment slots generated from
    those windows: thirty-minute slots on every matching weekday from today through the
    end of the booking horizon. */
module DoctorService {
  import opened Domain
  import opened Store

  const SlotMinutes: int := 30

  // Slots within one window

  /** The slots the inner loop of generateTimeSlots creates from `cur` on, in order; the loop
      stops at the first slot that would end after the window. */
  function DaySlots(cur: Time, end: Time): seq<(Time, Time)>
    decreases end - cur
  {
    if cur >= end || cur + SlotMinutes > end then []
    else [(cur, cur + SlotMinutes)] + DaySlots(cur + SlotMinutes, end)
  }

  /** The slots of a window are each thirty minutes long, inside the window, back to back from
      its start, and as many as fit whole. */
  lemma {:induction false} DaySlotsShape(cur: Time, end: Time)
    ensures var r := DaySlots(cur, end);
      && (forall i :: 0 <= i < |r| ==> r[i].1 == r[i].0 + SlotMinutes && cur <= r[i].0 && r[i].1 <= end)
      && (forall i :: 0 <= i && i + 1 < |r| ==> r[i].1 == r[i + 1].0)
      && (|r| > 0 ==> r[0].0 == cur)
      && |r| == if cur < end then (end - cur) / SlotMinutes else 0
    decreases end - cur
  {
    if cur < end && cur + SlotMinutes <= end {
      DaySlotsShape(cur + SlotMinutes, end);
      var rest := DaySlots(cur + SlotMinutes, end);
      assert DaySlots(cur, end) == [(cur, cur + SlotMinutes)] + rest;
      assert forall i :: 1 <= i < |rest| + 1 ==> DaySlots(cur, end)[i] == rest[i - 1];
    }
  }

  /** The thirty-minute slots of a 9:00 to 10:45 window; the trailing quarter hour is dropped. */
  lemma DaySlotsExample()
    ensures DaySlots(540, 645) == [(540, 570), (570, 600), (600, 630)]
  {
    assert DaySlots(630, 645) == [];
    assert DaySlots(600, 645) == [(600, 630)];
  }

  // The inner loop as written: slot ends wrap around midnight

  /** One pass of the inner loop as written: the end of the slot is `plusMinutes(30)`, which wraps
      past midnight. None when the loop exits; otherwise the slot, whose end is the next start. */
  function WrittenStep(cur: Time, end: Time): (r: Option<(Time, Time)>)
    ensures r.Some? ==> r.value.0 == cur && cur < end
    ensures cur + SlotMinutes < MinutesPerDay ==>
      (r.Some? <==> cur + SlotMinutes <= end) && (r.Some? ==> r.value.1 == cur + SlotMinutes)
    ensures r.Some? && MinutesPerDay <= cur + SlotMinutes ==> r.value.1 < cur
  {
    if cur >= end then None
    else
      var e := PlusMinutes(cur, SlotMinutes);
      if e > end then None else Some((cur, e))
  }

  /** The slots the loop as written visits in at most `fuel` passes. */
  function WrittenSlots(cur: Time, end: Time, fuel: nat): (r: seq<(Time, Time)>)
    ensures |r| <= fuel
    ensures r != [] ==> r[0].0 == cur
    decreases fuel
  {
    if fuel == 0 then []
    else
      match WrittenStep(cur, end)
      case None => []
      case Some(p) => [p] + WrittenSlots(p.1, end, fuel - 1)
  }

  /** For a window from 23:40 to 23:50 the loop as written visits the slot 23:40 to 00:10 and
      carries on from 00:10. */
  lemma WrittenStepWraps()
    ensures WrittenStep(1420, 1430) == Some((1420, 10))
  {
  }

  /** The loop never wraps when the last start it reaches before the window's end is before 23:30. */
  predicate NeverWraps(start: Time, end: Time)
  {
    start >= end || start + SlotMinutes * ((end - start - 1) / SlotMinutes) < MinutesPerDay - SlotMinutes
  }

  lemma NeverWrapsStep(cur: Time, end: Time)
    requires NeverWraps(cur, end) && cur < end
    ensures cur + SlotMinutes < MinutesPerDay
    ensures cur + SlotMinutes < MinutesPerDay ==> NeverWraps(cur + SlotMinutes, end)
  {
    var q := (end - cur - 1) / SlotMinutes;
    assert 0 <= q;
    if cur + SlotMinutes < end {
      assert (end - (cur + SlotMinutes) - 1) / SlotMinutes == q - 1;
    }
  }

  /** A wrapping window stays wrapping: the loop as written takes a step, and the start it
      moves to (the next half hour, or the wrapped end of the slot) leads to the same last
      start past 23:30. */
  lemma WrapsStep(cur: Time, end: Time)
    requires !NeverWraps(cur, end)
    ensures WrittenStep(cur, end).Some?
    ensures !NeverWraps(WrittenStep(cur, end).value.1, end)
  {
    var q := (end - cur - 1) / SlotMinutes;
    if q >= 1 {
      assert cur + SlotMinutes <= end;
      assert (end - (cur + SlotMinutes) - 1) / SlotMinutes == q - 1;
    } else {
      var e := cur + SlotMinutes - MinutesPerDay;
      assert WrittenStep(cur, end) == Some((cur, e));
      assert (end - e - 1) / SlotMinutes == 47;
    }
  }

  /** Whenever some step wraps past midnight, the loop as written never exits: every pass
      visits a slot, however many passes. With WrittenMatchesDaySlots, NeverWraps decides
      exactly which windows the loop as written finishes. */
  lemma {:induction false} PastMidnightNeverExits(cur: Time, end: Time, fuel: nat)
    requires !NeverWraps(cur, end)
    ensures |WrittenSlots(cur, end, fuel)| == fuel
    decreases fuel
  {
    if fuel > 0 {
      WrapsStep(cur, end);
      PastMidnightNeverExits(WrittenStep(cur, end).value.1, end, fuel - 1);
    }
  }

  /** The 23:40 to 23:50 window is one that wraps. */
  lemma PastMidnightWindowWraps()
    ensures !NeverWraps(1420, 1430)
  {
  }

  /** When no step wraps, the loop as written exits and visits exactly the slots of DaySlots. */
  lemma {:induction false} WrittenMatchesDaySlots(cur: Time, end: Time, fuel: nat)
    requires NeverWraps(cur, end) && fuel > |DaySlots(cur, end)|
    ensures WrittenSlots(cur, end, fuel) == DaySlots(cur, end)
    decreases end - cur
  {
    if cur < end {
      NeverWrapsStep(cur, end);
      if cur + SlotMinutes <= end {
        WrittenMatchesDaySlots(cur + SlotMinutes, end, fuel - 1);
      }
    }
  }

  // Slots over the horizon

  /** The keys of the slots one window yields on the dates from `from` up to, not including, `to`. */
  function KeysBetween(av: Availability, from: Date, to: Date): set<SlotKey>
  {
    set d, p | from <= d < to && Weekday(d) == av.dayOfWeek && p in DaySlots(av.startTime, av.endTime)
      :: SlotKey(av.doctorId, d, p.0, p.1)
  }

  /** The keys of the slots one window yields from today through the end of the horizon. */
  function GeneratedKeys(av: Availability, today: Date, endDate: Date): (r: set<SlotKey>)
    ensures endDate < today ==> r == {}
    ensures av.endTime < av.startTime + SlotMinutes ==> r == {}
  {
    KeysBetween(av, today, endDate + 1)
  }

  /** The keys one window yields on one date. */
  function DayKeys(av: Availability, d: Date, window: seq<(Time, Time)>): set<SlotKey>
  {
    set p | p in window :: SlotKey(av.doctorId, d, p.0, p.1)
  }

  lemma KeysBetweenStep(av: Availability, from: Date, d: Date)
    requires from <= d
    ensures KeysBetween(av, from, d + 1) ==
      KeysBetween(av, from, d) + (if Weekday(d) == av.dayOfWeek then DayKeys(av, d, DaySlots(av.startTime, av.endTime)) else {})
  {
  }

  /** Which slots generation yields: exactly the thirty-minute slots that fit the window, on
      every date from today through the end of the horizon whose weekday is the window's. */
  lemma GeneratedKeysShape(av: Availability, today: Date, endDate: Date, k: SlotKey)
    ensures k in GeneratedKeys(av, today, endDate) <==>
      && k.doctorId == av.doctorId && today <= k.date <= endDate && Weekday(k.date) == av.dayOfWeek
      && (k.startTime, k.endTime) in DaySlots(av.startTime, av.endTime)
    ensures k in GeneratedKeys(av, today, endDate) ==>
      && k.endTime == k.startTime + SlotMinutes
      && av.startTime <= k.startTime && k.endTime <= av.endTime
  {
    var w := DaySlots(av.startTime, av.endTime);
    DaySlotsShape(av.startTime, av.endTime);
    if k in GeneratedKeys(av, today, endDate) {
      var d, p :| today <= d < endDate + 1 && Weekday(d) == av.dayOfWeek && p in w && k == SlotKey(av.doctorId, d, p.0, p.1);
      var i :| 0 <= i < |w| && w[i] == p;
    }
    if && k.doctorId == av.doctorId && today <= k.date <= endDate && Weekday(k.date) == av.dayOfWeek
       && (k.startTime, k.endTime) in w
    {
      assert k == SlotKey(av.doctorId, k.date, (k.startTime, k.endTime).0, (k.startTime, k.endTime).1);
    }
  }

  /** One step of the inner loop consumes the next slot of the window. */
  lemma WindowStep(window: seq<(Time, Time)>, done: int, cur: Time, end: Time)
    requires cur < end && cur + SlotMinutes <= end
    requires 0 <= done <= |window| && window[done..] == DaySlots(cur, end)
    ensures done < |window| && window[done] == (cur, cur + SlotMinutes)
    ensures window[done + 1..] == DaySlots(cur + SlotMinutes, end)
    ensures window[..done + 1] == window[..done] + [window[done]]
  {
    assert window[done..][1..] == window[done + 1..];
  }

  lemma DayKeysSnoc(av: Availability, d: Date, w: seq<(Time, Time)>, p: (Time, Time))
    ensures DayKeys(av, d, w + [p]) == DayKeys(av, d, w) + {SlotKey(av.doctorId, d, p.0, p.1)}
  {
    assert forall q :: q in w + [p] <==> q in w || q == p;
  }

  /** The repository's existence check followed by the save: a slot whose doctor, date, start
      and end are already taken is skipped; otherwise it is stored under the next id. */
  method SaveSlotIfAbsent(db: Store, slot: AppointmentSlot)
    requires db.Valid() && slot.doctorId in db.doctors
    modifies db
    ensures db.Valid()
    ensures SlotKeys(db.slots) == SlotKeys(old(db.slots)) + {KeyOf(slot)}
    ensures KeyOf(slot) in SlotKeys(old(db.slots)) ==> db.Snapshot() == old(db.Snapshot())
    ensures KeyOf(slot) !in SlotKeys(old(db.slots)) ==>
      db.Snapshot() == old(db.Snapshot()).(slots := old(db.slots)[old(db.nextId) := slot], nextId := old(db.nextId) + 1)
    ensures slot.status == Available ==> OnlyAddsSlots(old(db.Snapshot()), db.Snapshot(), slot.doctorId)
  {
    if KeyOf(slot) !in SlotKeys(db.slots) {
      AddSlotKeepsWellformed(db.Snapshot(), slot);
      SlotKeysAfterInsert(db.slots, db.nextId, slot);
      db.slots := db.slots[db.nextId := slot];
      db.nextId := db.nextId + 1;
    }
  }

  /** What generation may do to the tables: keep every other table and every existing slot,
      and add only AVAILABLE slots of the given doctor under fresh ids. */
  predicate OnlyAddsSlots(before: Tables, after: Tables, doctorId: Id)
  {
    && after == before.(slots := after.slots, nextId := after.nextId)
    && before.nextId <= after.nextId
    && (forall id :: id in before.slots ==> id in after.slots && after.slots[id] == before.slots[id])
    && (forall id :: id in after.slots && id !in before.slots ==>
          before.nextId <= id && after.slots[id].status == Available && after.slots[id].doctorId == doctorId)
  }

  lemma OnlyAddsSlotsTransitive(a: Tables, b: Tables, c: Tables, doctorId: Id)
    requires OnlyAddsSlots(a, b, doctorId) && OnlyAddsSlots(b, c, doctorId)
    ensures OnlyAddsSlots(a, c, doctorId)
  {
  }

  /** Generation that drew no fresh id added no slot. */
  lemma NoFreshIdNoChange(a: Tables, b: Tables, doctorId: Id)
    requires OnlyAddsSlots(a, b, doctorId) && IdsBelow(b.slots, b.nextId) && a.nextId == b.nextId
    ensures a == b
  {
    assert a.slots == b.slots;
  }

  /** One slot of the window saved on a date keeps the inner loop's account of the slot keys:
      the keys so far are the old keys plus those of the window's slots visited so far, and a
      date whose slots all existed leaves the tables as they were. */
  lemma DayStep(start: Tables, before: Tables, after: Tables, av: Availability, day: Date,
                window: seq<(Time, Time)>, done: nat, slot: AppointmentSlot)
    requires done < |window|
    requires slot == AppointmentSlot(av.doctorId, day, window[done].0, window[done].1, Available)
    requires SlotKeys(before.slots) == SlotKeys(start.slots) + DayKeys(av, day, window[..done])
    requires DayKeys(av, day, window) <= SlotKeys(start.slots) ==> before.nextId == start.nextId
    requires SlotKeys(after.slots) == SlotKeys(before.slots) + {KeyOf(slot)}
    requires KeyOf(slot) in SlotKeys(before.slots) ==> after == before
    ensures SlotKeys(after.slots) == SlotKeys(start.slots) + DayKeys(av, day, window[..done + 1])
    ensures DayKeys(av, day, window) <= SlotKeys(start.slots) ==> after.nextId == start.nextId
  {
    assert window[..done + 1] == window[..done] + [window[done]];
    DayKeysSnoc(av, day, window[..done], window[done]);
    if DayKeys(av, day, window) <= SlotKeys(start.slots) {
      assert window[done] in window;
      assert KeyOf(slot) in DayKeys(av, day, window);
    }
  }

  /** The body of the inner loop: save the window's next slot on the date, if absent. */
  method SaveWindowSlot(db: Store, ghost start: Tables, av: Availability, day: Date,
                        ghost window: seq<(Time, Time)>, ghost done: nat, slot: AppointmentSlot)
    requires db.Valid() && av.doctorId in db.doctors && done < |window|
    requires slot == AppointmentSlot(av.doctorId, day, window[done].0, window[done].1, Available)
    requires SlotKeys(db.slots) == SlotKeys(start.slots) + DayKeys(av, day, window[..done])
    requires OnlyAddsSlots(start, db.Snapshot(), av.doctorId)
    requires DayKeys(av, day, window) <= SlotKeys(start.slots) ==> db.nextId == start.nextId
    modifies db
    ensures db.Valid() && av.doctorId in db.doctors
    ensures SlotKeys(db.slots) == SlotKeys(start.slots) + DayKeys(av, day, window[..done + 1])
    ensures OnlyAddsSlots(start, db.Snapshot(), av.doctorId)
    ensures DayKeys(av, day, window) <= SlotKeys(start.slots) ==> db.nextId == start.nextId
  {
    ghost var before := db.Snapshot();
    SaveSlotIfAbsent(db, slot);
    OnlyAddsSlotsTransitive(start, before, db.Snapshot(), av.doctorId);
    DayStep(start, before, db.Snapshot(), av, day, window, done, slot);
  }

  /** The inner loop of generateTimeSlots on one date: walk the window in thirty-minute steps
      while the step ends inside the window. */
  method GenerateDaySlots(db: Store, av: Availability, day: Date)
    requires db.Valid() && av.doctorId in db.doctors
    modifies db
    ensures db.Valid()
    ensures SlotKeys(db.slots) == SlotKeys(old(db.slots)) + DayKeys(av, day, DaySlots(av.startTime, av.endTime))
    ensures OnlyAddsSlots(old(db.Snapshot()), db.Snapshot(), av.doctorId)
    ensures DayKeys(av, day, DaySlots(av.startTime, av.endTime)) <= SlotKeys(old(db.slots)) ==>
      db.Snapshot() == old(db.Snapshot())
  {
    var window := DaySlots(av.startTime, av.endTime);
    var cur: Time := av.startTime;
    ghost var done := 0;
    while cur < av.endTime
      invariant 0 <= done <= |window| && window[done..] == DaySlots(cur, av.endTime)
      invariant db.Valid() && av.doctorId in db.doctors
      invariant SlotKeys(db.slots) == SlotKeys(old(db.slots)) + DayKeys(av, day, window[..done])
      invariant OnlyAddsSlots(old(db.Snapshot()), db.Snapshot(), av.doctorId)
      invariant DayKeys(av, day, window) <= SlotKeys(old(db.slots)) ==> db.nextId == old(db.nextId)
      decreases av.endTime - cur
    {
      var slotEnd := cur + SlotMinutes;
      if slotEnd > av.endTime {
        break;
      }
      WindowStep(window, done, cur, av.endTime);
      SaveWindowSlot(db, old(db.Snapshot()), av, day, window, done, AppointmentSlot(av.doctorId, day, cur, slotEnd, Available));
      cur := slotEnd;
      done := done + 1;
    }
    assert window[..done] == window;
    if DayKeys(av, day, window) <= SlotKeys(old(db.slots)) {
      NoFreshIdNoChange(old(db.Snapshot()), db.Snapshot(), av.doctorId);
    }
  }

  /** The slots of one matching date of the horizon are among the generated ones. */
  lemma DayKeysGenerated(av: Availability, today: Date, endDate: Date, day: Date)
    requires today <= day <= endDate && Weekday(day) == av.dayOfWeek
    ensures DayKeys(av, day, DaySlots(av.startTime, av.endTime)) <= GeneratedKeys(av, today, endDate)
  {
  }

  /** generateTimeSlots: for each date from today through the end of the horizon whose weekday
      is the window's, generate that date's slots. */
  method GenerateTimeSlots(db: Store, av: Availability, today: Date, endDate: Date)
    requires db.Valid() && av.doctorId in db.doctors
    modifies db
    ensures db.Valid()
    ensures SlotKeys(db.slots) == SlotKeys(old(db.slots)) + GeneratedKeys(av, today, endDate)
    ensures OnlyAddsSlots(old(db.Snapshot()), db.Snapshot(), av.doctorId)
    ensures GeneratedKeys(av, today, endDate) <= SlotKeys(old(db.slots)) ==> db.Snapshot() == old(db.Snapshot())
  {
    var day := today;
    while day <= endDate
      invariant db.Valid() && av.doctorId in db.doctors
      invariant today <= day && (day == today || day <= endDate + 1)
      invariant SlotKeys(db.slots) == SlotKeys(old(db.slots)) + KeysBetween(av, today, day)
      invariant OnlyAddsSlots(old(db.Snapshot()), db.Snapshot(), av.doctorId)
      invariant GeneratedKeys(av, today, endDate) <= SlotKeys(old(db.slots)) ==> db.Snapshot() == old(db.Snapshot())
      decreases endDate + 1 - day
    {
      KeysBetweenStep(av, today, day);
      if Weekday(day) == av.dayOfWeek {
        DayKeysGenerated(av, today, endDate, day);
        GenerateDaySlots(db, av, day);
      }
      day := day + 1;
    }
  }

  // Saving availability windows

  /** One entry of the request's availability list. */
  datatype AvailabilityRequest = AvailabilityRequest(dayOfWeek: DayOfWeek, startTime: Time, endTime: Time)

  /** The body of a create or update request; an absent specialty, availability list or status
      is None. */
  datatype DoctorRequest = DoctorRequest(
    firstName: string,
    lastName: string,
    specialtyId: Option<Id>,
    availabilities: Option<seq<AvailabilityRequest>>,
    employmentStatus: Option<EmploymentStatus>)

  function AvailabilityFor(doctorId: Id, w: AvailabilityRequest): Availability
  {
    Availability(doctorId, w.dayOfWeek, w.startTime, w.endTime)
  }

  /** The availability rows a list of windows asks for. */
  function WindowRows(doctorId: Id, ws: seq<AvailabilityRequest>): set<Availability>
  {
    set w | w in ws :: AvailabilityFor(doctorId, w)
  }

  /** The keys of the slots a list of windows yields over the horizon. */
  function WindowKeys(doctorId: Id, ws: seq<AvailabilityRequest>, today: Date, endDate: Date): set<SlotKey>
  {
    if ws == [] then {}
    else
      WindowKeys(doctorId, ws[..|ws| - 1], today, endDate)
        + GeneratedKeys(AvailabilityFor(doctorId, ws[|ws| - 1]), today, endDate)
  }

  /** A key comes from a list of windows exactly when it comes from one of them. */
  lemma {:induction false} WindowKeysShape(doctorId: Id, ws: seq<AvailabilityRequest>, today: Date, endDate: Date, k: SlotKey)
    ensures k in WindowKeys(doctorId, ws, today, endDate) <==>
      exists i :: 0 <= i < |ws| && k in GeneratedKeys(AvailabilityFor(doctorId, ws[i]), today, endDate)
    decreases |ws|
  {
    if ws != [] {
      var init := ws[..|ws| - 1];
      WindowKeysShape(doctorId, init, today, endDate, k);
      if k in WindowKeys(doctorId, init, today, endDate) {
        var i :| 0 <= i < |init| && k in GeneratedKeys(AvailabilityFor(doctorId, init[i]), today, endDate);
        assert ws[i] == init[i];
      }
      if exists i :: 0 <= i < |ws| && k in GeneratedKeys(AvailabilityFor(doctorId, ws[i]), today, endDate) {
        var i :| 0 <= i < |ws| && k in GeneratedKeys(AvailabilityFor(doctorId, ws[i]), today, endDate);
        if i < |init| {
          assert init[i] == ws[i];
        }
      }
    }
  }

  /** A row of `after` is one `before` lacks. */
  function NewRows(before: map<Id, Availability>, after: map<Id, Availability>): set<Availability>
  {
    set id | id in after && id !in before :: after[id]
  }

  /** Every row of `before` is in `after`, unchanged. */
  predicate KeepsRows<T(==)>(before: map<Id, T>, after: map<Id, T>)
  {
    forall id :: id in before ==> id in after && after[id] == before[id]
  }

  /** What saving windows may do to the tables: keep every other table and every existing row,
      and add availability rows and AVAILABLE slots of the given doctor under fresh ids. */
  predicate OnlyAddsSchedule(before: Tables, after: Tables, doctorId: Id)
  {
    && after == before.(availabilities := after.availabilities, slots := after.slots, nextId := after.nextId)
    && before.nextId <= after.nextId
    && KeepsRows(before.availabilities, after.availabilities)
    && KeepsRows(before.slots, after.slots)
    && (forall id :: id in after.availabilities && id !in before.availabilities ==>
          before.nextId <= id && after.availabilities[id].doctorId == doctorId)
    && (forall id :: id in after.slots && id !in before.slots ==>
          before.nextId <= id && after.slots[id].status == Available && after.slots[id].doctorId == doctorId)
  }

  /** Saving the windows `ws` for a doctor: the tables only gain that doctor's schedule, the new
      availability rows are those the windows ask for, and the slot keys gained are the windows' keys. */
  predicate ScheduleAdded(before: Tables, after: Tables, doctorId: Id, ws: seq<AvailabilityRequest>, today: Date, endDate: Date)
  {
    && OnlyAddsSchedule(before, after, doctorId)
    && NewRows(before.availabilities, after.availabilities) == WindowRows(doctorId, ws)
    && SlotKeys(after.slots) == SlotKeys(before.slots) + WindowKeys(doctorId, ws, today, endDate)
  }

  lemma OnlyAddsScheduleTransitive(a: Tables, b: Tables, c: Tables, doctorId: Id)
    requires OnlyAddsSchedule(a, b, doctorId) && OnlyAddsSchedule(b, c, doctorId)
    ensures OnlyAddsSchedule(a, c, doctorId)
  {
  }

  lemma NewRowsInsert(a: map<Id, Availability>, m: map<Id, Availability>, n: Id, x: Availability)
    requires KeepsRows(a, m) && n !in m
    ensures NewRows(a, m[n := x]) == NewRows(a, m) + {x}
  {
    assert n !in a;
    assert x == m[n := x][n];
  }

  lemma SlotsOnlyAddSchedule(a: Tables, b: Tables, doctorId: Id)
    requires OnlyAddsSlots(a, b, doctorId)
    ensures OnlyAddsSchedule(a, b, doctorId) && b.availabilities == a.availabilities
  {
  }

  /** Saving one availability row and its slots extends the account of the windows saved so far. */
  lemma AddWindowStep(start: Tables, t0: Tables, t2: Tables, doctorId: Id, ws: seq<AvailabilityRequest>, i: nat,
                      today: Date, endDate: Date)
    requires i < |ws| && IdsBelow(t0.availabilities, t0.nextId)
    requires ScheduleAdded(start, t0, doctorId, ws[..i], today, endDate)
    requires var t1 := t0.(availabilities := t0.availabilities[t0.nextId := AvailabilityFor(doctorId, ws[i])], nextId := t0.nextId + 1);
      && OnlyAddsSlots(t1, t2, doctorId)
      && SlotKeys(t2.slots) == SlotKeys(t1.slots) + GeneratedKeys(AvailabilityFor(doctorId, ws[i]), today, endDate)
    ensures ScheduleAdded(start, t2, doctorId, ws[..i + 1], today, endDate)
  {
    var av := AvailabilityFor(doctorId, ws[i]);
    var t1 := t0.(availabilities := t0.availabilities[t0.nextId := av], nextId := t0.nextId + 1);
    assert OnlyAddsSchedule(t0, t1, doctorId);
    SlotsOnlyAddSchedule(t1, t2, doctorId);
    OnlyAddsScheduleTransitive(t0, t1, t2, doctorId);
    OnlyAddsScheduleTransitive(start, t0, t2, doctorId);
    NewRowsInsert(start.availabilities, t0.availabilities, t0.nextId, av);
    assert ws[..i + 1][..i] == ws[..i];
    assert WindowRows(doctorId, ws[..i + 1]) == WindowRows(doctorId, ws[..i]) + {av} by {
      assert ws[..i + 1] == ws[..i] + [ws[i]];
    }
  }

  /** The body of the forEach over the request's windows: save the availability row, then
      generate its slots. */
  method AddWindow(db: Store, ghost start: Tables, doctorId: Id, ws: seq<AvailabilityRequest>, i: nat,
                   today: Date, endDate: Date)
    requires db.Valid() && doctorId in db.doctors && i < |ws|
    requires ScheduleAdded(start, db.Snapshot(), doctorId, ws[..i], today, endDate)
    modifies db
    ensures db.Valid() && doctorId in db.doctors
    ensures ScheduleAdded(start, db.Snapshot(), doctorId, ws[..i + 1], today, endDate)
  {
    ghost var t0 := db.Snapshot();
    var av := AvailabilityFor(doctorId, ws[i]);
    AddAvailabilityKeepsWellformed(db.Snapshot(), av);
    db.availabilities := db.availabilities[db.nextId := av];
    db.nextId := db.nextId + 1;
    GenerateTimeSlots(db, av, today, endDate);
    AddWindowStep(start, t0, db.Snapshot(), doctorId, ws, i, today, endDate);
  }

  /** Save every window of the list, in order. */
  method AddWindows(db: Store, doctorId: Id, ws: seq<AvailabilityRequest>, today: Date, endDate: Date)
    requires db.Valid() && doctorId in db.doctors
    modifies db
    ensures db.Valid() && doctorId in db.doctors
    ensures ScheduleAdded(old(db.Snapshot()), db.Snapshot(), doctorId, ws, today, endDate)
  {
    var i := 0;
    assert ws[..0] == [];
    while i < |ws|
      invariant 0 <= i <= |ws|
      invariant db.Valid() && doctorId in db.doctors
      invariant ScheduleAdded(old(db.Snapshot()), db.Snapshot(), doctorId, ws[..i], today, endDate)
    {
      AddWindow(db, old(db.Snapshot()), doctorId, ws, i, today, endDate);
      i := i + 1;
    }
    assert ws[..i] == ws;
  }

  // Schedules

  /** The availability rows of one doctor (findByDoctor_DoctorId). */
  function ScheduleOf(availabilities: map<Id, Availability>, doctorId: Id): set<Availability>
  {
    set id | id in availabilities && availabilities[id].doctorId == doctorId :: availabilities[id]
  }

  /** deleteByDoctor_DoctorId: the rows of every other doctor. */
  function OtherSchedules(availabilities: map<Id, Availability>, doctorId: Id): (r: map<Id, Availability>)
    ensures KeepsRows(r, availabilities)
    ensures forall id :: id in availabilities && availabilities[id].doctorId != doctorId ==> id in r
    ensures forall id :: id in r ==> r[id].doctorId != doctorId
    ensures ScheduleOf(r, doctorId) == {}
    ensures forall d :: d != doctorId ==> ScheduleOf(r, d) == ScheduleOf(availabilities, d)
  {
    map id | id in availabilities && availabilities[id].doctorId != doctorId :: availabilities[id]
  }

  /** A doctor with no schedule who is given the windows `ws` has exactly the rows they ask
      for, and every other doctor's schedule is as it was. */
  lemma ScheduleBecomesRequested(before: Tables, after: Tables, doctorId: Id, ws: seq<AvailabilityRequest>,
                                 today: Date, endDate: Date)
    requires ScheduleOf(before.availabilities, doctorId) == {}
    requires ScheduleAdded(before, after, doctorId, ws, today, endDate)
    ensures ScheduleOf(after.availabilities, doctorId) == WindowRows(doctorId, ws)
    ensures forall d :: d != doctorId ==> ScheduleOf(after.availabilities, d) == ScheduleOf(before.availabilities, d)
  {
    var b, a := before.availabilities, after.availabilities;
    forall id | id in b ensures b[id] in ScheduleOf(b, b[id].doctorId) {
    }
    forall x | x in ScheduleOf(a, doctorId) ensures x in NewRows(b, a) {
      var id :| id in a && a[id].doctorId == doctorId && a[id] == x;
    }
    forall x | x in NewRows(b, a) ensures x in ScheduleOf(a, doctorId) {
      var id :| id in a && id !in b && a[id] == x;
    }
    forall d | d != doctorId ensures ScheduleOf(a, d) == ScheduleOf(b, d) {
      forall x | x in ScheduleOf(a, d) ensures x in ScheduleOf(b, d) {
        var id :| id in a && a[id].doctorId == d && a[id] == x;
      }
      forall x | x in ScheduleOf(b, d) ensures x in ScheduleOf(a, d) {
        var id :| id in b && b[id].doctorId == d && b[id] == x;
        assert a[id] == x;
      }
    }
  }

  // Creating, updating and deactivating doctors

  /** The windows of a request; an absent list saves none. */
  function RequestedWindows(req: DoctorRequest): seq<AvailabilityRequest>
  {
    if req.availabilities.Some? then req.availabilities.value else []
  }

  /** The doctor row createDoctor saves: the status defaults to ACTIVE. */
  function NewDoctor(req: DoctorRequest): (d: Doctor)
    requires req.specialtyId.Some?
    ensures d.employmentStatus == if req.employmentStatus.Some? then req.employmentStatus.value else Active
  {
    Doctor(req.firstName, req.lastName, req.specialtyId.value,
           if req.employmentStatus.Some? then req.employmentStatus.value else Active)
  }

  /** The doctor row updateDoctor saves: the names always come from the request; the status and
      the specialty keep their old values when the request leaves them out. */
  function EditedDoctor(d: Doctor, req: DoctorRequest): (e: Doctor)
    ensures e.firstName == req.firstName && e.lastName == req.lastName
    ensures req.employmentStatus.Some? ==> e.employmentStatus == req.employmentStatus.value
    ensures req.employmentStatus.None? ==> e.employmentStatus == d.employmentStatus
    ensures req.specialtyId.Some? ==> e.specialtyId == req.specialtyId.value
    ensures req.specialtyId.None? ==> e.specialtyId == d.specialtyId
  {
    Doctor(req.firstName, req.lastName,
           if req.specialtyId.Some? then req.specialtyId.value else d.specialtyId,
           if req.employmentStatus.Some? then req.employmentStatus.value else d.employmentStatus)
  }

  /** createDoctor: the specialty must exist; the doctor is saved under the next id, then every
      window of the request is saved with its slots. */
  method CreateDoctor(db: Store, req: DoctorRequest, today: Date, endDate: Date) returns (r: Result<Id>)
    requires db.Valid() && req.specialtyId.Some?
    modifies db
    ensures db.Valid()
    ensures req.specialtyId.value !in old(db.specialties) ==>
      r == Failure(NotFound) && db.Snapshot() == old(db.Snapshot())
    ensures req.specialtyId.value in old(db.specialties) ==>
      && r == Success(old(db.nextId))
      && ScheduleAdded(old(db.Snapshot()).(doctors := old(db.doctors)[old(db.nextId) := NewDoctor(req)], nextId := old(db.nextId) + 1),
                       db.Snapshot(), old(db.nextId), RequestedWindows(req), today, endDate)
  {
    if req.specialtyId.value !in db.specialties {
      return Failure(NotFound);
    }
    var id := db.nextId;
    AddDoctorKeepsWellformed(db.Snapshot(), NewDoctor(req));
    db.doctors := db.doctors[id := NewDoctor(req)];
    db.nextId := db.nextId + 1;
    AddWindows(db, id, RequestedWindows(req), today, endDate);
    r := Success(id);
  }

  /** The tables once updateDoctor has edited the row and, when the request carries a list,
      dropped the doctor's old windows; the new windows are then added to these. */
  function EditedTables(t: Tables, doctorId: Id, req: DoctorRequest): Tables
    requires doctorId in t.doctors
  {
    var edited := t.(doctors := t.doctors[doctorId := EditedDoctor(t.doctors[doctorId], req)]);
    if req.availabilities.Some? then edited.(availabilities := OtherSchedules(t.availabilities, doctorId)) else edited
  }

  /** updateDoctor: the doctor and a requested specialty must exist; the row is edited and, when
      the request carries a list, the doctor's windows are replaced by the list's, whose slots are
      generated. Slots already generated stay. */
  method UpdateDoctor(db: Store, doctorId: Id, req: DoctorRequest, today: Date, endDate: Date) returns (r: Result<Id>)
    requires db.Valid()
    modifies db
    ensures db.Valid()
    ensures doctorId !in old(db.doctors) || (req.specialtyId.Some? && req.specialtyId.value !in old(db.specialties)) ==>
      r == Failure(NotFound) && db.Snapshot() == old(db.Snapshot())
    ensures doctorId in old(db.doctors) && (req.specialtyId.Some? ==> req.specialtyId.value in old(db.specialties)) ==>
      && r == Success(doctorId)
      && ScheduleAdded(EditedTables(old(db.Snapshot()), doctorId, req), db.Snapshot(), doctorId, RequestedWindows(req), today, endDate)
  {
    if doctorId !in db.doctors {
      return Failure(NotFound);
    }
    if req.specialtyId.Some? && req.specialtyId.value !in db.specialties {
      return Failure(NotFound);
    }
    var edited := EditedDoctor(db.doctors[doctorId], req);
    ReplaceDoctorKeepsWellformed(db.Snapshot(), doctorId, edited);
    db.doctors := db.doctors[doctorId := edited];
    if req.availabilities.Some? {
      DropAvailabilitiesKeepsWellformed(db.Snapshot(), OtherSchedules(db.availabilities, doctorId));
      db.availabilities := OtherSchedules(db.availabilities, doctorId);
      AddWindows(db, doctorId, req.availabilities.value, today, endDate);
    } else {
      assert WindowKeys(doctorId, [], today, endDate) == {};
    }
    r := Success(doctorId);
  }

  /** A created doctor's schedule is exactly the request's windows, and no other doctor's
      schedule changes. */
  lemma CreatedDoctorSchedule(t: Tables, after: Tables, req: DoctorRequest, today: Date, endDate: Date)
    requires Wellformed(t) && req.specialtyId.Some?
    requires ScheduleAdded(t.(doctors := t.doctors[t.nextId := NewDoctor(req)], nextId := t.nextId + 1),
                           after, t.nextId, RequestedWindows(req), today, endDate)
    ensures after.doctors == t.doctors[t.nextId := NewDoctor(req)]
    ensures ScheduleOf(after.availabilities, t.nextId) == WindowRows(t.nextId, RequestedWindows(req))
    ensures forall d :: d != t.nextId ==> ScheduleOf(after.availabilities, d) == ScheduleOf(t.availabilities, d)
  {
    var before := t.(doctors := t.doctors[t.nextId := NewDoctor(req)], nextId := t.nextId + 1);
    forall id | id in t.availabilities ensures t.availabilities[id].doctorId != t.nextId {
      assert t.availabilities[id].doctorId in t.doctors;
    }
    assert ScheduleOf(before.availabilities, t.nextId) == {};
    ScheduleBecomesRequested(before, after, t.nextId, RequestedWindows(req), today, endDate);
  }

  /** An update carrying a list replaces the doctor's schedule by the list's windows, leaves every
      other doctor's schedule alone and keeps every slot generated before. */
  lemma UpdatedDoctorSchedule(t: Tables, after: Tables, doctorId: Id, req: DoctorRequest, today: Date, endDate: Date)
    requires doctorId in t.doctors && req.availabilities.Some?
    requires ScheduleAdded(EditedTables(t, doctorId, req), after, doctorId, RequestedWindows(req), today, endDate)
    ensures after.doctors == t.doctors[doctorId := EditedDoctor(t.doctors[doctorId], req)]
    ensures ScheduleOf(after.availabilities, doctorId) == WindowRows(doctorId, req.availabilities.value)
    ensures forall d :: d != doctorId ==> ScheduleOf(after.availabilities, d) == ScheduleOf(t.availabilities, d)
    ensures KeepsRows(t.slots, after.slots)
  {
    ScheduleBecomesRequested(EditedTables(t, doctorId, req), after, doctorId, RequestedWindows(req), today, endDate);
  }

  /** Every slot saved for a list of windows is thirty minutes long, inside one of the windows, on
      a date of the horizon that falls on that window's weekday. */
  lemma WindowSlotsFit(doctorId: Id, ws: seq<AvailabilityRequest>, today: Date, endDate: Date, k: SlotKey)
    requires k in WindowKeys(doctorId, ws, today, endDate)
    ensures k.doctorId == doctorId && today <= k.date <= endDate && k.endTime == k.startTime + SlotMinutes
    ensures exists i :: (0 <= i < |ws| &&
      Weekday(k.date) == ws[i].dayOfWeek && ws[i].startTime <= k.startTime && k.endTime <= ws[i].endTime)
  {
    WindowKeysShape(doctorId, ws, today, endDate, k);
    var i :| 0 <= i < |ws| && k in GeneratedKeys(AvailabilityFor(doctorId, ws[i]), today, endDate);
    GeneratedKeysShape(AvailabilityFor(doctorId, ws[i]), today, endDate, k);
  }

  /** deleteDoctor is a soft delete: the doctor's status becomes INACTIVE and nothing else changes. */
  function Deactivate(t: Tables, doctorId: Id): (r: Step<()>)
    ensures r.result.Failure? <==> doctorId !in t.doctors
    ensures r.result.Failure? ==> r.result.error == NotFound && r.after == t
    ensures r.result.Success? ==>
      && r.after.doctors.Keys == t.doctors.Keys
      && r.after.doctors[doctorId].employmentStatus == Inactive
      && r.after == t.(doctors := r.after.doctors)
      && (forall d :: d in t.doctors && d != doctorId ==> r.after.doctors[d] == t.doctors[d])
  {
    if doctorId !in t.doctors then Step(t, Failure(NotFound))
    else Step(t.(doctors := t.doctors[doctorId := t.doctors[doctorId].(employmentStatus := Inactive)]), Success(()))
  }

  lemma DeactivateKeepsWellformed(t: Tables, doctorId: Id)
    requires Wellformed(t)
    ensures Wellformed(Deactivate(t, doctorId).after)
  {
    if doctorId in t.doctors {
      ReplaceDoctorKeepsWellformed(t, doctorId, t.doctors[doctorId].(employmentStatus := Inactive));
    }
  }

  /** Deactivating twice is deactivating once. */
  lemma DeactivateIdempotent(t: Tables, doctorId: Id)
    ensures Deactivate(Deactivate(t, doctorId).after, doctorId) == Deactivate(t, doctorId)
  {
    if doctorId in t.doctors {
      var once := Deactivate(t, doctorId).after;
      assert once.doctors[doctorId := once.doctors[doctorId].(employmentStatus := Inactive)] == once.doctors;
    }
  }

  // Queries

  /** getDoctorsBySpecialtyId: the ACTIVE doctors of the specialty. */
  function DoctorsBySpecialty(t: Tables, specialtyId: Id): (r: set<Id>)
    ensures r <= ActiveDoctors(t.doctors)
    ensures forall d :: d in ActiveDoctors(t.doctors) ==> (d in r <==> t.doctors[d].specialtyId == specialtyId)
  {
    set d | d in t.doctors && t.doctors[d].specialtyId == specialtyId && t.doctors[d].employmentStatus == Active
  }

  /** getDoctorsCount: the number of ACTIVE doctors. */
  function DoctorsCount(t: Tables): (r: nat)
    ensures r <= |t.doctors|
    ensures r == 0 <==> forall d :: d in t.doctors ==> t.doctors[d].employmentStatus != Active
  {
    CountBounded(t.doctors);
    var active := ActiveDoctors(t.doctors);
    if exists d :: d in t.doctors && t.doctors[d].employmentStatus == Active then
      var d :| d in t.doctors && t.doctors[d].employmentStatus == Active;
      assert d in active;
      |active|
    else
      assert active == {};
      |active|
  }

  lemma CountBounded(doctors: map<Id, Doctor>)
    ensures |ActiveDoctors(doctors)| <= |doctors|
  {
    assert ActiveDoctors(doctors) <= doctors.Keys;
    SubsetCard(ActiveDoctors(doctors), doctors.Keys);
  }

  lemma {:induction false} SubsetCard(a: set<Id>, b: set<Id>)
    requires a <= b
    ensures |a| <= |b|
    decreases |b|
  {
    if a != {} {
      var x :| x in a;
      SubsetCard(a - {x}, b - {x});
    }
  }

  /** Deactivating a doctor takes them off every specialty's list and lowers the count by one
      exactly when they were ACTIVE. */
  lemma DeactivateLeavesLists(t: Tables, doctorId: Id, specialtyId: Id)
    requires doctorId in t.doctors
    ensures doctorId !in DoctorsBySpecialty(Deactivate(t, doctorId).after, specialtyId)
    ensures ActiveDoctors(Deactivate(t, doctorId).after.doctors) == ActiveDoctors(t.doctors) - {doctorId}
    ensures DoctorsCount(Deactivate(t, doctorId).after) ==
      if t.doctors[doctorId].employmentStatus == Active then DoctorsCount(t) - 1 else DoctorsCount(t)
  {
    var after := Deactivate(t, doctorId).after;
    assert ActiveDoctors(after.doctors) == ActiveDoctors(t.doctors) - {doctorId};
  }

  /** A doctor created ACTIVE is listed under their specialty and counted. */
  lemma CreatedDoctorListed(t: Tables, req: DoctorRequest)
    requires req.specialtyId.Some? && req.employmentStatus != Some(Inactive)
    requires t.nextId !in t.doctors
    ensures var after := t.(doctors := t.doctors[t.nextId := NewDoctor(req)], nextId := t.nextId + 1);
      && t.nextId in DoctorsBySpecialty(after, req.specialtyId.value)
      && DoctorsCount(after) == DoctorsCount(t) + 1
  {
    AddActiveDoctor(t.doctors, t.nextId, NewDoctor(req));
  }

  lemma AddActiveDoctor(doctors: map<Id, Doctor>, n: Id, d: Doctor)
    requires n !in doctors && d.employmentStatus == Active
    ensures ActiveDoctors(doctors[n := d]) == ActiveDoctors(doctors) + {n}
  {
  }

  /** deleteDoctor. */
  method DeleteDoctor(db: Store, doctorId: Id) returns (r: Result<()>)
    requires db.Valid()
    modifies db
    ensures db.Valid()
    ensures Step(db.Snapshot(), r) == Deactivate(old(db.Snapshot()), doctorId)
  {
    if doctorId !in db.doctors {
      return Failure(NotFound);
    }
    DeactivateKeepsWellformed(db.Snapshot(), doctorId);
    db.doctors := db.doctors[doctorId := db.doctors[doctorId].(employmentStatus := Inactive)];
    r := Success(());
  }
}
