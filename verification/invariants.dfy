/** The store invariant ties the handlers' writes together: every handler
    keeps it, so from a valid store any sequence of requests keeps each
    day's free slots plus its reservations equal to its capacity. */
module Invariants {
  import opened Common
  import opened Store
  import opened Interviews
  import Ticket

  // ---------------------------------------------------------------------
  // Reserve
  // ---------------------------------------------------------------------

  /** A booking adds its row to its day's reservations and to no other day's. */
  lemma ReservationsOnAfterBooking(s: State, s': State, p: Id, d: Id, t: string, now: string, rid: Id, e: Id)
    requires d in s.days && p in s.applicants
    requires Booked(s, s', p, d, t, now, rid)
    ensures e == d ==> ReservationsOn(s', e) == ReservationsOn(s, e) + {rid}
    ensures e != d ==> ReservationsOn(s', e) == ReservationsOn(s, e)
    ensures e == d ==> CountOn(s', e) == CountOn(s, e) + 1
    ensures e != d ==> CountOn(s', e) == CountOn(s, e)
  {
    var booking := Reservation(p, d, TimeWindow, t, now, None);
    assert s'.reservations == s.reservations[rid := booking];
    if e == d {
      forall k
        ensures k in ReservationsOn(s', e) <==> k in ReservationsOn(s, e) + {rid}
      {
        if k != rid {
          assert k in s'.reservations <==> k in s.reservations;
        }
      }
      assert ReservationsOn(s', e) == ReservationsOn(s, e) + {rid};
      assert rid !in ReservationsOn(s, e);
    } else {
      forall k
        ensures k in ReservationsOn(s', e) <==> k in ReservationsOn(s, e)
      {
        if k != rid {
          assert k in s'.reservations <==> k in s.reservations;
        }
      }
      assert ReservationsOn(s', e) == ReservationsOn(s, e);
    }
  }

  /** A successful booking keeps the store valid and takes exactly one slot:
      the day gains one reservation and loses one free slot. */
  lemma ReserveKeepsValid(s: State, p: Option<int>, d: Option<int>, bytes: seq<Ticket.Byte>, now: string)
    requires Valid(s) && |bytes| == 4
    ensures var r := Reserve(s, p, d, bytes, now);
            r.Ok? ==> && Valid(r.value.0)
                      && CountOn(r.value.0, d.value) == CountOn(s, d.value) + 1
                      && r.value.0.days[d.value].available == s.days[d.value].available - 1
                      && 0 <= r.value.0.days[d.value].available
  {
    var r := Reserve(s, p, d, bytes, now);
    if r.Ok? {
      var s' := r.value.0;
      var rid := s.nextReservation;
      var t := Ticket.Code(bytes);
      forall e | e in s'.days
        ensures s'.days[e].available + CountOn(s', e) == s'.days[e].total
        ensures CountOn(s', e) == 0 || 0 <= s'.days[e].available
      {
        ReservationsOnAfterBooking(s, s', p.value, d.value, t, now, rid, e);
      }
      ReservationsOnAfterBooking(s, s', p.value, d.value, t, now, rid, d.value);
      forall r1, r2 | r1 in s'.reservations && r2 in s'.reservations && r1 != r2
        ensures s'.reservations[r1].ticket != s'.reservations[r2].ticket
      {
        if r1 == rid {
          assert r2 in s.reservations;
        } else if r2 == rid {
          assert r1 in s.reservations;
        }
      }
    }
  }

  /** When a day's last free slot is taken, any further booking of that day
      is refused as unavailable, whoever asks and whatever the ticket. */
  lemma LastSlotTakenOnce(s: State, p: Option<int>, d: Option<int>, bytes: seq<Ticket.Byte>, now: string,
                          p2: Option<int>, bytes2: seq<Ticket.Byte>, now2: string)
    requires Valid(s) && |bytes| == 4 && |bytes2| == 4
    requires GivenInt(p2)
    requires Reserve(s, p, d, bytes, now).Ok? && s.days[d.value].available == 1
    ensures Reserve(s, p, d, bytes, now).value.0.days[d.value].available == 0
    ensures Reserve(Reserve(s, p, d, bytes, now).value.0, p2, d, bytes2, now2) == Err(SlotUnavailable)
  {
    ReserveKeepsValid(s, p, d, bytes, now);
  }

  // ---------------------------------------------------------------------
  // Cancel
  // ---------------------------------------------------------------------

  lemma ReservationsOnAfterRelease(s: State, s': State, rid: Id, e: Id)
    requires rid in s.reservations
    requires Released(s, s', rid)
    ensures e == s.reservations[rid].day ==> ReservationsOn(s', e) == ReservationsOn(s, e) - {rid}
    ensures e == s.reservations[rid].day ==> CountOn(s', e) + 1 == CountOn(s, e)
    ensures e != s.reservations[rid].day ==> CountOn(s', e) == CountOn(s, e)
  {
    if e == s.reservations[rid].day {
      assert ReservationsOn(s', e) == ReservationsOn(s, e) - {rid};
      assert rid in ReservationsOn(s, e);
    } else {
      assert ReservationsOn(s', e) == ReservationsOn(s, e);
    }
  }

  /** A successful cancellation keeps the store valid and gives exactly one
      slot back to the reservation's day, never beyond its capacity. */
  lemma CancelKeepsValid(s: State, id: Option<int>, p: Option<int>)
    requires Valid(s)
    ensures var r := Cancel(s, id, p);
            r.Ok? ==> && Valid(r.value.0)
                      && var d := s.reservations[id.value].day;
                      && CountOn(r.value.0, d) + 1 == CountOn(s, d)
                      && r.value.0.days[d].available == s.days[d].available + 1
                      && r.value.0.days[d].available <= r.value.0.days[d].total
  {
    var r := Cancel(s, id, p);
    if r.Ok? {
      var s' := r.value.0;
      var rid := id.value;
      var d := s.reservations[rid].day;
      forall e | e in s'.days
        ensures s'.days[e].available + CountOn(s', e) == s'.days[e].total
        ensures CountOn(s', e) == 0 || 0 <= s'.days[e].available
      {
        ReservationsOnAfterRelease(s, s', rid, e);
      }
      ReservationsOnAfterRelease(s, s', rid, d);
      assert forall k :: k in s'.reservations ==> k in s.reservations;
    }
  }

  /** Cancelling a fresh booking gives the day back its slot and removes the
      row again; only the applicant's stage differs, now 'Postulado'. */
  lemma CancelUndoesReserve(s: State, p: Option<int>, d: Option<int>, bytes: seq<Ticket.Byte>, now: string)
    requires Valid(s) && |bytes| == 4
    requires Reserve(s, p, d, bytes, now).Ok?
    ensures var s1 := Reserve(s, p, d, bytes, now).value.0;
            var c := Cancel(s1, Some(s.nextReservation), p);
            && c.Ok?
            && c.value.0.days == s.days
            && c.value.0.reservations == s.reservations
            && c.value.0.applicants == s.applicants[p.value := s.applicants[p.value].(estado := Applied)]
  {
    var s1 := Reserve(s, p, d, bytes, now).value.0;
    var rid := s.nextReservation;
    var c := Cancel(s1, Some(rid), p);
    assert c.Ok?;
    var s2 := c.value.0;
    assert s2.reservations == s.reservations;
    assert s2.days == s.days;
    assert s2.applicants == s.applicants[p.value := s.applicants[p.value].(estado := Applied)];
  }

  // ---------------------------------------------------------------------
  // Day lifecycle and status updates
  // ---------------------------------------------------------------------

  /** In a valid store at most one day holds a given date. */
  lemma DaysOnAtMostOne(s: State, f: Date, d: Id)
    requires Valid(s) && d in DaysOn(s, f)
    ensures DaysOn(s, f) == {d}
  {
    forall x
      ensures x in DaysOn(s, f) <==> x in {d}
    {
    }
  }

  /** In a valid store, creating a day conflicts exactly when its date is
      already taken; a new day starts with all its slots free. */
  lemma CreateDayKeepsValid(s: State, fecha: Option<Date>, total: Option<int>)
    requires Valid(s)
    ensures fecha.Some? && GivenInt(total) ==>
              (CreateDay(s, fecha, total) == Err(Conflict) <==> DaysOn(s, fecha.value) != {})
    ensures var r := CreateDay(s, fecha, total);
            r.Ok? ==> && Valid(r.value.0)
                      && CountOn(r.value.0, s.nextDay) == 0
                      && r.value.0.days[s.nextDay].available == r.value.0.days[s.nextDay].total
  {
    if fecha.Some? && DaysOn(s, fecha.value) != {} {
      NonEmptyHasMember(DaysOn(s, fecha.value));
      var d :| d in DaysOn(s, fecha.value);
      DaysOnAtMostOne(s, fecha.value, d);
    }
    var r := CreateDay(s, fecha, total);
    if r.Ok? {
      var s' := r.value.0;
      var id := s.nextDay;
      assert DaysOn(s, fecha.value) == {};
      forall e | e in s.days
        ensures s.days[e].fecha != fecha.value
      {
        assert e !in DaysOn(s, fecha.value);
      }
      forall e | e in s'.days
        ensures ReservationsOn(s', e) == ReservationsOn(s, e)
      {
      }
      forall k | k in s.reservations
        ensures s.reservations[k].day != id
      {
      }
      assert forall k :: k !in ReservationsOn(s, id);
      assert ReservationsOn(s, id) == {};
      assert ReservationsOn(s', id) == {};
    }
  }

  /** Deleting a day keeps the store valid: its reservations go with it,
      every other day keeps its reservations and counters. */
  lemma DeleteDayKeepsValid(s: State, id: Option<int>)
    requires Valid(s)
    ensures var r := DeleteDay(s, id);
            r.Ok? ==> && Valid(r.value.0)
                      && ReservationsOn(r.value.0, id.value) == {}
                      && (forall e :: e in r.value.0.days ==> CountOn(r.value.0, e) == CountOn(s, e))
  {
    var r := DeleteDay(s, id);
    if r.Ok? {
      var s' := r.value.0;
      forall e | e in s'.days
        ensures CountOn(s', e) == CountOn(s, e)
      {
        assert ReservationsOn(s', e) == ReservationsOn(s, e);
      }
      assert ReservationsOn(s', id.value) == {};
    }
  }

  /** Creating a day and deleting it again leaves the store's tables as they
      were. */
  lemma DeleteDayUndoesCreateDay(s: State, fecha: Option<Date>, total: Option<int>)
    requires Valid(s)
    requires CreateDay(s, fecha, total).Ok?
    ensures var s1 := CreateDay(s, fecha, total).value.0;
            var r := DeleteDay(s1, Some(s.nextDay));
            && r.Ok?
            && r.value.0.days == s.days
            && r.value.0.reservations == s.reservations
            && r.value.0.applicants == s.applicants
  {
    var s1 := CreateDay(s, fecha, total).value.0;
    var d := s.nextDay;
    var s2 := DeleteDay(s1, Some(d)).value.0;
    forall k | k in s.reservations
      ensures s.reservations[k].day != d
    {
    }
    assert forall a :: a !in HoldersOn(s1, d);
    assert HoldersOn(s1, d) == {};
    assert s2.days == s.days;
    assert s2.reservations == s.reservations;
    assert s2.applicants == s.applicants;
  }

  /** Recording attendance keeps the store valid: it moves no reservation
      between days and touches no counter. */
  lemma AttendanceKeepsValid(s: State, id: Option<int>, estado: Option<string>)
    requires Valid(s)
    ensures var r := SetAttendance(s, id, estado);
            r.Ok? ==> Valid(r.value.0) && forall e :: CountOn(r.value.0, e) == CountOn(s, e)
  {
    var r := SetAttendance(s, id, estado);
    if r.Ok? {
      var s' := r.value.0;
      assert s'.reservations.Keys == s.reservations.Keys;
      assert forall k :: k in s.reservations ==>
               s'.reservations[k].day == s.reservations[k].day
               && s'.reservations[k].applicant == s.reservations[k].applicant
               && s'.reservations[k].ticket == s.reservations[k].ticket;
      forall e
        ensures CountOn(s', e) == CountOn(s, e)
      {
        assert ReservationsOn(s', e) == ReservationsOn(s, e);
      }
    }
  }

  /** Setting a day's status keeps the store valid: capacity, free slots and
      reservations stay as they were. */
  lemma DayStatusKeepsValid(s: State, id: Option<int>, estado: Option<string>)
    requires Valid(s)
    ensures var r := SetDayStatus(s, id, estado);
            r.Ok? ==> Valid(r.value.0)
  {
    var r := SetDayStatus(s, id, estado);
    if r.Ok? {
      var s' := r.value.0;
      assert s'.days.Keys == s.days.Keys;
      assert forall e :: e in s.days ==>
               s'.days[e].fecha == s.days[e].fecha
               && s'.days[e].total == s.days[e].total
               && s'.days[e].available == s.days[e].available;
      forall e | e in s'.days
        ensures CountOn(s', e) == CountOn(s, e)
      {
        assert ReservationsOn(s', e) == ReservationsOn(s, e);
      }
    }
  }

  // ---------------------------------------------------------------------
  // Any sequence of requests
  // ---------------------------------------------------------------------

  /** A state-changing request, with the fields each handler reads. */
  datatype Request =
    | ReserveReq(postulacionId: Option<int>, diaId: Option<int>, bytes: seq<Ticket.Byte>, now: string)
    | CancelReq(reservaId: Option<int>, owner: Option<int>)
    | CreateDayReq(fecha: Option<Date>, cuposTotales: Option<int>)
    | DeleteDayReq(diaId: Option<int>)
    | AttendanceReq(reservaId: Option<int>, estado: Option<string>)
    | DayStatusReq(diaId: Option<int>, estado: Option<string>)

  /** The random source yields four bytes for every ticket. */
  predicate WellFormed(req: Request) {
    req.ReserveReq? ==> |req.bytes| == 4
  }

  /** The store after one request: the handler's new store on success, the
      old one on failure. */
  function Step(s: State, req: Request): State
    requires Valid(s) && WellFormed(req)
  {
    var r := match req
      case ReserveReq(p, d, b, now) => Reserve(s, p, d, b, now)
      case CancelReq(id, p) => Cancel(s, id, p)
      case CreateDayReq(f, t) => CreateDay(s, f, t)
      case DeleteDayReq(id) => DeleteDay(s, id)
      case AttendanceReq(id, e) => SetAttendance(s, id, e)
      case DayStatusReq(id, e) => SetDayStatus(s, id, e);
    if r.Ok? then r.value.0 else s
  }

  lemma StepKeepsValid(s: State, req: Request)
    requires Valid(s) && WellFormed(req)
    ensures Valid(Step(s, req))
  {
    match req
    case ReserveReq(p, d, b, now) => ReserveKeepsValid(s, p, d, b, now);
    case CancelReq(id, p) => CancelKeepsValid(s, id, p);
    case CreateDayReq(f, t) => CreateDayKeepsValid(s, f, t);
    case DeleteDayReq(id) => DeleteDayKeepsValid(s, id);
    case AttendanceReq(id, e) => AttendanceKeepsValid(s, id, e);
    case DayStatusReq(id, e) => DayStatusKeepsValid(s, id, e);
  }

  /** The store after a sequence of requests handled one after another. From
      a valid store the result is valid: for every day, free slots plus
      reservations equal capacity, and a day with bookings never shows a
      negative count. */
  function Run(s: State, reqs: seq<Request>): (s': State)
    requires Valid(s)
    requires forall i :: 0 <= i < |reqs| ==> WellFormed(reqs[i])
    ensures Valid(s')
    ensures forall d :: d in s'.days ==> s'.days[d].available + CountOn(s', d) == s'.days[d].total
    ensures forall d :: d in s'.days && 0 <= s'.days[d].total ==> 0 <= s'.days[d].available <= s'.days[d].total
    decreases |reqs|
  {
    if |reqs| == 0 then s
    else
      StepKeepsValid(s, reqs[0]);
      Run(Step(s, reqs[0]), reqs[1..])
  }

  /** A store whose day and reservation tables are empty is valid, whatever
      applications it holds. */
  lemma EmptyIsValid(applicants: map<Id, Applicant>)
    ensures Valid(State(map[], map[], applicants, 1, 1))
  {
  }
}
