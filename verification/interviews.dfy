/** The interview-scheduling handlers as pure transitions over the store:
    each takes the store and the request fields and either fails (leaving
    the store as it was) or yields the new store and the reply. Every store
    write succeeds; e-mail notification is a no-op. */
module Interviews {
  import opened Common
  import opened Store
  import Ticket

  /** The successful replies of the handlers; `Reserved` and `DayCreated`
      are answered with 201, the others with 200. */
  datatype Reply =
    | HasReservation(applicant: Id, reservation: Id)   // status 'has_reservation'
    | CanSchedule(applicant: Id)                        // status 'can_schedule'
    | Reserved(reservation: Id, ticket: string)
    | Cancelled
    | DayCreated(day: Id)
    | DayDeleted
    | AttendanceUpdated(reservation: Id)
    | DayStatusUpdated(day: Id)

  // ---------------------------------------------------------------------
  // Eligibility check (GET check-postulante/:numeroDocumento)
  // ---------------------------------------------------------------------

  /** Looks the applicant up by document number, then their reservation,
      then their stage. Both lookups are single-row queries: several
      applicants with one document make the first fail with a store error,
      while for the reservation lookup zero rows and several rows produce
      the same error code, which the handler reads as "no reservation". */
  function CheckPostulante(s: State, documento: Option<string>): (r: Result<Reply>)
    ensures !GivenStr(documento) ==> r == Err(MissingInput)
    ensures GivenStr(documento) ==>
              (r == Err(NotFound) <==> ApplicantsWithDocument(s, documento.value) == {})
    ensures GivenStr(documento) ==>
              (r == Err(StoreError) <==> |ApplicantsWithDocument(s, documento.value)| >= 2)
    ensures r.Ok? ==> r.value.HasReservation? || r.value.CanSchedule?
  {
    if !GivenStr(documento) then Err(MissingInput)
    else
      var matches := ApplicantsWithDocument(s, documento.value);
      if matches == {} then Err(NotFound)
      else if |matches| >= 2 then Err(StoreError)
      else
        var a := Least(matches);
        var held := ReservationsOf(s, a);
        if |held| == 1 then Ok(HasReservation(a, Least(held)))
        else if s.applicants[a].estado in AllowedStages then Ok(CanSchedule(a))
        else Err(NotEligible(s.applicants[a].estado))
  }

  /** For the one applicant holding the document: exactly one reservation
      is reported before any stage test; otherwise the stage decides between
      `can_schedule` and a rejection naming the stage. */
  lemma CheckPostulanteOutcome(s: State, doc: string, a: Id)
    requires doc != "" && ApplicantsWithDocument(s, doc) == {a}
    ensures a in s.applicants
    ensures forall rid :: ReservationsOf(s, a) == {rid} ==>
              CheckPostulante(s, Some(doc)) == Ok(HasReservation(a, rid))
    ensures |ReservationsOf(s, a)| != 1 ==>
              (CheckPostulante(s, Some(doc)) == Ok(CanSchedule(a)) <==> s.applicants[a].estado in AllowedStages)
    ensures |ReservationsOf(s, a)| != 1 && s.applicants[a].estado !in AllowedStages ==>
              CheckPostulante(s, Some(doc)) == Err(NotEligible(s.applicants[a].estado))
  {
    assert a in ApplicantsWithDocument(s, doc);
    assert Least({a}) == a;
    forall rid | ReservationsOf(s, a) == {rid}
      ensures CheckPostulante(s, Some(doc)) == Ok(HasReservation(a, rid))
    {
      assert Least({rid}) == rid;
    }
  }

  // ---------------------------------------------------------------------
  // Reserve (POST reservar)
  // ---------------------------------------------------------------------

  /** A day accepts a booking: it is 'Activo' and has a free slot. */
  predicate Bookable(day: Day) {
    day.estado == Activo && day.available > 0
  }

  /** The writes of a successful booking of day `d` by applicant `p`: one new
      reservation row `rid` with the fixed window and no attendance yet, the
      day's free slots one lower, the applicant moved to 'Entrevista';
      nothing else changes. */
  predicate Booked(s: State, s': State, p: Id, d: Id, ticket: string, now: string, rid: Id)
    requires d in s.days && p in s.applicants
  {
    && rid !in s.reservations
    && s'.reservations == s.reservations[rid := Reservation(p, d, TimeWindow, ticket, now, None)]
    && s'.days.Keys == s.days.Keys
    && s'.days[d] == s.days[d].(available := s.days[d].available - 1)
    && (forall e :: e in s.days && e != d ==> s'.days[e] == s.days[e])
    && s'.applicants == s.applicants[p := s.applicants[p].(estado := Interviewing)]
    && s'.nextDay == s.nextDay
  }

  /** Books day `diaId` for application `postulacionId`. `bytes` are the four
      random bytes the ticket code is made from and `now` the creation
      timestamp. The insert fails on a ticket code already in use (409) and,
      afterwards, on an application the store does not hold (the foreign key
      check, 500). Row ids come from the store's serial counters, which are
      ahead of every id in use. The handler does not look for an earlier
      reservation of the same applicant. */
  function Reserve(s: State, postulacionId: Option<int>, diaId: Option<int>,
                   bytes: seq<Ticket.Byte>, now: string): (r: Result<(State, Reply)>)
    requires |bytes| == 4
    requires CountersAhead(s)
    ensures r == Err(MissingInput) <==> !GivenInt(postulacionId) || !GivenInt(diaId)
    ensures GivenInt(postulacionId) && GivenInt(diaId) ==>
              (r == Err(NotFound) <==> diaId.value !in s.days)
    ensures GivenInt(postulacionId) && GivenInt(diaId) && diaId.value in s.days ==>
              (r == Err(SlotUnavailable) <==> !Bookable(s.days[diaId.value]))
    ensures r == Err(Conflict) <==>
              && GivenInt(postulacionId) && GivenInt(diaId) && diaId.value in s.days
              && Bookable(s.days[diaId.value]) && TicketInUse(s, Ticket.Code(bytes))
    ensures r == Err(StoreError) <==>
              && GivenInt(postulacionId) && GivenInt(diaId) && diaId.value in s.days
              && Bookable(s.days[diaId.value]) && !TicketInUse(s, Ticket.Code(bytes))
              && postulacionId.value !in s.applicants
    ensures r.Ok? <==>
              && GivenInt(postulacionId) && GivenInt(diaId) && diaId.value in s.days
              && Bookable(s.days[diaId.value]) && !TicketInUse(s, Ticket.Code(bytes))
              && postulacionId.value in s.applicants
    ensures r.Ok? ==>
              && r.value.1 == Reserved(s.nextReservation, Ticket.Code(bytes))
              && |r.value.1.ticket| == 8
              && Booked(s, r.value.0, postulacionId.value, diaId.value, Ticket.Code(bytes), now, s.nextReservation)
  {
    if !GivenInt(postulacionId) || !GivenInt(diaId) then Err(MissingInput)
    else
      var p := postulacionId.value;
      var d := diaId.value;
      if d !in s.days then Err(NotFound)
      else
        var day := s.days[d];
        if day.estado != Activo || day.available <= 0 then Err(SlotUnavailable)
        else
          var ticket := Ticket.Code(bytes);
          if TicketInUse(s, ticket) then Err(Conflict)
          else if p !in s.applicants then Err(StoreError)
          else
            var rid := s.nextReservation;
            var booking := Reservation(p, d, TimeWindow, ticket, now, None);
            var s' := s.(reservations := s.reservations[rid := booking],
                         nextReservation := rid + 1,
                         days := s.days[d := day.(available := day.available - 1)],
                         applicants := s.applicants[p := s.applicants[p].(estado := Interviewing)]);
            Ok((s', Reserved(rid, ticket)))
  }

  // ---------------------------------------------------------------------
  // Cancel (DELETE cancelar/:id)
  // ---------------------------------------------------------------------

  /** The writes of a successful cancellation of reservation `rid`: the row
      is gone, its day (when present) has one more free slot, and its
      applicant (when present) is back at 'Postulado'; nothing else changes. */
  predicate Released(s: State, s': State, rid: Id)
    requires rid in s.reservations
  {
    var res := s.reservations[rid];
    && s'.reservations == s.reservations - {rid}
    && s'.days.Keys == s.days.Keys
    && (res.day in s.days ==> s'.days[res.day] == s.days[res.day].(available := s.days[res.day].available + 1))
    && (forall e :: e in s.days && e != res.day ==> s'.days[e] == s.days[e])
    && s'.applicants.Keys == s.applicants.Keys
    && (res.applicant in s.applicants ==>
          s'.applicants[res.applicant] == s.applicants[res.applicant].(estado := Applied))
    && (forall a :: a in s.applicants && a != res.applicant ==> s'.applicants[a] == s.applicants[a])
    && s'.nextDay == s.nextDay && s'.nextReservation == s.nextReservation
  }

  /** Cancels reservation `id`. The id comes from the URL path, where any
      non-empty text is truthy, so only its absence is rejected; `0` is
      looked up like any other id. When the request body names an
      application, it must be the reservation's owner. The slot is released
      by re-reading the day, and only when the day is still there. */
  function Cancel(s: State, id: Option<int>, postulacionId: Option<int>): (r: Result<(State, Reply)>)
    ensures r == Err(MissingInput) <==> id.None?
    ensures id.Some? ==> (r == Err(NotFound) <==> id.value !in s.reservations)
    ensures id.Some? && id.value in s.reservations ==>
              (r == Err(Forbidden) <==>
                 GivenInt(postulacionId) && postulacionId.value != s.reservations[id.value].applicant)
    ensures r.Ok? <==>
              && id.Some? && id.value in s.reservations
              && (!GivenInt(postulacionId) || postulacionId.value == s.reservations[id.value].applicant)
    ensures r.Ok? ==> r.value.1 == Cancelled && Released(s, r.value.0, id.value)
  {
    if id.None? then Err(MissingInput)
    else if id.value !in s.reservations then Err(NotFound)
    else
      var res := s.reservations[id.value];
      if GivenInt(postulacionId) && res.applicant != postulacionId.value then Err(Forbidden)
      else
        var s1 := s.(reservations := s.reservations - {id.value});
        var s2 := if res.day in s1.days
                  then s1.(days := s1.days[res.day := s1.days[res.day].(available := s1.days[res.day].available + 1)])
                  else s1;
        var s3 := if res.applicant in s2.applicants
                  then s2.(applicants := s2.applicants[res.applicant := s2.applicants[res.applicant].(estado := Applied)])
                  else s2;
        Ok((s3, Cancelled))
  }

  // ---------------------------------------------------------------------
  // Create day (POST admin/entrevistas/day)
  // ---------------------------------------------------------------------

  /** Opens a new day. `fecha` is `None` when the date is missing or empty.
      A capacity of 0 is falsy and rejected like a missing one; a negative
      capacity passes the check. A date already held by exactly one day is a
      conflict (with several matching days the single-row lookup errs with
      the code the handler ignores, and the insert goes ahead). */
  function CreateDay(s: State, fecha: Option<Date>, cuposTotales: Option<int>): (r: Result<(State, Reply)>)
    requires CountersAhead(s)
    ensures r == Err(MissingInput) <==> fecha.None? || !GivenInt(cuposTotales)
    ensures fecha.Some? && GivenInt(cuposTotales) ==>
              (r == Err(Conflict) <==> |DaysOn(s, fecha.value)| == 1)
    ensures r.Ok? <==> fecha.Some? && GivenInt(cuposTotales) && |DaysOn(s, fecha.value)| != 1
    ensures r.Ok? ==>
              && r.value.1 == DayCreated(s.nextDay)
              && s.nextDay !in s.days
              && r.value.0.days == s.days[s.nextDay := Day(fecha.value, cuposTotales.value, cuposTotales.value, Activo)]
              && r.value.0.reservations == s.reservations
              && r.value.0.applicants == s.applicants
              && r.value.0.nextReservation == s.nextReservation
              && r.value.0.nextDay > s.nextDay
  {
    if fecha.None? || !GivenInt(cuposTotales) then Err(MissingInput)
    else if |DaysOn(s, fecha.value)| == 1 then Err(Conflict)
    else
      var id := s.nextDay;
      var day := Day(fecha.value, cuposTotales.value, cuposTotales.value, Activo);
      Ok((s.(days := s.days[id := day], nextDay := id + 1), DayCreated(id)))
  }

  // ---------------------------------------------------------------------
  // Delete day (DELETE admin/entrevistas/day/:id)
  // ---------------------------------------------------------------------

  /** The applications holding a reservation on day `d`. */
  function HoldersOn(s: State, d: Id): set<Id> {
    set r | r in s.reservations && s.reservations[r].day == d :: s.reservations[r].applicant
  }

  /** Removes day `id`. The applications holding reservations on it are
      read first; deleting the day removes those reservations with it
      (the reservation rows cascade), and the applications read before are
      moved back to 'Postulado'. The id comes from the URL path, so only its
      absence is rejected, and deleting a day that does not exist (`0`
      included) still succeeds. */
  function DeleteDay(s: State, id: Option<int>): (r: Result<(State, Reply)>)
    ensures r == Err(MissingInput) <==> id.None?
    ensures r.Ok? <==> id.Some?
    ensures r.Ok? ==>
              var s' := r.value.0;
              && r.value.1 == DayDeleted
              && s'.days == s.days - {id.value}
              && (forall k :: k in s'.reservations <==> k in s.reservations && s.reservations[k].day != id.value)
              && (forall k :: k in s'.reservations ==> s'.reservations[k] == s.reservations[k])
              && s'.applicants.Keys == s.applicants.Keys
              && (forall a :: a in s.applicants ==>
                    s'.applicants[a] == if a in HoldersOn(s, id.value)
                                        then s.applicants[a].(estado := Applied) else s.applicants[a])
              && s'.nextDay == s.nextDay && s'.nextReservation == s.nextReservation
  {
    if id.None? then Err(MissingInput)
    else
      var d := id.value;
      var holders := HoldersOn(s, d);
      var kept := map k | k in s.reservations && s.reservations[k].day != d :: s.reservations[k];
      var reverted := map a | a in s.applicants ::
                        if a in holders then s.applicants[a].(estado := Applied) else s.applicants[a];
      Ok((s.(days := s.days - {d}, reservations := kept, applicants := reverted), DayDeleted))
  }

  // ---------------------------------------------------------------------
  // Attendance and day status (PATCH endpoints)
  // ---------------------------------------------------------------------

  /** Records whether the applicant came to the interview. The value must be
      one of 'Pendiente', 'Asistió', 'No Asistió'; an update that matches no
      row is a 404. The reservation id comes from the URL path, so only its
      absence is rejected. */
  function SetAttendance(s: State, reservaId: Option<int>, estado: Option<string>): (r: Result<(State, Reply)>)
    ensures r == Err(MissingInput) <==> reservaId.None? || !GivenStr(estado)
    ensures reservaId.Some? && GivenStr(estado) ==>
              (r == Err(InvalidValue) <==> estado.value !in {"Pendiente", "Asistió", "No Asistió"})
    ensures r == Err(NotFound) <==>
              && reservaId.Some? && GivenStr(estado)
              && estado.value in {"Pendiente", "Asistió", "No Asistió"} && reservaId.value !in s.reservations
    ensures r.Ok? <==>
              && reservaId.Some? && GivenStr(estado)
              && estado.value in {"Pendiente", "Asistió", "No Asistió"} && reservaId.value in s.reservations
    ensures r.Ok? ==>
              var s' := r.value.0;
              var k := reservaId.value;
              && r.value.1 == AttendanceUpdated(k)
              && k in s.reservations
              && s'.reservations.Keys == s.reservations.Keys
              && s'.reservations[k].attendance.Some?
              && AttendanceName(s'.reservations[k].attendance.value) == estado.value
              && s'.reservations[k] == s.reservations[k].(attendance := s'.reservations[k].attendance)
              && (forall j :: j in s.reservations && j != k ==> s'.reservations[j] == s.reservations[j])
              && s'.days == s.days && s'.applicants == s.applicants
              && s'.nextDay == s.nextDay && s'.nextReservation == s.nextReservation
  {
    if reservaId.None? || !GivenStr(estado) then Err(MissingInput)
    else match ParseAttendance(estado.value)
      case None => Err(InvalidValue)
      case Some(att) =>
        var k := reservaId.value;
        if k !in s.reservations then Err(NotFound)
        else Ok((s.(reservations := s.reservations[k := s.reservations[k].(attendance := Some(att))]),
                 AttendanceUpdated(k)))
  }

  /** Sets the status of a day by hand. The value must be one of 'Activo',
      'Inactivo', 'Lleno', 'Finalizado'; no status is ever set automatically.
      The day id comes from the URL path, so only its absence is rejected. */
  function SetDayStatus(s: State, id: Option<int>, estado: Option<string>): (r: Result<(State, Reply)>)
    ensures r == Err(MissingInput) <==> id.None? || !GivenStr(estado)
    ensures id.Some? && GivenStr(estado) ==>
              (r == Err(InvalidValue) <==> estado.value !in {"Activo", "Inactivo", "Lleno", "Finalizado"})
    ensures r == Err(NotFound) <==>
              && id.Some? && GivenStr(estado)
              && estado.value in {"Activo", "Inactivo", "Lleno", "Finalizado"} && id.value !in s.days
    ensures r.Ok? <==>
              && id.Some? && GivenStr(estado)
              && estado.value in {"Activo", "Inactivo", "Lleno", "Finalizado"} && id.value in s.days
    ensures r.Ok? ==>
              var s' := r.value.0;
              var d := id.value;
              && r.value.1 == DayStatusUpdated(d)
              && d in s.days
              && s'.days.Keys == s.days.Keys
              && DayStatusName(s'.days[d].estado) == estado.value
              && s'.days[d] == s.days[d].(estado := s'.days[d].estado)
              && (forall e :: e in s.days && e != d ==> s'.days[e] == s.days[e])
              && s'.reservations == s.reservations && s'.applicants == s.applicants
              && s'.nextDay == s.nextDay && s'.nextReservation == s.nextReservation
  {
    if id.None? || !GivenStr(estado) then Err(MissingInput)
    else match ParseDayStatus(estado.value)
      case None => Err(InvalidValue)
      case Some(st) =>
        var d := id.value;
        if d !in s.days then Err(NotFound)
        else Ok((s.(days := s.days[d := s.days[d].(estado := st)]), DayStatusUpdated(d)))
  }
}
