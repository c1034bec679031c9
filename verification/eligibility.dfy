/** The eligibility check as its authors meant it. The handler reads the
    "zero or several rows" error of its single-row reservation lookup as
    "no reservation"; since booking never looks for an earlier reservation,
    an applicant can hold two, and is then told they may schedule again.
    Here the intended check reports any reservation the applicant holds. */
module Eligibility {
  import opened Common
  import opened Store
  import opened Interviews
  import Ticket
  import Invariants

  /** The eligibility check with "has a reservation" read as "holds at
      least one reservation". */
  function CheckPostulanteIntended(s: State, documento: Option<string>): (r: Result<Reply>)
    ensures !GivenStr(documento) ==> r == Err(MissingInput)
    ensures GivenStr(documento) ==>
              (r == Err(NotFound) <==> ApplicantsWithDocument(s, documento.value) == {})
    ensures GivenStr(documento) ==>
              (r == Err(StoreError) <==> |ApplicantsWithDocument(s, documento.value)| >= 2)
    ensures r.Ok? && r.value.HasReservation? ==>
              && ApplicantsWithDocument(s, documento.value) == {r.value.applicant}
              && r.value.reservation in ReservationsOf(s, r.value.applicant)
    ensures r.Ok? && r.value.CanSchedule? ==>
              && ApplicantsWithDocument(s, documento.value) == {r.value.applicant}
              && ReservationsOf(s, r.value.applicant) == {}
              && s.applicants[r.value.applicant].estado in AllowedStages
    ensures r.Ok? ==> r.value.HasReservation? || r.value.CanSchedule?
  {
    if !GivenStr(documento) then Err(MissingInput)
    else
      var matches := ApplicantsWithDocument(s, documento.value);
      if matches == {} then Err(NotFound)
      else if |matches| >= 2 then Err(StoreError)
      else
        var a := Least(matches);
        SingleMember(matches, a);
        var held := ReservationsOf(s, a);
        if held != {} then Ok(HasReservation(a, Least(held)))
        else if s.applicants[a].estado in AllowedStages then Ok(CanSchedule(a))
        else Err(NotEligible(s.applicants[a].estado))
  }

  /** For the one applicant holding the document, the intended check reports
      any reservation they hold, however many, before any stage test;
      without one, the stage decides between `can_schedule` and a
      rejection naming the stage. */
  lemma CheckPostulanteIntendedOutcome(s: State, doc: string, a: Id)
    requires doc != "" && ApplicantsWithDocument(s, doc) == {a}
    ensures a in s.applicants
    ensures ReservationsOf(s, a) != {} ==>
              CheckPostulanteIntended(s, Some(doc)) == Ok(HasReservation(a, Least(ReservationsOf(s, a))))
    ensures ReservationsOf(s, a) == {} ==>
              (CheckPostulanteIntended(s, Some(doc)) == Ok(CanSchedule(a)) <==> s.applicants[a].estado in AllowedStages)
    ensures ReservationsOf(s, a) == {} && s.applicants[a].estado !in AllowedStages ==>
              CheckPostulanteIntended(s, Some(doc)) == Err(NotEligible(s.applicants[a].estado))
  {
    assert a in ApplicantsWithDocument(s, doc);
    assert Least({a}) == a;
  }

  /** No applicant holds more than one reservation. */
  predicate OneBookingEach(s: State) {
    forall a :: a in s.applicants ==> |ReservationsOf(s, a)| <= 1
  }

  /** While no applicant holds two reservations, the handler as written and
      the intended check answer alike. */
  lemma AgreeWithOneBookingEach(s: State, documento: Option<string>)
    requires OneBookingEach(s)
    ensures CheckPostulante(s, documento) == CheckPostulanteIntended(s, documento)
  {
    if GivenStr(documento) {
      var matches := ApplicantsWithDocument(s, documento.value);
      if matches != {} && |matches| < 2 {
        var a := Least(matches);
        var held := ReservationsOf(s, a);
        assert |held| <= 1;
        if held != {} {
          assert |held| == 1;
        }
      }
    }
  }

  lemma ReservationsOfAfterBooking(s: State, s': State, p: Id, d: Id, t: string, now: string, rid: Id)
    requires d in s.days && p in s.applicants
    requires Booked(s, s', p, d, t, now, rid)
    ensures ReservationsOf(s', p) == ReservationsOf(s, p) + {rid}
    ensures forall doc :: ApplicantsWithDocument(s', doc) == ApplicantsWithDocument(s, doc)
  {
    forall k
      ensures k in ReservationsOf(s', p) <==> k in ReservationsOf(s, p) + {rid}
    {
      if k != rid {
        assert k in s'.reservations <==> k in s.reservations;
      }
    }
    forall doc
      ensures ApplicantsWithDocument(s', doc) == ApplicantsWithDocument(s, doc)
    {
      forall x
        ensures x in ApplicantsWithDocument(s', doc) <==> x in ApplicantsWithDocument(s, doc)
      {
        if x == p {
          assert s'.applicants[x].documento == s.applicants[x].documento;
        }
      }
    }
  }

  /** The input that shows the discrepancy: an applicant in a bookable stage
      books the same day twice (booking does not stop them), after which the
      check as written answers `can_schedule` while the intended check
      reports the reservation. */
  lemma DoubleBookingHidesReservation(s: State, a: Id, doc: string, d: Id,
                                      b1: seq<Ticket.Byte>, b2: seq<Ticket.Byte>, now1: string, now2: string)
    requires Valid(s) && doc != "" && ApplicantsWithDocument(s, doc) == {a} && a != 0
    requires ReservationsOf(s, a) == {}
    requires d in s.days && s.days[d].estado == Activo && s.days[d].available >= 2
    requires |b1| == 4 && |b2| == 4 && b1 != b2
    requires !TicketInUse(s, Ticket.Code(b1)) && !TicketInUse(s, Ticket.Code(b2))
    ensures var r1 := Reserve(s, Some(a), Some(d), b1, now1);
            && r1.Ok?
            && var r2 := Reserve(r1.value.0, Some(a), Some(d), b2, now2);
            && r2.Ok?
            && |ReservationsOf(r2.value.0, a)| == 2
            && CheckPostulante(r2.value.0, Some(doc)) == Ok(CanSchedule(a))
            && CheckPostulanteIntended(r2.value.0, Some(doc)).value.HasReservation?
  {
    assert a in ApplicantsWithDocument(s, doc);
    var r1 := Reserve(s, Some(a), Some(d), b1, now1);
    assert r1.Ok?;
    var s1 := r1.value.0;
    var rid1 := s.nextReservation;
    ReservationsOfAfterBooking(s, s1, a, d, Ticket.Code(b1), now1, rid1);
    Invariants.ReserveKeepsValid(s, Some(a), Some(d), b1, now1);
    Ticket.CodeInjective(b1, b2);
    assert !TicketInUse(s1, Ticket.Code(b2)) by {
      forall k | k in s1.reservations
        ensures s1.reservations[k].ticket != Ticket.Code(b2)
      {
        if k != rid1 {
          assert k in s.reservations;
        }
      }
    }
    var r2 := Reserve(s1, Some(a), Some(d), b2, now2);
    assert r2.Ok?;
    var s2 := r2.value.0;
    var rid2 := s1.nextReservation;
    ReservationsOfAfterBooking(s1, s2, a, d, Ticket.Code(b2), now2, rid2);
    assert ReservationsOf(s2, a) == {rid1, rid2};
    assert rid1 != rid2;
    assert ApplicantsWithDocument(s2, doc) == {a};
    CheckPostulanteOutcome(s2, doc, a);
    assert s2.applicants[a].estado == Interviewing;
  }
}
