/** The three tables the interview scheduler works on, held as immutable
    maps from row id to record: interview days (`dias_entrevista`),
    reservations (`reservas_entrevista`) and the `estado` of applications
    (`Postulaciones`). Row ids come from serial counters kept in the state. */
module Store {
  import opened Common

  type Id = int

  /** A calendar date as a day number; ISO `YYYY-MM-DD` strings, which the
      store compares, order the same way. */
  type Date = int

  /** The values the `estado` column of a day may hold. */
  datatype DayStatus = Activo | Inactivo | Lleno | Finalizado

  /** The values the `estado_asistencia` column of a reservation may hold. */
  datatype Attendance = Pendiente | Asistio | NoAsistio

  function DayStatusName(st: DayStatus): string {
    match st
    case Activo => "Activo"
    case Inactivo => "Inactivo"
    case Lleno => "Lleno"
    case Finalizado => "Finalizado"
  }

  /** Reads a requested day status; `None` for any string outside the four
      allowed names. */
  function ParseDayStatus(s: string): (r: Option<DayStatus>)
    ensures r.Some? <==> s in {"Activo", "Inactivo", "Lleno", "Finalizado"}
    ensures r.Some? ==> DayStatusName(r.value) == s
  {
    if s == "Activo" then Some(Activo)
    else if s == "Inactivo" then Some(Inactivo)
    else if s == "Lleno" then Some(Lleno)
    else if s == "Finalizado" then Some(Finalizado)
    else None
  }

  function AttendanceName(a: Attendance): string {
    match a
    case Pendiente => "Pendiente"
    case Asistio => "Asistió"
    case NoAsistio => "No Asistió"
  }

  /** Reads a requested attendance status; `None` for any string outside the
      three allowed names. */
  function ParseAttendance(s: string): (r: Option<Attendance>)
    ensures r.Some? <==> s in {"Pendiente", "Asistió", "No Asistió"}
    ensures r.Some? ==> AttendanceName(r.value) == s
  {
    if s == "Pendiente" then Some(Pendiente)
    else if s == "Asistió" then Some(Asistio)
    else if s == "No Asistió" then Some(NoAsistio)
    else None
  }

  /** Every status name reads back as the status it names. */
  lemma StatusNamesRoundTrip(st: DayStatus, a: Attendance)
    ensures ParseDayStatus(DayStatusName(st)) == Some(st)
    ensures ParseAttendance(AttendanceName(a)) == Some(a)
  {
  }

  /** One bookable day: `cupos_totales`, `cupos_disponibles` and `estado`. */
  datatype Day = Day(fecha: Date, total: int, available: int, estado: DayStatus)

  /** One booking. `attendance` is `None` until staff set it: the column's
      default for a fresh row lies in the schema, not in the handlers. */
  datatype Reservation = Reservation(
    applicant: Id,
    day: Id,
    window: string,
    ticket: string,
    createdAt: string,
    attendance: Option<Attendance>)

  /** The part of an application the scheduler reads and writes. */
  datatype Applicant = Applicant(documento: string, estado: string)

  datatype State = State(
    days: map<Id, Day>,
    reservations: map<Id, Reservation>,
    applicants: map<Id, Applicant>,
    nextDay: Id,
    nextReservation: Id)

  /** The fixed interview window every booking receives. */
  const TimeWindow: string := "7:00 AM - 11:00 AM"

  /** The applicant stages from which an interview may be booked. */
  const AllowedStages: seq<string> := ["Postulado", "Entrevista", "Preseleccionado"]

  const Applied: string := "Postulado"
  const Interviewing: string := "Entrevista"

  function ReservationsOn(s: State, d: Id): set<Id> {
    set r | r in s.reservations && s.reservations[r].day == d
  }

  function ReservationsOf(s: State, a: Id): set<Id> {
    set r | r in s.reservations && s.reservations[r].applicant == a
  }

  function CountOn(s: State, d: Id): nat {
    |ReservationsOn(s, d)|
  }

  function DaysOn(s: State, f: Date): set<Id> {
    set d | d in s.days && s.days[d].fecha == f
  }

  function ApplicantsWithDocument(s: State, doc: string): set<Id> {
    set a | a in s.applicants && s.applicants[a].documento == doc
  }

  predicate TicketInUse(s: State, t: string) {
    exists r :: r in s.reservations && s.reservations[r].ticket == t
  }

  /** Row ids come from serial counters that start at 1 and are ahead of
      every id in use, so the next insert receives a fresh, positive id. */
  predicate CountersAhead(s: State) {
    && 1 <= s.nextDay && 1 <= s.nextReservation
    && (forall d :: d in s.days ==> 0 < d < s.nextDay)
    && (forall r :: r in s.reservations ==> 0 < r < s.nextReservation)
  }

  /** What the store keeps true across every handler:
      references resolve, ids lie below their counters, each day's free
      slots plus its reservations equal its capacity, a day that has
      bookings never shows a negative count, ticket codes and day dates are
      unique. */
  ghost predicate Valid(s: State) {
    && (forall r :: r in s.reservations ==>
          s.reservations[r].day in s.days && s.reservations[r].applicant in s.applicants)
    && CountersAhead(s)
    && (forall d :: d in s.days ==> s.days[d].available + CountOn(s, d) == s.days[d].total)
    && (forall d :: d in s.days ==> CountOn(s, d) == 0 || 0 <= s.days[d].available)
    && (forall r1, r2 :: r1 in s.reservations && r2 in s.reservations && r1 != r2 ==>
          s.reservations[r1].ticket != s.reservations[r2].ticket)
    && (forall d1, d2 :: d1 in s.days && d2 in s.days && d1 != d2 ==> s.days[d1].fecha != s.days[d2].fecha)
  }

  /** In a valid store, a day created with a non-negative capacity never
      shows a negative or excess number of free slots. */
  lemma SlotsWithinCapacity(s: State, d: Id)
    requires Valid(s) && d in s.days && 0 <= s.days[d].total
    ensures 0 <= s.days[d].available <= s.days[d].total
  {
  }

  predicate IsLeast(m: Id, ids: set<Id>) {
    m in ids && forall x :: x in ids ==> m <= x
  }

  /** The smallest element of a non-empty set of ids: the row a single-row
      query returns when exactly one row matches. */
  function Least(ids: set<Id>): (m: Id)
    requires ids != {}
    ensures IsLeast(m, ids)
  {
    LeastExists(ids);
    var m :| IsLeast(m, ids);
    m
  }

  lemma NonEmptyHasMember(ids: set<Id>)
    requires ids != {}
    ensures exists y :: y in ids
  {
    if forall y :: y !in ids {
      assert false;
    }
  }

  /** A set of one element is that element's singleton. */
  lemma SingleMember(ids: set<Id>, a: Id)
    requires a in ids && |ids| < 2
    ensures ids == {a}
  {
    assert |ids - {a}| == 0;
    assert ids - {a} == {};
    forall x
      ensures x in ids <==> x == a
    {
      assert x in ids ==> x == a || x in ids - {a};
    }
  }

  lemma {:induction false} LeastExists(ids: set<Id>)
    requires ids != {}
    ensures exists m :: IsLeast(m, ids)
    decreases |ids|
  {
    NonEmptyHasMember(ids);
    var y: Id :| y in ids;
    var rest := ids - {y};
    if rest == {} {
      assert forall x :: x in ids ==> x == y || x in rest;
      assert IsLeast(y, ids);
    } else {
      LeastExists(rest);
      var m :| IsLeast(m, rest);
      var least := if y < m then y else m;
      forall x | x in ids
        ensures least <= x
      {
        if x != y {
          assert x in rest;
        }
      }
      assert IsLeast(least, ids);
    }
  }
}
