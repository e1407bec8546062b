/**
 * Booking an appointment from the two form fields: the patient's name and
 * the doctor's id as typed. Each rejection leaves the database as it was; a
 * successful booking inserts one patient and one appointment as one unit.
 */
module Booking {
  import opened Options
  import opened Text
  import opened Tables

  /** How the booking ends: one of four message boxes, or an uncaught error. */
  datatype Outcome =
    | Scheduled                 // "Appointment scheduled successfully."
    | MissingInput              // a field is empty after stripping
    | InvalidDoctorId           // `int()` rejects the doctor id
    | DoctorNotFound(id: int)   // no doctor row has the parsed id
    | IdOutOfRange(id: int)     // the id does not fit a 64-bit parameter: `OverflowError`, no box

  datatype Booked = Booked(db: Db, outcome: Outcome)

  /** True when either form field strips to nothing. */
  predicate Blank(patientEntry: string, doctorIdEntry: string) {
    AllSpace(patientEntry) || AllSpace(doctorIdEntry)
  }

  /** The patient row a successful booking appends. */
  function NewPatient(db: Db, patientEntry: string): Patient {
    Patient(NextRowId(PatientIds(db.patients)), Strip(patientEntry))
  }

  /** The appointment row a successful booking appends, given the parsed doctor id. */
  function NewAppointment(db: Db, doctorId: int, today: string): Appointment {
    Appointment(NextRowId(AppointmentIds(db.appointments)), doctorId,
                NextRowId(PatientIds(db.patients)), today)
  }

  /**
   * The effect of one click on "Schedule Appointment"; `today` stands for
   * SQLite's `date('now')`.
   */
  function Book(db: Db, patientEntry: string, doctorIdEntry: string, today: string): (r: Booked)
    ensures r.db.doctors == db.doctors
    ensures r.outcome != Scheduled ==> r.db == db
    ensures r.outcome == MissingInput <==> Blank(patientEntry, doctorIdEntry)
    ensures r.outcome == InvalidDoctorId <==>
              !Blank(patientEntry, doctorIdEntry) && ParseInt(Strip(doctorIdEntry)) == None
    ensures forall n :: r.outcome == IdOutOfRange(n) <==>
              && !Blank(patientEntry, doctorIdEntry)
              && ParseInt(Strip(doctorIdEntry)) == Some(n)
              && !IsInt64(n)
    ensures forall n :: r.outcome == DoctorNotFound(n) <==>
              && !Blank(patientEntry, doctorIdEntry)
              && ParseInt(Strip(doctorIdEntry)) == Some(n)
              && IsInt64(n)
              && n !in DoctorIds(db.doctors)
    ensures r.outcome == Scheduled <==>
              && !Blank(patientEntry, doctorIdEntry)
              && ParseInt(Strip(doctorIdEntry)).Some?
              && IsInt64(ParseInt(Strip(doctorIdEntry)).value)
              && ParseInt(Strip(doctorIdEntry)).value in DoctorIds(db.doctors)
  {
    var patientName := Strip(patientEntry);
    var doctorIdText := Strip(doctorIdEntry);
    if patientName == [] || doctorIdText == [] then Booked(db, MissingInput)
    else match ParseInt(doctorIdText)
      case None => Booked(db, InvalidDoctorId)
      case Some(doctorId) =>
        if !IsInt64(doctorId) then Booked(db, IdOutOfRange(doctorId))
        else if FindDoctor(db.doctors, doctorId).None? then Booked(db, DoctorNotFound(doctorId))
        else
          Booked(Db(db.doctors, db.patients + [NewPatient(db, patientEntry)],
                    db.appointments + [NewAppointment(db, doctorId, today)]), Scheduled)
  }

  /**
   * A successful booking appends exactly one patient, named by the stripped
   * input, and exactly one appointment linking that new patient to the
   * requested doctor; both ids are fresh, and every existing row is kept.
   */
  lemma BookScheduled(db: Db, patientEntry: string, doctorIdEntry: string, today: string)
    requires Book(db, patientEntry, doctorIdEntry, today).outcome == Scheduled
    ensures var r := Book(db, patientEntry, doctorIdEntry, today).db;
            var doctorId := ParseInt(Strip(doctorIdEntry)).value;
            var p := NewPatient(db, patientEntry);
            var a := NewAppointment(db, doctorId, today);
            && r.patients == db.patients + [p]
            && r.appointments == db.appointments + [a]
            && p.name != []
            && a.patientId == p.id && a.doctorId in DoctorIds(db.doctors)
            && p.id !in PatientIds(db.patients)
            && a.id !in AppointmentIds(db.appointments)
  {
  }

  /** Every appointment of `appts` refers to a row of `ds` and a row of `ps`. */
  predicate ReferencesResolve(appts: seq<Appointment>, ds: seq<Doctor>, ps: seq<Patient>) {
    forall x :: x in appts ==> x.doctorId in DoctorIds(ds) && x.patientId in PatientIds(ps)
  }

  /** A new appointment for a new patient and an existing doctor keeps every reference resolvable. */
  lemma AppendKeepsReferences(appts: seq<Appointment>, ds: seq<Doctor>, ps: seq<Patient>, p: Patient, a: Appointment)
    requires ReferencesResolve(appts, ds, ps)
    requires a.patientId == p.id && a.doctorId in DoctorIds(ds)
    ensures ReferencesResolve(appts + [a], ds, ps + [p])
  {
    forall x | x in appts + [a]
      ensures x.patientId in PatientIds(ps + [p])
    {
      if x != a {
        var i :| 0 <= i < |ps| && ps[i].id == x.patientId;
        assert (ps + [p])[i] == ps[i];
      } else {
        assert (ps + [p])[|ps|] == p;
      }
    }
  }

  /**
   * Appending a patient with the next patient id and an appointment with the
   * next appointment id, referring to that patient and to an existing
   * doctor, keeps a database valid.
   */
  lemma AppendBookingKeepsValid(db: Db, p: Patient, a: Appointment)
    requires Valid(db)
    requires p.id == NextRowId(PatientIds(db.patients))
    requires a.id == NextRowId(AppointmentIds(db.appointments))
    requires a.patientId == p.id && a.doctorId in DoctorIds(db.doctors)
    ensures Valid(Db(db.doctors, db.patients + [p], db.appointments + [a]))
  {
    var ps, appts := db.patients + [p], db.appointments + [a];
    PatientIdsAppend(db.patients, p);
    AppointmentIdsAppend(db.appointments, a);
    AppendNextKeepsOrder(PatientIds(db.patients));
    AppendNextKeepsOrder(AppointmentIds(db.appointments));
    assert ReferencesResolve(db.appointments, db.doctors, db.patients);
    AppendKeepsReferences(db.appointments, db.doctors, db.patients, p, a);
    ValidFromParts(Db(db.doctors, ps, appts));
  }

  /** Every booking keeps the tables in id order and every reference resolvable. */
  lemma {:induction false} BookPreservesValid(db: Db, patientEntry: string, doctorIdEntry: string, today: string)
    requires Valid(db)
    ensures Valid(Book(db, patientEntry, doctorIdEntry, today).db)
  {
    var r := Book(db, patientEntry, doctorIdEntry, today);
    if r.outcome == Scheduled {
      var doctorId := ParseInt(Strip(doctorIdEntry)).value;
      BookScheduled(db, patientEntry, doctorIdEntry, today);
      AppendBookingKeepsValid(db, NewPatient(db, patientEntry), NewAppointment(db, doctorId, today));
    }
  }

  /**
   * Booking the same name twice makes two patient rows with different ids:
   * patients are never looked up by name.
   */
  lemma BookTwiceTwoPatients(db: Db, patientEntry: string, doctorIdEntry: string, today: string)
    requires Book(db, patientEntry, doctorIdEntry, today).outcome == Scheduled
    ensures var once := Book(db, patientEntry, doctorIdEntry, today).db;
            var twice := Book(once, patientEntry, doctorIdEntry, today);
            && twice.outcome == Scheduled
            && |twice.db.patients| == |db.patients| + 2
            && twice.db.patients[|db.patients|].name == twice.db.patients[|db.patients| + 1].name
            && twice.db.patients[|db.patients|].id != twice.db.patients[|db.patients| + 1].id
  {
    var once := Book(db, patientEntry, doctorIdEntry, today).db;
    BookScheduled(db, patientEntry, doctorIdEntry, today);
    BookScheduled(once, patientEntry, doctorIdEntry, today);
    assert PatientIds(once.patients)[|db.patients|] == once.patients[|db.patients|].id;
  }

  /** Every signed 64-bit id renders within `int()`'s digit limit. */
  lemma Int64WithinDigitLimit(n: int)
    requires IsInt64(n)
    ensures |IntToString(n)| - (if n < 0 then 1 else 0) <= MaxStrDigits
  {
    Pow10Of19();
    ShortRendersWithinLimit(n, 19);
  }

  /**
   * A numeral whose value lies outside 64 bits is parsed, then the lookup
   * fails to bind it: the handler stops with nothing changed and no message.
   */
  lemma OutOfRangeIdAborts(db: Db, patientEntry: string, n: int, today: string)
    requires !AllSpace(patientEntry) && !IsInt64(n)
    requires |IntToString(n)| - (if n < 0 then 1 else 0) <= MaxStrDigits
    ensures Book(db, patientEntry, IntToString(n), today) == Booked(db, IdOutOfRange(n))
  {
    ParseIntRoundTrip(n);
  }

  /**
   * A doctor id of more than `MaxStrDigits` digits is rejected as not a
   * number, whatever its value, leading zeros included.
   */
  lemma TooManyDigitsInvalid(db: Db, patientEntry: string, digits: string, today: string)
    requires !AllSpace(patientEntry) && AllDigits(digits) && |digits| > MaxStrDigits
    ensures Book(db, patientEntry, digits, today) == Booked(db, InvalidDoctorId)
  {
    assert !IsSpace(digits[0]) && !IsSpace(digits[|digits| - 1]);
    StripTrimmed(digits);
  }
}
