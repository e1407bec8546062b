/**
 * The two read-only queries behind "View Available Doctors" and "View
 * Scheduled Appointments", and the text each shows in its message box.
 */
module Views {
  import opened Options
  import opened Text
  import opened Tables
  import opened Booking

  /** One row of the appointments query. */
  datatype AppointmentView = AppointmentView(
    appointmentId: int, doctorName: string, specialization: Option<string>,
    patientName: string, date: string)

  function ViewRow(a: Appointment, d: Doctor, p: Patient): AppointmentView {
    AppointmentView(a.id, d.name, d.specialization, p.name, a.date)
  }

  /** The rows whose id (given alongside, row by row) equals `id`, in table order. */
  function RowsWithId<R>(rows: seq<R>, ids: seq<int>, id: int): (r: seq<R>)
    requires |rows| == |ids|
    ensures forall x :: x in r ==> exists k :: 0 <= k < |rows| && x == rows[k] && ids[k] == id
  {
    if rows == [] then []
    else
      var n := |rows|;
      RowsWithId(rows[..n - 1], ids[..n - 1], id) + (if ids[n - 1] == id then [rows[n - 1]] else [])
  }

  lemma {:induction false} RowsWithIdAbsent<R>(rows: seq<R>, ids: seq<int>, id: int)
    requires |rows| == |ids| && id !in ids
    ensures RowsWithId(rows, ids, id) == []
  {
    if rows != [] {
      var n := |rows|;
      RowsWithIdAbsent(rows[..n - 1], ids[..n - 1], id);
    }
  }

  /** With distinct ids, matching on an id that is present yields exactly its row. */
  lemma {:induction false} RowsWithIdUnique<R>(rows: seq<R>, ids: seq<int>, k: nat)
    requires |rows| == |ids| && StrictlyIncreasing(ids) && k < |ids|
    ensures RowsWithId(rows, ids, ids[k]) == [rows[k]]
  {
    var n := |rows|;
    if k == n - 1 {
      assert ids[k] !in ids[..n - 1];
      RowsWithIdAbsent(rows[..n - 1], ids[..n - 1], ids[k]);
    } else {
      RowsWithIdUnique(rows[..n - 1], ids[..n - 1], k);
    }
  }

  /** The join of one appointment with its matching doctors and patients, in nested-loop order. */
  function Cross(a: Appointment, ds: seq<Doctor>, ps: seq<Patient>): (r: seq<AppointmentView>)
    ensures forall v :: v in r ==> exists d, p :: d in ds && p in ps && v == ViewRow(a, d, p)
  {
    if ds == [] then []
    else
      Cross(a, ds[..|ds| - 1], ps) + seq(|ps|, j requires 0 <= j < |ps| => ViewRow(a, ds[|ds| - 1], ps[j]))
  }

  lemma {:induction false} CrossNoPatient(a: Appointment, ds: seq<Doctor>)
    ensures Cross(a, ds, []) == []
  {
    if ds != [] {
      CrossNoPatient(a, ds[..|ds| - 1]);
    }
  }

  /** `v` pairs an appointment with a doctor and a patient its two keys name. */
  predicate JoinOf(appts: seq<Appointment>, ds: seq<Doctor>, ps: seq<Patient>, v: AppointmentView) {
    exists a, d, p :: a in appts && d in ds && p in ps && d.id == a.doctorId && p.id == a.patientId
                      && v == ViewRow(a, d, p)
  }

  /** The rows `a` contributes to the inner join with the two tables. */
  function JoinedRows(a: Appointment, ds: seq<Doctor>, ps: seq<Patient>): (r: seq<AppointmentView>)
    ensures forall v :: v in r ==> JoinOf([a], ds, ps, v)
  {
    var r := Cross(a, RowsWithId(ds, DoctorIds(ds), a.doctorId), RowsWithId(ps, PatientIds(ps), a.patientId));
    assert forall v :: v in r ==> JoinOf([a], ds, ps, v) by {
      forall v | v in r
        ensures JoinOf([a], ds, ps, v)
      {
        var d, p :| d in RowsWithId(ds, DoctorIds(ds), a.doctorId) && p in RowsWithId(ps, PatientIds(ps), a.patientId)
                    && v == ViewRow(a, d, p);
        assert a in [a];
      }
    }
    r
  }

  function JoinRows(appts: seq<Appointment>, ds: seq<Doctor>, ps: seq<Patient>): (r: seq<AppointmentView>)
    ensures forall v :: v in r ==> JoinOf(appts, ds, ps, v)
  {
    if appts == [] then []
    else
      var n := |appts|;
      var r := JoinRows(appts[..n - 1], ds, ps) + JoinedRows(appts[n - 1], ds, ps);
      assert forall v :: v in r ==> JoinOf(appts, ds, ps, v) by {
        forall v | v in r
          ensures JoinOf(appts, ds, ps, v)
        {
          if v in JoinRows(appts[..n - 1], ds, ps) {
            var a, d, p :| a in appts[..n - 1] && d in ds && p in ps && d.id == a.doctorId
                           && p.id == a.patientId && v == ViewRow(a, d, p);
            assert a in appts;
          } else {
            var a, d, p :| a in [appts[n - 1]] && d in ds && p in ps && d.id == a.doctorId
                           && p.id == a.patientId && v == ViewRow(a, d, p);
            assert a in appts;
          }
        }
      }
      r
  }

  /**
   * `appointments JOIN doctors ON doctor_id JOIN patients ON patient_id`,
   * scanned in appointment order: an appointment whose doctor or patient is
   * missing yields no row, one matching several rows yields one row each.
   * Every row it gives names an appointment together with a doctor and a
   * patient its keys refer to.
   */
  function Join(db: Db): (r: seq<AppointmentView>)
    ensures forall v :: v in r ==> JoinOf(db.appointments, db.doctors, db.patients, v)
  {
    JoinRows(db.appointments, db.doctors, db.patients)
  }

  /** The one row the join should give for `a`, found by key lookups. */
  function Resolve(db: Db, a: Appointment): Option<AppointmentView> {
    match (FindDoctor(db.doctors, a.doctorId), FindPatient(db.patients, a.patientId))
    case (Some(d), Some(p)) => Some(ViewRow(a, d, p))
    case _ => None
  }

  lemma CrossSingle(a: Appointment, d: Doctor, p: Patient)
    ensures Cross(a, [d], [p]) == [ViewRow(a, d, p)]
  {
    assert [d][..0] == [];
  }

  /** With primary keys, an appointment contributes exactly its resolved row, or nothing. */
  lemma JoinedRowsResolve(db: Db, a: Appointment)
    requires StrictlyIncreasing(DoctorIds(db.doctors)) && StrictlyIncreasing(PatientIds(db.patients))
    ensures JoinedRows(a, db.doctors, db.patients)
              == if Resolve(db, a).Some? then [Resolve(db, a).value] else []
  {
    var ds, ps := db.doctors, db.patients;
    if a.doctorId !in DoctorIds(ds) {
      RowsWithIdAbsent(ds, DoctorIds(ds), a.doctorId);
    } else if a.patientId !in PatientIds(ps) {
      RowsWithIdAbsent(ps, PatientIds(ps), a.patientId);
      CrossNoPatient(a, RowsWithId(ds, DoctorIds(ds), a.doctorId));
    } else {
      var k :| 0 <= k < |ds| && DoctorIds(ds)[k] == a.doctorId;
      var j :| 0 <= j < |ps| && PatientIds(ps)[j] == a.patientId;
      RowsWithIdUnique(ds, DoctorIds(ds), k);
      RowsWithIdUnique(ps, PatientIds(ps), j);
      FindDoctorUnique(ds, k);
      FindPatientUnique(ps, j);
      CrossSingle(a, ds[k], ps[j]);
      assert Resolve(db, a) == Some(ViewRow(a, ds[k], ps[j]));
    }
  }

  /** In a valid database the join yields one row per appointment, in order. */
  lemma {:induction false} JoinOnePerAppointment(db: Db)
    requires Valid(db)
    ensures |Join(db)| == |db.appointments|
    ensures forall i :: 0 <= i < |db.appointments| ==> Resolve(db, db.appointments[i]) == Some(Join(db)[i])
  {
    JoinRowsOnePerAppointment(db, db.appointments);
  }

  lemma {:induction false} JoinRowsOnePerAppointment(db: Db, appts: seq<Appointment>)
    requires Valid(db)
    requires forall a :: a in appts ==> a in db.appointments
    ensures |JoinRows(appts, db.doctors, db.patients)| == |appts|
    ensures forall i :: 0 <= i < |appts| ==>
              Resolve(db, appts[i]) == Some(JoinRows(appts, db.doctors, db.patients)[i])
  {
    if appts != [] {
      var n := |appts|;
      var a := appts[n - 1];
      JoinRowsOnePerAppointment(db, appts[..n - 1]);
      JoinedRowsResolve(db, a);
      assert Resolve(db, a).Some?;
      forall i | 0 <= i < n
        ensures Resolve(db, appts[i]) == Some(JoinRows(appts, db.doctors, db.patients)[i])
      {
        if i < n - 1 {
          assert appts[i] == appts[..n - 1][i];
        }
      }
    }
  }

  /** A patient that no appointment refers to changes no row of the join. */
  lemma {:induction false} JoinRowsNewPatient(appts: seq<Appointment>, ds: seq<Doctor>, ps: seq<Patient>, p: Patient)
    requires forall a :: a in appts ==> a.patientId != p.id
    ensures JoinRows(appts, ds, ps + [p]) == JoinRows(appts, ds, ps)
  {
    if appts != [] {
      var n := |appts|;
      var a := appts[n - 1];
      JoinRowsNewPatient(appts[..n - 1], ds, ps, p);
      var ps' := ps + [p];
      assert ps'[..|ps|] == ps;
      assert PatientIds(ps')[..|ps|] == PatientIds(ps);
      assert RowsWithId(ps', PatientIds(ps'), a.patientId) == RowsWithId(ps, PatientIds(ps), a.patientId);
    }
  }

  /**
   * After a successful booking the appointments listing is the old one with
   * one more row: the new appointment with its doctor's name and
   * specialization, the stripped patient name and the booking date.
   */
  lemma JoinAfterBook(db: Db, patientEntry: string, doctorIdEntry: string, today: string)
    requires Valid(db)
    requires Book(db, patientEntry, doctorIdEntry, today).outcome == Scheduled
    ensures var doctorId := ParseInt(Strip(doctorIdEntry)).value;
            var d := FindDoctor(db.doctors, doctorId).value;
            Join(Book(db, patientEntry, doctorIdEntry, today).db)
              == Join(db) + [AppointmentView(NewAppointment(db, doctorId, today).id, d.name,
                                             d.specialization, Strip(patientEntry), today)]
  {
    var doctorId := ParseInt(Strip(doctorIdEntry)).value;
    var r := Book(db, patientEntry, doctorIdEntry, today).db;
    var p := NewPatient(db, patientEntry);
    var a := NewAppointment(db, doctorId, today);
    BookScheduled(db, patientEntry, doctorIdEntry, today);
    BookPreservesValid(db, patientEntry, doctorIdEntry, today);
    forall x | x in db.appointments
      ensures x.patientId != p.id
    {
      var i :| 0 <= i < |db.patients| && PatientIds(db.patients)[i] == x.patientId;
    }
    assert r.appointments[..|db.appointments|] == db.appointments;
    JoinRowsNewPatient(db.appointments, db.doctors, db.patients, p);
    JoinedRowsResolve(r, a);
    FindPatientUnique(r.patients, |db.patients|);
  }

  const NoDoctorsText := "No doctors available."
  const NoAppointmentsText := "No appointments scheduled."

  /** How a nullable text column shows in an f-string: NULL reads `None`. */
  function ColumnText(s: Option<string>): string {
    match s
    case Some(t) => t
    case None => "None"
  }

  /** `"\n".join(lines)`. */
  function JoinLines(lines: seq<string>): (s: string)
    ensures lines != [] && lines[0] != [] ==> s != [] && s[0] == lines[0][0]
  {
    if lines == [] then ""
    else if |lines| == 1 then lines[0]
    else JoinLines(lines[..|lines| - 1]) + "\n" + lines[|lines| - 1]
  }

  /**
   * One line of the doctors listing: `id: name (specialization)`. The line
   * begins with the id as `str()` renders it, and a doctor without a
   * specialization shows `(None)`.
   */
  function DoctorLine(d: Doctor): (line: string)
    ensures var id := IntToString(d.id);
            |id| + 2 <= |line| && line[..|id| + 2] == id + ": " && line[|line| - 1] == ')'
    ensures d.specialization == None ==> |line| >= 6 && line[|line| - 6..] == "(None)"
  {
    IntToString(d.id) + ": " + d.name + " (" + ColumnText(d.specialization) + ")"
  }

  function DoctorLines(ds: seq<Doctor>): seq<string> {
    seq(|ds|, i requires 0 <= i < |ds| => DoctorLine(ds[i]))
  }

  /** The text of the "Available Doctors" box; the empty-table text exactly when there is no doctor. */
  function AvailableDoctorsText(db: Db): (msg: string)
    ensures msg == NoDoctorsText <==> db.doctors == []
  {
    if db.doctors == [] then NoDoctorsText
    else
      var msg := JoinLines(DoctorLines(db.doctors));
      assert DoctorLines(db.doctors)[0][0] == IntToString(db.doctors[0].id)[0];
      assert msg[0] != NoDoctorsText[0];
      msg
  }

  /**
   * One block of the appointments listing: four labelled lines, the first
   * carrying the appointment id, each ended by a newline.
   */
  function AppointmentBlock(v: AppointmentView): (block: string)
    ensures var head := "Appointment ID: " + IntToString(v.appointmentId) + "\n";
            |head| <= |block| && block[..|head|] == head && block[|block| - 1] == '\n'
  {
    "Appointment ID: " + IntToString(v.appointmentId)
      + "\nDoctor: " + v.doctorName + " (" + ColumnText(v.specialization) + ")"
      + "\nPatient: " + v.patientName
      + "\nDate: " + v.date + "\n"
  }

  /** The text of the "Scheduled Appointments" box; the empty text exactly when the join is empty. */
  function ScheduledAppointmentsText(db: Db): (msg: string)
    ensures msg == NoAppointmentsText <==> Join(db) == []
  {
    var rows := Join(db);
    if rows == [] then NoAppointmentsText
    else
      var blocks := seq(|rows|, i requires 0 <= i < |rows| => AppointmentBlock(rows[i]));
      var msg := JoinLines(blocks);
      assert blocks[0][0] == 'A';
      assert msg[0] != NoAppointmentsText[0];
      msg
  }

  /**
   * The id a doctor is listed under, typed back into the doctor-id field with
   * any non-blank patient name, books that very doctor. (Every id SQLite
   * stores in an `INTEGER PRIMARY KEY` column is a signed 64-bit value.)
   */
  lemma ListedIdBooksDoctor(db: Db, k: nat, patientEntry: string, today: string)
    requires Valid(db) && k < |db.doctors| && !AllSpace(patientEntry)
    requires IsInt64(db.doctors[k].id)
    ensures var r := Book(db, patientEntry, IntToString(db.doctors[k].id), today);
            && r.outcome == Scheduled
            && |r.db.appointments| == |db.appointments| + 1
            && r.db.appointments[|db.appointments|].doctorId == db.doctors[k].id
            && |Join(r.db)| == |Join(db)| + 1
            && Join(r.db)[|Join(db)|].doctorName == db.doctors[k].name
  {
    var id := db.doctors[k].id;
    var entry := IntToString(id);
    Int64WithinDigitLimit(id);
    ParseIntRoundTrip(id);
    assert DoctorIds(db.doctors)[k] == id;
    var r := Book(db, patientEntry, entry, today);
    assert r.outcome == Scheduled;
    BookScheduled(db, patientEntry, entry, today);
    JoinAfterBook(db, patientEntry, entry, today);
    FindDoctorUnique(db.doctors, k);
  }
}

