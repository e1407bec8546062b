/**
 * The three tables of the clinic's database as values: doctors, patients and
 * appointments, each a sequence of rows in row-id order. Row-id allocation
 * follows SQLite's rule for an `INTEGER PRIMARY KEY` declared without
 * AUTOINCREMENT: one more than the largest id in use, or 1 in an empty table.
 */
module Tables {
  import opened Options

  /** A row of `doctors`; `specialization` is a nullable column. */
  datatype Doctor = Doctor(id: int, name: string, specialization: Option<string>)

  /** A row of `patients` (the unused `phone` column is not modelled). */
  datatype Patient = Patient(id: int, name: string)

  /** A row of `appointments`, referring to one doctor and one patient by id. */
  datatype Appointment = Appointment(id: int, doctorId: int, patientId: int, date: string)

  datatype Db = Db(doctors: seq<Doctor>, patients: seq<Patient>, appointments: seq<Appointment>)

  /** The database right after the three `CREATE TABLE IF NOT EXISTS` on a new file. */
  const EmptyDb := Db([], [], [])

  function DoctorIds(ds: seq<Doctor>): (ids: seq<int>)
    ensures |ids| == |ds| && forall i :: 0 <= i < |ds| ==> ids[i] == ds[i].id
  {
    seq(|ds|, i requires 0 <= i < |ds| => ds[i].id)
  }

  function PatientIds(ps: seq<Patient>): (ids: seq<int>)
    ensures |ids| == |ps| && forall i :: 0 <= i < |ps| ==> ids[i] == ps[i].id
  {
    seq(|ps|, i requires 0 <= i < |ps| => ps[i].id)
  }

  function AppointmentIds(appts: seq<Appointment>): (ids: seq<int>)
    ensures |ids| == |appts| && forall i :: 0 <= i < |appts| ==> ids[i] == appts[i].id
  {
    seq(|appts|, i requires 0 <= i < |appts| => appts[i].id)
  }

  /** Extending a table by one row extends its id column by that row's id. */
  lemma DoctorIdsAppend(ds: seq<Doctor>, d: Doctor)
    ensures DoctorIds(ds + [d]) == DoctorIds(ds) + [d.id]
  {
  }

  lemma PatientIdsAppend(ps: seq<Patient>, p: Patient)
    ensures PatientIds(ps + [p]) == PatientIds(ps) + [p.id]
  {
  }

  lemma AppointmentIdsAppend(appts: seq<Appointment>, a: Appointment)
    ensures AppointmentIds(appts + [a]) == AppointmentIds(appts) + [a.id]
  {
  }

  /** The range of an SQLite `INTEGER`: a signed 64-bit value. */
  const Int64Min := -0x8000_0000_0000_0000
  const Int64Max := 0x7FFF_FFFF_FFFF_FFFF

  predicate IsInt64(n: int) {
    Int64Min <= n <= Int64Max
  }

  predicate StrictlyIncreasing(ids: seq<int>) {
    forall i, j :: 0 <= i < j < |ids| ==> ids[i] < ids[j]
  }

  /**
   * The state every operation keeps: each table is in row-id order with no
   * id twice (a primary key), and every appointment's two foreign keys
   * resolve to an existing doctor and an existing patient.
   */
  predicate Valid(db: Db)
    ensures Valid(db) ==> forall i, j :: 0 <= i < j < |db.doctors| ==> db.doctors[i].id != db.doctors[j].id
    ensures Valid(db) ==> forall i, j :: 0 <= i < j < |db.patients| ==> db.patients[i].id != db.patients[j].id
    ensures Valid(db) ==> forall a :: a in db.appointments ==>
              FindDoctor(db.doctors, a.doctorId).Some? && FindPatient(db.patients, a.patientId).Some?
  {
    && StrictlyIncreasing(DoctorIds(db.doctors))
    && StrictlyIncreasing(PatientIds(db.patients))
    && StrictlyIncreasing(AppointmentIds(db.appointments))
    && forall a :: a in db.appointments ==>
         a.doctorId in DoctorIds(db.doctors) && a.patientId in PatientIds(db.patients)
  }

  /** The invariant from its four parts. */
  lemma ValidFromParts(db: Db)
    requires StrictlyIncreasing(DoctorIds(db.doctors))
    requires StrictlyIncreasing(PatientIds(db.patients))
    requires StrictlyIncreasing(AppointmentIds(db.appointments))
    requires forall a :: a in db.appointments ==>
               a.doctorId in DoctorIds(db.doctors) && a.patientId in PatientIds(db.patients)
    ensures Valid(db)
  {
  }

  /** The id SQLite gives the next row inserted into a table holding `ids`. */
  function NextRowId(ids: seq<int>): (r: int)
    ensures forall i :: 0 <= i < |ids| ==> ids[i] < r
    ensures ids == [] ==> r == 1
    ensures ids != [] ==> r - 1 in ids
  {
    if ids == [] then 1
    else if |ids| == 1 then ids[0] + 1
    else
      var r := NextRowId(ids[..|ids| - 1]);
      if r < ids[|ids| - 1] + 1 then ids[|ids| - 1] + 1 else r
  }

  /** When the rows are in id order, the next id is one past the last one. */
  lemma {:induction false} NextRowIdAfterLast(ids: seq<int>)
    requires StrictlyIncreasing(ids) && ids != []
    ensures NextRowId(ids) == ids[|ids| - 1] + 1
  {
    var r := NextRowId(ids);
    var k :| 0 <= k < |ids| && ids[k] == r - 1;
    assert ids[|ids| - 1] < r;
  }

  /** Appending a row with the next id keeps a table in id order. */
  lemma AppendNextKeepsOrder(ids: seq<int>)
    requires StrictlyIncreasing(ids)
    ensures StrictlyIncreasing(ids + [NextRowId(ids)])
  {
  }

  /**
   * `SELECT * FROM doctors WHERE doctor_id = ?` followed by `fetchone()`:
   * the first doctor with that id, if any.
   */
  function FindDoctor(ds: seq<Doctor>, id: int): (r: Option<Doctor>)
    ensures r.Some? <==> id in DoctorIds(ds)
    ensures r.Some? ==> r.value in ds && r.value.id == id
  {
    if ds == [] then None
    else if ds[0].id == id then Some(ds[0])
    else
      assert DoctorIds(ds) == [ds[0].id] + DoctorIds(ds[1..]);
      FindDoctor(ds[1..], id)
  }

  /** The patient with the given id, if any (the join's patient side). */
  function FindPatient(ps: seq<Patient>, id: int): (r: Option<Patient>)
    ensures r.Some? <==> id in PatientIds(ps)
    ensures r.Some? ==> r.value in ps && r.value.id == id
  {
    if ps == [] then None
    else if ps[0].id == id then Some(ps[0])
    else
      assert PatientIds(ps) == [ps[0].id] + PatientIds(ps[1..]);
      FindPatient(ps[1..], id)
  }

  lemma IncreasingTail(ids: seq<int>)
    requires StrictlyIncreasing(ids) && ids != []
    ensures StrictlyIncreasing(ids[1..])
  {
  }

  /** Among rows with distinct ids, a lookup returns the one row holding the id. */
  lemma {:induction false} FindDoctorUnique(ds: seq<Doctor>, k: nat)
    requires StrictlyIncreasing(DoctorIds(ds)) && k < |ds|
    ensures FindDoctor(ds, ds[k].id) == Some(ds[k])
  {
    if k > 0 {
      assert DoctorIds(ds)[0] < DoctorIds(ds)[k];
      assert DoctorIds(ds[1..]) == DoctorIds(ds)[1..];
      IncreasingTail(DoctorIds(ds));
      FindDoctorUnique(ds[1..], k - 1);
    }
  }

  lemma {:induction false} FindPatientUnique(ps: seq<Patient>, k: nat)
    requires StrictlyIncreasing(PatientIds(ps)) && k < |ps|
    ensures FindPatient(ps, ps[k].id) == Some(ps[k])
  {
    if k > 0 {
      assert PatientIds(ps)[0] < PatientIds(ps)[k];
      assert PatientIds(ps[1..]) == PatientIds(ps)[1..];
      IncreasingTail(PatientIds(ps));
      FindPatientUnique(ps[1..], k - 1);
    }
  }

  /** The (name, specialization) pairs inserted into an empty doctors table. */
  const DefaultDoctors: seq<(string, string)> := [
    ("Dr. Vinod kumar", "Cardiology"),
    ("Dr. Shaibi Mukerjee", "Pediatrics"),
    ("Dr. David Pandey", "Orthopedics"),
    ("Dr. Praveen Brown", "Dermatology"),
    ("Dr. Michael Pawar", "Ophthalmology")
  ]

  /**
   * The doctors table after `executemany` inserts `pairs` one row at a time,
   * each row taking the id SQLite allocates at that point.
   */
  function InsertDoctors(ds: seq<Doctor>, pairs: seq<(string, string)>): (r: seq<Doctor>)
    ensures |r| == |ds| + |pairs| && r[..|ds|] == ds
    ensures forall k :: 0 <= k < |pairs| ==>
              r[|ds| + k].name == pairs[k].0 && r[|ds| + k].specialization == Some(pairs[k].1)
    ensures StrictlyIncreasing(DoctorIds(ds)) ==> StrictlyIncreasing(DoctorIds(r))
  {
    if pairs == [] then ds
    else
      var before := InsertDoctors(ds, pairs[..|pairs| - 1]);
      var (name, specialization) := pairs[|pairs| - 1];
      assert StrictlyIncreasing(DoctorIds(ds)) ==> StrictlyIncreasing(DoctorIds(before) + [NextRowId(DoctorIds(before))]) by {
        if StrictlyIncreasing(DoctorIds(ds)) {
          AppendNextKeepsOrder(DoctorIds(before));
        }
      }
      var d := Doctor(NextRowId(DoctorIds(before)), name, Some(specialization));
      DoctorIdsAppend(before, d);
      before + [d]
  }

  /** Inserting one more pair appends one row with the next id. */
  lemma InsertDoctorsStep(ds: seq<Doctor>, pairs: seq<(string, string)>, i: nat)
    requires i < |pairs|
    ensures var before := InsertDoctors(ds, pairs[..i]);
            InsertDoctors(ds, pairs[..i + 1])
              == before + [Doctor(NextRowId(DoctorIds(before)), pairs[i].0, Some(pairs[i].1))]
  {
    assert pairs[..i + 1][..i] == pairs[..i];
  }

  /** In a table in id order, the inserted rows take consecutive ids after the last one. */
  lemma {:induction false} InsertDoctorsIds(ds: seq<Doctor>, pairs: seq<(string, string)>, k: nat)
    requires StrictlyIncreasing(DoctorIds(ds)) && k < |pairs|
    ensures InsertDoctors(ds, pairs)[|ds| + k].id == NextRowId(DoctorIds(ds)) + k
  {
    var before := InsertDoctors(ds, pairs[..|pairs| - 1]);
    if k < |pairs| - 1 {
      InsertDoctorsIds(ds, pairs[..|pairs| - 1], k);
    } else if k > 0 {
      InsertDoctorsIds(ds, pairs[..|pairs| - 1], k - 1);
      NextRowIdAfterLast(DoctorIds(before));
    } else if before != [] {
      NextRowIdAfterLast(DoctorIds(before));
      if ds != [] {
        NextRowIdAfterLast(DoctorIds(ds));
        assert before[|ds| - 1] == ds[|ds| - 1];
      }
    }
  }

  /**
   * Start-up seeding: `SELECT COUNT(*) FROM doctors` and, when it is zero,
   * the batch insert of the default doctors. The other tables are untouched.
   */
  function SeedIfEmpty(db: Db): (r: Db)
    ensures r.patients == db.patients && r.appointments == db.appointments
    ensures |db.doctors| > 0 ==> r == db
    ensures |r.doctors| > 0
  {
    if |db.doctors| == 0 then db.(doctors := InsertDoctors(db.doctors, DefaultDoctors))
    else db
  }

  /** Inserting pairs into an empty table gives them ids 1, 2, 3, ... in order. */
  lemma InsertIntoEmpty(pairs: seq<(string, string)>)
    ensures |InsertDoctors([], pairs)| == |pairs|
    ensures forall k :: 0 <= k < |pairs| ==>
              InsertDoctors([], pairs)[k] == Doctor(k + 1, pairs[k].0, Some(pairs[k].1))
  {
    var r := InsertDoctors([], pairs);
    assert NextRowId(DoctorIds([])) == 1 by {
      assert DoctorIds([]) == [];
    }
    forall k | 0 <= k < |pairs|
      ensures r[k] == Doctor(k + 1, pairs[k].0, Some(pairs[k].1))
    {
      InsertDoctorsIds([], pairs, k);
      assert r[k].id == k + 1;
      assert r[0 + k].name == pairs[k].0 && r[0 + k].specialization == Some(pairs[k].1);
    }
  }

  /**
   * Seeding an empty doctors table leaves it holding exactly the default
   * pairs, in list order, with ids 1, 2, 3, ...
   */
  lemma SeedEmptyTable(db: Db)
    requires db.doctors == []
    ensures |SeedIfEmpty(db).doctors| == |DefaultDoctors|
    ensures forall k :: 0 <= k < |DefaultDoctors| ==>
              SeedIfEmpty(db).doctors[k]
                == Doctor(k + 1, DefaultDoctors[k].0, Some(DefaultDoctors[k].1))
  {
    InsertIntoEmpty(DefaultDoctors);
  }

  /** The doctors table of a new database file once start-up has run. */
  const SeededDoctors: seq<Doctor> := [
    Doctor(1, "Dr. Vinod kumar", Some("Cardiology")),
    Doctor(2, "Dr. Shaibi Mukerjee", Some("Pediatrics")),
    Doctor(3, "Dr. David Pandey", Some("Orthopedics")),
    Doctor(4, "Dr. Praveen Brown", Some("Dermatology")),
    Doctor(5, "Dr. Michael Pawar", Some("Ophthalmology"))
  ]

  lemma SeedNewFile()
    ensures SeedIfEmpty(EmptyDb) == Db(SeededDoctors, [], [])
  {
    SeedEmptyTable(EmptyDb);
    var ds := SeedIfEmpty(EmptyDb).doctors;
    assert ds[0] == SeededDoctors[0] && ds[1] == SeededDoctors[1] && ds[2] == SeededDoctors[2];
    assert ds[3] == SeededDoctors[3] && ds[4] == SeededDoctors[4];
  }

  /** Running the start-up check a second time adds nothing. */
  lemma SeedIdempotent(db: Db)
    ensures SeedIfEmpty(SeedIfEmpty(db)) == SeedIfEmpty(db)
  {
  }

  lemma {:induction false} SeedPreservesValid(db: Db)
    requires Valid(db)
    ensures Valid(SeedIfEmpty(db))
  {
    var r := SeedIfEmpty(db);
    forall a | a in r.appointments
      ensures a.doctorId in DoctorIds(r.doctors)
    {
      var i :| 0 <= i < |db.doctors| && db.doctors[i].id == a.doctorId;
      assert r.doctors[i] == db.doctors[i];
    }
  }
}
