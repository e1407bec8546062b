/**
 * The process-wide database connection the form's handlers share, as an
 * object whose three tables the start-up code and the booking handler
 * update in place. The read-only listings are the functions of the Views
 * module applied to `Snapshot()`.
 */
module Store {
  import opened Options
  import opened Text
  import opened Tables
  import opened Booking

  class HospitalStore {
    var doctors: seq<Doctor>
    var patients: seq<Patient>
    var appointments: seq<Appointment>

    /** The tables as they stand. */
    function Snapshot(): Db
      reads this
    {
      Db(doctors, patients, appointments)
    }

    /**
     * Connecting to the database file; `onDisk` is what the file already
     * holds (`EmptyDb` for a new file), which the `CREATE TABLE IF NOT EXISTS`
     * statements leave as it is.
     */
    constructor Open(onDisk: Db)
      ensures Snapshot() == onDisk
    {
      doctors, patients, appointments := onDisk.doctors, onDisk.patients, onDisk.appointments;
    }

    /** `executemany` of the doctors insert: one row per pair, in order, each with the next id. */
    method InsertDoctorRows(pairs: seq<(string, string)>)
      modifies this
      ensures doctors == InsertDoctors(old(doctors), pairs)
      ensures patients == old(patients) && appointments == old(appointments)
    {
      var i := 0;
      while i < |pairs|
        invariant 0 <= i <= |pairs|
        invariant doctors == InsertDoctors(old(doctors), pairs[..i])
        invariant patients == old(patients) && appointments == old(appointments)
      {
        var (name, specialization) := pairs[i];
        var id := NextRowId(DoctorIds(doctors));
        InsertDoctorsStep(old(doctors), pairs, i);
        doctors := doctors + [Doctor(id, name, Some(specialization))];
        i := i + 1;
      }
      assert pairs[..i] == pairs;
    }

    /** `insert_default_doctors`: the batch insert of the default pairs. */
    method InsertDefaultDoctors()
      modifies this
      ensures doctors == InsertDoctors(old(doctors), DefaultDoctors)
      ensures patients == old(patients) && appointments == old(appointments)
    {
      InsertDoctorRows(DefaultDoctors);
    }

    /** The start-up check: count the doctors and seed only an empty table. */
    method SeedDefaultDoctorsIfEmpty()
      modifies this
      ensures Snapshot() == SeedIfEmpty(old(Snapshot()))
      ensures Valid(old(Snapshot())) ==> Valid(Snapshot())
    {
      var count := |doctors|;
      if count == 0 {
        InsertDefaultDoctors();
      }
      if Valid(old(Snapshot())) {
        SeedPreservesValid(old(Snapshot()));
      }
    }

    /**
     * `schedule_appointment`: validate the two fields, look the doctor up,
     * then insert the patient, read back its row id and insert the
     * appointment that refers to it. `today` stands for `date('now')`.
     */
    method ScheduleAppointment(patientEntry: string, doctorIdEntry: string, today: string)
      returns (outcome: Outcome)
      modifies this
      ensures Book(old(Snapshot()), patientEntry, doctorIdEntry, today) == Booked(Snapshot(), outcome)
      ensures Valid(old(Snapshot())) ==> Valid(Snapshot())
    {
      ghost var before := Snapshot();
      if Valid(before) {
        BookPreservesValid(before, patientEntry, doctorIdEntry, today);
      }
      var patientName := Strip(patientEntry);
      var doctorIdText := Strip(doctorIdEntry);
      if patientName == [] || doctorIdText == [] {
        return MissingInput;
      }
      var parsed := ParseInt(doctorIdText);
      if parsed.None? {
        return InvalidDoctorId;
      }
      var doctorId := parsed.value;
      if !IsInt64(doctorId) {
        return IdOutOfRange(doctorId);
      }
      var doctor := FindDoctor(doctors, doctorId);
      if doctor.None? {
        return DoctorNotFound(doctorId);
      }
      patients := patients + [Patient(NextRowId(PatientIds(patients)), patientName)];
      var patientId := patients[|patients| - 1].id;
      appointments := appointments + [Appointment(NextRowId(AppointmentIds(appointments)), doctorId, patientId, today)];
      outcome := Scheduled;
    }
  }
}
