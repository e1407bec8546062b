/**
 * A new database file: start-up seeding, then entries typed into the form.
 * The lemmas take the typed text as parameters fixed by their requires
 * clauses rather than as literals in the ensures, so that the solver works
 * with names for the strings instead of unfolding them.
 */
module Scenarios {
  import opened Options
  import opened Text
  import opened Tables
  import opened Booking
  import opened Views

  /** The database every start-up on a new file produces. */
  const FreshDb := Db(SeededDoctors, [], [])

  lemma FreshDbListings()
    ensures SeedIfEmpty(EmptyDb) == FreshDb
    ensures Valid(FreshDb) && DoctorIds(FreshDb.doctors) == [1, 2, 3, 4, 5]
    ensures AvailableDoctorsText(FreshDb) != NoDoctorsText
    ensures ScheduledAppointmentsText(FreshDb) == NoAppointmentsText
  {
    SeedNewFile();
    assert DoctorIds(FreshDb.doctors)[4] == 5;
  }

  /** A blank field is reported before the id is even parsed. */
  lemma BlankField(db: Db, today: string)
    ensures Book(db, "", "3", today) == Booked(db, MissingInput)
    ensures Book(db, "Alice", "  ", today) == Booked(db, MissingInput)
  {
    assert AllSpace("  ") by { assert IsSpace("  "[0]) && IsSpace("  "[1]); }
  }

  lemma NotANumber()
    ensures !AllSpace("3a") && Strip("3a") == "3a" && ParseInt("3a") == None
  {
    assert !IsSpace("3a"[0]);
    StripTrimmed("3a");
    assert !IsDigit("3a"[1]);
  }

  lemma FreshDbNotANumber(db: Db, patientEntry: string, doctorIdEntry: string, today: string)
    requires db == FreshDb && patientEntry == "Alice" && doctorIdEntry == "3a"
    ensures Book(db, patientEntry, doctorIdEntry, today) == Booked(db, InvalidDoctorId)
  {
    assert !AllSpace(patientEntry) by { assert !IsSpace(patientEntry[0]); }
    NotANumber();
  }

  lemma ParseLarge()
    ensures !AllSpace("9999") && Strip("9999") == "9999" && ParseInt("9999") == Some(9999)
  {
    assert !IsSpace("9999"[0]);
    StripTrimmed("9999");
    assert "9999"[..3] == "999";
    assert "999"[..2] == "99";
    assert "99"[..1] == "9";
    assert "9"[..0] == "";
  }

  /** An id no doctor has is reported with the parsed number. */
  lemma UnknownDoctor(db: Db, patientEntry: string, doctorIdEntry: string, today: string)
    requires DoctorIds(db.doctors) == [1, 2, 3, 4, 5]
    requires patientEntry == "Alice" && doctorIdEntry == "9999"
    ensures Book(db, patientEntry, doctorIdEntry, today) == Booked(db, DoctorNotFound(9999))
  {
    assert !AllSpace(patientEntry) by { assert !IsSpace(patientEntry[0]); }
    ParseLarge();
    assert !Blank(patientEntry, doctorIdEntry);
    assert ParseInt(Strip(doctorIdEntry)) == Some(9999);
    assert 9999 !in DoctorIds(db.doctors);
  }

  lemma ParseNegativeZero()
    ensures !AllSpace("-0") && Strip("-0") == "-0" && ParseInt("-0") == Some(0)
  {
    assert !IsSpace("-0"[0]);
    StripTrimmed("-0");
    assert "-0"[1..] == "0";
  }

  /** `-0` parses to 0, which no doctor has. */
  lemma NegativeZeroDoctor(db: Db, patientEntry: string, doctorIdEntry: string, today: string)
    requires DoctorIds(db.doctors) == [1, 2, 3, 4, 5]
    requires patientEntry == "Alice" && doctorIdEntry == "-0"
    ensures Book(db, patientEntry, doctorIdEntry, today) == Booked(db, DoctorNotFound(0))
  {
    assert !AllSpace(patientEntry) by { assert !IsSpace(patientEntry[0]); }
    ParseNegativeZero();
    assert !Blank(patientEntry, doctorIdEntry);
    assert ParseInt(Strip(doctorIdEntry)) == Some(0);
    assert 0 !in DoctorIds(db.doctors);
  }

  lemma StripPadded()
    ensures Strip(" Alice ") == "Alice"
  {
    assert LeadingSpace("Alice ") == 0;
    assert " Alice "[1..] == "Alice ";
    assert LeadingSpace(" Alice ") == 1;
    var rest := " Alice "[1..];
    assert TrailingSpace(rest[..5]) == 0;
    assert rest[..|rest| - 1] == rest[..5];
    assert TrailingSpace(rest) == 1;
  }

  lemma ParsePlusOne()
    ensures Strip("+1") == "+1" && ParseInt("+1") == Some(1)
  {
    StripTrimmed("+1");
    assert "+1"[1..] == "1";
  }

  /** Booking doctor 1 into a database that holds no appointment yet. */
  lemma BookFirstDoctor(db: Db, patientEntry: string, doctorIdEntry: string, today: string)
    requires Valid(db) && db.appointments == [] && db.patients == []
    requires |db.doctors| > 0 && db.doctors[0].id == 1
    requires Strip(patientEntry) != [] && Strip(doctorIdEntry) != []
    requires ParseInt(Strip(doctorIdEntry)) == Some(1)
    ensures Book(db, patientEntry, doctorIdEntry, today).outcome == Scheduled
    ensures Join(Book(db, patientEntry, doctorIdEntry, today).db)
              == [AppointmentView(1, db.doctors[0].name, db.doctors[0].specialization, Strip(patientEntry), today)]
  {
    assert DoctorIds(db.doctors)[0] == 1;
    FindDoctorUnique(db.doctors, 0);
    JoinAfterBook(db, patientEntry, doctorIdEntry, today);
  }

  /** Surrounding spaces are stripped from the name, a `+` sign is accepted. */
  lemma FreshDbBooking(db: Db, patientEntry: string, doctorIdEntry: string, today: string)
    requires db == FreshDb && patientEntry == " Alice " && doctorIdEntry == "+1"
    ensures Book(db, patientEntry, doctorIdEntry, today).outcome == Scheduled
    ensures Join(Book(db, patientEntry, doctorIdEntry, today).db)
              == [AppointmentView(1, "Dr. Vinod kumar", Some("Cardiology"), "Alice", today)]
  {
    StripPadded();
    ParsePlusOne();
    FreshDbListings();
    BookFirstDoctor(db, patientEntry, doctorIdEntry, today);
  }

  /** 2^63, one past the largest 64-bit id, is read by `int()` but cannot be bound to the query. */
  lemma FreshDbOverflowingId(db: Db, patientEntry: string, n: int, today: string)
    requires db == FreshDb && patientEntry == "Alice" && n == Int64Max + 1
    ensures Book(db, patientEntry, IntToString(n), today) == Booked(db, IdOutOfRange(n))
  {
    assert !AllSpace(patientEntry) by { assert !IsSpace(patientEntry[0]); }
    Pow10Of19();
    ShortRendersWithinLimit(n, 19);
    OutOfRangeIdAborts(db, patientEntry, n, today);
  }

  /** `MaxStrDigits` zeros and then a `1`: one digit too many for `int()`. */
  lemma FreshDbZeroPaddedId(db: Db, patientEntry: string, doctorIdEntry: string, today: string)
    requires db == FreshDb && patientEntry == "Alice"
    requires doctorIdEntry == seq(MaxStrDigits, _ => '0') + "1"
    ensures Book(db, patientEntry, doctorIdEntry, today) == Booked(db, InvalidDoctorId)
  {
    assert !AllSpace(patientEntry) by { assert !IsSpace(patientEntry[0]); }
    assert AllDigits(doctorIdEntry) by {
      forall i | 0 <= i < |doctorIdEntry|
        ensures IsDigit(doctorIdEntry[i])
      {
        if i < MaxStrDigits {
          assert doctorIdEntry[i] == '0';
        }
      }
    }
    TooManyDigitsInvalid(db, patientEntry, doctorIdEntry, today);
  }
}
