# Hospital appointment booking: a verified model of the booking store

The program is a one-window Tk form over a SQLite file `hospital.db` with
three tables: `doctors`, `patients` and `appointments`. At start-up it seeds
five fixed doctors if the doctors table is empty. "Schedule Appointment"
strips the two form fields, rejects a blank field, rejects a doctor id that is
not an integer and rejects an id no doctor has. An id too large for a 64-bit
query parameter makes the lookup raise an error the handler does not catch. Otherwise it inserts a new
patient, takes that row's id and inserts an appointment linking the patient to
the doctor, dated today. "View Available Doctors" lists every doctor row.
"View Scheduled Appointments" lists the inner join of appointments with
doctors and patients.

This project models the effect of those SQL statements on the three tables,
not SQLite itself:

- `Tables`: the rows, the database value `Db`, and the invariant `Valid`.
  The invariant says each table is in row-id order with distinct ids, and
  every appointment's doctor and patient ids resolve. The module also holds
  SQLite's row-id allocation, the doctor lookup and the seeding step.
- `Text`: Python's `str.strip()` with the exact `str.isspace()` set, a
  simplified `int()`, and `str()` of an integer.
- `Booking`: the booking handler as a function `Book` from a database and
  the two raw field texts to the new database and an `Outcome`. The
  outcomes `Scheduled`, `MissingInput`, `InvalidDoctorId` and
  `DoctorNotFound(id)` each stand for one message box. `IdOutOfRange(id)`
  stands for the uncaught `OverflowError`, which shows no box and changes
  nothing.
- `Views`: the doctors listing, the appointments join and the message texts.
- `Store`: the shared connection as an object, `HospitalStore`, whose
  methods update its three table fields step by step as the Python code does.
  Each method is proved equal to the matching function above.
- `Scenarios`: a new database file after start-up, and typed entries
  applied to it.

Row ids follow SQLite's rule for an `INTEGER PRIMARY KEY` declared without
`AUTOINCREMENT`: one more than the largest id in use, or 1 in an empty table.
There are no deletes, so ids only ever grow. The date that `date('now')`
supplies is the parameter `today`.

The code shows different messages for a blank field and for a non-numeric
id, so the model has two outcomes for them. The code commits once after both
inserts of a booking, so the model treats the pair of inserts as one state
change.

Python's `int()` refuses a numeral of more than 4300 digits (CPython's
default `sys.get_int_max_str_digits()`), and Python's `sqlite3` module cannot
bind an integer outside the signed 64-bit range. Both limits are modelled:
the first as `Text.MaxStrDigits`, the second as `Tables.IsInt64`.

## Model

| member | source | states |
|---|---|---|
| `Text.Strip` | code1.py:82-83 | the stripped field is empty exactly when every character of the input is whitespace; a non-empty result starts and ends with non-whitespace |
| `Text.StripIsSlice` | code1.py:82-83 | what strip keeps is one contiguous piece of the input, starting after the leading whitespace |
| `Text.StripDropsOnlySpace` | code1.py:82-83 | everything strip removes, before and after the kept piece, is whitespace |
| `Text.StripIdempotent` | code1.py:82-83 | stripping an already stripped field changes nothing |
| `Text.ParseInt` | code1.py:89-93 | a field is accepted exactly when it is an optional sign then one to 4300 digits, with nothing else. A digit string reads as its decimal value, a plus sign keeps it and a minus sign negates it |
| `Text.NatToString` | code1.py:77 | `str()` of a natural number is a non-empty digit string whose decimal value is that number, with no leading zero |
| `Text.IntToString` | code1.py:77 | `str()` of a number is its digits, whose decimal value is the number and which have no leading zero, after a `-` exactly when it is negative |
| `Text.ParseIntRoundTrip` | code1.py:77 | an id rendered by `str()` with at most 4300 digits has no surrounding whitespace, and `int()` reads it back as the same number |
| `Text.NatToStringLength` | code1.py:77 | a number below 10^k has at most k digits |
| `Text.ShortRendersWithinLimit` | code1.py:90 | a number below 10^k in magnitude, for k up to 4300, renders to at most 4300 digits |
| `Tables.Valid` | code1.py:13-34 | the invariant: in a valid database no two doctors and no two patients share an id, and every appointment's doctor and patient are found by lookup |
| `Tables.DoctorIdsAppend` | code1.py:48 | appending a doctor row appends its id to the id column |
| `Tables.NextRowId` | code1.py:13-21 | a new row's id is larger than every id already in the table; it is 1 for an empty table and otherwise one more than an id in use |
| `Tables.NextRowIdAfterLast` | code1.py:103-104 | in a table kept in id order, the next id is the last row's id plus one |
| `Tables.AppendNextKeepsOrder` | code1.py:103-106 | appending a row with the next id keeps the table in strictly increasing id order |
| `Tables.FindDoctor` | code1.py:96-97 | the lookup finds a doctor exactly when some doctor row has the id, and what it returns is such a row |
| `Tables.FindPatient` | code1.py:112-115 | the patient lookup finds a patient exactly when some patient row has the id, and what it returns is such a row |
| `Tables.FindDoctorUnique` | code1.py:96-97 | with distinct doctor ids, looking up a row's id returns that very row |
| `Tables.FindPatientUnique` | code1.py:112-115 | with distinct patient ids, looking up a row's id returns that very row |
| `Tables.InsertDoctors` | code1.py:48 | the batch insert keeps every existing row, then appends one row per pair, in order, with the pair's name and specialization, and keeps ids increasing |
| `Tables.InsertDoctorsStep` | code1.py:48 | inserting one more pair appends exactly one row carrying the id allocated at that point |
| `Tables.InsertDoctorsIds` | code1.py:48 | the rows of one batch take consecutive ids, the first being the table's next id |
| `Tables.InsertIntoEmpty` | code1.py:48 | a batch insert into an empty doctors table gives its pairs ids 1, 2, 3, ... in list order, with their names and specializations |
| `Tables.SeedIfEmpty` | code1.py:52-55 | start-up seeding never touches patients or appointments, changes nothing when a doctor exists, and always leaves at least one doctor |
| `Tables.SeedEmptyTable` | code1.py:39-55 | seeding an empty doctors table leaves exactly the five default pairs, in list order, with ids 1 to 5 |
| `Tables.SeedNewFile` | code1.py:39-55 | start-up on a new file yields exactly the five seeded doctor rows and empty patient and appointment tables |
| `Tables.SeedIdempotent` | code1.py:52-55 | running the emptiness check a second time adds nothing |
| `Tables.SeedPreservesValid` | code1.py:33-34 | seeding keeps id order and every appointment's references resolvable |
| `Booking.Book` | code1.py:81-108 | a booking never changes the doctors table. A rejected booking changes no table. The outcome is `MissingInput` exactly when a field is blank, and `InvalidDoctorId` exactly when both fields are filled but the id does not parse. It is `IdOutOfRange(n)` exactly when the id parses to `n` outside the 64-bit range, `DoctorNotFound(n)` exactly when it parses to a 64-bit `n` that no doctor has, and `Scheduled` exactly when the parsed id is 64-bit and belongs to a doctor |
| `Booking.BookScheduled` | code1.py:103-107 | a successful booking appends exactly one patient, with the stripped non-empty name and a fresh id. It appends exactly one appointment, with a fresh id, the new patient's id and the requested existing doctor. Every old row is kept |
| `Booking.AppendKeepsReferences` | code1.py:103-106 | an appointment for a new patient and an existing doctor keeps every appointment's references resolvable |
| `Booking.AppendBookingKeepsValid` | code1.py:103-106 | appending a patient and an appointment that take the next ids, and that refer to each other and to an existing doctor, keeps the database valid |
| `Booking.BookPreservesValid` | code1.py:95-106 | every booking keeps the tables in id order and every appointment's doctor and patient resolvable |
| `Booking.BookTwiceTwoPatients` | code1.py:103-104 | booking the same entries twice creates two patient rows with the same name and different ids; nothing is deduplicated |
| `Booking.Int64WithinDigitLimit` | code1.py:13 | every signed 64-bit id renders to a numeral that `int()` accepts |
| `Booking.OutOfRangeIdAborts` | code1.py:95-96 | the numeral `str()` writes for a number outside 64 bits, typed as the doctor id, ends the handler with the tables unchanged and no message |
| `Booking.TooManyDigitsInvalid` | code1.py:89-93 | a digit string longer than 4300 characters is rejected as not a number, whatever its value |
| `Views.RowsWithId` | code1.py:114-115 | every row a join condition matches is a row of the table whose id equals the key |
| `Views.RowsWithIdAbsent` | code1.py:114-115 | a join condition on an id that no row has matches nothing |
| `Views.RowsWithIdUnique` | code1.py:114-115 | with distinct ids, a join condition on a present id matches exactly one row |
| `Views.Cross` | code1.py:114-115 | every row the nested-loop join of one appointment gives pairs it with one of the given doctors and one of the given patients |
| `Views.JoinedRows` | code1.py:114-115 | every row an appointment contributes pairs it with a doctor and a patient whose ids equal its two keys |
| `Views.JoinRows` | code1.py:111-116 | every row of the join of a run of appointments comes from one of them, with a doctor and a patient its keys name |
| `Views.Join` | code1.py:111-116 | every row of the appointments query combines an appointment with a doctor and a patient whose ids are its two keys |
| `Views.JoinedRowsResolve` | code1.py:111-116 | under primary keys an appointment contributes to the join exactly the row built from its looked-up doctor and patient, or no row when either is missing |
| `Views.JoinOnePerAppointment` | code1.py:111-117 | in a valid database the join yields exactly one row per appointment, in appointment order, each carrying that appointment's doctor and patient |
| `Views.JoinRowsOnePerAppointment` | code1.py:111-117 | the same as above, for any part of the appointments table |
| `Views.JoinRowsNewPatient` | code1.py:103 | adding a patient that no appointment refers to leaves the join unchanged |
| `Views.JoinAfterBook` | code1.py:110-117 | after a successful booking the join is the old join plus one row: the new appointment id, the doctor's name and specialization, the stripped patient name and the booking date |
| `Views.JoinLines` | code1.py:77 | joining non-empty lines with newlines starts with the first line's first character |
| `Views.AvailableDoctorsText` | code1.py:73-79 | the doctors box shows "No doctors available." exactly when the doctors table is empty |
| `Views.ScheduledAppointmentsText` | code1.py:110-122 | the appointments box shows "No appointments scheduled." exactly when the join is empty |
| `Views.DoctorLine` | code1.py:77 | each line of the doctors listing begins with the doctor's id as `str()` writes it and `": "`, and ends with `)`. A doctor without a specialization shows `(None)` |
| `Views.AppointmentBlock` | code1.py:119 | each block of the appointments listing begins with the line `Appointment ID: ` and the id as `str()` writes it, and ends with a newline |
| `Views.ListedIdBooksDoctor` | code1.py:77-106 | typing a listed doctor's 64-bit id, with any non-blank name, schedules an appointment with that doctor, which then shows in the join under that doctor's name |
| `Scenarios.FreshDbListings` | code1.py:52-79 | start-up on a new file gives a valid database with doctor ids 1 to 5. The doctors box does not show the empty-table text, and the appointments box says none are scheduled |
| `Scenarios.BlankField` | code1.py:85-87 | an empty name, or an id of only spaces, is rejected as missing input and leaves the tables unchanged |
| `Scenarios.FreshDbNotANumber` | code1.py:89-93 | the id `3a` is rejected as not a number and leaves the tables unchanged |
| `Scenarios.UnknownDoctor` | code1.py:95-101 | the id `9999` in the seeded database is rejected as not found, carrying 9999, and leaves the tables unchanged |
| `Scenarios.NegativeZeroDoctor` | code1.py:89-101 | the id `-0` parses to 0 and is reported as doctor 0 not found |
| `Scenarios.FreshDbOverflowingId` | code1.py:89-96 | the id 2^63 is read by `int()` but cannot be bound to the lookup: the handler ends with the tables unchanged and no message |
| `Scenarios.FreshDbZeroPaddedId` | code1.py:89-93 | 4300 zeros followed by `1` is rejected as not a number, although its value is a listed id |
| `Scenarios.BookFirstDoctor` | code1.py:103-117 | in a database with doctor 1 and no bookings, booking doctor 1 succeeds and the join is that single row |
| `Scenarios.FreshDbBooking` | code1.py:82-117 | on a new file, booking " Alice " with id `+1` succeeds and the appointments listing is one row: id 1, Dr. Vinod kumar (Cardiology), Alice, today |
| `Store.HospitalStore.Open` | code1.py:7-36 | connecting leaves the tables as the file holds them; a new file gives three empty tables |
| `Store.HospitalStore.InsertDoctorRows` | code1.py:48 | the loop inserts the pairs one by one and ends with the doctors table that the batch insert specifies; the other tables are untouched |
| `Store.HospitalStore.InsertDefaultDoctors` | code1.py:39-49 | inserting the five default pairs changes the store as the batch insert of those pairs specifies; the other tables are untouched |
| `Store.HospitalStore.SeedDefaultDoctorsIfEmpty` | code1.py:52-55 | the start-up check changes the store exactly as the seeding step specifies and keeps the invariant |
| `Store.HospitalStore.ScheduleAppointment` | code1.py:81-108 | the handler's guards, the 64-bit binding of the id, the lookup and the two inserts give exactly the new tables and the outcome of the booking step, including the uncaught overflow, and keep the invariant |

## Left out

- The Tk window, its labels, entries, buttons and event loop (code1.py:57-70, 124-147): layout with no logic. The two entry texts are parameters.
- The background image (code1.py:62-66): a foreign library and file I/O.
- The SQLite connection, cursor, `commit` and `close` (code1.py:7-8, 49, 107, 150). The paired inserts are one state change, so durability and crash atomicity are not modelled.
- Schema creation (code1.py:11-36) is modelled only by its effect: an existing file keeps its rows, and a new file starts with three empty tables.
- SQLite does not enforce the FOREIGN KEY clauses (code1.py:33-34) unless a pragma turns them on. In the model, referential integrity is the invariant `Valid`, which the operations are proved to keep.
- `date('now')` (code1.py:106): the clock is the parameter `today`.
- Message boxes (code1.py:77-122) become `Outcome` values and listing texts. Popups, titles and warning icons are not modelled.
- `Text.ParseInt`: deliberately simpler than Python's `int()`. It does not accept underscores between digits or non-ASCII decimal digits. Its 4300-digit limit is CPython's default from 3.11 on; a program that changes it with `sys.set_int_max_str_digits`, or a Python without the limit, is not modelled.
- `Booking.Book`: for an id outside 64 bits, Tk's report of the uncaught `OverflowError` on standard error is not modelled; the outcome `IdOutOfRange` stands for it.
- `Tables.NextRowId`: does not model SQLite falling back to a random unused id once the largest id reaches 2^63 - 1. Stored ids are unbounded integers; only the id typed into the form is checked against the 64-bit range.
- `Views.Join`: scans appointments in table order. SQLite's query planner may pick another order, and the source promises none.
- The unused `phone` column (code1.py:23) is not a field of `Patient`.
- Rows come back in id order because the table sequences are kept in row-id order. `SELECT *` without `ORDER BY` does not strictly promise this.
