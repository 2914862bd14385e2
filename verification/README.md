# Medical agenda services and gallery post list, in Dafny

This project models two small pieces of decision logic from the *Sistemas Distribuidos* practice repository.

1. **The three Flask/SQLAlchemy CRUD services** of `Practica8_Docker`: appointments, doctors and patients.
   - Each service keeps one table of rows keyed by an integer id.
   - Four handlers become pure functions from the table and the request to a `Step`, which holds the response and the table after the request:
     - `get`, `put` and `delete` on `/<entity>/<id>`;
     - `post` on `/<entity>`.
   - The list handler, `get` on `/<entity>`, is a method. It returns every stored row's `to_dict` exactly once, in an unspecified order, and it does not touch the table.
   - The appointment handlers also check `date` and `time` with `datetime.strptime`. These checks are modelled on the grammar CPython's `_strptime` actually uses.
2. **The post list of the React photo gallery** in `practica7_pwa_Docker/src/App.js`:
   - the three state updates `handleAddPost`, `handleDeletePost` and `handleToggleLike`;
   - the guard of the upload form's `handleSubmit`, which refuses a blank title or a missing image.

Modules, one file each:

| file | module | contents |
|---|---|---|
| `json.dfy` | `Json` | JSON scalars, the request body (`NoBody` or an object), `dict.get`, the overwrite rule of a partial update |
| `store.dfy` | `Store` | the shared table (`map<int, R>`), `Response`, `Step`; get, delete, insert, replace and list |
| `strptime.dfy` | `Strptime` | `IsDate` / `IsTime` as strptime's grammar and the calendar check; the same sets described as spellings of real dates and clock times; proofs that the two agree |
| `appointments.dfy` | `Appointments` | `Appointment`, `to_dict`, create, update and list, with their preservation and example lemmas |
| `doctors.dfy` | `Doctors` | the same for `Doctor` |
| `patients.dfy` | `Patients` | the same for `Patient` |
| `gallery.dfy` | `Gallery` | `Post`, the three reducers, JavaScript's `trim`, the submit guard, and the list lemmas |

How the model represents the parts it abstracts:

- **Database ids.** The id the database assigns on insert is a parameter `newId`. The create handlers require `newId !in t`.
- **Crashes.** Three kinds of request make a handler raise instead of answering, and the model turns each into a precondition:
  - `strptime` handed a non-string (TypeError);
  - a commit that writes NULL into a NOT NULL column;
  - the patients PUT whose body is the JSON literal `null` (`data.get` on `None`).
- **Database refusals.** The database also refuses some values that the model stores as given, such as over-long strings and non-integer ids. These are listed under "Left out".
- **Crash predicates are narrow.** Each `…Raises` predicate holds only for requests that actually reach the raising statement. For example, a non-string time after an invalid date is answered with the date error and is not excluded.

In several places the program's comments, messages and defaults suggest a stricter or simpler behaviour than the code has. The model follows the code:

- **Date spellings.** The column comment `# Formato YYYY-MM-DD` and the messages "Use YYYY-MM-DD" (`appointments-service/app.py` lines 38, 73 and 110) describe a zero-padded date. `strptime` also accepts a one-digit month or day and a space-padded day, for example `2025-3-5` and `2025-03- 5`.
- **Time spellings.** The column comment `# Formato HH:MM` and the messages "Use HH:MM" (lines 39, 80 and 115) describe a zero-padded time. `strptime` also accepts `9:5`.
- **Presence checks.** The patient and doctor creates check only that `name` (and `specialty`) are present. An empty string is stored.
- **Empty update.** An update with an empty object gets different answers from the three services:
  - appointments and doctors answer 400 `No input data provided`;
  - patients answers 200 with the stored row.
  - In all three cases the record is unchanged.
- **`status: null` on create.** `default='Scheduled'` (line 40) and `data.get('status', 'Scheduled')` (line 122) give "Scheduled" when the key is absent. An explicit `"status": null` gets it too. The attribute is then `None`, and the ORM leaves a `None` attribute out of an INSERT when its column has a default, so the column default applies. `StatusOnInsert` models this. On an update, `None` is written as NULL.

## Model

| member | source | states |
|---|---|---|
| Store.Get | Practica8_Docker/appointments-service/app.py:57-59 | `get_or_404` then `to_dict`: 200 with the stored row exactly when the id is stored, otherwise 404; the table never changes |
| Store.Delete | Practica8_Docker/appointments-service/app.py:89-93 | 404 with no change for an unknown id; otherwise 204, and exactly that id leaves the table; every other row keeps its value; the table shrinks by one |
| Store.Insert | Practica8_Docker/appointments-service/app.py:124-126 | `add` + `commit` of a new row: 201 with the row under its fresh id; old keys and values kept; the table grows by one |
| Store.Replace | Practica8_Docker/appointments-service/app.py:86-87 | `commit` of a changed row: 200 with the new row; same key set; every other row untouched |
| Store.List | Practica8_Docker/appointments-service/app.py:97-99 | `query.all()`: every stored row exactly once (as many entries as rows, distinct ids, each entry stored, each stored row present); an empty table gives an empty list |
| Store.ListAs | Practica8_Docker/appointments-service/app.py:97-99 | the list comprehension over `query.all()`: one serialized item per stored row, and every stored row's serialization present |
| Store.DeleteThenGet | Practica8_Docker/appointments-service/app.py:89-93 | after a delete of an id, a get of that id is 404 |
| Store.InsertThenGet | Practica8_Docker/appointments-service/app.py:124-126 | after an insert, a get of the new id returns the inserted row |
| Store.SuccessiveInsertsKeepEachRow | Practica8_Docker/appointments-service/app.py:124-126 | two creates in a row add exactly two keys, each new row is retrievable by its id, and every earlier row is unchanged; the ids differ only because each is assumed fresh, since autoincrement is not modelled |
| Appointments.ToDict | Practica8_Docker/appointments-service/app.py:45-53 | the serialized row has exactly the six keys, `id` holding the row's id |
| Appointments.StatusOnInsert | Practica8_Docker/appointments-service/app.py:122 | the stored status is never null: it is the supplied status when that is non-null, otherwise the column default "Scheduled" (line 40) |
| Appointments.Create | Practica8_Docker/appointments-service/app.py:101-126 | 201 exactly when the body has the four keys and a valid date and time; any refusal is 400 with the table unchanged; message precedence missing keys, then date, then time; on success exactly one row under the fresh id, built from the body, with status "Scheduled" when absent or null |
| Appointments.Update | Practica8_Docker/appointments-service/app.py:61-87 | 404 for an unknown id whatever the body; 400 `No input data provided` on an empty body; 200 exactly when present date and time pass; any 400 leaves the table unchanged (the uncommitted date assignment is discarded); date error reported before time error; on success only that row changes, supplied keys overwrite and absent keys keep their values |
| Appointments.List | Practica8_Docker/appointments-service/app.py:97-99 | one serialized row per stored appointment, every stored appointment present |
| Appointments.CreateThenGet | Practica8_Docker/appointments-service/app.py:117-126 | a get of the created id returns the created row |
| Appointments.CreatePreservesValid | Practica8_Docker/appointments-service/app.py:117-126 | a create keeps every row's date and time strptime-valid and its ids non-null |
| Appointments.UpdatePreservesValid | Practica8_Docker/appointments-service/app.py:68-87 | an update keeps that invariant |
| Appointments.DeletePreservesValid | Practica8_Docker/appointments-service/app.py:89-93 | a delete keeps that invariant |
| Appointments.UpdateIsIdempotent | Practica8_Docker/appointments-service/app.py:61-87 | repeating a PUT answers the same and changes nothing further |
| Appointments.UpdateWithOwnDictIsNoOp | Practica8_Docker/appointments-service/app.py:82-87 | PUTting back what a GET returned (extra `id` key included) answers that row and changes nothing |
| Appointments.CreateExample | Practica8_Docker/appointments-service/app.py:117-123 | `{patient_id:1, doctor_id:2, date:"2025-03-15", time:"09:30"}` is stored with status "Scheduled" |
| Appointments.CreateDayFirstRefused | Practica8_Docker/appointments-service/app.py:107-110 | `15-03-2025` is refused with the date message and nothing is stored |
| Appointments.CreateMissingKeyRefused | Practica8_Docker/appointments-service/app.py:102-104 | a `null` body, or a body without `time` (even with a bad date), is refused with the missing-fields message and nothing is stored |
| Appointments.CreateImpossibleDateRefused | Practica8_Docker/appointments-service/app.py:107-115 | `2025-02-30` is refused with the date message, also when the time (`24:00`) is bad too |
| Appointments.CreateOutOfRangeTimeRefused | Practica8_Docker/appointments-service/app.py:112-115 | `24:00` and `09:60` are refused with the time message and nothing is stored |
| Appointments.UpdateImpossibleDateRefused | Practica8_Docker/appointments-service/app.py:68-73 | PUT `{date:"2025-02-30"}` (with or without a bad time) is 400 with the date message and the stored row keeps its date |
| Strptime.IsDate | Practica8_Docker/appointments-service/app.py:108 | `datetime.strptime(s, '%Y-%m-%d')` returns: a four-digit year, a one- or two-character month and day, the whole string consumed, and a real date; an accepted string is 8 to 10 characters with `-` after the year (its full characterisation is `IsDateIffRendersCalendarDate`) |
| Strptime.IsTime | Practica8_Docker/appointments-service/app.py:113 | `datetime.strptime(s, '%H:%M')` returns; an accepted string is 3 to 5 characters with `:` after a one- or two-character hour (its full characterisation is `IsTimeIffRendersClockTime`) |
| Strptime.IsDateIffRendersCalendarDate | Practica8_Docker/appointments-service/app.py:108 | `strptime(s, '%Y-%m-%d')` succeeds exactly when `s` spells a real Gregorian date (year 1..9999) as four-digit year, zero-padded or one-digit month, and zero-padded, one-digit or space-padded day |
| Strptime.IsDateRendersCalendarDate | Practica8_Docker/appointments-service/app.py:108 | every string strptime accepts names an existing calendar date |
| Strptime.RendersCalendarDateIsDate | Practica8_Docker/appointments-service/app.py:108 | every accepted spelling of an existing date passes strptime |
| Strptime.SpelledDateIsDate | Practica8_Docker/appointments-service/app.py:108 | a four-digit year with any month and day spelling of a real date is accepted |
| Strptime.IsTimeIffRendersClockTime | Practica8_Docker/appointments-service/app.py:113 | `strptime(s, '%H:%M')` succeeds exactly when `s` is hour 0..23 and minute 0..59, each zero-padded or one digit |
| Strptime.IsTimeRendersClockTime | Practica8_Docker/appointments-service/app.py:113 | every string strptime accepts is a clock time |
| Strptime.RendersClockTimeIsTime | Practica8_Docker/appointments-service/app.py:113 | every spelling of a clock time passes strptime |
| Strptime.SpelledTimeIsTime | Practica8_Docker/appointments-service/app.py:113 | an hour and minute in range, in either spelling, are accepted |
| Strptime.IsoDateAccepted | Practica8_Docker/appointments-service/app.py:108 | the `YYYY-MM-DD` spelling of every real date is accepted |
| Strptime.AcceptedFitColumns | Practica8_Docker/appointments-service/app.py:38-39 | an accepted date has 8 to 10 characters and an accepted time 3 to 5, so both fit their `String(10)` and `String(5)` columns |
| Strptime.LeapDay | Practica8_Docker/appointments-service/app.py:108 | February 29th is accepted exactly in Gregorian leap years |
| Strptime.AcceptedDates | Practica8_Docker/appointments-service/app.py:108 | `2025-03-15`, `2024-02-29`, `2000-02-29`, `2025-3-5`, `2025-03- 5` are accepted |
| Strptime.RefusedCalendarDates | Practica8_Docker/appointments-service/app.py:108 | `2025-02-30`, `1900-02-29` and `0000-01-01` are refused |
| Strptime.RefusedDateShapes | Practica8_Docker/appointments-service/app.py:108 | `15-03-2025`, `2025-03-15 ` (trailing space) and `2025-13-01` are refused |
| Strptime.AcceptedTimes | Practica8_Docker/appointments-service/app.py:113 | `09:30`, `23:59`, `9:5` and `00:00` are accepted |
| Strptime.RefusedTimes | Practica8_Docker/appointments-service/app.py:113 | `24:00`, `09:60`, `09:30:00` and `0930` are refused |
| Doctors.ToDict | Practica8_Docker/doctors-service/app.py:43-49 | the serialized row has exactly the four keys, `id` holding the row's id |
| Doctors.Create | Practica8_Docker/doctors-service/app.py:82-94 | 201 exactly when `name` and `specialty` are present (presence only); otherwise 400 `Name and specialty are required` with the table unchanged; on success one row under the fresh id, `availability` as supplied or null |
| Doctors.Update | Practica8_Docker/doctors-service/app.py:57-68 | 404 for an unknown id; 400 with no change on an empty body; otherwise 200, only that row changes, supplied keys overwrite and absent keys are kept |
| Doctors.List | Practica8_Docker/doctors-service/app.py:78-80 | one serialized row per stored doctor, every stored doctor present |
| Doctors.CreateThenGet | Practica8_Docker/doctors-service/app.py:87-94 | a get of the created id returns the created row |
| Doctors.EmptyNamesAccepted | Practica8_Docker/doctors-service/app.py:84-85 | empty-string name and specialty are stored as given |
| Doctors.CreatePreservesValid | Practica8_Docker/doctors-service/app.py:87-94 | a create keeps `name` and `specialty` non-null in every row |
| Doctors.UpdatePreservesValid | Practica8_Docker/doctors-service/app.py:63-68 | an update keeps that invariant |
| Doctors.UpdateIsIdempotent | Practica8_Docker/doctors-service/app.py:57-68 | repeating a PUT answers the same and changes nothing further |
| Doctors.UpdateWithOwnDictIsNoOp | Practica8_Docker/doctors-service/app.py:63-68 | PUTting back what a GET returned changes nothing |
| Patients.ToDict | Practica8_Docker/patients-service/app.py:47-53 | the serialized row has exactly the four keys, `id` holding the row's id |
| Patients.Create | Practica8_Docker/patients-service/app.py:81-88 | 201 exactly when `name` is present (presence only); otherwise 400 `Name is required` with the table unchanged; on success one row under the fresh id, `dob` and `history` as supplied or null |
| Patients.Update | Practica8_Docker/patients-service/app.py:61-68 | 404 for an unknown id; otherwise always 200 (no empty-body guard), only that row changes, supplied keys overwrite and absent keys are kept |
| Patients.List | Practica8_Docker/patients-service/app.py:77-79 | one serialized row per stored patient, every stored patient present |
| Patients.CreateThenGet | Practica8_Docker/patients-service/app.py:85-88 | a get of the created id returns the created row |
| Patients.EmptyUpdateIsNoOp | Practica8_Docker/patients-service/app.py:61-68 | `update(id, {})` answers the stored row and changes nothing |
| Patients.DobNotChecked | Practica8_Docker/patients-service/app.py:85 | a `dob` that is no date at all is stored as given |
| Patients.CreatePreservesValid | Practica8_Docker/patients-service/app.py:85-88 | a create keeps `name` non-null in every row |
| Patients.UpdatePreservesValid | Practica8_Docker/patients-service/app.py:64-67 | an update keeps that invariant |
| Patients.UpdateIsIdempotent | Practica8_Docker/patients-service/app.py:61-68 | repeating a PUT answers the same and changes nothing further |
| Patients.UpdateWithOwnDictIsNoOp | Practica8_Docker/patients-service/app.py:64-68 | PUTting back what a GET returned changes nothing |
| Gallery.AddPost | practica7_pwa_Docker/src/App.js:289-292 | the new post, unliked, goes in front; the old posts follow in their order; length grows by one |
| Gallery.DeletePost | practica7_pwa_Docker/src/App.js:294-296 | every post with that id is removed and every other post is kept; the length drops by the number of matching posts |
| Gallery.ToggleLike | practica7_pwa_Docker/src/App.js:298-302 | same length, ids, titles and images at every position; `liked` flips exactly at the positions whose id matches |
| Gallery.Trim | practica7_pwa_Docker/src/App.js:24 | `title.trim()`: no longer than the title, and neither starting nor ending with JavaScript whitespace; `TrimIsInfix` ties it to the title and `TrimEmptyIffBlank` characterises when it is empty |
| Gallery.TrimIsInfix | practica7_pwa_Docker/src/App.js:24 | `title.trim()` is the title with its leading and trailing whitespace cut off: a contiguous piece of the title, and everything before and after it is whitespace |
| Gallery.TrimEmptyIffBlank | practica7_pwa_Docker/src/App.js:24 | `title.trim()` is empty exactly when every character of the title is JavaScript whitespace |
| Gallery.Submit | practica7_pwa_Docker/src/App.js:22-39 | the list is unchanged exactly when the title is blank or no file is chosen, and then the error message is shown; otherwise the untrimmed title and the image are added in front and the error is cleared |
| Gallery.DeleteDistributes | practica7_pwa_Docker/src/App.js:294-296 | deleting from a concatenation deletes from each part, so the survivors keep their relative order |
| Gallery.DeleteAbsentIsNoOp | practica7_pwa_Docker/src/App.js:294-296 | deleting leaves the list unchanged exactly when no post has that id |
| Gallery.DeleteIsIdempotent | practica7_pwa_Docker/src/App.js:294-296 | deleting twice is deleting once |
| Gallery.DeleteAfterAddRestores | practica7_pwa_Docker/src/App.js:289-296 | deleting a just-added id that was not in the list before restores the previous list |
| Gallery.ToggleTwiceRestores | practica7_pwa_Docker/src/App.js:298-302 | toggling the same id twice gives back the original list |
| Gallery.TogglesCommute | practica7_pwa_Docker/src/App.js:298-302 | toggles of two ids commute |
| Gallery.ToggleAbsentIsNoOp | practica7_pwa_Docker/src/App.js:298-302 | toggling an id no post has changes nothing |
| Gallery.SubmitAddsAtMostOne | practica7_pwa_Docker/src/App.js:22-39 | a submit adds no post or exactly one unliked post in front |
| Gallery.BlankTitleRefused | practica7_pwa_Docker/src/App.js:24-26 | a title of spaces and a tab is refused even with a file chosen |

## Left out

- Flask routing, JSON parsing and HTTP status codes: the outcome is the `Response` datatype. A JSON body that is neither an object nor null (an array, a number, a string) is not modelled.
- JSON floats, arrays and nested objects as field values: `Json` has null, booleans, integers and strings.
- The database: sessions, transactions and autoincrement. The table is a map. The fresh id is any key not in it, so ids are distinct by assumption and are not modelled as increasing.
- Column types the database enforces. The doctors and appointments services always run on PostgreSQL, and the patients service does whenever `DB_HOST` or a Cloud SQL instance is configured. PostgreSQL refuses:
  - a string longer than its `String(n)` column, such as a 21-character `status` or an 81-character `name`;
  - a `patient_id` or `doctor_id` that is not an integer in range, such as `"abc"`, `true` or `2**40`.
  Each of these ends in a 500 at the commit. The model answers 201 or 200 instead, so these requests are neither answered correctly nor excluded by a precondition.
- Type conversion on read-back. After the commit, `to_dict` reads the row back from the database, so a value comes back in the column's type. For example, `"patient_id": "5"` comes back as `5`, and a numeric `status` comes back as `"5"`. The model returns the JSON value as sent.
- Appointments.Create: answers 201 with the values as sent, also for an over-long string or a non-integer id that PostgreSQL refuses or converts.
- Appointments.Update: answers 200 with the values as sent, in the same cases.
- Doctors.Create: answers 201 also for a `name`, `specialty` or `availability` longer than its column.
- Doctors.Update: answers 200 in the same cases.
- Patients.Create: answers 201 also for a `name`, `dob` or `history` longer than its column, when the service runs on PostgreSQL.
- Patients.Update: answers 200 in the same cases.
- A request with no JSON body at all: Flask's `request.get_json()` refuses it (400 or 415) before the handler's own checks. `NoBody` is a body that is the JSON literal `null`.
- Concurrency between requests: each handler is one atomic step.
- Connection-string selection from environment variables, the `before_request` `create_all` hooks and `app.run`: deployment configuration with no decision logic.
- `Strptime.IsDate`, `Strptime.IsTime`: digits are ASCII `0`–`9`. Python's `\d` also matches other Unicode decimal digits, and `re.IGNORECASE` plays no part for these formats.
- The React rendering, CSS injection, `localStorage` load/save, and the `FileReader` that turns a file into a data URL: a chosen file is represented by its data URL. `Date.now()` ids are a parameter.
- `Gallery.Submit`: the post is added in the reader's `onload` callback, after the submit returns. The model performs the add and the form reset as one step. Resetting the title, file and preview fields is not modelled.
- The service worker of the offline app (`Practica7/practica7_pwa/public/service-worker.js`): Cache API and network I/O only.
