# QuizFlow student identity store

A Dafny model of the identity core of the QuizFlow LINE bot. This is the `students` table of the platform
database and the code that writes it, all from `QuizFlow_Project/app.py`:

- `get_student_db_id` is the get-or-create keyed by the LINE user id. It runs on every chat message.
- `api_register_bind` attaches an email/password credential to the row of a LINE identity. It answers
  400, 409, 200 or 500.
- `handle_message` makes sure the sender's row exists, then picks one of four chat replies.

The table is an immutable `Db(rows: map<nat, Student>, next: nat)`. `next` is the id SQLite's
AUTOINCREMENT hands out next. Every operation is a pure function from a table to an answer and a new
table. The storage engine is modelled as well:

- `Students.Insert` and `Students.Update` refuse any write that would break the UNIQUE constraint on
  `line_user_id` or on `email`. Such a write raises an IntegrityError and changes nothing.
- `Students.Find` is `SELECT ... WHERE col = ?` followed by `fetchone()`. SQL's `col = NULL` never
  matches.

The application logic sits on top of this layer. The UNIQUE-constraint 409 of `api_register_bind`
therefore arises from the storage model's refusal, as it arises from SQLite's in the source.

The modules follow the program's structure:

- `Wrappers` (wrappers.dfy): `Option` for NULL columns and missing JSON fields, and `Result`.
- `Students` (students.dfy): the schema, its invariants (`Valid`, `Evolves`) and the storage statements.
- `Identity` (identity.dfy): `get_student_db_id` and `api_register_bind`.
- `Chat` (chat.dfy): the reply selection of `handle_message`.
- `Service` (service.dfy): the two entry points applied to a sequence of requests.

Python truthiness is modelled explicitly. `not x` on an optional string holds for NULL and for `""`
(`Students.Blank`). This has one visible consequence. An email row whose stored LINE id is `""` counts
as not bound, exactly as the test `existing_line_id and ...` treats it.

Some behaviours of `api_register_bind` that the model keeps as written:

- A successful bind answers 200 (app.py:203 and app.py:219).
- When neither the email nor the LINE id is known, it answers 500 and creates no row (app.py:221-224).
- The email lookup at app.py:176 is `WHERE email = ?` alone. The test for "bound to another LINE
  account" is made afterwards, in Python, at app.py:188.
- When the email is already registered, no password is checked and the stored hash is kept
  (app.py:195-200).
- When the email is new, the request overwrites the email and hash of the LINE id's row, even if that
  row already had a different email (app.py:213-216).

## Model

| member | source | states |
|---|---|---|
| Students.FitsIffUnique | QuizFlow_Project/app.py:43-44 | a row written at an id keeps both UNIQUE constraints exactly when no other row holds its non-NULL LINE id or email |
| Students.Insert | QuizFlow_Project/app.py:104 | an INSERT succeeds exactly when the resulting table satisfies both UNIQUE constraints; the new row gets a never-used id and every old row is untouched |
| Students.Update | QuizFlow_Project/app.py:197-200 | an UPDATE by id succeeds exactly when the resulting table satisfies both UNIQUE constraints; it changes only that row; an absent id changes nothing |
| Students.FindFrom | QuizFlow_Project/app.py:96-97 | a scan in id order returns a row holding the value, or there is no such row in the scanned range |
| Students.Find | QuizFlow_Project/app.py:176-181 | a lookup by LINE id or email returns only rows holding the value; NULL finds nothing; on a valid table every holder of the value is the one found |
| Identity.GetStudentDbId | QuizFlow_Project/app.py:93-109 | a known LINE id returns its row's id and linked flag with the table unchanged; an unknown one returns (None, false) unchanged without auto-create, or a fresh id with one new unlinked row holding only that LINE id; the INSERT never fails; constraints kept, linked never reset, and every row with an email still has a LINE id |
| Identity.GetStudentDbIdIdempotent | QuizFlow_Project/app.py:96-106 | asking twice for the same LINE id returns the same id and the second call adds no row |
| Identity.RegisterBind | QuizFlow_Project/app.py:158-232 | 400 exactly when a field is missing or empty; 409 unchanged when the email row is bound to another LINE id; 409 unchanged when another row holds the LINE id; otherwise 200 setting the LINE id and linked on the email row only; a new email on a known LINE row gives 200 with email, hash and linked set on that row only; a new email with an unknown LINE id gives 500; every non-200 leaves the table unchanged; constraints kept, linked never reset, and every row with an email still has a LINE id |
| Identity.SuccessLinksBoth | QuizFlow_Project/app.py:192-219 | after a 200 one row holds both the LINE id and the email and is linked |
| Identity.RebindChangesNothing | QuizFlow_Project/app.py:183-203 | a request whose email and LINE id already sit on one linked row answers 200 and changes nothing |
| Identity.RegisterBindIdempotent | QuizFlow_Project/app.py:183-203 | repeating a successful request with the same fields succeeds again and changes nothing |
| Identity.OtherLineAccountRejected | QuizFlow_Project/app.py:183-191 | after an email is bound to one LINE id, binding it to a different LINE id gets 409 and changes nothing, whatever the password |
| Identity.AnonymousRowBlocksLogin | QuizFlow_Project/app.py:192-229 | on any valid table, an email row without a LINE id plus another row holding the requested LINE id gives the UNIQUE-constraint 409 with the table unchanged, not a merge |
| Identity.AnonymousRowBlocksLoginExample | QuizFlow_Project/app.py:192-229 | one concrete valid two-row table (email row with no LINE id, anonymous row for "U1") on which that 409 is the answer |
| Identity.NoConstraintViolation | QuizFlow_Project/app.py:226-229 | while every row with an email has a LINE id, the IntegrityError handler is never reached |
| Chat.ListCommandsAreNotJoins | QuizFlow_Project/app.py:136-138 | no list command starts with the join prefix |
| Chat.Classify | QuizFlow_Project/app.py:129-141 | bind prompt exactly when unlinked; join reply exactly when linked and the text starts with "加入 "; list reply exactly when linked and the text is "題庫" or "我的題庫"; help otherwise |
| Chat.ClassifyExamples | QuizFlow_Project/app.py:136-141 | the join prefix needs its space, it wins over a list word after it, and a list command must match exactly |
| Chat.HandleMessage | QuizFlow_Project/app.py:124-142 | the sender always has a row afterwards; a known sender gets the reply for their row's linked flag with the table unchanged; a first-time sender gets the bind prompt and exactly one new row, with only the LINE id set and not linked, and every old row is untouched; every row with an email still has a LINE id |
| Service.Step | QuizFlow_Project/app.py:41-49 | one request of either kind keeps both UNIQUE constraints and the AUTOINCREMENT bound, and never removes, unlinks or re-keys a row; every row with an email still has a LINE id |
| Service.Run | QuizFlow_Project/app.py:93-232 | any sequence of requests keeps both UNIQUE constraints, loses no row, unlinks none, and keeps every row with an email holding a LINE id |
| Service.ReachableNeverViolatesConstraint | QuizFlow_Project/app.py:226-229 | in every table reachable from an empty one, register-and-bind never answers with the UNIQUE-constraint 409 |

## Left out

- Flask routing, `request.get_json`, `jsonify`, template rendering and `/callback`: transport plumbing. The
  three JSON fields are `Option<string>` parameters. The answer is a `Response` whose `Code()` is the
  HTTP status.
- JSON field values that are not strings, such as numbers or lists: only absent and string values are modelled.
- The LINE SDK calls and webhook signature checking: foreign I/O. Only the chosen reply is modelled.
- `generate_password_hash`: a salted external hash. It is the function parameter `hash`.
- The sqlite connection handling and the DDL run by `init_db`. Only the UNIQUE constraints and
  AUTOINCREMENT are kept, as `Students.Valid`. `Students.Empty` is the table `init_db` creates.
- `created_at` and other timestamps: clock-dependent, and no operation reads them.
- The creators, question_banks, student_access and answer_logs tables: nothing in this file reads or
  writes them. The question-bank invite and approval workflow does not exist in the code. Only
  placeholder replies exist (app.py:136-139), so it is not modelled as behaviour.
- The reply texts: the model chooses which of the four replies is sent (`Chat.Reply`), not its wording.
- Concurrent first contact and concurrent registration: the model is sequential. The check-then-insert
  of `get_student_db_id` is only correct under that assumption.
- Identity.NoConstraintViolation and Service.ReachableNeverViolatesConstraint hold only because the model
  is sequential. Two concurrent registrations of one new email can both pass the lookups. The second
  UPDATE then reaches the IntegrityError 409 at app.py:226-229, the duplicate its comment names.
- The generic `except Exception` path that answers 500: it covers infrastructure faults the model does
  not have.
- `handle_postback`: its body is empty.
- Identity.GetStudentDbId: ids are unbounded `nat`s, so the INSERT never fails. SQLite's
  AUTOINCREMENT `student_id` is a signed 64-bit integer. Once that is used up, the INSERT at app.py:104
  raises and `handle_message` does not catch it. The model does not reach that limit.
- `get_student_db_id` with `auto_create` false: no caller in this file uses it. It is modelled, but
  `Service.Request` never issues it.
