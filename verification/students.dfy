/** The `students` table of the platform database and the rules the storage
    engine enforces on it: AUTOINCREMENT row ids, a UNIQUE `line_user_id`
    column and a UNIQUE `email` column (both nullable). */
module Students {
  import opened Wrappers

  /** One row. A NULL column is `None`; `created_at` is not modelled. */
  datatype Student = Student(
    lineUserId: Option<string>,
    email: Option<string>,
    passwordHash: Option<string>,
    linked: bool)

  /** The table: rows keyed by `student_id`, and the id AUTOINCREMENT hands
      out next (ids start at 1 and are never reused). */
  datatype Db = Db(rows: map<nat, Student>, next: nat)

  /** The table as `init_db` creates it. */
  const Empty: Db := Db(map[], 1)

  /** The failure a statement raises when it would break a UNIQUE constraint. */
  datatype StoreError = IntegrityError

  /** The two UNIQUE columns. */
  datatype Column = LineUserId | Email

  function Key(s: Student, col: Column): Option<string> {
    match col
    case LineUserId => s.lineUserId
    case Email => s.email
  }

  /** Python's `not x` on an optional string: NULL and "" are both falsy. */
  predicate Blank(o: Option<string>) {
    o.None? || o.value == ""
  }

  /** UNIQUE on `col`: no two distinct rows hold the same non-NULL value. */
  ghost predicate Unique(rows: map<nat, Student>, col: Column) {
    forall a, b :: a in rows && b in rows && a != b && Key(rows[a], col).Some? ==>
      Key(rows[a], col) != Key(rows[b], col)
  }

  /** Every state the storage engine can be in. */
  ghost predicate Valid(db: Db) {
    && 1 <= db.next
    && (forall id :: id in db.rows ==> 1 <= id < db.next)
    && Unique(db.rows, LineUserId)
    && Unique(db.rows, Email)
  }

  /** `s`, written at `id`, shares no non-NULL UNIQUE value with `other`. */
  predicate NoClash(other: Student, s: Student) {
    && (s.lineUserId.None? || other.lineUserId != s.lineUserId)
    && (s.email.None? || other.email != s.email)
  }

  /** Writing `s` at `id` clashes with no other row. */
  predicate Fits(rows: map<nat, Student>, id: nat, s: Student) {
    forall o :: o in rows && o != id ==> NoClash(rows[o], s)
  }

  /** Putting a fitting row at `id` keeps both UNIQUE constraints, and a row
      that does not fit breaks one of them. */
  lemma FitsIffUnique(rows: map<nat, Student>, id: nat, s: Student)
    requires Unique(rows, LineUserId) && Unique(rows, Email)
    ensures Fits(rows, id, s) <==>
      Unique(rows[id := s], LineUserId) && Unique(rows[id := s], Email)
  {
    var rows' := rows[id := s];
    if Fits(rows, id, s) {
      forall col: Column
        ensures Unique(rows', col)
      {
        forall a, b | a in rows' && b in rows' && a != b && Key(rows'[a], col).Some?
          ensures Key(rows'[a], col) != Key(rows'[b], col)
        {
          if a == id {
            assert NoClash(rows[b], s);
          } else if b == id {
            assert NoClash(rows[a], s);
          }
        }
      }
    } else {
      var o: nat :| o in rows && o != id && !NoClash(rows[o], s);
      assert o in rows' && id in rows' && rows'[o] == rows[o] && rows'[id] == s;
      if s.lineUserId.Some? && rows[o].lineUserId == s.lineUserId {
        assert Key(rows'[id], LineUserId) == Key(rows'[o], LineUserId);
      } else {
        assert Key(rows'[id], Email) == Key(rows'[o], Email);
      }
    }
  }

  /** `INSERT INTO students ...`: the row gets the next AUTOINCREMENT id, or
      the statement raises an IntegrityError and nothing is written. */
  function Insert(db: Db, s: Student): (r: Result<(nat, Db), StoreError>)
    requires Valid(db)
    ensures r.Ok? <==> Valid(Db(db.rows[db.next := s], db.next + 1))
    ensures r.Ok? ==>
      var (id, db') := r.value;
      && id !in db.rows
      && db'.rows.Keys == db.rows.Keys + {id}
      && db'.rows[id] == s
      && (forall o :: o in db.rows ==> db'.rows[o] == db.rows[o])
      && db.next < db'.next
  {
    FitsIffUnique(db.rows, db.next, s);
    if Fits(db.rows, db.next, s) then Ok((db.next, Db(db.rows[db.next := s], db.next + 1)))
    else Err(IntegrityError)
  }

  /** `UPDATE students SET ... WHERE student_id = id`: with no such row
      nothing changes; otherwise the row becomes `s`, or the statement raises
      an IntegrityError and nothing is written. */
  function Update(db: Db, id: nat, s: Student): (r: Result<Db, StoreError>)
    requires Valid(db)
    ensures id !in db.rows ==> r == Ok(db)
    ensures id in db.rows ==> (r.Ok? <==> Valid(Db(db.rows[id := s], db.next)))
    ensures r.Ok? && id in db.rows ==>
      && r.value.next == db.next
      && r.value.rows.Keys == db.rows.Keys
      && r.value.rows[id] == s
      && (forall o :: o in db.rows && o != id ==> r.value.rows[o] == db.rows[o])
  {
    FitsIffUnique(db.rows, id, s);
    if id !in db.rows then Ok(db)
    else if Fits(db.rows, id, s) then Ok(Db(db.rows[id := s], db.next))
    else Err(IntegrityError)
  }

  /** The rows with ids in `[i, db.next)`, scanned in id order, for one
      whose `col` equals `v`. */
  function FindFrom(db: Db, col: Column, v: string, i: nat): (r: Option<nat>)
    ensures r.Some? ==> r.value in db.rows && i <= r.value && Key(db.rows[r.value], col) == Some(v)
    ensures r.None? ==>
      forall j :: i <= j < db.next && j in db.rows ==> Key(db.rows[j], col) != Some(v)
    decreases db.next - i
  {
    if db.next <= i then None
    else if i in db.rows && Key(db.rows[i], col) == Some(v) then Some(i)
    else FindFrom(db, col, v, i + 1)
  }

  /** `SELECT student_id ... WHERE col = v` followed by `fetchone()`. SQL's
      `col = NULL` is never true, so a NULL `v` finds nothing. On a valid
      table the row found is the only one holding `v`, and a row holding `v`
      is always found. */
  function Find(db: Db, col: Column, v: Option<string>): (r: Option<nat>)
    ensures r.Some? ==> v.Some? && r.value in db.rows && Key(db.rows[r.value], col) == v
    ensures v.None? ==> r.None?
    ensures Valid(db) ==>
      forall id :: id in db.rows && v.Some? && Key(db.rows[id], col) == v ==> r == Some(id)
  {
    if v.None? then None else FindFrom(db, col, v.value, 0)
  }

  /** Some row holds LINE user id `key` (never true of NULL). */
  ghost predicate Known(db: Db, key: Option<string>) {
    key.Some? && exists id :: id in db.rows && db.rows[id].lineUserId == key
  }

  /** Some row holds email `e` (never true of NULL). */
  ghost predicate EmailUsed(db: Db, e: Option<string>) {
    e.Some? && exists id :: id in db.rows && db.rows[id].email == e
  }

  /** How one row may change over time: `linked` never goes back to false,
      and a non-empty LINE user id, once on a row, stays. */
  ghost predicate Grows(a: Student, b: Student) {
    && (a.linked ==> b.linked)
    && (!Blank(a.lineUserId) ==> b.lineUserId == a.lineUserId)
  }

  /** How the table may change over time: no row disappears, every row
      grows, and ids are never handed out twice. */
  ghost predicate Evolves(db: Db, db': Db) {
    && db.next <= db'.next
    && forall id :: id in db.rows ==> id in db'.rows && Grows(db.rows[id], db'.rows[id])
  }

  lemma EvolvesTrans(d0: Db, d1: Db, d2: Db)
    requires Evolves(d0, d1) && Evolves(d1, d2)
    ensures Evolves(d0, d2)
  {
  }
}
