/** Linking a LINE identity and an email/password credential onto one row of
    the students table: the get-or-create used on every chat message, and the
    register-and-bind endpoint called from the LIFF login page. */
module Identity {
  import opened Wrappers
  import opened Students

  /** What `get_student_db_id` hands back: the student id (None when no row
      was found or made), the row's `account_linked` flag and the table
      afterwards; or the IntegrityError its INSERT would raise, which it
      does not catch. */
  datatype Fetched =
    | Fetched(studentId: Option<nat>, linked: bool, db: Db)
    | Raised(error: StoreError)

  /** The row `get_student_db_id` inserts for a LINE user seen for the first
      time: no email, no password, not linked. */
  function Anonymous(lineUserId: Option<string>): Student {
    Student(lineUserId, None, None, false)
  }

  /** Every row that carries an email also carries a LINE id: true of every
      table these two operations build from an empty one. */
  ghost predicate EmailsHaveLine(db: Db) {
    forall id :: id in db.rows && db.rows[id].email.Some? ==> !Blank(db.rows[id].lineUserId)
  }

  /** Get-or-create keyed by the LINE user id. A known user's row is
      reported without change; an unknown one gets a fresh, unlinked row when
      `autoCreate` holds and nothing otherwise. */
  function GetStudentDbId(db: Db, lineUserId: Option<string>, autoCreate: bool): (r: Fetched)
    requires Valid(db)
    ensures r.Fetched? && Valid(r.db) && Evolves(db, r.db)
    ensures EmailsHaveLine(db) ==> EmailsHaveLine(r.db)
    ensures forall id :: id in db.rows && lineUserId.Some? && db.rows[id].lineUserId == lineUserId ==>
      r == Fetched(Some(id), db.rows[id].linked, db)
    ensures !Known(db, lineUserId) && !autoCreate ==> r == Fetched(None, false, db)
    ensures !Known(db, lineUserId) && autoCreate ==>
      && r.studentId.Some?
      && r.studentId.value !in db.rows
      && !r.linked
      && r.db.rows == db.rows[r.studentId.value := Anonymous(lineUserId)]
  {
    match Find(db, LineUserId, lineUserId)
    case Some(id) => Fetched(Some(id), db.rows[id].linked, db)
    case None =>
      if !autoCreate then Fetched(None, false, db)
      else
        assert Fits(db.rows, db.next, Anonymous(lineUserId));
        FitsIffUnique(db.rows, db.next, Anonymous(lineUserId));
        match Insert(db, Anonymous(lineUserId))
        case Ok((id, db')) => Fetched(Some(id), false, db')
        case Err(e) => Raised(e)
  }

  /** Asking twice for the same LINE user returns the same id and adds no
      second row. */
  lemma GetStudentDbIdIdempotent(db: Db, lineUserId: string, autoCreate: bool)
    requires Valid(db)
    ensures var first := GetStudentDbId(db, Some(lineUserId), autoCreate);
      var second := GetStudentDbId(first.db, Some(lineUserId), autoCreate);
      && second.studentId == first.studentId
      && second.db == first.db
  {
  }

  /** The answers of `api_register_bind`, with their HTTP status codes. */
  datatype Response =
    | MissingFields        // 400: email, password or line_user_id missing or empty
    | EmailTaken           // 409: the email is bound to another LINE account
    | ConstraintViolation  // 409: the UPDATE hit a UNIQUE constraint
    | LoggedInAndBound     // 200: LINE id attached to the existing email row
    | RegisteredAndBound   // 200: email and password attached to the LINE row
    | LineAccountMissing   // 500: no row for this LINE id
  {
    function Code(): int {
      match this
      case MissingFields => 400
      case EmailTaken => 409
      case ConstraintViolation => 409
      case LoggedInAndBound => 200
      case RegisteredAndBound => 200
      case LineAccountMissing => 500
    }
  }

  /** All three request fields are present and non-empty. */
  predicate Filled(email: Option<string>, password: Option<string>, lineUserId: Option<string>) {
    !Blank(email) && !Blank(password) && !Blank(lineUserId)
  }

  /** Row `s` is bound to a LINE account other than `l`. */
  ghost predicate BoundElsewhere(s: Student, l: Option<string>) {
    !Blank(s.lineUserId) && s.lineUserId != l
  }

  /** The register-and-bind decision. `hash` stands for the salted password
      hash. Every answer but a 200 leaves the table as it was; the four
      branches are stated in terms of which rows hold the email and the LINE
      id. No password is checked when the email is already registered. */
  function RegisterBind(db: Db, email: Option<string>, password: Option<string>,
                        lineUserId: Option<string>, hash: string -> string): (r: (Response, Db))
    requires Valid(db)
    ensures Valid(r.1) && Evolves(db, r.1)
    ensures EmailsHaveLine(db) ==> EmailsHaveLine(r.1)
    ensures r.0.Code() != 200 ==> r.1 == db
    ensures r.0 == MissingFields <==> !Filled(email, password, lineUserId)
    ensures Filled(email, password, lineUserId) ==>
      forall id :: id in db.rows && db.rows[id].email == email ==>
        if BoundElsewhere(db.rows[id], lineUserId) then r.0 == EmailTaken
        else if exists o :: o in db.rows && o != id && db.rows[o].lineUserId == lineUserId then
          r.0 == ConstraintViolation
        else
          && r.0 == LoggedInAndBound
          && r.1 == Db(db.rows[id := db.rows[id].(lineUserId := lineUserId, linked := true)], db.next)
    ensures Filled(email, password, lineUserId) && !EmailUsed(db, email) ==>
      forall id :: id in db.rows && db.rows[id].lineUserId == lineUserId ==>
        && r.0 == RegisteredAndBound
        && r.1 == Db(db.rows[id := db.rows[id].(email := email, passwordHash := Some(hash(password.value)),
                                                linked := true)], db.next)
    ensures Filled(email, password, lineUserId) && !EmailUsed(db, email) && !Known(db, lineUserId) ==>
      r.0 == LineAccountMissing
  {
    if !Filled(email, password, lineUserId) then (MissingFields, db)
    else
      match Find(db, Email, email)
      case Some(sid) =>
        var row := db.rows[sid];
        if !Blank(row.lineUserId) && row.lineUserId != lineUserId then (EmailTaken, db)
        else
          var row' := row.(lineUserId := lineUserId, linked := true);
          FitsIffUnique(db.rows, sid, row');
          assert Fits(db.rows, sid, row') <==> forall o :: o in db.rows && o != sid ==> db.rows[o].lineUserId != lineUserId;
          (match Update(db, sid, row')
           case Ok(db') => (LoggedInAndBound, db')
           case Err(_) => (ConstraintViolation, db))
      case None =>
        match Find(db, LineUserId, lineUserId)
        case Some(sid) =>
          var row' := db.rows[sid].(email := email, passwordHash := Some(hash(password.value)), linked := true);
          assert Fits(db.rows, sid, row');
          FitsIffUnique(db.rows, sid, row');
          (match Update(db, sid, row')
           case Ok(db') => (RegisteredAndBound, db')
           case Err(_) => (ConstraintViolation, db))
        case None => (LineAccountMissing, db)
  }

  /** A 200 leaves one row holding both the LINE id and the email, linked. */
  lemma SuccessLinksBoth(db: Db, email: Option<string>, password: Option<string>,
                         lineUserId: Option<string>, hash: string -> string)
    requires Valid(db)
    requires RegisterBind(db, email, password, lineUserId, hash).0.Code() == 200
    ensures var db' := RegisterBind(db, email, password, lineUserId, hash).1;
      exists id :: id in db'.rows && db'.rows[id].lineUserId == lineUserId
        && db'.rows[id].email == email && db'.rows[id].linked
  {
  }

  /** A request whose email and LINE id already sit together on one linked
      row succeeds and changes nothing. */
  lemma RebindChangesNothing(db: Db, id: nat, email: Option<string>, password: Option<string>,
                             lineUserId: Option<string>, hash: string -> string)
    requires Valid(db) && Filled(email, password, lineUserId)
    requires id in db.rows && db.rows[id].lineUserId == lineUserId
    requires db.rows[id].email == email && db.rows[id].linked
    ensures RegisterBind(db, email, password, lineUserId, hash) == (LoggedInAndBound, db)
  {
    assert !BoundElsewhere(db.rows[id], lineUserId);
    assert !exists o :: o in db.rows && o != id && db.rows[o].lineUserId == lineUserId;
    assert db.rows[id := db.rows[id].(lineUserId := lineUserId, linked := true)] == db.rows;
  }

  /** Registering again with the same email, password and LINE id after a
      success succeeds again and changes nothing. */
  lemma RegisterBindIdempotent(db: Db, email: Option<string>, password: Option<string>,
                               lineUserId: Option<string>, hash: string -> string)
    requires Valid(db)
    requires RegisterBind(db, email, password, lineUserId, hash).0.Code() == 200
    ensures var db' := RegisterBind(db, email, password, lineUserId, hash).1;
      RegisterBind(db', email, password, lineUserId, hash) == (LoggedInAndBound, db')
  {
    var db' := RegisterBind(db, email, password, lineUserId, hash).1;
    SuccessLinksBoth(db, email, password, lineUserId, hash);
    var id :| id in db'.rows && db'.rows[id].lineUserId == lineUserId
      && db'.rows[id].email == email && db'.rows[id].linked;
    RebindChangesNothing(db', id, email, password, lineUserId, hash);
  }

  /** Once an email is bound to one LINE account, a request binding it to a
      different LINE account is refused with 409 and changes nothing, whatever
      password it carries. */
  lemma OtherLineAccountRejected(db: Db, email: Option<string>, pw1: Option<string>, pw2: Option<string>,
                                 line1: Option<string>, line2: Option<string>, hash: string -> string)
    requires Valid(db)
    requires RegisterBind(db, email, pw1, line1, hash).0.Code() == 200
    requires !Blank(pw2) && !Blank(line2) && line2 != line1
    ensures var db' := RegisterBind(db, email, pw1, line1, hash).1;
      RegisterBind(db', email, pw2, line2, hash) == (EmailTaken, db')
  {
  }

  /** The email on a row with no LINE id, while another (anonymous) row already
      holds the LINE id: the UPDATE that would move the LINE id onto the email
      row hits the UNIQUE constraint, and the answer is 409, not a merge. */
  lemma AnonymousRowBlocksLogin(db: Db, a: nat, b: nat, email: Option<string>, password: Option<string>,
                                lineUserId: Option<string>, hash: string -> string)
    requires Valid(db) && Filled(email, password, lineUserId)
    requires a in db.rows && db.rows[a].email == email && Blank(db.rows[a].lineUserId)
    requires b in db.rows && b != a && db.rows[b].lineUserId == lineUserId
    ensures RegisterBind(db, email, password, lineUserId, hash) == (ConstraintViolation, db)
  {
  }

  /** One table where that happens: an email row with no LINE id and an
      anonymous row for "U1". */
  lemma AnonymousRowBlocksLoginExample(hash: string -> string)
    ensures var db := Db(map[1 := Student(None, Some("a@x.com"), Some("h"), false),
                             2 := Student(Some("U1"), None, None, false)], 3);
      && Valid(db)
      && RegisterBind(db, Some("a@x.com"), Some("pw"), Some("U1"), hash) == (ConstraintViolation, db)
  {
    var db := Db(map[1 := Student(None, Some("a@x.com"), Some("h"), false),
                     2 := Student(Some("U1"), None, None, false)], 3);
    assert Valid(db) by {
      assert db.rows.Keys == {1, 2};
    }
    AnonymousRowBlocksLogin(db, 1, 2, Some("a@x.com"), Some("pw"), Some("U1"), hash);
  }

  /** While every emailed row has a LINE id, the UNIQUE constraint never
      fires: an email row not bound elsewhere is bound to this very LINE id,
      so no other row can hold it. */
  lemma NoConstraintViolation(db: Db, email: Option<string>, password: Option<string>,
                              lineUserId: Option<string>, hash: string -> string)
    requires Valid(db) && EmailsHaveLine(db)
    ensures RegisterBind(db, email, password, lineUserId, hash).0 != ConstraintViolation
  {
  }
}
