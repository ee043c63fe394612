/** The service as a whole: the two entry points applied to the table one
    request after another, starting from the table `init_db` creates. */
module Service {
  import opened Wrappers
  import opened Students
  import Identity
  import Chat

  /** An inbound request: a LINE text message, or a POST to the
      register-and-bind endpoint with its three JSON fields. */
  datatype Request =
    | Message(userId: Option<string>, text: string)
    | RegisterBind(email: Option<string>, password: Option<string>, lineUserId: Option<string>)

  /** The table after one request; `hash` stands for the password hash. */
  function Step(db: Db, req: Request, hash: string -> string): (r: Db)
    requires Valid(db)
    ensures Valid(r) && Evolves(db, r)
    ensures Identity.EmailsHaveLine(db) ==> Identity.EmailsHaveLine(r)
  {
    match req
    case Message(userId, text) =>
      var h := Chat.HandleMessage(db, userId, text);
      if h.Replied? then h.db else db
    case RegisterBind(email, password, lineUserId) =>
      Identity.RegisterBind(db, email, password, lineUserId, hash).1
  }

  /** The table after a sequence of requests, handled one at a time. Every
      table reached satisfies both UNIQUE constraints, no row is ever lost,
      no row is ever unlinked, and every row with an email has a LINE id
      if every row had one at the start. */
  function Run(db: Db, reqs: seq<Request>, hash: string -> string): (r: Db)
    requires Valid(db)
    ensures Valid(r) && Evolves(db, r)
    ensures Identity.EmailsHaveLine(db) ==> Identity.EmailsHaveLine(r)
    decreases |reqs|
  {
    if |reqs| == 0 then db
    else
      var mid := Step(db, reqs[0], hash);
      var r := Run(mid, reqs[1..], hash);
      EvolvesTrans(db, mid, r);
      r
  }

  /** In every table the service can reach from an empty one, the
      register-and-bind endpoint never answers with the UNIQUE-constraint 409:
      the email row with no LINE id that it needs is never created. */
  lemma ReachableNeverViolatesConstraint(reqs: seq<Request>, email: Option<string>,
                                         password: Option<string>, lineUserId: Option<string>,
                                         hash: string -> string)
    ensures Valid(Empty)
    ensures Identity.RegisterBind(Run(Empty, reqs, hash), email, password, lineUserId, hash).0
      != Identity.ConstraintViolation
  {
    Identity.NoConstraintViolation(Run(Empty, reqs, hash), email, password, lineUserId, hash);
  }
}
