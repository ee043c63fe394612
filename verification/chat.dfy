/** The reply the LINE bot sends to a text message. The question-bank
    commands are only recognised here: the replies are placeholders and no
    bank is joined or listed. */
module Chat {
  import opened Wrappers
  import opened Students
  import Identity

  /** The four replies, one per branch of the message handler. */
  datatype Reply =
    | BindPrompt  // the account is not linked yet
    | JoinAck     // "加入 <code>": joining a bank
    | ListBanks   // "題庫" / "我的題庫": listing the user's banks
    | Help        // anything else

  /** The prefix of a join command: "加入" followed by a space. */
  const JoinCommand: string := "加入 "

  /** The two exact texts that ask for the list of banks. */
  const ListCommands: set<string> := {"題庫", "我的題庫"}

  /** Neither list command starts with the join prefix, so the order in which
      the handler tests the two does not matter. */
  lemma ListCommandsAreNotJoins(text: string)
    ensures text in ListCommands ==> !(JoinCommand <= text)
  {
    if text in ListCommands {
      assert text[0] != JoinCommand[0];
    }
  }

  /** The reply for a message: an unlinked user always gets the bind prompt;
      a linked user's text selects one of the three other replies. */
  function Classify(linked: bool, text: string): (r: Reply)
    ensures r == BindPrompt <==> !linked
    ensures r == JoinAck <==> linked && JoinCommand <= text
    ensures r == ListBanks <==> linked && text in ListCommands
    ensures r == Help <==> linked && !(JoinCommand <= text) && text !in ListCommands
  {
    ListCommandsAreNotJoins(text);
    if !linked then BindPrompt
    else if JoinCommand <= text then JoinAck
    else if text in ListCommands then ListBanks
    else Help
  }

  /** The join prefix wins over the list commands, and only an exact list
      command lists: a trailing space or a missing space falls through to
      the help reply. */
  lemma ClassifyExamples()
    ensures Classify(true, "加入 題庫") == JoinAck
    ensures Classify(true, "加入題庫") == Help
    ensures Classify(true, "我的題庫") == ListBanks
    ensures Classify(true, "題庫 ") == Help
    ensures Classify(false, "我的題庫") == BindPrompt
  {
    assert !(JoinCommand <= "加入題庫") by { assert "加入題庫"[2] != JoinCommand[2]; }
    assert !(JoinCommand <= "題庫 ") by { assert "題庫 "[0] != JoinCommand[0]; }
    assert "題庫 " !in ListCommands by { assert |"題庫 "| == 3; }
  }

  /** What handling a message leaves behind: the reply and the table, or the
      IntegrityError the get-or-create raised. */
  datatype Handled =
    | Replied(reply: Reply, db: Db)
    | Failed(error: StoreError)

  /** The message handler: get-or-create the sender's row, then choose the
      reply from that row's linked flag and the text. A first message always
      creates the row and always gets the bind prompt. */
  function HandleMessage(db: Db, userId: Option<string>, text: string): (r: Handled)
    requires Valid(db)
    ensures r.Replied? && Valid(r.db) && Evolves(db, r.db)
    ensures Identity.EmailsHaveLine(db) ==> Identity.EmailsHaveLine(r.db)
    ensures userId.Some? ==> Known(r.db, userId)
    ensures forall id :: id in db.rows && userId.Some? && db.rows[id].lineUserId == userId ==>
      r == Replied(Classify(db.rows[id].linked, text), db)
    ensures !Known(db, userId) ==>
      && r.reply == BindPrompt
      && |r.db.rows.Keys - db.rows.Keys| == 1
      && exists id: nat :: id !in db.rows && r.db.rows == db.rows[id := Identity.Anonymous(userId)]
  {
    match Identity.GetStudentDbId(db, userId, true)
    case Fetched(id, linked, db') =>
      assert !Known(db, userId) ==>
        && id.value !in db.rows
        && db'.rows == db.rows[id.value := Identity.Anonymous(userId)]
        && db'.rows.Keys - db.rows.Keys == {id.value};
      Replied(Classify(linked, text), db')
    case Raised(e) => Failed(e)
  }
}
