/**
  Two handlers as `app/bot.py` writes them, next to the corrected ones in
  `Bot`. Both guard `int()` with `except ValueError`, but an id outside the
  SQLite INTEGER range parses fine and then makes the sqlite3 binding raise
  `OverflowError`, which nothing catches: the handler stops where it is and
  sends no answer. `Bot` treats such an id like a malformed one instead.
 */
module Findings {
  import opened Optional
  import opened PyStr
  import opened PyInt
  import opened Seqs
  import opened Db
  import opened Bot

  /** Outcome of the `/add_user` loop as written: it runs to the end, or an
      uncaught exception stops it after the rows already committed. */
  datatype BatchOutcome =
    | Completed(store: Store, rows: seq<UserRow>)
    | Aborted(store: Store)

  /** `add_user` for each row in turn, as written: the first row whose id
      does not fit an SQLite INTEGER aborts; earlier rows stay stored. */
  function AddRowsAsWritten(db: Store, rows: seq<UserRow>): (r: BatchOutcome)
    ensures r.store.videos == db.videos
    ensures r.store.users.Keys >= db.users.Keys
    decreases |rows|
  {
    if |rows| == 0 then
      Completed(db, [])
    else if !FitsSqlInteger(rows[0].id) then
      Aborted(db)
    else
      match AddRowsAsWritten(AddUser(db, rows[0].id, rows[0].first, rows[0].last), rows[1..])
      case Completed(store, added) => Completed(store, [rows[0]] + added)
      case Aborted(store) => Aborted(store)
  }

  /** The `/add_user` loop as written: every well-formed line is added in
      order, whatever its id. Parsing a line does not read the store, so this
      equals parsing all lines first. */
  function AddUserLinesAsWritten(db: Store, lines: seq<string>): (r: BatchOutcome)
    ensures r.store.videos == db.videos
    ensures r.store.users.Keys >= db.users.Keys
  {
    AddRowsAsWritten(db, FilterMap(lines, ParseUserLine))
  }

  /** A line the binding overflows on. */
  predicate OverflowsSql(line: string) {
    ParseUserLine(line).Some? && !FitsSqlInteger(ParseUserLine(line).value.id)
  }

  /** As written, one row out of range anywhere aborts the batch. */
  lemma {:induction false} OverflowRowAborts(db: Store, rows: seq<UserRow>, k: int)
    requires 0 <= k < |rows| && !FitsSqlInteger(rows[k].id)
    ensures AddRowsAsWritten(db, rows).Aborted?
    decreases k
  {
    if k > 0 && FitsSqlInteger(rows[0].id) {
      assert rows[1..][k - 1] == rows[k];
      OverflowRowAborts(AddUser(db, rows[0].id, rows[0].first, rows[0].last), rows[1..], k - 1);
    }
  }

  /** As written, the batch stops at the first row out of range: the rows
      before it stay stored, that row and every later one are not. */
  lemma {:induction false} AbortKeepsPrefix(db: Store, rows: seq<UserRow>, k: int)
    requires 0 <= k < |rows| && !FitsSqlInteger(rows[k].id)
    requires forall j :: 0 <= j < k ==> FitsSqlInteger(rows[j].id)
    ensures AddRowsAsWritten(db, rows) == Aborted(AddUserRows(db, rows[..k]))
    decreases k
  {
    if k == 0 {
      assert rows[..k] == [];
    } else {
      var t := rows[1..];
      assert t[k - 1] == rows[k];
      forall j | 0 <= j < k - 1 ensures FitsSqlInteger(t[j].id) {
        assert t[j] == rows[j + 1];
      }
      AbortKeepsPrefix(AddUser(db, rows[0].id, rows[0].first, rows[0].last), t, k - 1);
      assert rows[..k][0] == rows[0] && rows[..k][1..] == t[..k - 1];
    }
  }

  /** As written, one overflowing line anywhere aborts the batch. */
  lemma OverflowAbortsBatch(db: Store, lines: seq<string>, k: int)
    requires 0 <= k < |lines| && OverflowsSql(lines[k])
    ensures AddUserLinesAsWritten(db, lines).Aborted?
  {
    var rows := FilterMap(lines, ParseUserLine);
    FilterMapCover(lines, ParseUserLine, k);
    var i :| 0 <= i < |rows| && rows[i] == ParseUserLine(lines[k]).value;
    OverflowRowAborts(db, rows, i);
  }

  /** With every row in range the rows as written and the corrected fold agree. */
  lemma {:induction false} RowsAgreeInRange(db: Store, rows: seq<UserRow>)
    requires forall k :: 0 <= k < |rows| ==> FitsSqlInteger(rows[k].id)
    ensures AddRowsAsWritten(db, rows) == Completed(AddUserRows(db, rows), rows)
    decreases |rows|
  {
    if |rows| > 0 {
      assert forall k :: 0 <= k < |rows[1..]| ==> FitsSqlInteger(rows[1..][k].id) by {
        forall k | 0 <= k < |rows[1..]| ensures FitsSqlInteger(rows[1..][k].id) {
          assert rows[1..][k] == rows[k + 1];
        }
      }
      RowsAgreeInRange(AddUser(db, rows[0].id, rows[0].first, rows[0].last), rows[1..]);
      assert [rows[0]] + rows[1..] == rows;
    }
  }

  /** Without an overflowing line, parsing as written and accepting as
      corrected keep the same rows. */
  lemma ParsedEqualsAccepted(lines: seq<string>)
    requires forall k :: 0 <= k < |lines| ==> !OverflowsSql(lines[k])
    ensures FilterMap(lines, ParseUserLine) == AcceptedRows(lines)
  {
    forall k | 0 <= k < |lines| ensures ParseUserLine(lines[k]) == AcceptUserLine(lines[k]) {
      assert !OverflowsSql(lines[k]);
    }
    FilterMapAgree(lines, ParseUserLine, AcceptUserLine);
  }

  /** Every accepted row has an id in range. */
  lemma AcceptedRowsFit(lines: seq<string>)
    ensures forall k :: 0 <= k < |AcceptedRows(lines)| ==> FitsSqlInteger(AcceptedRows(lines)[k].id)
  {
    var rows := AcceptedRows(lines);
    forall k | 0 <= k < |rows| ensures FitsSqlInteger(rows[k].id) {
      FilterMapFrom(lines, AcceptUserLine, rows[k]);
    }
  }

  /** Without an overflowing line the loop as written and the corrected one agree. */
  lemma AsWrittenAgreesWithoutOverflow(db: Store, lines: seq<string>)
    requires forall k :: 0 <= k < |lines| ==> !OverflowsSql(lines[k])
    ensures AddUserLinesAsWritten(db, lines) == Completed(AddUserLines(db, lines).0, AddUserLines(db, lines).1)
  {
    ParsedEqualsAccepted(lines);
    AcceptedRowsFit(lines);
    RowsAgreeInRange(db, AcceptedRows(lines));
  }

  /** The `/add_user` branch as written: an aborted batch sends no answer. */
  function AddUsersAsWritten(db: Store, text: string): (s: Step)
    ensures s.recipients == {} && s.store.videos == db.videos
    ensures s.reply == Silent ==> |PayloadLines(text)| > 0
  {
    var lines := PayloadLines(text);
    if |lines| == 0 then
      Answer(db, AddUserUsage)
    else
      match AddUserLinesAsWritten(db, lines)
      case Aborted(store) => Answer(store, Silent)
      case Completed(store, added) =>
        if |added| > 0 then Answer(store, UsersAdded(added)) else Answer(store, NoValidUsers)
  }

  /** As written, `/add_user` with an overflowing payload line gets no answer. */
  lemma OverflowSilencesAddUsers(db: Store, text: string, k: int)
    requires 0 <= k < |PayloadLines(text)| && OverflowsSql(PayloadLines(text)[k])
    ensures AddUsersAsWritten(db, text).reply == Silent
  {
    OverflowAbortsBatch(db, PayloadLines(text), k);
  }

  /** The `/del_user` branch as written: an id outside the SQLite INTEGER
      range gets no answer. */
  function DeleteUserAsWritten(db: Store, text: string): (s: Step)
    ensures s.recipients == {} && s.store.videos == db.videos
    ensures s.reply == Silent <==>
      |Words(text)| == 2 && ParseInt(Words(text)[1]).Some? && !FitsSqlInteger(ParseInt(Words(text)[1]).value)
  {
    var parts := Words(text);
    if |parts| == 2 then
      match ParseInt(parts[1])
      case Some(id) =>
        if FitsSqlInteger(id) then Answer(RemoveUser(db, id), UserRemoved(id)) else Answer(db, Silent)
      case None => Answer(db, BadId)
    else
      Answer(db, DelUserUsage)
  }

  /** The two deletion handlers differ only on out-of-range ids. */
  lemma DeleteUserDiffersOnlyOnOverflow(db: Store, text: string)
    ensures DeleteUserAsWritten(db, text).reply != Silent ==> DeleteUserAsWritten(db, text) == DeleteUser(db, text)
    ensures DeleteUserAsWritten(db, text).reply == Silent ==> DeleteUser(db, text) == Answer(db, BadId)
  {
  }

  // ------------------------------------------------------------------ witnesses

  /** The smallest id the sqlite3 binding overflows on. */
  const TooBig: int := MaxSqlInteger + 1

  /** `"<id> <first> <last>"` as a line. */
  function UserLine(id: int, first: string, last: string): string {
    Join([IntToString(id), first, last], " ")
  }

  lemma IdIsWord(n: int)
    ensures IsWord(IntToString(n))
  {
    var s := IntToString(n);
    forall i | 0 <= i < |s| ensures !IsSpace(s[i]) {
      assert IsDigit(s[i]) || s[i] == '-';
    }
  }

  /** A line of an id and two names parses to that row. */
  lemma {:induction false} ParseUserLineOf(id: int, first: string, last: string)
    requires IsWord(first) && IsWord(last)
    ensures ParseUserLine(UserLine(id, first, last)) == Some(UserRow(id, first, last))
  {
    var ws := [IntToString(id), first, last];
    IdIsWord(id);
    WordsOfJoin(ws);
    ParseIntToString(id);
    assert ws[2..] == [last];
  }

  /** The corrected loop keeps only the valid line of the two. */
  lemma AcceptedValidOnly(over: string, valid: string)
    requires OverflowsSql(over) && IsUserLine(valid)
    ensures AcceptedRows([over, valid]) == [AcceptUserLine(valid).value]
  {
    FilterMapPair(over, valid, AcceptUserLine);
  }

  /** Adding one row to the empty store stores exactly that user. */
  lemma OneRowStore(b: UserRow)
    ensures forall u :: u in AddUserRows(Empty, [b]).users <==> u == b.id
  {
    assert [b][1..] == [];
    assert AddUserRows(Empty, [b]) == AddUser(Empty, b.id, b.first, b.last);
  }

  /** An overflowing line followed by a valid one: as written nothing is
      stored; the corrected loop stores the valid line's user. */
  lemma OverflowThenValid(over: string, valid: string)
    requires OverflowsSql(over) && IsUserLine(valid)
    ensures AddUserLinesAsWritten(Empty, [over, valid]) == Aborted(Empty)
    ensures forall u :: u in AddUserLines(Empty, [over, valid]).0.users <==> u == AcceptUserLine(valid).value.id
  {
    var a, b := ParseUserLine(over).value, AcceptUserLine(valid).value;
    FilterMapPair(over, valid, ParseUserLine);
    assert AddRowsAsWritten(Empty, [a, b]) == Aborted(Empty);
    AcceptedValidOnly(over, valid);
    OneRowStore(b);
  }

  /** Witness: a batch whose first line carries an out-of-range id (such as
      `TooBig`) and whose second line is a valid one for another user. As
      written the batch aborts before the second line and nothing is stored;
      the corrected loop skips the first line and stores the second user. */
  lemma AddUserOverflowWitness(big: int, first: string, last: string, id: int, first': string, last': string)
    requires !FitsSqlInteger(big) && IsWord(first) && IsWord(last)
    requires FitsSqlInteger(id) && IsWord(first') && IsWord(last')
    ensures var lines := [UserLine(big, first, last), UserLine(id, first', last')];
      && AddUserLinesAsWritten(Empty, lines) == Aborted(Empty)
      && forall u :: u in AddUserLines(Empty, lines).0.users <==> u == id
  {
    ParseUserLineOf(big, first, last);
    ParseUserLineOf(id, first', last');
    OverflowThenValid(UserLine(big, first, last), UserLine(id, first', last'));
  }

  /** Witness: `/del_user` with an overflowing id is answered as a bad id by
      the corrected handler and not at all as written. */
  lemma DeleteUserOverflowWitness(db: Store)
    ensures var text := DelUserCommand + " " + IntToString(TooBig);
      && DeleteUserAsWritten(db, text).reply == Silent
      && DeleteUser(db, text) == Answer(db, BadId)
  {
    var ws := [DelUserCommand, IntToString(TooBig)];
    IdIsWord(TooBig);
    WordsOfJoin(ws);
    assert Join(ws, " ") == DelUserCommand + " " + IntToString(TooBig);
    ParseIntToString(TooBig);
  }
}
