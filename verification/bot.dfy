/**
  The message handler of `app/bot.py` as one pure function: given the store,
  the configured admin ids, the sender and the message text, it yields the new
  store, the answer to the sender, and the notification fan-out. The handler
  is a cascade of `startswith` tests on the stripped text; the first test that
  matches decides, and text that matches none is ignored.
 */
module Bot {
  import opened Optional
  import opened PyStr
  import opened PyInt
  import opened Seqs
  import opened Db

  /** The sender: Telegram user id and profile names (the last name is optional). */
  datatype Caller = Caller(id: int, firstName: string, lastName: Option<string>)

  /** The answer sent back to the sender; `Silent` when nothing is sent. The
      exact (Russian, Markdown) wording is abstracted to one tag per message. */
  datatype Reply =
    | Silent
    | Welcome | AutoEnrolled | StartDenied
    | UserIds(ids: set<int>) | NoUsers
    | VideosDenied | VideoList(videos: seq<Video>) | NoVideos
    | AddUserUsage | UsersAdded(rows: seq<UserRow>) | NoValidUsers
    | AddVideoUsage | VideosAddedAndSent | NoValidVideos
    | UserRemoved(id: int) | BadId | DelUserUsage
    | VideoRemoved | DelVideoUsage
    | FindPrompt | Found(videos: seq<Video>) | NothingFound
    | AdminCommands | UserCommands | HelpDenied

  /** Effect of one message: the new store, the answer, and who is notified of
      which new videos (best-effort `bot.send_message` to each recipient). */
  datatype Step = Step(store: Store, reply: Reply, recipients: set<int>, announced: seq<Video>)

  /** An answer with no notification. */
  function Answer(db: Store, reply: Reply): Step {
    Step(db, reply, {}, [])
  }

  const StartCommand := "/start"
  const UsersCommand := "/users"
  const VideosCommand := "/videos"
  const AddUserCommand := "/add_user"
  const AddVideoCommand := "/add_video"
  const DelUserCommand := "/del_user"
  const DelVideoCommand := "/del_video"
  const FindCommand := "/find"
  const HelpCommand := "/help"

  /** `message.from_user.last_name or ""`. */
  function LastNameOrEmpty(caller: Caller): string {
    match caller.lastName
    case Some(name) => name
    case None => ""
  }

  // ------------------------------------------------------------------ /start, /users, /videos, /help

  function Start(db: Store, admins: set<int>, caller: Caller): (s: Step)
    ensures s == Answer(s.store, s.reply) && s.reply != Silent
    ensures s.store != db ==> caller.id in admins
  {
    if caller.id in GetUsers(db) then
      Answer(db, Welcome)
    else if caller.id in admins then
      Answer(AddUser(db, caller.id, caller.firstName, LastNameOrEmpty(caller)), AutoEnrolled)
    else
      Answer(db, StartDenied)
  }

  /** `/users`: the id of every row of `get_all_users()`, or a note that there is none. */
  function ListUsers(db: Store): (s: Step)
    ensures s == Answer(db, s.reply)
    ensures s.reply == NoUsers <==> |db.users| == 0
    ensures s.reply != NoUsers ==> s.reply == UserIds(db.users.Keys)
  {
    var rows := GetAllUsers(db);
    GetAllUsersIds(db);
    if |rows| == 0 then Answer(db, NoUsers) else Answer(db, UserIds(RowIdSet(rows)))
  }

  function ListVideos(db: Store, caller: Caller): (s: Step)
    ensures s == Answer(db, s.reply) && s.reply != Silent
  {
    if caller.id !in GetUsers(db) then
      Answer(db, VideosDenied)
    else
      var videos := GetVideos(db);
      if |videos| == 0 then Answer(db, NoVideos) else Answer(db, VideoList(videos))
  }

  function Help(db: Store, admins: set<int>, caller: Caller): (s: Step)
    ensures s == Answer(db, s.reply) && s.reply != Silent
  {
    if caller.id in admins then Answer(db, AdminCommands)
    else if caller.id in GetUsers(db) then Answer(db, UserCommands)
    else Answer(db, HelpDenied)
  }

  // ------------------------------------------------------------------ batches

  /** `text.strip().split("\n")[1:]`: the payload lines under the command
      line, i.e. everything after the first line break of the stripped text,
      cut at every further line break. */
  function PayloadLines(text: string): (lines: seq<string>)
    ensures |lines| == 0 <==> '\n' !in Strip(text)
    ensures forall k :: 0 <= k < |lines| ==> '\n' !in lines[k]
    ensures |lines| > 0 ==> Join(lines, "\n") == Strip(text)[IndexOf(Strip(text), '\n') + 1..]
  {
    var s := Strip(text);
    if '\n' in s then
      var rest := s[IndexOf(s, '\n') + 1..];
      assert SplitOn(s, '\n')[1..] == SplitOn(rest, '\n');
      JoinSplitOn(rest, '\n');
      SplitOn(s, '\n')[1..]
    else
      SplitOn(s, '\n')[1..]
  }

  /** One `/add_user` line, `<id> <first> <last...>`: the tokens of
      `line.strip().split()`, `int()` of the first, the second as first name and
      the rest joined by single spaces as last name. `None` when there are fewer
      than three tokens or `int()` raises `ValueError`. */
  function ParseUserLine(line: string): (r: Option<UserRow>)
    ensures r.Some? <==> |Words(line)| >= 3 && ParseInt(Words(line)[0]).Some?
    ensures r.Some? ==> r.value.id == ParseInt(Words(line)[0]).value
    ensures r.Some? ==> r.value.first == Words(line)[1]
    ensures r.Some? ==> Words(r.value.last) == Words(line)[2..]
    ensures r.Some? ==> r.value.last == Join(Words(line)[2..], " ")
  {
    var parts := Words(Strip(line));
    WordsOfStrip(line);
    if |parts| >= 3 then
      match ParseInt(parts[0])
      case Some(id) =>
        WordsOfJoinedTail(line, 2);
        Some(UserRow(id, parts[1], Join(parts[2..], " ")))
      case None => None
    else
      None
  }

  /** A line the `/add_user` loop stores: well formed, with an id an SQLite
      INTEGER can hold. */
  function AcceptUserLine(line: string): (r: Option<UserRow>)
    ensures r.Some? <==> ParseUserLine(line).Some? && FitsSqlInteger(ParseUserLine(line).value.id)
    ensures r.Some? ==> r == ParseUserLine(line)
  {
    match ParseUserLine(line)
    case Some(row) => if FitsSqlInteger(row.id) then Some(row) else None
    case None => None
  }

  predicate IsUserLine(line: string) {
    AcceptUserLine(line).Some?
  }

  /** The rows of the lines `IsUserLine` accepts, in order. */
  function AcceptedRows(lines: seq<string>): (rows: seq<UserRow>)
    ensures |rows| == |Filter(lines, IsUserLine)|
  {
    FilterMapLength(lines, AcceptUserLine, IsUserLine);
    FilterMap(lines, AcceptUserLine)
  }

  function RowIds(rows: seq<UserRow>): set<int> {
    if |rows| == 0 then {} else {rows[0].id} + RowIds(rows[1..])
  }

  /** `add_user` for each row in turn. */
  function AddUserRows(db: Store, rows: seq<UserRow>): (r: Store)
    ensures r.videos == db.videos
    ensures r.users.Keys == db.users.Keys + RowIds(rows)
    ensures forall u :: u in db.users ==> r.users[u] == db.users[u]
    decreases |rows|
  {
    if |rows| == 0 then db
    else AddUserRows(AddUser(db, rows[0].id, rows[0].first, rows[0].last), rows[1..])
  }

  /** The `/add_user` loop: every line on its own, in order; `add_user` for each
      line that `IsUserLine` accepts, every other line skipped. Parsing a line
      does not read the store, so this equals parsing all lines first and then
      adding the rows in order. Returns the store and the accepted rows. */
  function AddUserLines(db: Store, lines: seq<string>): (r: (Store, seq<UserRow>))
    ensures r.0.videos == db.videos
    ensures r.0.users.Keys == db.users.Keys + RowIds(r.1)
    ensures forall u :: u in db.users ==> r.0.users[u] == db.users[u]
    ensures |r.1| == |Filter(lines, IsUserLine)|
  {
    var rows := AcceptedRows(lines);
    (AddUserRows(db, rows), rows)
  }

  /** `add_user` for one more row after a batch. */
  lemma {:induction false} AddUserRowsAppend(db: Store, rows: seq<UserRow>, row: UserRow)
    ensures AddUserRows(db, rows + [row]) == AddUser(AddUserRows(db, rows), row.id, row.first, row.last)
    decreases |rows|
  {
    var t := rows + [row];
    if |rows| == 0 {
      assert t[1..] == [];
    } else {
      assert t[0] == rows[0] && t[1..] == rows[1..] + [row];
      AddUserRowsAppend(AddUser(db, rows[0].id, rows[0].first, rows[0].last), rows[1..], row);
    }
  }

  /** One more line contributes its row at the end when it is accepted. */
  lemma AcceptedRowsStep(lines: seq<string>, line: string)
    ensures AcceptedRows(lines + [line]) ==
      AcceptedRows(lines) + (if IsUserLine(line) then [AcceptUserLine(line).value] else [])
  {
    FilterMapAppend(lines, line, AcceptUserLine);
  }

  /** The loop body for one more line: an accepted line is added to the
      store and to the answer; any other line changes neither. */
  lemma AddUserLinesStep(db: Store, lines: seq<string>, line: string)
    ensures IsUserLine(line) ==>
      var row := AcceptUserLine(line).value;
      AddUserLines(db, lines + [line]) ==
        (AddUser(AddUserLines(db, lines).0, row.id, row.first, row.last), AddUserLines(db, lines).1 + [row])
    ensures !IsUserLine(line) ==> AddUserLines(db, lines + [line]) == AddUserLines(db, lines)
  {
    var rows := AcceptedRows(lines);
    AcceptedRowsStep(lines, line);
    if IsUserLine(line) {
      var row := AcceptUserLine(line).value;
      assert AcceptedRows(lines + [line]) == rows + [row];
      AddUserRowsAppend(db, rows, row);
    } else {
      assert AcceptedRows(lines + [line]) == rows;
    }
  }

  /** `"|" in line`. */
  predicate HasBar(line: string) {
    '|' in line
  }

  /** One `/add_video` line: `map(str.strip, line.split("|", 1))`, i.e. split at
      the first `|` only, both halves stripped; `None` for a line without `|`. */
  function ParseVideoLine(line: string): (r: Option<Video>)
    ensures r.Some? <==> HasBar(line)
    ensures r.Some? ==> Trimmed(r.value.title) && Trimmed(r.value.link) && '|' !in r.value.title
    ensures r.Some? ==> r.value.title == Strip(line[..IndexOf(line, '|')])
    ensures r.Some? ==> r.value.link == Strip(line[IndexOf(line, '|') + 1..])
  {
    match SplitFirst(line, '|')
    case Some((before, after)) =>
      var i := |before|;
      assert line[..i] == before && line[i] == '|' && line[i + 1..] == after;
      var title := Strip(before);
      assert '|' !in title by {
        assert title == before[LeadingSpace(before)..LeadingSpace(before) + |title|];
      }
      Some(Video(title, Strip(after)))
    case None => None
  }

  /** The videos of the lines containing `|`, in order. */
  function ParsedVideos(lines: seq<string>): (vs: seq<Video>)
    ensures |vs| == |Filter(lines, HasBar)|
  {
    FilterMapLength(lines, ParseVideoLine, HasBar);
    FilterMap(lines, ParseVideoLine)
  }

  /** `add_video` for each video in turn. */
  function AddVideoRows(db: Store, vs: seq<Video>): (r: Store)
    ensures r.users == db.users
    ensures r.videos == db.videos + vs
    decreases |vs|
  {
    if |vs| == 0 then db
    else
      var rest := AddVideoRows(AddVideo(db, vs[0].title, vs[0].link), vs[1..]);
      assert db.videos + [vs[0]] + vs[1..] == db.videos + vs;
      rest
  }

  /** `add_video` for one more video after a batch. */
  lemma {:induction false} AddVideoRowsAppend(db: Store, vs: seq<Video>, v: Video)
    ensures AddVideoRows(db, vs + [v]) == AddVideo(AddVideoRows(db, vs), v.title, v.link)
    decreases |vs|
  {
    var t := vs + [v];
    if |vs| == 0 {
      assert t[1..] == [];
    } else {
      assert t[0] == vs[0] && t[1..] == vs[1..] + [v];
      AddVideoRowsAppend(AddVideo(db, vs[0].title, vs[0].link), vs[1..], v);
    }
  }

  /** The `/add_video` loop: `add_video` for every line containing `|`, in
      order; other lines skipped. Parsing a line does not read the store, so
      this equals parsing all lines first and then adding the videos in order.
      Returns the store and the added videos. */
  function AddVideoLines(db: Store, lines: seq<string>): (r: (Store, seq<Video>))
    ensures r.0.users == db.users
    ensures r.0.videos == db.videos + r.1
    ensures |r.1| == |Filter(lines, HasBar)|
  {
    var added := ParsedVideos(lines);
    (AddVideoRows(db, added), added)
  }

  /** One more line contributes its video at the end when it contains `|`. */
  lemma ParsedVideosStep(lines: seq<string>, line: string)
    ensures ParsedVideos(lines + [line]) ==
      ParsedVideos(lines) + (if HasBar(line) then [ParseVideoLine(line).value] else [])
  {
    FilterMapAppend(lines, line, ParseVideoLine);
  }

  /** The loop body for one more line: a line with `|` is stored and
      announced; any other line changes nothing. */
  lemma AddVideoLinesStep(db: Store, lines: seq<string>, line: string)
    ensures HasBar(line) ==>
      var v := ParseVideoLine(line).value;
      AddVideoLines(db, lines + [line]) ==
        (AddVideo(AddVideoLines(db, lines).0, v.title, v.link), AddVideoLines(db, lines).1 + [v])
    ensures !HasBar(line) ==> AddVideoLines(db, lines + [line]) == AddVideoLines(db, lines)
  {
    var vs := ParsedVideos(lines);
    ParsedVideosStep(lines, line);
    if HasBar(line) {
      var v := ParseVideoLine(line).value;
      assert ParsedVideos(lines + [line]) == vs + [v];
      AddVideoRowsAppend(db, vs, v);
    } else {
      assert ParsedVideos(lines + [line]) == vs;
    }
  }

  function AddUsers(db: Store, text: string): (s: Step)
    ensures s == Answer(s.store, s.reply) && s.reply != Silent
  {
    var lines := PayloadLines(text);
    if |lines| == 0 then
      Answer(db, AddUserUsage)
    else
      var (store, added) := AddUserLines(db, lines);
      if |added| > 0 then Answer(store, UsersAdded(added)) else Answer(store, NoValidUsers)
  }

  function AddVideos(db: Store, text: string): (s: Step)
    ensures s.reply != Silent
    ensures s.recipients != {} ==> s.recipients == s.store.users.Keys
  {
    var lines := PayloadLines(text);
    if |lines| == 0 then
      Answer(db, AddVideoUsage)
    else
      var (store, added) := AddVideoLines(db, lines);
      if |added| > 0 then
        Step(store, VideosAddedAndSent, GetUsers(store), added)
      else
        Answer(store, NoValidVideos)
  }

  // ------------------------------------------------------------------ deletions and search

  /** `/del_user <id>`: exactly two tokens in the whole text, the second an id
      an SQLite INTEGER can hold; otherwise only a usage or bad-id answer. */
  function DeleteUser(db: Store, text: string): (s: Step)
    ensures s == Answer(s.store, s.reply) && s.reply != Silent
  {
    var parts := Words(text);
    if |parts| == 2 then
      match ParseInt(parts[1])
      case Some(id) =>
        if FitsSqlInteger(id) then Answer(RemoveUser(db, id), UserRemoved(id)) else Answer(db, BadId)
      case None => Answer(db, BadId)
    else
      Answer(db, DelUserUsage)
  }

  /** `/del_video <link>`: the link is everything after the command word. */
  function DeleteVideo(db: Store, text: string): (s: Step)
    ensures s == Answer(s.store, s.reply) && s.reply != Silent
  {
    match AfterFirstWord(text)
    case Some(link) => Answer(RemoveVideoByLink(db, link), VideoRemoved)
    case None => Answer(db, DelVideoUsage)
  }

  /** `text.replace("/find", "").strip()`: the text without any `/find`,
      stripped. */
  function FindKeyword(text: string): (keyword: string)
    ensures Trimmed(keyword) && |keyword| <= |text|
    ensures !Contains(text, FindCommand) ==> keyword == Strip(text)
    ensures Contains(text, FindCommand) ==> |keyword| < |text|
  {
    Strip(RemoveAll(text, FindCommand))
  }

  /** The command word that opens a `/find` message goes, and so does every
      later occurrence of it. */
  lemma FindKeywordOfCommand(text: string)
    requires StartsWith(text, FindCommand)
    ensures FindKeyword(text) == Strip(RemoveAll(text[|FindCommand|..], FindCommand))
  {
    var rest := text[|FindCommand|..];
    assert "" + FindCommand + rest == text;
    ShorterNotContains("" + FindCommand[..|FindCommand| - 1], FindCommand);
    RemoveAllStep("", FindCommand, rest);
  }

  function Find(db: Store, text: string): (s: Step)
    ensures s == Answer(db, s.reply) && s.reply != Silent
  {
    var keyword := FindKeyword(text);
    if |keyword| == 0 then
      Answer(db, FindPrompt)
    else
      var results := SearchVideosByTitle(db, keyword);
      if |results| == 0 then Answer(db, NothingFound) else Answer(db, Found(results))
  }

  // ------------------------------------------------------------------ dispatch

  /** `handle_message`: the first matching branch of the cascade handles the
      message. Only admins ever change the store, and a notification goes to
      every stored user. */
  function Dispatch(db: Store, admins: set<int>, caller: Caller, message: string): (s: Step)
    ensures s.store != db ==> caller.id in admins
    ensures s.recipients != {} ==> caller.id in admins && s.recipients == s.store.users.Keys
    ensures s.reply == Silent ==> s == Answer(db, Silent)
  {
    var text := Strip(message);
    var isAdmin := caller.id in admins;
    if StartsWith(text, StartCommand) then Start(db, admins, caller)
    else if StartsWith(text, UsersCommand) && isAdmin then ListUsers(db)
    else if StartsWith(text, VideosCommand) then ListVideos(db, caller)
    else if StartsWith(text, AddUserCommand) && isAdmin then AddUsers(db, text)
    else if StartsWith(text, AddVideoCommand) && isAdmin then AddVideos(db, text)
    else if StartsWith(text, DelUserCommand) && isAdmin then DeleteUser(db, text)
    else if StartsWith(text, DelVideoCommand) && isAdmin then DeleteVideo(db, text)
    else if StartsWith(text, FindCommand) then Find(db, text)
    else if StartsWith(text, HelpCommand) then Help(db, admins, caller)
    else Answer(db, Silent)
  }
}
