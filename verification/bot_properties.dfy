/**
  What `handle_message` promises, stated over `Bot.Dispatch`: who may use
  which command, what each command does to the store, who is notified, and
  which messages go unanswered.
 */
module BotProperties {
  import opened Optional
  import opened PyStr
  import opened PyInt
  import opened Seqs
  import opened Db
  import opened Bot

  /** A text that starts with a command has that command's characters in front. */
  lemma CommandChar(text: string, command: string, i: nat)
    requires StartsWith(text, command) && i < |command|
    ensures text[i] == command[i]
  {
    assert text[..|command|][i] == text[i];
  }

  /** The second character tells the command families apart:
      `s`tart, `u`sers, `v`ideos, `a`dd_..., `d`el_..., `f`ind, `h`elp. */
  lemma SecondChar(text: string)
    ensures StartsWith(text, StartCommand) ==> |text| > 1 && text[1] == 's'
    ensures StartsWith(text, UsersCommand) ==> |text| > 1 && text[1] == 'u'
    ensures StartsWith(text, VideosCommand) ==> |text| > 1 && text[1] == 'v'
    ensures StartsWith(text, AddUserCommand) ==> |text| > 5 && text[1] == 'a' && text[5] == 'u'
    ensures StartsWith(text, AddVideoCommand) ==> |text| > 5 && text[1] == 'a' && text[5] == 'v'
    ensures StartsWith(text, DelUserCommand) ==> |text| > 5 && text[1] == 'd' && text[5] == 'u'
    ensures StartsWith(text, DelVideoCommand) ==> |text| > 5 && text[1] == 'd' && text[5] == 'v'
    ensures StartsWith(text, FindCommand) ==> |text| > 1 && text[1] == 'f'
    ensures StartsWith(text, HelpCommand) ==> |text| > 1 && text[1] == 'h'
  {
    if StartsWith(text, StartCommand) { CommandChar(text, StartCommand, 1); }
    if StartsWith(text, UsersCommand) { CommandChar(text, UsersCommand, 1); }
    if StartsWith(text, VideosCommand) { CommandChar(text, VideosCommand, 1); }
    if StartsWith(text, AddUserCommand) { CommandChar(text, AddUserCommand, 1); CommandChar(text, AddUserCommand, 5); }
    if StartsWith(text, AddVideoCommand) { CommandChar(text, AddVideoCommand, 1); CommandChar(text, AddVideoCommand, 5); }
    if StartsWith(text, DelUserCommand) { CommandChar(text, DelUserCommand, 1); CommandChar(text, DelUserCommand, 5); }
    if StartsWith(text, DelVideoCommand) { CommandChar(text, DelVideoCommand, 1); CommandChar(text, DelVideoCommand, 5); }
    if StartsWith(text, FindCommand) { CommandChar(text, FindCommand, 1); }
    if StartsWith(text, HelpCommand) { CommandChar(text, HelpCommand, 1); }
  }

  // ------------------------------------------------------------------ /start

  /** `/start` by anyone: a stored user is welcomed, an admin not yet stored
      is stored with their profile names, everybody else is refused. */
  lemma StartByRole(db: Store, admins: set<int>, caller: Caller, message: string)
    requires StartsWith(Strip(message), StartCommand)
    ensures var s := Dispatch(db, admins, caller, message);
      && s.recipients == {} && s.announced == []
      && (caller.id in db.users ==> s.store == db && s.reply == Welcome)
      && (caller.id !in db.users && caller.id in admins ==>
            && s.reply == AutoEnrolled
            && s.store.videos == db.videos
            && s.store.users.Keys == db.users.Keys + {caller.id}
            && s.store.users[caller.id] == Names(caller.firstName, LastNameOrEmpty(caller))
            && (forall u :: u in db.users ==> s.store.users[u] == db.users[u]))
      && (caller.id !in db.users && caller.id !in admins ==> s.store == db && s.reply == StartDenied)
  {
  }

  // ------------------------------------------------------------------ access control

  /** `/users`, `/add_user`, `/add_video`, `/del_user` and `/del_video` from
      anyone but an admin fall through every branch: no answer, no change. */
  lemma AdminCommandsIgnoredForOthers(db: Store, admins: set<int>, caller: Caller, message: string)
    requires caller.id !in admins
    requires var text := Strip(message);
      || StartsWith(text, UsersCommand) || StartsWith(text, AddUserCommand)
      || StartsWith(text, AddVideoCommand) || StartsWith(text, DelUserCommand)
      || StartsWith(text, DelVideoCommand)
    ensures Dispatch(db, admins, caller, message) == Answer(db, Silent)
  {
    SecondChar(Strip(message));
  }

  /** Exactly the messages that start with no command the sender may use go
      unanswered; for them nothing changes and nobody is notified. */
  lemma SilentIffUnrecognised(db: Store, admins: set<int>, caller: Caller, message: string)
    ensures var s := Dispatch(db, admins, caller, message);
      var text := Strip(message);
      var isAdmin := caller.id in admins;
      s.reply == Silent <==>
        && !StartsWith(text, StartCommand) && !StartsWith(text, VideosCommand)
        && !StartsWith(text, FindCommand) && !StartsWith(text, HelpCommand)
        && !(isAdmin && StartsWith(text, UsersCommand))
        && !(isAdmin && StartsWith(text, AddUserCommand))
        && !(isAdmin && StartsWith(text, AddVideoCommand))
        && !(isAdmin && StartsWith(text, DelUserCommand))
        && !(isAdmin && StartsWith(text, DelVideoCommand))
  {
  }

  // ------------------------------------------------------------------ /users, /videos, /help

  /** `/users` by an admin lists exactly the stored ids. */
  lemma UsersListsStoredIds(db: Store, admins: set<int>, caller: Caller, message: string)
    requires caller.id in admins && StartsWith(Strip(message), UsersCommand)
    ensures var s := Dispatch(db, admins, caller, message);
      && s.store == db && s.recipients == {}
      && (|db.users| == 0 <==> s.reply == NoUsers)
      && (s.reply != NoUsers ==> s.reply.UserIds? && forall u :: u in s.reply.ids <==> u in db.users)
  {
    SecondChar(Strip(message));
  }

  /** `/videos` is for stored users only, admins included: anyone else is
      refused and nothing changes. */
  lemma VideosNeedMembership(db: Store, admins: set<int>, caller: Caller, message: string)
    requires caller.id !in db.users && StartsWith(Strip(message), VideosCommand)
    ensures Dispatch(db, admins, caller, message) == Answer(db, VideosDenied)
  {
    SecondChar(Strip(message));
  }

  /** `/videos` by a stored user lists every stored video once per row,
      ordered by title. */
  lemma VideosListedByTitle(db: Store, admins: set<int>, caller: Caller, message: string)
    requires caller.id in db.users && StartsWith(Strip(message), VideosCommand)
    ensures var s := Dispatch(db, admins, caller, message);
      && s.store == db && s.recipients == {}
      && (|db.videos| == 0 <==> s.reply == NoVideos)
      && (s.reply != NoVideos ==>
            && s.reply.VideoList?
            && SortedByTitle(s.reply.videos)
            && multiset(s.reply.videos) == multiset(db.videos))
  {
    SecondChar(Strip(message));
  }

  /** `/help` answers by class of sender: admins first, then stored users,
      then everybody else. */
  lemma HelpByRole(db: Store, admins: set<int>, caller: Caller, message: string)
    requires StartsWith(Strip(message), HelpCommand)
    ensures var s := Dispatch(db, admins, caller, message);
      && s.store == db && s.recipients == {}
      && (caller.id in admins ==> s.reply == AdminCommands)
      && (caller.id !in admins && caller.id in db.users ==> s.reply == UserCommands)
      && (caller.id !in admins && caller.id !in db.users ==> s.reply == HelpDenied)
  {
    SecondChar(Strip(message));
  }

  // ------------------------------------------------------------------ /add_user

  /** `RowIds` collects exactly the ids of the rows. */
  lemma {:induction false} RowIdsMembers(rows: seq<UserRow>, u: int)
    ensures u in RowIds(rows) <==> exists k :: 0 <= k < |rows| && rows[k].id == u
    decreases |rows|
  {
    if |rows| > 0 {
      RowIdsMembers(rows[1..], u);
      if exists k :: 0 <= k < |rows[1..]| && rows[1..][k].id == u {
        var k :| 0 <= k < |rows[1..]| && rows[1..][k].id == u;
        assert rows[k + 1].id == u;
      }
      if exists k :: 0 <= k < |rows| && rows[k].id == u {
        var k :| 0 <= k < |rows| && rows[k].id == u;
        if k > 0 {
          assert rows[1..][k - 1].id == u;
        }
      }
    }
  }

  /** `INSERT OR IGNORE` across a batch: a user new to the store gets the
      names of the first row with that id; later rows with the same id are
      ignored. */
  lemma {:induction false} AddUserRowsFirstWins(db: Store, rows: seq<UserRow>, u: int)
    requires u !in db.users && u in AddUserRows(db, rows).users
    ensures exists k :: && 0 <= k < |rows| && rows[k].id == u
                        && (forall j :: 0 <= j < k ==> rows[j].id != u)
                        && AddUserRows(db, rows).users[u] == Names(rows[k].first, rows[k].last)
    decreases |rows|
  {
    var row := rows[0];
    var db' := AddUser(db, row.id, row.first, row.last);
    if row.id != u {
      var rest := rows[1..];
      AddUserRowsFirstWins(db', rest, u);
      var k :| && 0 <= k < |rest| && rest[k].id == u
               && (forall j :: 0 <= j < k ==> rest[j].id != u)
               && AddUserRows(db', rest).users[u] == Names(rest[k].first, rest[k].last);
      assert rows[k + 1] == rest[k];
      forall j | 0 <= j < k + 1 ensures rows[j].id != u {
        if j > 0 { assert rows[j] == rest[j - 1]; }
      }
    }
  }

  /** Line `k` is the first accepted `/add_user` line for id `u`. */
  predicate FirstAcceptedFor(lines: seq<string>, k: int, u: int) {
    && 0 <= k < |lines| && IsUserLine(lines[k])
    && AcceptUserLine(lines[k]).value.id == u
    && forall j :: 0 <= j < k && IsUserLine(lines[j]) ==> AcceptUserLine(lines[j]).value.id != u
  }

  /** `INSERT OR IGNORE` across the `/add_user` lines: a user new to the
      store gets the names of the first accepted line with that id; later
      lines with the same id are ignored. */
  lemma {:induction false} AddUserLinesFirstWins(db: Store, lines: seq<string>, u: int)
    requires u !in db.users && u in AddUserLines(db, lines).0.users
    ensures exists k :: && FirstAcceptedFor(lines, k, u)
                        && AddUserLines(db, lines).0.users[u] == Names(AcceptUserLine(lines[k]).value.first, AcceptUserLine(lines[k]).value.last)
    decreases |lines|
  {
    var init, last := lines[..|lines| - 1], lines[|lines| - 1];
    SplitLast(lines);
    AddUserLinesStep(db, init, last);
    var st := AddUserLines(db, init).0;
    if u in st.users {
      AddUserLinesFirstWins(db, init, u);
      var k :| && FirstAcceptedFor(init, k, u)
               && st.users[u] == Names(AcceptUserLine(init[k]).value.first, AcceptUserLine(init[k]).value.last);
      FirstAcceptedExtends(init, last, k, u);
    } else {
      FirstAcceptedLast(db, init, last, u);
    }
  }

  /** A first accepted line stays first when more lines follow. */
  lemma FirstAcceptedExtends(init: seq<string>, last: string, k: int, u: int)
    requires FirstAcceptedFor(init, k, u)
    ensures FirstAcceptedFor(init + [last], k, u) && (init + [last])[k] == init[k]
  {
    var lines := init + [last];
    forall j | 0 <= j < k && IsUserLine(lines[j]) ensures AcceptUserLine(lines[j]).value.id != u {
      assert lines[j] == init[j];
    }
  }

  /** An accepted line whose id no earlier line stored is the first for it. */
  lemma FirstAcceptedLast(db: Store, init: seq<string>, last: string, u: int)
    requires IsUserLine(last) && AcceptUserLine(last).value.id == u
    requires u !in AddUserLines(db, init).0.users
    ensures FirstAcceptedFor(init + [last], |init|, u)
  {
    var lines := init + [last];
    forall j | 0 <= j < |init| && IsUserLine(lines[j]) ensures AcceptUserLine(lines[j]).value.id != u {
      assert lines[j] == init[j];
      AddUserLinesStoresAccepted(db, init, j);
    }
  }

  /** `/add_user` by an admin: without payload lines only the usage answer;
      otherwise every accepted line's user is stored (a stored id keeps its
      names), nothing else is stored, and the answer lists the accepted rows. */
  lemma AddUserBatch(db: Store, admins: set<int>, caller: Caller, message: string)
    requires caller.id in admins && StartsWith(Strip(message), AddUserCommand)
    ensures var s := Dispatch(db, admins, caller, message);
      var lines := PayloadLines(Strip(message));
      var rows := AcceptedRows(lines);
      && s.recipients == {}
      && (|lines| == 0 ==> s == Answer(db, AddUserUsage))
      && (|lines| > 0 ==>
            && s.reply == (if |rows| > 0 then UsersAdded(rows) else NoValidUsers)
            && s.store.videos == db.videos
            && s.store.users.Keys == db.users.Keys + RowIds(rows)
            && (forall u :: u in db.users ==> s.store.users[u] == db.users[u]))
  {
    SecondChar(Strip(message));
  }

  /** Every accepted line's user is in the store after `/add_user`. */
  lemma AddUserLinesStoresAccepted(db: Store, lines: seq<string>, k: int)
    requires 0 <= k < |lines| && IsUserLine(lines[k])
    ensures AcceptUserLine(lines[k]).value.id in AddUserLines(db, lines).0.users
  {
    var rows := AcceptedRows(lines);
    var row := AcceptUserLine(lines[k]).value;
    FilterMapCover(lines, AcceptUserLine, k);
    var i :| 0 <= i < |rows| && rows[i] == row;
    RowIdsMembers(rows, row.id);
  }

  /** Every user the `/add_user` batch adds comes from an accepted line. */
  lemma AddUserLinesAddsOnlyAccepted(db: Store, lines: seq<string>, u: int)
    requires u in AddUserLines(db, lines).0.users && u !in db.users
    ensures exists k :: 0 <= k < |lines| && IsUserLine(lines[k]) && AcceptUserLine(lines[k]).value.id == u
  {
    var rows := AcceptedRows(lines);
    RowIdsMembers(rows, u);
    var i :| 0 <= i < |rows| && rows[i].id == u;
    FilterMapFrom(lines, AcceptUserLine, rows[i]);
    var k :| 0 <= k < |lines| && AcceptUserLine(lines[k]) == Some(rows[i]);
    assert IsUserLine(lines[k]);
  }

  // ------------------------------------------------------------------ /add_video

  /** Every line with a `|` contributes its video. */
  lemma ParsedVideosCover(lines: seq<string>, k: int)
    requires 0 <= k < |lines| && HasBar(lines[k])
    ensures ParseVideoLine(lines[k]).value in ParsedVideos(lines)
  {
    FilterMapCover(lines, ParseVideoLine, k);
  }

  /** Every added video comes from a line with a `|`. */
  lemma ParsedVideosFromLines(lines: seq<string>, v: Video)
    requires v in ParsedVideos(lines)
    ensures exists k :: 0 <= k < |lines| && HasBar(lines[k]) && ParseVideoLine(lines[k]) == Some(v)
  {
    FilterMapFrom(lines, ParseVideoLine, v);
  }

  /** `/add_video` by an admin: without payload lines only the usage answer;
      otherwise one video per line with a `|` is appended in order, users are
      untouched, and every stored user is notified exactly when at least one
      video was added. */
  lemma AddVideoBatch(db: Store, admins: set<int>, caller: Caller, message: string)
    requires caller.id in admins && StartsWith(Strip(message), AddVideoCommand)
    ensures var s := Dispatch(db, admins, caller, message);
      var lines := PayloadLines(Strip(message));
      var added := ParsedVideos(lines);
      && (|lines| == 0 ==> s == Answer(db, AddVideoUsage))
      && (|lines| > 0 ==>
            && s.store.users == db.users
            && s.store.videos == db.videos + added
            && |s.store.videos| == |db.videos| + |Filter(lines, HasBar)|
            && (|added| > 0 ==> s.reply == VideosAddedAndSent && s.recipients == db.users.Keys && s.announced == added)
            && (|added| == 0 ==> s == Answer(db, NoValidVideos)))
  {
    SecondChar(Strip(message));
  }

  // ------------------------------------------------------------------ /del_user

  /** `/del_user` by an admin: exactly two tokens with an integer second
      token remove that user and nobody else; any other shape changes nothing. */
  lemma DelUserExactId(db: Store, admins: set<int>, caller: Caller, message: string)
    requires caller.id in admins && StartsWith(Strip(message), DelUserCommand)
    ensures var s := Dispatch(db, admins, caller, message);
      var parts := Words(Strip(message));
      && s.recipients == {} && s.store.videos == db.videos
      && (|parts| != 2 ==> s == Answer(db, DelUserUsage))
      && (|parts| == 2 && ParseInt(parts[1]).None? ==> s == Answer(db, BadId))
      && (|parts| == 2 && ParseInt(parts[1]).Some? ==>
            var id := ParseInt(parts[1]).value;
            && (!FitsSqlInteger(id) ==> s == Answer(db, BadId))
            && (FitsSqlInteger(id) ==>
                  && s.reply == UserRemoved(id)
                  && id !in s.store.users
                  && s.store.users.Keys <= db.users.Keys
                  && (forall u :: u in db.users && u != id ==> u in s.store.users && s.store.users[u] == db.users[u])))
  {
    SecondChar(Strip(message));
  }

  // ------------------------------------------------------------------ /del_video

  /** `/del_video` by an admin: the rest of the text after the command word is
      the link; every row with exactly that link goes and every other row
      stays. Without a link only the usage answer. */
  lemma DelVideoByLink(db: Store, admins: set<int>, caller: Caller, message: string)
    requires caller.id in admins && StartsWith(Strip(message), DelVideoCommand)
    ensures var s := Dispatch(db, admins, caller, message);
      && s.recipients == {} && s.store.users == db.users
      && (AfterFirstWord(Strip(message)).None? ==> s == Answer(db, DelVideoUsage))
      && (AfterFirstWord(Strip(message)).Some? ==>
            var link := AfterFirstWord(Strip(message)).value;
            && s.reply == VideoRemoved
            && forall v :: multiset(s.store.videos)[v] == if v.link == link then 0 else multiset(db.videos)[v])
  {
    SecondChar(Strip(message));
  }

  /** The argument of `<command> <arg>` is `arg` itself, spaces inside it
      included, when it does not start with whitespace. */
  lemma ArgumentAfterCommand(command: string, arg: string)
    requires IsWord(command) && |arg| > 0 && !IsSpace(arg[0])
    ensures AfterFirstWord(command + " " + arg) == Some(arg)
  {
    assert "" + command + " " + arg == command + " " + arg;
    AfterFirstWordOfParts("", command, " ", arg);
  }

  /** `/del_video <link>` from an admin removes exactly the rows stored with
      that link, for any trimmed link. */
  lemma DelVideoLiteral(db: Store, admins: set<int>, caller: Caller, link: string)
    requires caller.id in admins && |link| > 0 && Trimmed(link)
    ensures var s := Dispatch(db, admins, caller, DelVideoCommand + " " + link);
      && s.reply == VideoRemoved && s.store.users == db.users
      && forall v :: multiset(s.store.videos)[v] == if v.link == link then 0 else multiset(db.videos)[v]
  {
    var message := DelVideoCommand + " " + link;
    assert Trimmed(message);
    StripOfTrimmed(message);
    assert message[..|DelVideoCommand|] == DelVideoCommand;
    ArgumentAfterCommand(DelVideoCommand, link);
    assert AfterFirstWord(Strip(message)) == Some(link);
    DelVideoOfLink(db, admins, caller, message, link);
  }

  /** [DelVideoByLink] with the argument named. */
  lemma DelVideoOfLink(db: Store, admins: set<int>, caller: Caller, message: string, link: string)
    requires caller.id in admins && StartsWith(Strip(message), DelVideoCommand)
    requires AfterFirstWord(Strip(message)) == Some(link)
    ensures var s := Dispatch(db, admins, caller, message);
      && s.reply == VideoRemoved && s.store.users == db.users
      && forall v :: multiset(s.store.videos)[v] == if v.link == link then 0 else multiset(db.videos)[v]
  {
    DelVideoByLink(db, admins, caller, message);
  }

  // ------------------------------------------------------------------ /find

  /** A search finds nothing exactly when no stored title matches. */
  lemma {:induction false} SearchEmptyIffNoMatch(db: Store, keyword: string)
    ensures |SearchVideosByTitle(db, keyword)| == 0 <==>
      forall k :: 0 <= k < |db.videos| ==> !TitleMatches(db.videos[k], keyword)
  {
    var r := SearchVideosByTitle(db, keyword);
    if |r| == 0 {
      forall k | 0 <= k < |db.videos| ensures !TitleMatches(db.videos[k], keyword) {
        assert db.videos[k] in multiset(db.videos);
        assert multiset(r)[db.videos[k]] == 0;
      }
    } else {
      assert r[0] in multiset(r);
      assert r[0] in multiset(db.videos);
      var k :| 0 <= k < |db.videos| && db.videos[k] == r[0];
    }
  }

  /** `/find` is open to every sender and never changes the store: an empty
      keyword gets a prompt, otherwise the answer holds exactly the matching
      stored rows, and "nothing found" exactly when no title matches. */
  lemma FindForAnyone(db: Store, admins: set<int>, caller: Caller, message: string)
    requires StartsWith(Strip(message), FindCommand)
    ensures var s := Dispatch(db, admins, caller, message);
      var keyword := FindKeyword(Strip(message));
      && s.store == db && s.recipients == {}
      && (|keyword| == 0 <==> s.reply == FindPrompt)
      && (|keyword| > 0 ==>
            && (s.reply == NothingFound <==> forall k :: 0 <= k < |db.videos| ==> !TitleMatches(db.videos[k], keyword))
            && (s.reply != NothingFound ==>
                  && s.reply.Found?
                  && forall v :: multiset(s.reply.videos)[v] == if TitleMatches(v, keyword) then multiset(db.videos)[v] else 0))
  {
    SecondChar(Strip(message));
    SearchEmptyIffNoMatch(db, FindKeyword(Strip(message)));
  }

  /** The keyword of `/find <keyword>` is the keyword itself when it is trimmed
      and does not contain the command. */
  lemma {:induction false} FindKeywordLiteral(keyword: string)
    requires |keyword| > 0 && Trimmed(keyword) && !Contains(keyword, FindCommand)
    ensures FindKeyword(FindCommand + " " + keyword) == keyword
  {
    var message := FindCommand + " " + keyword;
    assert message[..|FindCommand|] == FindCommand;
    assert message[|FindCommand|..] == " " + keyword;
    assert |FindCommand| <= |" " + keyword| ==> (" " + keyword)[..|FindCommand|][0] != FindCommand[0];
    assert !StartsWith(" " + keyword, FindCommand);
    assert (" " + keyword)[1..] == keyword;
    assert RemoveAll(message, FindCommand) == " " + keyword;
    assert (" " + keyword)[..1] == " " && (" " + keyword)[1..1 + |keyword|] == keyword;
    assert (" " + keyword)[1 + |keyword|..] == [];
    StripUnique(" " + keyword, keyword, 1);
  }
}
