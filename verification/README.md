# cpp_lecture_bot — a Dafny model of the message handler and its store

This project models the Telegram bot for lecture videos. It covers the
message handler `handle_message` of `app/bot.py` and the SQLite store of
`app/db.py`, both as pure Dafny definitions.

The store (`Db.Store`) has two parts:
- the `users` table, a map from Telegram id to first and last name;
- the `videos` table, the sequence of `(title, link)` rows in insertion order.

The handler is one function, `Bot.Dispatch(store, admins, caller, text)`. It
returns a `Bot.Step`: the new store, the answer to the sender (a `Bot.Reply`
tag, `Silent` when nothing is sent), and the set of user ids notified of
newly added videos. The configured admin ids are an input.

The Python string and integer operations the handler relies on are modelled
in their own modules, so that parsing is stated in Python's terms:
- `PyStr`: `str.strip`, `str.split()`, `str.split("\n")`, `str.split("|", 1)`,
  `split(maxsplit=1)`, `str.replace(pat, "")`, `str.startswith`,
  whitespace as `str.isspace` defines it, and ASCII lower-casing;
- `PyInt`: `int()` on a token, and `str()` of an integer.

`Seqs` holds order-preserving filtering, shared by the two batch commands
and by the store's `DELETE` and `LIKE` queries.

Modules:
- `Optional`: `Option`, for parses that can fail.
- `Seqs`: `Filter` and `FilterMap`, with their membership, length and step lemmas.
- `PyStr`, `PyInt`: Python string and integer semantics.
- `Db`: the eight store operations of `app/db.py`.
- `Bot`: `handle_message`, as line parsers, per-command handlers and `Dispatch`.
- `BotProperties`: what the handler promises, stated over `Dispatch`.
- `Findings`: the two handlers the source gets wrong, as written, with witnesses.

Behaviour of the code that the model keeps:
- `/add_video` lines are split at the first `|`. Links are not validated.
- `/find` has no access check.
- `/del_video` deletes by exact link: the whole text after the command word
  and the whitespace behind it, inner whitespace included.
- The `/add_user` answer lists the accepted rows only. The `/add_video` answer
  lists none; the notification carries the added rows.
- The store's id column is a 64-bit SQLite INTEGER, and the code does not
  catch the `OverflowError` an id outside that range raises. The handlers in
  `Bot` implement the corrected behaviour: such a line is skipped and such a
  `/del_user` argument gets the bad-id answer. The code as written, where the
  handler stops without an answer, is modelled in `Findings` (see Findings).

## Model

| member | source | states |
|---|---|---|
| Db.AddUser | app/db.py:31-34 | `INSERT OR IGNORE` on the primary key: the ids become the old ids plus the new one; a stored user keeps their names; only a new id takes the given names; videos untouched |
| Db.AddUserIdempotent | app/db.py:31-34 | adding the same id a second time, with any names, changes nothing |
| Db.GetUsers | app/db.py:37-38 | `get_users()` reports exactly the stored ids (as a set; the list order is not modelled) |
| Db.GetAllUsers | app/db.py:41-42 | every returned row carries a stored id and that user's names, every stored user has a row, and no two rows share an id |
| Db.GetAllUsersIds | app/db.py:37-42 | the two queries report the same ids, so `get_all_users()` is empty exactly when `get_users()` is |
| Db.GetUsersAfterAdd | app/db.py:31-38 | after `add_user`, `get_users()` is the old ids plus the added id, whether or not it was stored |
| Db.GetUsersAfterRemove | app/db.py:37-47 | after `remove_user`, `get_users()` is the old ids minus the removed id |
| Db.GetAllUsersAfterAdd | app/db.py:31-42 | adding a new id adds exactly its row to `get_all_users()`; adding a stored id changes no row |
| Db.GetAllUsersAfterRemove | app/db.py:41-47 | after `remove_user`, `get_all_users()` is the old rows without the removed id's row |
| Db.RemoveUser | app/db.py:45-47 | the id is gone afterwards, every other user stays with the same names, no id is added, and an absent id leaves the store unchanged |
| Db.AddThenRemoveUser | app/db.py:31-47 | removing a user just added gives back the old users and names |
| Db.AddVideo | app/db.py:50-52 | exactly one row is appended at the end even when an identical row exists (its count rises by one); earlier rows and users untouched |
| Db.RemoveVideoByLink | app/db.py:62-64 | every row whose link equals the argument exactly is removed, every other row keeps its count; with no such row the store is unchanged |
| Db.AddThenRemoveVideo | app/db.py:50-64 | removing by a link no stored row had undoes adding a row with that link |
| Db.RemoveVideoByLinkAfterAdd | app/db.py:50-64 | deleting after one more insert: a row with the deleted link is gone again, any other row stays at the end, so the kept rows keep their order |
| Db.RemoveVideoByLinkIdempotent | app/db.py:62-64 | removing by the same link twice equals removing once |
| Db.LexLeTotal | app/db.py:58 | the title order compares any two titles |
| Db.LexLeTransitive | app/db.py:58 | the title order is transitive |
| Db.InsertByTitle | app/db.py:58 | inserting a row into a title-sorted list keeps it sorted and adds exactly that row |
| Db.SortByTitle | app/db.py:58 | the result is sorted by folded title and is a permutation of the input rows |
| Db.GetVideos | app/db.py:55-59 | the listing is a permutation of the stored rows, sorted by ASCII-case-folded title |
| Db.SearchVideosByTitle | app/db.py:67-71 | the result holds exactly the rows whose folded title contains the folded keyword, each as often as stored |
| Db.SearchEmptyKeyword | app/db.py:70 | an empty keyword (`LIKE '%%'`) returns every stored row in order |
| PyStr.Strip | app/bot.py:17 | the result has no whitespace at either end and is the text with whitespace-only runs cut from both ends |
| PyStr.StripUnique | app/bot.py:17 | a trimmed slice between two whitespace-only runs is the strip result, so `strip` is determined by that property |
| PyStr.StripOfTrimmed | app/bot.py:17 | a text with no whitespace at either end is its own strip |
| PyStr.StripIdempotent | app/bot.py:54 | stripping twice, as the batch handlers do, equals stripping once |
| PyStr.Words | app/bot.py:61 | `split()` yields non-empty tokens with no whitespace; the lemmas below fix which tokens |
| PyStr.IsSpaceListed | app/bot.py:17 | the whitespace test behind `strip` and `split` holds of exactly the characters `str.isspace` accepts, listed one by one |
| PyStr.WordsEmpty | app/bot.py:61 | `split()` returns no token exactly when the text is all whitespace |
| PyStr.WordsAfterSpace | app/bot.py:61 | whitespace in front of a text does not change its tokens |
| PyStr.WordsBeforeSpace | app/bot.py:61 | whitespace behind a text does not change its tokens |
| PyStr.WordsOfWordThen | app/bot.py:61 | a whitespace-free word followed by whitespace or nothing is the first token, and the tokens after it are those of the rest |
| PyStr.WordsOfStrip | app/bot.py:61 | `line.strip().split()` equals `line.split()` |
| PyStr.WordsOfJoin | app/bot.py:66 | splitting tokens joined by single spaces gives the tokens back |
| PyStr.WordsOfJoinedTail | app/bot.py:66 | the tokens from the n-th on, joined by single spaces, split back into themselves |
| PyStr.AfterFirstWord | app/bot.py:122-124 | `split(maxsplit=1)` has a second part exactly when there are two or more tokens; that part starts with a non-space, is a proper suffix of the text, and its tokens are all tokens but the first |
| PyStr.AfterFirstWordSplits | app/bot.py:122-124 | the text is leading whitespace, the first token, a non-empty whitespace run, and then exactly the second part |
| PyStr.AfterFirstWordOfParts | app/bot.py:122-124 | conversely, for every text of that shape the second part is exactly the rest, inner whitespace included |
| PyStr.SplitOn | app/bot.py:54 | `split("\n")` yields at least one piece, exactly one when there is no newline, and no piece contains a newline |
| PyStr.JoinSplitOn | app/bot.py:54 | joining the pieces of `split("\n")` with newlines rebuilds the text |
| PyStr.SplitOnJoin | app/bot.py:54 | splitting newline-joined newline-free pieces gives the pieces back |
| PyStr.SplitOnCons | app/bot.py:54 | `split("\n")` cuts at the first newline and splits the rest the same way |
| PyStr.SplitFirst | app/bot.py:90 | `split("\|", 1)` splits exactly when a bar occurs, at the first bar |
| PyStr.ContainsIsInfix | app/db.py:70 | the executable substring test agrees with the definition of an occurrence |
| PyStr.RemoveAll | app/bot.py:132 | `replace("/find", "")` never lengthens the text, leaves a text without the pattern unchanged, and shortens one with it |
| PyStr.RemoveAllStep | app/bot.py:132 | `replace` keeps the text before the first occurrence, drops that occurrence and carries on after it; with the unchanged case this fixes the result on every input |
| PyStr.LowerIdempotent | app/db.py:58 | the ASCII case folding that `NOCASE` and `LIKE` apply is idempotent |
| PyInt.ParseInt | app/bot.py:64 | `int()` succeeds exactly on an optional sign followed by one or more ASCII digits, and is negative only after a minus sign |
| PyInt.ParseIntLaws | app/bot.py:64 | `int()` of a digit string is its decimal value, unchanged by a leading zero or a `+`, and negated by a `-`, so any number of leading zeros leaves the value unchanged |
| PyInt.ParseIntToString | app/bot.py:68 | `int(str(n)) == n` for every integer |
| Bot.ParseUserLine | app/bot.py:61-66 | a line parses exactly when it has at least three tokens and the first is an integer; the id is that integer, the first name the second token, and the last name the remaining tokens joined by single spaces |
| Bot.AcceptUserLine | app/bot.py:61-69 | a line is stored exactly when it parses and its id fits an SQLite INTEGER |
| Bot.AcceptedRows | app/bot.py:59-70 | one row per accepted line |
| Bot.AcceptedRowsStep | app/bot.py:60-68 | one more line adds its row at the end exactly when it is accepted, so the rows are the accepted lines' rows in line order |
| Bot.AddUserRows | app/bot.py:67 | `add_user` per row: the ids gain exactly the rows' ids, stored users keep their names, videos untouched |
| Bot.AddUserRowsAppend | app/bot.py:67 | one more row is one more `add_user` on the store the earlier rows left |
| Bot.AddUserLines | app/bot.py:59-70 | the `/add_user` loop: stored ids gain exactly the accepted rows' ids, stored users keep their names, one row per accepted line |
| Bot.AddUserLinesStep | app/bot.py:60-70 | one loop iteration: an accepted line is added to the store and to the answer; any other line changes neither |
| Bot.ParseVideoLine | app/bot.py:89-90 | a line yields a video exactly when it contains a bar; title and link are the stripped text before and after the first bar, and the title holds no bar |
| Bot.ParsedVideos | app/bot.py:88-92 | one video per line with a bar |
| Bot.ParsedVideosStep | app/bot.py:88-92 | one more line adds its video at the end exactly when it has a bar, so the videos are those lines' videos in line order |
| Bot.AddVideoRows | app/bot.py:91 | `add_video` per video: the videos are appended in order, users untouched |
| Bot.AddVideoRowsAppend | app/bot.py:91 | one more video is one more `add_video` on the store the earlier videos left |
| Bot.AddVideoLines | app/bot.py:87-92 | the `/add_video` loop: the store's videos are the old ones followed by the added ones, one per line with a bar; users untouched |
| Bot.AddVideoLinesStep | app/bot.py:88-92 | one loop iteration: a line with a bar is appended to the store and to the announcement; any other line changes nothing |
| Bot.PayloadLines | app/bot.py:54 | the lines (here and at app/bot.py:82) after the first line of the stripped text: there are none exactly when it has no newline, none contains a newline, and joined with newlines they rebuild the text after the first newline |
| Bot.Start | app/bot.py:20-28 | `/start` always answers and changes the store only for an admin; membership is decided by `get_users()` |
| Bot.ListUsers | app/bot.py:30-37 | `/users` never changes the store; it says there are no users exactly when the table is empty, and otherwise lists the ids of the rows of `get_all_users()`, which are the stored ids |
| Bot.ListVideos | app/bot.py:40-51 | `/videos` always answers and never changes the store |
| Bot.AddUsers | app/bot.py:53-78 | `/add_user` always answers and notifies nobody |
| Bot.AddVideos | app/bot.py:81-104 | `/add_video` always answers and notifies, if anyone, exactly the ids of `get_users()` |
| Bot.DeleteUser | app/bot.py:107-118 | `/del_user` always answers and notifies nobody |
| Bot.DeleteVideo | app/bot.py:121-129 | `/del_video` always answers and notifies nobody |
| Bot.FindKeyword | app/bot.py:132 | the keyword is trimmed and never longer than the text; without `/find` in the text it is the stripped text, and with it strictly shorter |
| Bot.FindKeywordOfCommand | app/bot.py:131-132 | for a text starting with `/find`, the keyword is the stripped rest of the text with every further `/find` removed |
| Bot.Find | app/bot.py:131-143 | `/find` always answers and never changes the store |
| Bot.Help | app/bot.py:145-167 | `/help` always answers and never changes the store |
| Bot.Dispatch | app/bot.py:14-167 | only an admin's message can change the store; a notification goes to exactly the stored users and only on an admin's message; an unanswered message changes nothing |
| BotProperties.StartByRole | app/bot.py:20-28 | a stored user is welcomed with no change; an admin not stored is stored with their first name and last name (empty when missing); anyone else is refused with no change |
| BotProperties.AdminCommandsIgnoredForOthers | app/bot.py:30-167 | `/users`, `/add_user`, `/add_video`, `/del_user`, `/del_video` from a non-admin get no answer and change nothing |
| BotProperties.SilentIffUnrecognised | app/bot.py:19-167 | a message goes unanswered exactly when it starts with none of the commands open to its sender |
| BotProperties.UsersListsStoredIds | app/bot.py:30-37 | `/users` by an admin lists exactly the stored ids, or says there are none exactly when the table is empty |
| BotProperties.VideosNeedMembership | app/bot.py:40-43 | `/videos` from a sender not in the users table is refused with no change, even from an admin |
| BotProperties.VideosListedByTitle | app/bot.py:45-51 | `/videos` by a stored user lists all stored rows sorted by title, or says there are none exactly when there are none |
| BotProperties.HelpByRole | app/bot.py:145-167 | `/help` answers admins first, then stored users, then everybody else, with no change |
| BotProperties.AddUserBatch | app/bot.py:53-78 | `/add_user` by an admin: no payload gives only the usage answer; otherwise the ids gain exactly the accepted rows' ids, stored users keep their names, and the answer lists the accepted rows or says none was valid |
| BotProperties.RowIdsMembers | app/bot.py:67 | an id is among the batch's ids exactly when some accepted row carries it |
| BotProperties.AddUserRowsFirstWins | app/db.py:31-34 | within one batch a new user gets the names of the first row with that id; later rows with the same id are ignored |
| BotProperties.AddUserLinesFirstWins | app/bot.py:60-70 | a user the batch adds gets the names of the first accepted line with that id; later lines with the same id are ignored |
| BotProperties.AddUserLinesStoresAccepted | app/bot.py:60-70 | every accepted line's user is stored, whatever the other lines hold |
| BotProperties.AddUserLinesAddsOnlyAccepted | app/bot.py:60-70 | every user the batch adds comes from an accepted line |
| BotProperties.ParsedVideosCover | app/bot.py:88-92 | every line with a bar contributes its video |
| BotProperties.ParsedVideosFromLines | app/bot.py:88-92 | every added video comes from a line with a bar |
| BotProperties.AddVideoBatch | app/bot.py:81-104 | `/add_video` by an admin: no payload gives only the usage answer; otherwise the videos grow by exactly the lines with a bar, appended in order, and all stored users are notified exactly when at least one video was added |
| BotProperties.DelUserExactId | app/bot.py:107-118 | `/del_user` by an admin removes one user, and nobody else, only when there are exactly two tokens and the second is an integer in range; otherwise it answers with usage or bad id and changes nothing |
| BotProperties.DelVideoByLink | app/bot.py:121-129 | `/del_video` by an admin removes exactly the rows with the link after the command word; without one it answers with usage and changes nothing |
| BotProperties.ArgumentAfterCommand | app/bot.py:122-124 | the argument of `<command> <arg>` is `arg` itself, inner spaces included |
| BotProperties.DelVideoLiteral | app/bot.py:121-126 | `/del_video <link>` from an admin removes exactly the rows stored with that link |
| BotProperties.SearchEmptyIffNoMatch | app/bot.py:137-142 | a search comes back empty exactly when no stored title matches |
| BotProperties.FindForAnyone | app/bot.py:131-143 | `/find` from any sender leaves the store unchanged; an empty keyword gets the prompt; otherwise the answer is exactly the matching rows, and "nothing found" is sent exactly when no title matches |
| BotProperties.FindKeywordLiteral | app/bot.py:132 | the keyword of `/find <keyword>` is the keyword itself when it is trimmed and does not contain `/find` |
| Findings.AddRowsAsWritten | app/bot.py:60-70 | as written, the loop over rows keeps the videos and never loses a stored id |
| Findings.AddUserLinesAsWritten | app/bot.py:59-70 | the `/add_user` loop as written keeps the videos and never loses a stored id |
| Findings.OverflowRowAborts | app/bot.py:60-70 | as written, one out-of-range row anywhere aborts the batch |
| Findings.AbortKeepsPrefix | app/bot.py:60-70 | as written, the first out-of-range id stops the batch, and the store keeps exactly the rows committed before it |
| Findings.OverflowAbortsBatch | app/bot.py:60-70 | as written, one well-formed line with an out-of-range id aborts the batch |
| Findings.RowsAgreeInRange | app/bot.py:60-70 | with every id in range the as-written fold and the corrected one agree |
| Findings.ParsedEqualsAccepted | app/bot.py:61-69 | without out-of-range ids, parsing as written and accepting as corrected keep the same rows |
| Findings.AcceptedRowsFit | app/bot.py:61-69 | every row the corrected loop accepts has an id in range |
| Findings.AsWrittenAgreesWithoutOverflow | app/bot.py:59-70 | without out-of-range ids the loop as written and the corrected loop give the same store and rows |
| Findings.AddUsersAsWritten | app/bot.py:53-78 | `/add_user` as written notifies nobody and keeps the videos; an unanswered batch had payload lines |
| Findings.OverflowSilencesAddUsers | app/bot.py:53-78 | as written, `/add_user` with an out-of-range id on any payload line gets no answer |
| Findings.DeleteUserAsWritten | app/bot.py:107-118 | `/del_user` as written gets no answer exactly when there are two tokens and the second is an integer out of range |
| Findings.DeleteUserDiffersOnlyOnOverflow | app/bot.py:107-118 | the as-written and corrected `/del_user` agree except on out-of-range ids, where the corrected one answers bad id |
| Findings.ParseUserLineOf | app/bot.py:61-66 | the line `<id> <first> <last>` parses to exactly that row |
| Findings.OverflowThenValid | app/bot.py:59-70 | an out-of-range line followed by a valid one: as written nothing is stored; corrected, exactly the valid user is stored |
| Findings.AddUserOverflowWitness | app/bot.py:59-70 | for lines `<big> <first> <last>` and `<id> <first2> <last2>`: as written nothing is stored; corrected, exactly `id` is stored |
| Findings.DeleteUserOverflowWitness | app/bot.py:107-118 | `/del_user 9223372036854775808` gets no answer as written and the bad-id answer corrected |

## Left out

- Transport: the aiogram `Bot`/`Dispatcher`, polling, `message.answer`, `bot.send_message` and the asyncio loop. Answers are `Reply` tags and the notification is a recipient set with the added videos.
- Best-effort delivery: a failed `send_message` is swallowed in the source. The model names the recipients and does not model delivery.
- Reply wording: the Russian text and Markdown formatting are abstracted to one tag per message. Reply payloads (`UserIds`, `VideoList`, `UsersAdded`, `Found`) keep the data the text is built from.
- SQLite itself: the connection, commits and schema DDL. The tables are a map and a sequence.
- `app.config` is not part of this model. `ADMINS` is an input set.
- A message without text (`message.text` is `None`) is not modelled. The handler would raise before any branch.
- The `/help` text advertises `/add`, which no branch handles. Reply text is abstracted, and `/add ...` from an admin goes unanswered like any other unknown text.
- Bot.Start: an admin's own id passed to `add_user` could in principle overflow the SQLite INTEGER range as well. Telegram ids fit, so `/start` is not given the overflow path.
- Bot.AcceptUserLine: implements the corrected overflow handling: a line whose id is outside the SQLite INTEGER range is skipped. The code as written raises at app/bot.py:67; that half is `Findings.AddUserLinesAsWritten` (see Findings).
- Bot.AddUserLines: implements the corrected overflow handling, skipping out-of-range ids. The as-written loop, which stops at the first one, is `Findings.AddUserLinesAsWritten` (see Findings).
- Bot.AddUsers: implements the corrected overflow handling, so `/add_user` always answers. The as-written branch, silent after an overflow, is `Findings.AddUsersAsWritten` (see Findings).
- Bot.DeleteUser: implements the corrected overflow handling, answering bad id for an out-of-range id. The as-written branch, silent there, is `Findings.DeleteUserAsWritten` (see Findings).
- Bot.Dispatch: routes `/add_user` and `/del_user` to the corrected handlers above. The as-written halves are in `Findings` (see Findings).
- BotProperties.AddUserBatch: stated over the corrected `/add_user` loop; the as-written loop is in `Findings` (see Findings).
- BotProperties.DelUserExactId: stated over the corrected `/del_user`; the as-written handler is in `Findings` (see Findings).
- Db.GetUsers: returns the id set. The list order of `SELECT id FROM users` is not modelled, since no caller depends on it.
- Bot.ListUsers: the answer carries the id set of the rows of `get_all_users()`, not the table-order list of lines built from them.
- Db.SearchVideosByTitle: `%` and `_` in the keyword act as `LIKE` wildcards in SQLite. The model treats the keyword literally and folds ASCII case only, as `LIKE` does. The rows come back in storage order, since the query has no `ORDER BY`.
- Db.GetVideos: SQL leaves the order of rows with equal folded titles open. The model fixes one order (insertion sort), and the contract states only sortedness and permutation.
- PyInt.ParseInt: accepts an optional sign and ASCII digits only. Python's `int()` also accepts underscores between digits and non-ASCII decimal digits. Tokens never carry surrounding whitespace, so that case does not arise.
- PyStr.Lower: ASCII-only lower-casing, the folding SQLite's `NOCASE` and `LIKE` apply. Python's full Unicode case mapping is not needed.

## Findings

| source | as written | input that shows it | evidently intended | confidence | as-written member | corrected member |
|---|---|---|---|---|---|---|
| app/bot.py:60-70 | `int()` accepts any size, and only `ValueError` is caught. An id outside -2^63..2^63-1 makes the sqlite3 binding raise `OverflowError` inside the loop. The batch stops, later valid lines are never stored, and no answer is sent. | `/add_user` with lines `9223372036854775808 Ivan Ivanov` and `1 Petr Petrov` on an empty store | an out-of-range id is skipped like a malformed line; `1 Petr Petrov` is stored and the answer lists it | high (not executed) | Findings.AddUserOverflowWitness | Bot.AddUserLines |
| app/bot.py:108-115 | `remove_user(int(parts[1]))` raises `OverflowError` for an id out of range, which `except ValueError` does not catch, so no answer is sent. | `/del_user 9223372036854775808` | the bad-id answer, as for any other unusable id | high (not executed) | Findings.DeleteUserOverflowWitness | Bot.DeleteUser |
