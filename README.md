# GDS Games catalog store

A Dafny model of `GDSDatabase`, the data-access layer of the GDS Games
platform. The store keeps five SQLite tables: users, game categories, games,
per-user game libraries and community chat messages. Every operation the
web application calls is modelled. That covers sign-up and sign-in, adding,
listing, opening and playing games, the personal library, the chat, the
category list and the dashboard statistics.

The tables are `seq` fields of the class `GdsDatabase.GDSDatabase`. The
AUTOINCREMENT columns become counter fields. The class invariant `Valid()`
holds every UNIQUE and FOREIGN KEY constraint of the schema, plus the checks
the inserts make. Every state-changing method proves that it keeps the
invariant, and states its whole new state and its result, including each
error path in the order the source tests them.

The read queries are pure functions over the tables, in module `Queries`.
Each has lemmas that tie it to the writes: what was inserted can be found,
what was removed is gone, and what is listed can be opened.

Modules:

- `Seqs`: generic sequence tools.
  - lookup by key, filtering, and uniqueness of a key;
  - a stable insertion sort standing in for `ORDER BY`;
  - reversal;
  - `LIMIT`/`OFFSET` windows with SQLite's treatment of negative values.
- `Validation`: the username and e-mail regular expressions, and Python's
  `str.strip`.
- `Records`: the rows, the views the queries return, the password digest,
  the error reasons and the seed data.
- `Tables`: per-table predicates and invariants, the joins, the search and
  category filters, and the sort orders.
- `Queries`: the read operations and their lemmas.
- `Invariants`: the whole-database invariant and one preservation lemma per
  kind of write.
- `GdsDatabase`: the class, the seeding of a new database, and three short
  sessions against a fresh store:
  - the category is "Puzzle", so "puzzle" is refused;
  - the seeded administrator signs in with "admin123";
  - a blank chat message is refused.

## Model

| member | source | states |
|---|---|---|
| Validation.UsernameShape | gds_database.py:249-252 | A valid username is a body of 3 to 20 characters from `[a-zA-Z0-9_]`, followed by nothing or by one final newline. |
| Validation.EmailShapeBounds | gds_database.py:244-247 | A valid e-mail is at least six characters and starts with a local-part character. It ends in two letters of the top-level part, or in those two letters followed by the one final newline `$` accepts. |
| Validation.ValidatorSamples | gds_database.py:244-252 | "player_1" is a valid username, while "ab" and "two words" are not. "a.b+c@mail.example.org" is a valid e-mail. |
| Validation.NoUsernameIsAnEmail | gds_database.py:244-252 | No string passes both the username pattern and the e-mail pattern, because usernames contain no `@` and e-mails do. |
| Validation.TrailingNewlineAccepted | gds_database.py:249-252 | `re.match` with `$` also accepts one trailing newline, so "abc\n" is a valid username although its body is not. |
| Validation.Strip | gds_database.py:501-512 | `str.strip` returns a text no longer than its input, with no whitespace at either end. |
| Validation.StripIsSlice | gds_database.py:501-512 | What strip keeps is the contiguous piece of the input between its leading and its trailing whitespace: everything before it and everything after it is whitespace. |
| Validation.StripEmptyIffBlank | gds_database.py:501-502 | A message is refused as empty exactly when every character in it is whitespace. |
| Validation.StripIdempotent | gds_database.py:501-512 | Stripping twice is stripping once. |
| Validation.StrippedIsFixed | gds_database.py:512 | A text with no whitespace at either end is exactly one that strip leaves unchanged. This is the form in which stored chat texts are kept. |
| Records.ReasonTextsDistinct | gds_database.py:255-515 | Every failure the store reports has its own message text, so the text names the failure exactly. |
| Records.Hash | gds_database.py:231-242 | Whatever the salt, `checkpw` accepts the password a digest was made from. |
| Tables.LoginMatchesAtMostOne | gds_database.py:302-307 | Under the users invariant, at most one active row matches `username = login OR email = login`. |
| Tables.ViewOfExisting | gds_database.py:417-431 | The games–categories–users join succeeds for every stored game, and carries its category's name and colour. |
| Tables.ViewOfJoins | gds_database.py:391-396 | The games–categories–users JOIN keeps a game exactly when its category and its author exist. The view then carries that category's name and colour and that author's username. |
| Tables.LikeFindsInfix | gds_database.py:400-403 | `LIKE '%term%'` matches every text that contains the term verbatim. |
| Tables.LikeIgnoresCase | gds_database.py:400-403 | A search term and its lower-cased form match the same texts, so the term's ASCII case does not matter. |
| Tables.CountPlaysOneRow | gds_database.py:433-440 | With unique game ids, the UPDATE adds one play to the one row with that id. It leaves the table unchanged when no row has the id. |
| Tables.ItemOfJoins | gds_database.py:475-480 | The library JOIN keeps an entry exactly when its game exists, is active and has a stored category. The item then carries that category and the entry's own status, last play and play time. |
| Tables.MessageViewOfJoins | gds_database.py:522-526 | The chat JOIN keeps a message exactly when it is not deleted and its author exists. The row then carries that author's username. |
| Tables.DeletePairCount | gds_database.py:487-496 | The DELETE removes one row when the (user, game) pair is present, and none otherwise. |
| Tables.MostPlayed | gds_database.py:560-566 | `ORDER BY play_count DESC LIMIT 1` over active games: none exactly when no game is active; otherwise an active game whose play count is the highest. |
| Tables.NameOrderOrders | gds_database.py:534-540 | `ORDER BY name` compares with a total, transitive order. |
| Seqs.SortBy | gds_database.py:409 | ORDER BY yields a sorted permutation of its input. |
| Seqs.Window | gds_database.py:409-410 | `LIMIT ? OFFSET ?`: a contiguous slice. A negative offset starts at 0, and a negative limit takes every remaining row. |
| Seqs.WindowPages | gds_database.py:409-410 | Two consecutive pages join into the page of the combined limit. |
| Queries.LoginMatch | gds_database.py:302-309 | The row the login SELECT finds is the first matching one, and there is none exactly when no active user has that username or e-mail. |
| Queries.SignIn | gds_database.py:302-312 | Sign-in succeeds only for the matching row, and only when the password verifies against that row's digest. |
| Queries.LoginMatchUnique | gds_database.py:302-309 | Under the users invariant, whichever row matches a login is the one found. |
| Queries.SignInSucceeds | gds_database.py:294-313 | Sign-in succeeds if and only if some active user with that username or e-mail has a digest the password verifies. |
| Queries.ProfileById | gds_database.py:330-340 | The profile returned belongs to an active user with that id; there is none exactly when no active user has the id. |
| Queries.ProfileByIdFinds | gds_database.py:330-340 | Every active user's profile is found by its id. |
| Queries.Listing | gds_database.py:382-409 | The listing holds each joined game that passes the search and category filters exactly once (a permutation of the filtered join). Its games are active and stored, and come newest first. |
| Queries.GamesPage | gds_database.py:382-415 | A page is the run of the listing that starts after `offset` rows (none for a negative offset). It is `limit` rows long, or shorter at the end of the listing; a negative limit takes every remaining row. Its rows are active, matching and newest first. |
| Queries.ListingComplete | gds_database.py:390-407 | Every active game whose title or description contains the search (ignoring ASCII case) and whose category is the requested one appears in the unlimited listing, with its category's name. |
| Queries.GamesPagesJoin | gds_database.py:409-410 | Consecutive pages of the listing join into one longer page. |
| Queries.GameById | gds_database.py:417-431 | The game opened by id is an active stored game with that id and its joined view; there is none exactly when no active game with that id joins. |
| Queries.GameByIdFinds | gds_database.py:417-431 | Under the invariant every active stored game opens by its id. |
| Queries.ListedGamesOpen | gds_database.py:382-431 | Every game shown in a listing opens by its id to the same view. |
| Queries.LibraryOf | gds_database.py:470-485 | A user's library holds each of that user's joined entries exactly once (a permutation of the join), newest entry first. Each item shows an active stored game and carries its entry's date. |
| Queries.LibraryListsEntry | gds_database.py:470-485 | Every entry of a user whose game is active shows up in that user's library. |
| Queries.LibraryNeedsEntry | gds_database.py:470-485 | A game not in the user's library entries is not listed in it. |
| Queries.VisibleMessages | gds_database.py:517-528 | The chat lists exactly the joined, undeleted messages, newest first. |
| Queries.MessageIsVisible | gds_database.py:517-528 | Every undeleted message of a known user is listed. |
| Queries.PostedMessageCounts | gds_database.py:499-515 | A posted message raises the message count by one and is listed in the chat. |
| Queries.RecentMessages | gds_database.py:517-531 | `get_chat_messages(limit)`: the first `limit` rows of the newest-first chat listing (all of them for a negative limit), reversed, so they are returned oldest first. None left out is newer than one kept. |
| Queries.CategoriesByName | gds_database.py:534-540 | The categories, all of them, sorted by name. |
| Queries.StatsOf | gds_database.py:543-557 | Each count is at most the size of its table. |
| Queries.StatsOfEmpty | gds_database.py:543-572 | An empty database shows no users, no games, no messages and no popular game. |
| Queries.StatsCountAppends | gds_database.py:548-557 | Appending a row raises its table's count by one exactly when the row is counted: an active user, an active game, a message not deleted. |
| Queries.StatsCountsKeptByUpdates | gds_database.py:543-557 | Counting a play or recording a login changes none of the three counts. |
| Queries.PopularGameIsMostPlayed | gds_database.py:559-572 | The popular game is absent exactly when no game is active. Otherwise it is an active game's title and play count, and no active game was played more. |
| Invariants.SeedKeepsTables | gds_database.py:204-208 | Seeding an empty category table with valid rows keeps the database invariant. |
| Invariants.UserInsertKeepsTables | gds_database.py:274-289 | Inserting a validated user whose id, username and e-mail are new keeps the invariant. |
| Invariants.UserUpdateKeepsTables | gds_database.py:314-317 | The `last_login` update keeps the invariant. |
| Invariants.GameInsertKeepsTables | gds_database.py:364-377 | Inserting a game with a new id and (title, author) pair, a known category and a known author keeps the invariant. |
| Invariants.PlayKeepsTables | gds_database.py:433-440 | Counting a play keeps the invariant. |
| Invariants.EntryInsertKeepsTables | gds_database.py:461-466 | Inserting a library entry under the next id, for a known user and game and a new pair, keeps the invariant. |
| Invariants.EntryDeleteKeepsTables | gds_database.py:487-496 | Deleting library entries keeps the invariant. |
| Invariants.MessageInsertKeepsTables | gds_database.py:507-513 | Inserting a stripped, non-empty message of at most 500 characters from a known user keeps the invariant. |
| GdsDatabase.SeedRows | gds_database.py:193-208 | The seeded category rows, one per default category, numbered consecutively. |
| GdsDatabase.SeededCategories | gds_database.py:193-208 | The seeded categories satisfy the category invariant. There is a category named "Puzzle" and none named "puzzle". |
| GdsDatabase.AdminIsValid | gds_database.py:210-218 | The administrator's username and e-mail pass the validators. |
| GdsDatabase.GDSDatabase.constructor | gds_database.py:31-51 | A new database holds the eight default categories, the administrator and nothing else, and satisfies the invariant. |
| GdsDatabase.GDSDatabase.InsertDefaultData | gds_database.py:183-220 | Seeding is skipped when categories exist. Otherwise it inserts the eight categories, and the administrator unless the id, username or e-mail is taken. |
| GdsDatabase.GDSDatabase.SeedCategoryTable | gds_database.py:204-208 | The INSERT OR IGNORE loop stores every default category in order. |
| GdsDatabase.GDSDatabase.CreateUser | gds_database.py:255-292 | Errors are checked in order: username, e-mail, password length, then username or e-mail taken. Success happens exactly when all checks pass; it appends the new row, raises the user count by one, and the new user can then sign in with that username and password. |
| GdsDatabase.GDSDatabase.AuthenticateUser | gds_database.py:294-328 | Succeeds exactly when `SignIn` does. It returns the matched row as it was before the update, and updates only that row's `last_login`. |
| GdsDatabase.GDSDatabase.AddGame | gds_database.py:343-380 | Errors are checked in order: missing field, unknown category, duplicate title for the author, then unknown author. Success happens exactly when all checks pass. On success the game is appended, the game count rises by one, and the game opens by its new id. |
| GdsDatabase.GDSDatabase.IncrementPlayCount | gds_database.py:433-440 | Raises the play count of the game with that id by one and changes nothing else. |
| GdsDatabase.GDSDatabase.AddToLibrary | gds_database.py:443-468 | Errors are checked in order: game not active or missing, already in the library, then unknown user. Success happens exactly when all checks pass. On success the entry is appended under the next id and the game appears in the user's library. |
| GdsDatabase.GDSDatabase.RemoveFromLibrary | gds_database.py:487-496 | Reports whether the pair was present, and removes exactly that pair: the other entries stay, in their order. The game is then no longer in the user's library. |
| GdsDatabase.GDSDatabase.AddChatMessage | gds_database.py:499-515 | A blank text is refused, then a raw text over 500 characters, then an unknown user. Success happens exactly when all checks pass. On success the stripped text is appended under the next id and nothing else changes. `Queries.PostedMessageCounts` then shows that the message is counted and listed. |
| GdsDatabase.GDSDatabase.InsertMessage | gds_database.py:507-513 | The INSERT of a checked message keeps the database invariant, and appends the row under the next id. |

## Left out

- SQLite itself is not modelled: connections, transactions, `CREATE TABLE` and index statements. The tables are sequences and every method runs as one atomic step.
- bcrypt's cost factor and one-wayness: a digest keeps its preimage, and verifying compares it.
- Records.Hash: bcrypt reads only the first 72 UTF-8 bytes of a password. Older releases silently drop the rest, so two long passwords that share those bytes verify against each other's digest; newer releases refuse such a password, so `create_user` raises on it. The model compares whole passwords and claims only that a digest verifies its own password.
- `uuid.uuid4()`, `utcnow()` and the bcrypt salt are method parameters. That a fresh uuid is unused is a precondition.
- Timestamps are natural numbers. The ISO-8601 strings the source stores order the same way.
- GdsDatabase.GDSDatabase.constructor: models opening a new, empty database file only. Reopening an existing file is covered by `InsertDefaultData` skipping when categories exist.
- A FOREIGN KEY failure is the `ForeignKeyViolation` error, with no change of state. In the source it is a `sqlite3.IntegrityError` that propagates to the caller.
- Queries.ListingComplete: LIKE's `%` and `_` wildcards inside the search term, and Unicode case folding, are not modelled. LIKE is modelled as an ASCII case-insensitive substring test.
- Seqs.SortBy: the order SQLite gives rows with equal sort keys is unspecified. The model keeps insertion order, and its contracts claim only sortedness and permutation. `Queries.GamesPage`'s exact slice and `Queries.GamesPagesJoin` rest on that tie order: pages of games with equal `created_at` are exact only for the model's order, not for whatever order SQLite picks from one query to the next.
- Tables.MostPlayed: which game is picked among equal play counts is not stated.
- The `rating` REAL column, and the `game_ratings` and `user_sessions` tables, are not modelled: no core operation reads or writes them. ON DELETE CASCADE is not modelled either, since no operation deletes users or games.
- The module-level `db` instance and the compatibility wrapper functions that forward to it are not part of this model. Neither is the `__main__` block.
- `None` passed where a string is expected is not modelled; the one exception is `get_games`' optional filters, which are `Option` values.
- The seeded category is named "Puzzle", with a capital letter, and category names are compared exactly.
- `add_game` rejects only empty fields; a whitespace-only field counts as given.
