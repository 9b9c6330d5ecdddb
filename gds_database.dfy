/** The catalog store: one object whose fields are the tables of the GDS Games
    database, with the store's operations as methods (the statements that
    change rows) and functions (the SELECT queries). */
module GdsDatabase {
  import opened Seqs
  import opened Validation
  import opened Records
  import opened Tables
  import opened Queries
  import opened Invariants

  // ---------------------------------------------------------------------------
  // Seed data

  function SeedName(s: SeedCategory): string { s.name }

  /** The row `INSERT INTO categories (name, description, color)` stores for a
      seed entry; the slug is dropped. */
  function SeedRow(s: SeedCategory, id: nat): Category {
    Category(id, s.name, s.description, s.color)
  }

  /** The rows the seed loop writes into an empty table whose AUTOINCREMENT
      counter stands at `firstId`: one per entry, in list order, numbered
      consecutively. */
  function SeedRows(seeds: seq<SeedCategory>, firstId: nat): (r: seq<Category>)
    ensures |r| == |seeds|
    ensures forall i :: 0 <= i < |r| ==> r[i] == SeedRow(seeds[i], firstId + i)
  {
    if seeds == [] then []
    else SeedRows(seeds[..|seeds| - 1], firstId) + [SeedRow(seeds[|seeds| - 1], firstId + |seeds| - 1)]
  }

  /** The eight seed names are pairwise different, so no INSERT OR IGNORE of
      the seed loop is ever ignored. */
  lemma DefaultNamesDistinct()
    ensures Distinct(DefaultCategories, SeedName)
  {
  }

  /** When the loop reaches entry `i`, no earlier seed row holds its name. */
  lemma SeedNameFresh(i: nat, firstId: nat)
    requires i < |DefaultCategories|
    ensures FindByKey(SeedRows(DefaultCategories[..i], firstId), CategoryNameKey, DefaultCategories[i].name).None?
  {
    var rows := SeedRows(DefaultCategories[..i], firstId);
    DefaultNamesDistinct();
    forall j | 0 <= j < |rows| ensures CategoryNameKey(rows[j]) != DefaultCategories[i].name {
      assert rows[j].name == DefaultCategories[j].name;
    }
  }

  /** The seeded table satisfies the category invariant, and it holds the
      display name "Puzzle" but not the slug "puzzle". */
  lemma {:induction false} SeededCategories(firstId: nat)
    ensures CategoriesOk(SeedRows(DefaultCategories, firstId), firstId + |DefaultCategories|)
    ensures exists c :: c in SeedRows(DefaultCategories, firstId) && c.name == "Puzzle"
    ensures forall c :: c in SeedRows(DefaultCategories, firstId) ==> c.name != "puzzle"
  {
    var rows := SeedRows(DefaultCategories, firstId);
    DefaultNamesDistinct();
    assert rows[4].name == "Puzzle";
    NoLowercasePuzzle();
    forall c | c in rows ensures c.name != "puzzle" {
      var i :| 0 <= i < |rows| && rows[i] == c;
      assert c.name == DefaultCategories[i].name;
    }
  }

  /** The seed list spells the puzzle category with a capital letter. */
  lemma NoLowercasePuzzle()
    ensures forall i :: 0 <= i < |DefaultCategories| ==> DefaultCategories[i].name != "puzzle"
  {
  }

  /** The administrator row `_insert_default_data` writes (is_admin = 1). */
  function AdminRow(adminId: string, salt: nat, now: nat): User {
    User(adminId, AdminUsername, AdminEmail, Hash(AdminPassword, salt), now, None, true, true, None, None)
  }

  /** INSERT OR IGNORE of the administrator is ignored: the id, the username
      or the e-mail is taken. */
  predicate AdminConflicts(us: seq<User>, adminId: string) {
    exists u :: u in us && (u.id == adminId || u.username == AdminUsername || u.email == AdminEmail)
  }

  /** The administrator's username and e-mail pass the store's own checks. */
  lemma AdminIsValid()
    ensures ValidUsername(AdminUsername) && ValidEmail(AdminEmail)
  {
    assert EmailShape(AdminEmail, 5, 14);
  }

  // ---------------------------------------------------------------------------
  // The store

  class GDSDatabase {
    var users: seq<User>
    var categories: seq<Category>
    var games: seq<Game>
    var library: seq<LibraryEntry>
    var messages: seq<ChatMessage>
    /** The AUTOINCREMENT counters of `categories`, `user_library` and
        `chat_messages`: the id the next inserted row receives. */
    var nextCategoryId: nat
    var nextEntryId: nat
    var nextMessageId: nat

    /** The schema's UNIQUE and FOREIGN KEY constraints and what the insert
        checks guarantee about stored rows. */
    ghost predicate Valid()
      reads this
    {
      TablesOk(users, categories, games, library, messages, nextCategoryId, nextEntryId, nextMessageId)
    }

    /** `GDSDatabase()` on a new database file: empty tables, then the seed
        data. The administrator's uuid, bcrypt salt and timestamp are
        parameters. */
    constructor (adminId: string, adminSalt: nat, now: nat)
      ensures Valid()
      ensures categories == SeedRows(DefaultCategories, 1)
      ensures nextCategoryId == 1 + |DefaultCategories|
      ensures users == [AdminRow(adminId, adminSalt, now)]
      ensures games == [] && library == [] && messages == []
      ensures nextEntryId == 1 && nextMessageId == 1
    {
      users, categories, games, library, messages := [], [], [], [], [];
      nextCategoryId, nextEntryId, nextMessageId := 1, 1, 1;
      new;
      InsertDefaultData(adminId, adminSalt, now);
    }

    /** `_insert_default_data`: only when the category table is empty, insert
        the eight categories and then the administrator, each with INSERT OR
        IGNORE. On a non-empty table nothing changes, so running it again is
        harmless. */
    method InsertDefaultData(adminId: string, adminSalt: nat, now: nat)
      requires Valid()
      modifies this`categories, this`nextCategoryId, this`users
      ensures Valid()
      ensures categories != []
      ensures old(categories) != [] ==>
                categories == old(categories) && nextCategoryId == old(nextCategoryId) && users == old(users)
      ensures old(categories) == [] ==>
                && categories == SeedRows(DefaultCategories, old(nextCategoryId))
                && nextCategoryId == old(nextCategoryId) + |DefaultCategories|
                && users == old(users) + (if AdminConflicts(old(users), adminId) then [] else [AdminRow(adminId, adminSalt, now)])
    {
      if categories != [] {
        return;
      }
      var start := nextCategoryId;
      SeedCategoryTable();
      SeededCategories(start);
      SeedKeepsTables(users, games, library, messages, start, nextEntryId, nextMessageId, categories, nextCategoryId);
      if !AdminConflicts(users, adminId) {
        var admin := AdminRow(adminId, adminSalt, now);
        AdminIsValid();
        UserInsertKeepsTables(users, categories, games, library, messages, nextCategoryId, nextEntryId, nextMessageId, admin);
        users := users + [admin];
      }
    }

    /** The seed loop of `_insert_default_data` over an empty category table:
        INSERT OR IGNORE of each entry, in list order. */
    method SeedCategoryTable()
      requires categories == []
      modifies this`categories, this`nextCategoryId
      ensures categories == SeedRows(DefaultCategories, old(nextCategoryId))
      ensures nextCategoryId == old(nextCategoryId) + |DefaultCategories|
    {
      var start := nextCategoryId;
      for i := 0 to |DefaultCategories|
        invariant categories == SeedRows(DefaultCategories[..i], start)
        invariant nextCategoryId == start + i
      {
        var seed := DefaultCategories[i];
        SeedNameFresh(i, start);
        if FindByKey(categories, CategoryNameKey, seed.name).None? {
          categories := categories + [SeedRow(seed, nextCategoryId)];
          nextCategoryId := nextCategoryId + 1;
        }
        assert DefaultCategories[..i + 1][..i] == DefaultCategories[..i];
      }
      assert DefaultCategories[..|DefaultCategories|] == DefaultCategories;
    }

    // -------------------------------------------------------------------------
    // Users

    /** `create_user`: validate, refuse a taken username or e-mail, then
        insert the user with a bcrypt digest of the password. The uuid, salt
        and timestamp are parameters; the uuid is fresh. */
    method CreateUser(username: string, email: string, password: string, newId: string, salt: nat, now: nat)
      returns (r: Result<string>)
      requires Valid()
      requires !HasUser(users, newId)
      modifies this`users
      ensures Valid()
      ensures !ValidUsername(username) ==> r == Err(InvalidUsername)
      ensures ValidUsername(username) && !ValidEmail(email) ==> r == Err(InvalidEmail)
      ensures ValidUsername(username) && ValidEmail(email) && |password| < MinPasswordLength
              ==> r == Err(PasswordTooShort)
      ensures ValidUsername(username) && ValidEmail(email) && |password| >= MinPasswordLength
              && NameOrEmailTaken(old(users), username, email)
              ==> r == Err(UserExists)
      ensures r.Ok? <==>
                ValidUsername(username) && ValidEmail(email) && |password| >= MinPasswordLength
                && !NameOrEmailTaken(old(users), username, email)
      ensures r.Ok? ==>
                && r.value == newId
                && users == old(users) + [User(newId, username, email, Hash(password, salt), now, None, true, false, None, None)]
                && GetStats().totalUsers == old(GetStats().totalUsers) + 1
                && SignIn(users, username, password) == Some(|users| - 1)
      ensures r.Err? ==> users == old(users)
    {
      if !ValidUsername(username) {
        return Err(InvalidUsername);
      }
      if !ValidEmail(email) {
        return Err(InvalidEmail);
      }
      if |password| < MinPasswordLength {
        return Err(PasswordTooShort);
      }
      if NameOrEmailTaken(users, username, email) {
        return Err(UserExists);
      }
      var u := User(newId, username, email, Hash(password, salt), now, None, true, false, None, None);
      UserInsertKeepsTables(users, categories, games, library, messages, nextCategoryId, nextEntryId, nextMessageId, u);
      FilterAppend(users, u, IsActiveUser);
      users := users + [u];
      LoginMatchUnique(users, username, |users| - 1);
      r := Ok(newId);
    }

    /** `authenticate_user`: on success record the login time on that user's
        row only, and return the user without the digest, with `last_login`
        as it was read before the update. */
    method AuthenticateUser(login: string, password: string, now: nat) returns (r: Option<SessionUser>)
      requires Valid()
      modifies this`users
      ensures Valid()
      ensures r.Some? <==> SignIn(old(users), login, password).Some?
      ensures r.None? ==> users == old(users)
      ensures r.Some? ==>
                var i := SignIn(old(users), login, password).value;
                && r.value == SessionUserOf(old(users)[i])
                && users == old(users)[i := old(users)[i].(lastLogin := Some(now))]
    {
      var m := LoginMatch(users, login);
      if m.None? {
        return None;
      }
      var i := m.value;
      var u := users[i];
      if !Verify(password, u.passwordHash) {
        return None;
      }
      var updated := u.(lastLogin := Some(now));
      UserUpdateKeepsTables(users, categories, games, library, messages, nextCategoryId, nextEntryId, nextMessageId, i, updated);
      users := users[i := updated];
      r := Some(SessionUserOf(u));
    }

    /** `get_user_by_id` */
    function GetUserById(id: string): Option<UserProfile>
      reads this
    {
      ProfileById(users, id)
    }

    // -------------------------------------------------------------------------
    // Games

    /** `add_game`: all five texts given, the category named exactly, no
        game of this user with this title (active or not), then the insert,
        which the FOREIGN KEY on `added_by` refuses for an unknown user. The
        uuid and timestamp are parameters; the uuid is fresh. */
    method AddGame(title: string, description: string, category: string, imageUrl: string, gameUrl: string,
                   addedBy: string, newId: string, now: nat)
      returns (r: Result<string>)
      requires Valid()
      requires !HasGame(games, newId)
      modifies this`games
      ensures Valid()
      ensures !FieldsGiven(title, description, category, imageUrl, gameUrl) ==> r == Err(MissingField)
      ensures FieldsGiven(title, description, category, imageUrl, gameUrl)
              && FindByKey(categories, CategoryNameKey, category).None?
              ==> r == Err(InvalidCategory)
      ensures FieldsGiven(title, description, category, imageUrl, gameUrl)
              && FindByKey(categories, CategoryNameKey, category).Some?
              && TitleTaken(old(games), title, addedBy)
              ==> r == Err(DuplicateTitle)
      ensures FieldsGiven(title, description, category, imageUrl, gameUrl)
              && FindByKey(categories, CategoryNameKey, category).Some?
              && !TitleTaken(old(games), title, addedBy) && !HasUser(users, addedBy)
              ==> r == Err(ForeignKeyViolation)
      ensures r.Ok? <==> FieldsGiven(title, description, category, imageUrl, gameUrl)
                         && FindByKey(categories, CategoryNameKey, category).Some?
                         && !TitleTaken(old(games), title, addedBy) && HasUser(users, addedBy)
      ensures r.Ok? ==>
                var c := FindByKey(categories, CategoryNameKey, category).value;
                && c in categories && c.name == category
                && r.value == newId
                && games == old(games) + [Game(newId, title, description, c.id, imageUrl, gameUrl, addedBy, now, now, true, 0)]
                && GetStats().totalGames == old(GetStats().totalGames) + 1
                && GetGameById(newId).Some? && GetGameById(newId).value.game == games[|games| - 1]
      ensures r.Err? ==> games == old(games)
    {
      if !FieldsGiven(title, description, category, imageUrl, gameUrl) {
        return Err(MissingField);
      }
      var found := FindByKey(categories, CategoryNameKey, category);
      if found.None? {
        return Err(InvalidCategory);
      }
      var c := found.value;
      if TitleTaken(games, title, addedBy) {
        return Err(DuplicateTitle);
      }
      if !HasUser(users, addedBy) {
        return Err(ForeignKeyViolation);
      }
      var g := Game(newId, title, description, c.id, imageUrl, gameUrl, addedBy, now, now, true, 0);
      GameInsertKeepsTables(users, categories, games, library, messages, nextCategoryId, nextEntryId, nextMessageId, g);
      FilterAppend(games, g, IsActiveGame);
      games := games + [g];
      GameByIdFinds(games, categories, users, g);
      r := Ok(newId);
    }

    /** `get_games` */
    function GetGames(search: Option<string>, category: Option<string>, limit: int, offset: int): seq<GameView>
      reads this
    {
      GamesPage(games, categories, users, search, category, limit, offset)
    }

    /** `get_game_by_id` */
    function GetGameById(id: string): Option<GameView>
      reads this
    {
      GameById(games, categories, users, id)
    }

    /** `increment_play_count`: one more play on the row with that id, active
        or not; every other row and column is left as it was. */
    method IncrementPlayCount(gameId: string)
      requires Valid()
      modifies this`games
      ensures Valid()
      ensures |games| == |old(games)|
      ensures forall i :: 0 <= i < |games| ==>
                games[i] == if old(games)[i].id == gameId
                            then old(games)[i].(playCount := old(games)[i].playCount + 1)
                            else old(games)[i]
    {
      PlayKeepsTables(users, categories, games, library, messages, nextCategoryId, nextEntryId, nextMessageId, gameId);
      games := CountPlays(games, gameId);
    }

    // -------------------------------------------------------------------------
    // Library

    /** `add_to_library`: the game must exist and be active, the pair must
        be new, and the FOREIGN KEY on `user_id` refuses an unknown user. The
        entry gets the next AUTOINCREMENT id, status "owned", no last play
        and no play time, and then shows in the user's library. */
    method AddToLibrary(userId: string, gameId: string, now: nat) returns (r: Result<string>)
      requires Valid()
      modifies this`library, this`nextEntryId
      ensures Valid()
      ensures !HasActiveGame(games, gameId) ==> r == Err(GameNotFound)
      ensures HasActiveGame(games, gameId) && InLibrary(old(library), userId, gameId) ==> r == Err(AlreadyInLibrary)
      ensures HasActiveGame(games, gameId) && !InLibrary(old(library), userId, gameId) && !HasUser(users, userId)
              ==> r == Err(ForeignKeyViolation)
      ensures r.Ok? <==> HasActiveGame(games, gameId) && !InLibrary(old(library), userId, gameId) && HasUser(users, userId)
      ensures r.Ok? ==>
                && r.value == LibraryAddedText
                && library == old(library) + [LibraryEntry(old(nextEntryId), userId, gameId, now, DefaultStatus, None, 0)]
                && nextEntryId == old(nextEntryId) + 1
                && exists it :: it in GetUserLibrary(userId) && it.game.id == gameId && it.addedAt == now
      ensures r.Err? ==> library == old(library) && nextEntryId == old(nextEntryId)
    {
      if !HasActiveGame(games, gameId) {
        return Err(GameNotFound);
      }
      if InLibrary(library, userId, gameId) {
        return Err(AlreadyInLibrary);
      }
      if !HasUser(users, userId) {
        return Err(ForeignKeyViolation);
      }
      var e := LibraryEntry(nextEntryId, userId, gameId, now, DefaultStatus, None, 0);
      EntryInsertKeepsTables(users, categories, games, library, messages, nextCategoryId, nextEntryId, nextMessageId, e);
      library := library + [e];
      nextEntryId := nextEntryId + 1;
      LibraryListsEntry(library, games, categories, users, e);
      r := Ok(LibraryAddedText);
    }

    /** `get_user_library` */
    function GetUserLibrary(userId: string): seq<LibraryItem>
      reads this
    {
      LibraryOf(library, games, categories, userId)
    }

    /** `remove_from_library`: delete the (user, game) entry; the result says
        whether a row went. Afterwards the pair is absent, so a second call
        returns false, and no other entry is touched. */
    method RemoveFromLibrary(userId: string, gameId: string) returns (removed: bool)
      requires Valid()
      modifies this`library
      ensures Valid()
      ensures removed == InLibrary(old(library), userId, gameId)
      ensures !InLibrary(library, userId, gameId)
      ensures library == Filter(old(library), OtherPair(userId, gameId))
      ensures forall e :: e in library <==> e in old(library) && !(e.userId == userId && e.gameId == gameId)
      ensures |library| == |old(library)| - (if removed then 1 else 0)
      ensures forall it :: it in GetUserLibrary(userId) ==> it.game.id != gameId
    {
      removed := InLibrary(library, userId, gameId);
      DeletePairCount(library, userId, gameId);
      EntryDeleteKeepsTables(users, categories, games, library, messages, nextCategoryId, nextEntryId, nextMessageId, userId, gameId);
      library := Filter(library, OtherPair(userId, gameId));
      LibraryNeedsEntry(library, games, categories, userId, gameId);
    }

    // -------------------------------------------------------------------------
    // Chat

    /** `add_chat_message`: refuse a text that is blank after `strip()` and a
        raw text over 500 characters, then store the stripped text under the
        next AUTOINCREMENT id; the FOREIGN KEY on `user_id` refuses an unknown
        user. */
    method AddChatMessage(userId: string, text: string, now: nat) returns (r: Result<string>)
      requires Valid()
      modifies this`messages, this`nextMessageId
      ensures Valid()
      ensures Strip(text) == "" ==> r == Err(EmptyMessage)
      ensures Strip(text) != "" && |text| > MaxMessageLength ==> r == Err(MessageTooLong)
      ensures Strip(text) != "" && |text| <= MaxMessageLength && !HasUser(users, userId) ==> r == Err(ForeignKeyViolation)
      ensures r.Ok? <==> Strip(text) != "" && |text| <= MaxMessageLength && HasUser(users, userId)
      ensures r.Ok? ==>
                && r.value == MessageSentText
                && messages == old(messages) + [ChatMessage(old(nextMessageId), userId, Strip(text), now, false)]
                && nextMessageId == old(nextMessageId) + 1
      ensures r.Err? ==> messages == old(messages) && nextMessageId == old(nextMessageId)
    {
      var stripped := Strip(text);
      if stripped == "" {
        return Err(EmptyMessage);
      }
      if |text| > MaxMessageLength {
        return Err(MessageTooLong);
      }
      if !HasUser(users, userId) {
        return Err(ForeignKeyViolation);
      }
      assert Stripped(stripped) && |stripped| <= MaxMessageLength;
      var m := ChatMessage(nextMessageId, userId, stripped, now, false);
      InsertMessage(m);
      r := Ok(MessageSentText);
    }

    /** The INSERT of a checked chat message under the next id. */
    method InsertMessage(m: ChatMessage)
      requires Valid()
      requires m.id == nextMessageId && HasUser(users, m.userId) && !m.isDeleted
      requires m.text != [] && Stripped(m.text) && |m.text| <= MaxMessageLength
      modifies this`messages, this`nextMessageId
      ensures Valid()
      ensures messages == old(messages) + [m] && nextMessageId == old(nextMessageId) + 1
    {
      MessageInsertKeepsTables(users, categories, games, library, messages, nextCategoryId, nextEntryId, nextMessageId, m);
      messages := messages + [m];
      nextMessageId := nextMessageId + 1;
    }

    /** `get_chat_messages` */
    function GetChatMessages(limit: int): seq<MessageView>
      reads this
    {
      RecentMessages(messages, users, limit)
    }

    // -------------------------------------------------------------------------
    // Categories and statistics

    /** `get_categories` */
    function GetCategories(): seq<Category>
      reads this
    {
      CategoriesByName(categories)
    }

    /** `get_stats` */
    function GetStats(): Stats
      reads this
    {
      StatsOf(users, games, messages)
    }
  }

  // ---------------------------------------------------------------------------
  // Sessions against a new database

  /** The seeded category is named "Puzzle": asking for "puzzle" is refused. */
  method CategoryNameSession() {
    var db := new GDSDatabase("a0", 1, 10);
    SeededCategories(1);
    var g1 := db.AddGame("Tetris", "Blocos", "puzzle", "t.png", "t.html", "a0", "g1", 11);
    assert g1 == Err(InvalidCategory);
  }

  /** The administrator seeded by the constructor signs in with its
      published password and a wrong one is refused. */
  method AdminSession() {
    var db := new GDSDatabase("a0", 1, 10);
    var who := db.AuthenticateUser("admin", "admin123", 11);
    assert who.Some? && who.value.isAdmin;
    var bad := db.AuthenticateUser("admin", "admin124", 12);
    assert bad.None?;
  }

  /** The chat refuses a blank text. */
  method ChatSession() {
    var db := new GDSDatabase("a0", 1, 10);
    var blankText := " \t\n";
    assert IsSpace(blankText[0]) && IsSpace(blankText[1]) && IsSpace(blankText[2]);
    StripEmptyIffBlank(blankText);
    var blank := db.AddChatMessage("a0", blankText, 11);
    assert blank == Err(EmptyMessage);
  }
}
