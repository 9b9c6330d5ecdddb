/** The whole-database invariant and, for each kind of change the store
    makes, the proof that the change keeps it. */
module Invariants {
  import opened Seqs
  import opened Validation
  import opened Records
  import opened Tables

  /** Every UNIQUE and FOREIGN KEY constraint of the schema, every check the
      inserts make, and the AUTOINCREMENT counters ahead of the stored ids. */
  ghost predicate TablesOk(us: seq<User>, cs: seq<Category>, gs: seq<Game>, ls: seq<LibraryEntry>,
                           ms: seq<ChatMessage>, nextCategoryId: nat, nextEntryId: nat, nextMessageId: nat)
  {
    && UsersOk(us)
    && CategoriesOk(cs, nextCategoryId)
    && GamesOk(gs, cs, us)
    && LibraryOk(ls, gs, us, nextEntryId)
    && MessagesOk(ms, us, nextMessageId)
  }

  /** Seeding an empty category table with rows that satisfy the category
      invariant. */
  lemma SeedKeepsTables(us: seq<User>, gs: seq<Game>, ls: seq<LibraryEntry>, ms: seq<ChatMessage>,
                        nc: nat, ne: nat, nm: nat, rows: seq<Category>, nc2: nat)
    requires TablesOk(us, [], gs, ls, ms, nc, ne, nm)
    requires CategoriesOk(rows, nc2)
    ensures TablesOk(us, rows, gs, ls, ms, nc2, ne, nm)
  {
  }

  /** Inserting a user whose id, username and e-mail are all new and whose
      username and e-mail pass the checks. */
  lemma UserInsertKeepsTables(us: seq<User>, cs: seq<Category>, gs: seq<Game>, ls: seq<LibraryEntry>,
                              ms: seq<ChatMessage>, nc: nat, ne: nat, nm: nat, u: User)
    requires TablesOk(us, cs, gs, ls, ms, nc, ne, nm)
    requires ValidUsername(u.username) && ValidEmail(u.email)
    requires !HasUser(us, u.id) && !NameOrEmailTaken(us, u.username, u.email)
    ensures TablesOk(us + [u], cs, gs, ls, ms, nc, ne, nm)
  {
    DistinctAppend(us, u, UserKey);
    DistinctAppend(us, u, UsernameKey);
    DistinctAppend(us, u, EmailKey);
    forall id | HasUser(us, id) ensures HasUser(us + [u], id) {
      HasUserAppend(us, u, id);
    }
  }

  /** Rewriting a user row that keeps its id, username and e-mail, such as
      the `last_login` update. */
  lemma UserUpdateKeepsTables(us: seq<User>, cs: seq<Category>, gs: seq<Game>, ls: seq<LibraryEntry>,
                              ms: seq<ChatMessage>, nc: nat, ne: nat, nm: nat, i: nat, u: User)
    requires TablesOk(us, cs, gs, ls, ms, nc, ne, nm)
    requires i < |us| && u.id == us[i].id && u.username == us[i].username && u.email == us[i].email
    ensures TablesOk(us[i := u], cs, gs, ls, ms, nc, ne, nm)
  {
    DistinctUpdate(us, i, u, UserKey);
    DistinctUpdate(us, i, u, UsernameKey);
    DistinctUpdate(us, i, u, EmailKey);
    assert us[i] in us;
    forall id | HasUser(us, id) ensures HasUser(us[i := u], id) {
      HasUserUpdate(us, i, u, id);
    }
  }

  /** Inserting a game with a new id and a new (title, author) pair whose
      category and author exist. */
  lemma GameInsertKeepsTables(us: seq<User>, cs: seq<Category>, gs: seq<Game>, ls: seq<LibraryEntry>,
                              ms: seq<ChatMessage>, nc: nat, ne: nat, nm: nat, g: Game)
    requires TablesOk(us, cs, gs, ls, ms, nc, ne, nm)
    requires !HasGame(gs, g.id) && !TitleTaken(gs, g.title, g.addedBy)
    requires HasCategory(cs, g.categoryId) && HasUser(us, g.addedBy)
    ensures TablesOk(us, cs, gs + [g], ls, ms, nc, ne, nm)
  {
    DistinctAppend(gs, g, GameKey);
    DistinctAppend(gs, g, TitleKey);
    forall id | HasGame(gs, id) ensures HasGame(gs + [g], id) {
      HasGameAppend(gs, g, id);
    }
  }

  /** Counting a play leaves every key and reference of the games alone. */
  lemma PlayKeepsTables(us: seq<User>, cs: seq<Category>, gs: seq<Game>, ls: seq<LibraryEntry>,
                        ms: seq<ChatMessage>, nc: nat, ne: nat, nm: nat, gameId: string)
    requires TablesOk(us, cs, gs, ls, ms, nc, ne, nm)
    ensures TablesOk(us, cs, CountPlays(gs, gameId), ls, ms, nc, ne, nm)
  {
    var gs2 := CountPlays(gs, gameId);
    assert forall i :: 0 <= i < |gs| ==> GameKey(gs2[i]) == GameKey(gs[i]) && TitleKey(gs2[i]) == TitleKey(gs[i]);
    forall g | g in gs2 ensures HasCategory(cs, g.categoryId) && HasUser(us, g.addedBy) {
      var i :| 0 <= i < |gs2| && gs2[i] == g;
      assert gs[i] in gs;
    }
    forall id | HasGame(gs, id) ensures HasGame(gs2, id) {
      var w :| w in gs && w.id == id;
      var i :| 0 <= i < |gs| && gs[i] == w;
      assert gs2[i].id == id;
    }
  }

  /** Inserting a library entry under the next id, for a known user and game
      and a pair not yet present. */
  lemma EntryInsertKeepsTables(us: seq<User>, cs: seq<Category>, gs: seq<Game>, ls: seq<LibraryEntry>,
                               ms: seq<ChatMessage>, nc: nat, ne: nat, nm: nat, e: LibraryEntry)
    requires TablesOk(us, cs, gs, ls, ms, nc, ne, nm)
    requires e.id == ne && HasUser(us, e.userId) && HasGame(gs, e.gameId)
    requires !InLibrary(ls, e.userId, e.gameId)
    ensures TablesOk(us, cs, gs, ls + [e], ms, nc, ne + 1, nm)
  {
    DistinctAppend(ls, e, EntryKey);
    DistinctAppend(ls, e, PairKey);
  }

  /** Deleting library entries. */
  lemma EntryDeleteKeepsTables(us: seq<User>, cs: seq<Category>, gs: seq<Game>, ls: seq<LibraryEntry>,
                               ms: seq<ChatMessage>, nc: nat, ne: nat, nm: nat, userId: string, gameId: string)
    requires TablesOk(us, cs, gs, ls, ms, nc, ne, nm)
    ensures TablesOk(us, cs, gs, Filter(ls, OtherPair(userId, gameId)), ms, nc, ne, nm)
  {
    DistinctFilter(ls, OtherPair(userId, gameId), EntryKey);
    DistinctFilter(ls, OtherPair(userId, gameId), PairKey);
  }

  /** Inserting a chat message under the next id, from a known user, whose
      text is non-empty, has no whitespace at either end and is short
      enough. */
  lemma MessageInsertKeepsTables(us: seq<User>, cs: seq<Category>, gs: seq<Game>, ls: seq<LibraryEntry>,
                                 ms: seq<ChatMessage>, nc: nat, ne: nat, nm: nat, m: ChatMessage)
    requires TablesOk(us, cs, gs, ls, ms, nc, ne, nm)
    requires m.id == nm && HasUser(us, m.userId)
    requires m.text != [] && Stripped(m.text) && |m.text| <= MaxMessageLength
    ensures TablesOk(us, cs, gs, ls, ms + [m], nc, ne, nm + 1)
  {
    DistinctAppend(ms, m, MessageKey);
  }
}
