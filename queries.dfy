/** The SELECT statements of the catalog store as functions of the table
    contents, with what each promises about its rows and, under the table
    invariants, which rows it cannot miss. */
module Queries {
  import opened Seqs
  import opened Records
  import opened Tables

  // ---------------------------------------------------------------------------
  // Users

  /** `SELECT * FROM users WHERE (username = ? OR email = ?) AND is_active = 1`
      and `fetchone()`: the first matching row, if any. */
  function LoginMatch(us: seq<User>, login: string): (r: Option<nat>)
    ensures r.Some? ==> r.value < |us| && MatchesLogin(us[r.value], login)
    ensures r.Some? ==> forall j :: 0 <= j < r.value ==> !MatchesLogin(us[j], login)
    ensures r.None? <==> forall u :: u in us ==> !MatchesLogin(u, login)
  {
    IndexWhere(us, (u: User) => MatchesLogin(u, login))
  }

  /** The row `authenticate_user` accepts: the matching row, when the
      password verifies against its digest. */
  function SignIn(us: seq<User>, login: string, password: string): (r: Option<nat>)
    ensures r.Some? ==> r.value < |us| && MatchesLogin(us[r.value], login) && Verify(password, us[r.value].passwordHash)
    ensures r.Some? ==> r == LoginMatch(us, login)
  {
    match LoginMatch(us, login)
    case None => None
    case Some(i) => if Verify(password, us[i].passwordHash) then Some(i) else None
  }

  /** No two stored users match one login string, so the first match is the
      only one. */
  lemma LoginMatchUnique(us: seq<User>, login: string, j: nat)
    requires UsersOk(us)
    requires j < |us| && MatchesLogin(us[j], login)
    ensures LoginMatch(us, login) == Some(j)
  {
    var i := LoginMatch(us, login).value;
    LoginMatchesAtMostOne(us, login, i, j);
  }

  /** A sign-in succeeds exactly when some active user has that username or
      e-mail and the password verifies against that user's digest. */
  lemma SignInSucceeds(us: seq<User>, login: string, password: string)
    requires UsersOk(us)
    ensures SignIn(us, login, password).Some? <==>
              exists u :: u in us && MatchesLogin(u, login) && Verify(password, u.passwordHash)
  {
    if u :| u in us && MatchesLogin(u, login) && Verify(password, u.passwordHash) {
      var j :| 0 <= j < |us| && us[j] == u;
      LoginMatchUnique(us, login, j);
    }
  }

  /** `get_user_by_id`: the active user with that id, without the digest. */
  function ProfileById(us: seq<User>, id: string): (r: Option<UserProfile>)
    ensures r.Some? ==> exists u :: u in us && u.id == id && u.isActive && r.value == ProfileOf(u)
    ensures r.None? <==> forall u :: u in us ==> !(u.id == id && u.isActive)
  {
    match IndexWhere(us, (u: User) => u.id == id && u.isActive)
    case None => None
    case Some(i) => Some(ProfileOf(us[i]))
  }

  /** With ids unique, an active user is found by its own id. */
  lemma ProfileByIdFinds(us: seq<User>, u: User)
    requires Distinct(us, UserKey)
    requires u in us && u.isActive
    ensures ProfileById(us, u.id) == Some(ProfileOf(u))
  {
    var k :| 0 <= k < |us| && us[k] == u;
    var i := IndexWhere(us, (w: User) => w.id == u.id && w.isActive).value;
    DistinctSameKey(us, UserKey, i, k);
  }

  // ---------------------------------------------------------------------------
  // Games

  /** The rows of `get_games` before LIMIT and OFFSET: active games joined
      with category and author, filtered by the search and the category,
      newest first. */
  function Listing(gs: seq<Game>, cs: seq<Category>, us: seq<User>, search: Option<string>, category: Option<string>)
    : (r: seq<GameView>)
    ensures Sorted(r, NewerGameFirst)
    ensures multiset(r) == multiset(Filter(FilterMap(gs, GameJoin(cs, us)), ListedBy(search, category)))
    ensures forall v :: v in r ==> v.game in gs && Listed(v, search, category) && ViewOf(v.game, cs, us) == Some(v)
  {
    NewerGameFirstOrders();
    var joined := FilterMap(gs, GameJoin(cs, us));
    var listed := Filter(joined, ListedBy(search, category));
    var r := SortBy(listed, NewerGameFirst);
    assert forall v :: v in joined ==> v.game in gs && ViewOf(v.game, cs, us) == Some(v) by {
      forall v | v in joined ensures v.game in gs && ViewOf(v.game, cs, us) == Some(v) {
        var g :| g in gs && GameJoin(cs, us)(g) == Some(v);
      }
    }
    assert forall v :: v in r ==> v in listed by {
      forall v | v in r ensures v in listed {
        assert v in multiset(r);
      }
    }
    r
  }

  /** `get_games`: the run of the listing that starts after `offset` rows,
      `limit` rows long or up to the end (every remaining row for a negative
      limit); every row is an active game matching the search and the
      category, newest first. */
  function GamesPage(gs: seq<Game>, cs: seq<Category>, us: seq<User>, search: Option<string>, category: Option<string>,
                     limit: int, offset: int): (r: seq<GameView>)
    ensures var l := Listing(gs, cs, us, search, category);
            && Skip(|l|, offset) + |r| <= |l|
            && r == l[Skip(|l|, offset)..Skip(|l|, offset) + |r|]
    ensures var l := Listing(gs, cs, us, search, category);
            limit >= 0 ==> |r| == Min(limit, |l| - Skip(|l|, offset))
    ensures var l := Listing(gs, cs, us, search, category);
            limit < 0 ==> |r| == |l| - Skip(|l|, offset)
    ensures limit >= 0 ==> |r| <= limit
    ensures forall v :: v in r ==> v.game in gs && v.game.isActive && Listed(v, search, category)
    ensures Sorted(r, NewerGameFirst)
  {
    var all := Listing(gs, cs, us, search, category);
    WindowKeeps(all, limit, offset, NewerGameFirst);
    Window(all, limit, offset)
  }

  /** With the foreign keys in place, every active game that matches the
      search and belongs to the requested category is listed, with its own
      category's name. */
  lemma ListingComplete(gs: seq<Game>, cs: seq<Category>, us: seq<User>, search: Option<string>,
                        category: Option<string>, g: Game, c: Category)
    requires GamesOk(gs, cs, us) && Distinct(cs, CategoryKey) && Distinct(us, UserKey)
    requires g in gs && g.isActive && MatchesSearch(g, search)
    requires c in cs && c.id == g.categoryId
    requires category.Some? && category.value != "" ==> category.value == c.name
    ensures exists v :: v in GamesPage(gs, cs, us, search, category, -1, 0) && v.game == g && v.categoryName == c.name
  {
    ViewOfExisting(gs, cs, us, g, c);
    var v := ViewOf(g, cs, us).value;
    var joined := FilterMap(gs, GameJoin(cs, us));
    assert GameJoin(cs, us)(g) == Some(v);
    var listed := Filter(joined, ListedBy(search, category));
    assert v in listed;
    var all := Listing(gs, cs, us, search, category);
    assert v in multiset(all);
    WindowAll(all);
  }

  /** Consecutive pages: the page of `limit1` rows at `offset` followed by
      the page of `limit2` rows at `offset + limit1` is the page of
      `limit1 + limit2` rows at `offset`, so paging skips and repeats
      nothing. */
  lemma GamesPagesJoin(gs: seq<Game>, cs: seq<Category>, us: seq<User>, search: Option<string>,
                       category: Option<string>, limit1: nat, limit2: nat, offset: nat)
    ensures GamesPage(gs, cs, us, search, category, limit1, offset)
              + GamesPage(gs, cs, us, search, category, limit2, offset + limit1)
            == GamesPage(gs, cs, us, search, category, limit1 + limit2, offset)
  {
    WindowPages(Listing(gs, cs, us, search, category), limit1, limit2, offset);
  }

  /** The rows `get_game_by_id` can return for `id`. */
  function OpensAs(cs: seq<Category>, us: seq<User>, id: string): Game -> bool {
    (g: Game) => g.id == id && g.isActive && ViewOf(g, cs, us).Some?
  }

  /** `get_game_by_id`: the active game with that id, joined with its
      category and author. */
  function GameById(gs: seq<Game>, cs: seq<Category>, us: seq<User>, id: string): (r: Option<GameView>)
    ensures r.Some? ==> r.value.game in gs && r.value.game.id == id && r.value.game.isActive
    ensures r.Some? ==> ViewOf(r.value.game, cs, us) == r
    ensures r.None? <==> forall g :: g in gs && g.id == id && g.isActive ==> ViewOf(g, cs, us).None?
  {
    match IndexWhere(gs, OpensAs(cs, us, id))
    case None => None
    case Some(i) => ViewOf(gs[i], cs, us)
  }

  /** With the foreign keys in place every active game opens by its id, and
      a game shown in any page of `get_games` opens to the same row. */
  lemma GameByIdFinds(gs: seq<Game>, cs: seq<Category>, us: seq<User>, g: Game)
    requires GamesOk(gs, cs, us) && Distinct(cs, CategoryKey) && Distinct(us, UserKey)
    requires g in gs && g.isActive
    ensures GameById(gs, cs, us, g.id).Some? && GameById(gs, cs, us, g.id).value.game == g
    ensures GameById(gs, cs, us, g.id) == ViewOf(g, cs, us)
  {
    var c :| c in cs && c.id == g.categoryId;
    ViewOfExisting(gs, cs, us, g, c);
    var k :| 0 <= k < |gs| && gs[k] == g;
    var i := IndexWhere(gs, OpensAs(cs, us, g.id)).value;
    DistinctSameKey(gs, GameKey, i, k);
  }

  /** Every row of a `get_games` page is the row `get_game_by_id` returns for
      its id. */
  lemma ListedGamesOpen(gs: seq<Game>, cs: seq<Category>, us: seq<User>, search: Option<string>,
                        category: Option<string>, limit: int, offset: int, v: GameView)
    requires GamesOk(gs, cs, us) && Distinct(cs, CategoryKey) && Distinct(us, UserKey)
    requires v in GamesPage(gs, cs, us, search, category, limit, offset)
    ensures GameById(gs, cs, us, v.game.id) == Some(v)
  {
    var all := Listing(gs, cs, us, search, category);
    assert v in all;
    GameByIdFinds(gs, cs, us, v.game);
  }

  // ---------------------------------------------------------------------------
  // Library

  /** `get_user_library`: that user's entries whose game is active, joined
      with the game and its category, most recently added first. */
  function LibraryOf(ls: seq<LibraryEntry>, gs: seq<Game>, cs: seq<Category>, userId: string): (r: seq<LibraryItem>)
    ensures Sorted(r, NewerEntryFirst)
    ensures multiset(r) == multiset(FilterMap(ls, LibraryJoin(gs, cs, userId)))
    ensures forall it :: it in r ==> it.game in gs && it.game.isActive
    ensures forall it :: it in r ==>
              exists e :: e in ls && e.userId == userId && e.gameId == it.game.id && e.addedAt == it.addedAt
  {
    NewerEntryFirstOrders();
    var joined := FilterMap(ls, LibraryJoin(gs, cs, userId));
    var r := SortBy(joined, NewerEntryFirst);
    LibraryJoinSound(ls, gs, cs, userId);
    assert forall it :: it in r ==> it in joined by {
      forall it | it in r ensures it in joined {
        assert it in multiset(r);
      }
    }
    r
  }

  /** Each joined library row comes from one of the user's entries and shows
      an active game. */
  lemma LibraryJoinSound(ls: seq<LibraryEntry>, gs: seq<Game>, cs: seq<Category>, userId: string)
    ensures forall it :: it in FilterMap(ls, LibraryJoin(gs, cs, userId)) ==>
              && it.game in gs && it.game.isActive
              && exists e :: e in ls && e.userId == userId && e.gameId == it.game.id && e.addedAt == it.addedAt
  {
    forall it | it in FilterMap(ls, LibraryJoin(gs, cs, userId))
      ensures && it.game in gs && it.game.isActive
              && exists e :: e in ls && e.userId == userId && e.gameId == it.game.id && e.addedAt == it.addedAt
    {
      var e :| e in ls && LibraryJoin(gs, cs, userId)(e) == Some(it);
      assert e.userId == userId && ItemOf(e, gs, cs) == Some(it);
    }
  }

  /** With the foreign keys in place, each of a user's entries whose game is
      active shows in that user's library. */
  lemma LibraryListsEntry(ls: seq<LibraryEntry>, gs: seq<Game>, cs: seq<Category>, us: seq<User>, e: LibraryEntry)
    requires GamesOk(gs, cs, us) && Distinct(gs, GameKey) && Distinct(cs, CategoryKey)
    requires e in ls && HasActiveGame(gs, e.gameId)
    ensures exists it :: it in LibraryOf(ls, gs, cs, e.userId) && it.game.id == e.gameId && it.addedAt == e.addedAt
  {
    var g :| g in gs && g.id == e.gameId && g.isActive;
    var k :| 0 <= k < |gs| && gs[k] == g;
    FindByUniqueKey(gs, GameKey, k);
    var c :| c in cs && c.id == g.categoryId;
    var ci :| 0 <= ci < |cs| && cs[ci] == c;
    FindByUniqueKey(cs, CategoryKey, ci);
    var it := ItemOf(e, gs, cs).value;
    assert LibraryJoin(gs, cs, e.userId)(e) == Some(it);
    assert it in multiset(LibraryOf(ls, gs, cs, e.userId));
  }

  /** A user's library never shows a game the user has no entry for. */
  lemma LibraryNeedsEntry(ls: seq<LibraryEntry>, gs: seq<Game>, cs: seq<Category>, userId: string, gameId: string)
    requires !InLibrary(ls, userId, gameId)
    ensures forall it :: it in LibraryOf(ls, gs, cs, userId) ==> it.game.id != gameId
  {
  }

  // ---------------------------------------------------------------------------
  // Chat

  /** The rows of `get_chat_messages` before LIMIT: messages not deleted,
      joined with their sender, newest first. */
  function VisibleMessages(ms: seq<ChatMessage>, us: seq<User>): (r: seq<MessageView>)
    ensures Sorted(r, NewerMessageFirst)
    ensures forall v :: v in r ==> v.message in ms && !v.message.isDeleted
    ensures multiset(r) == multiset(FilterMap(ms, MessageJoin(us)))
  {
    NewerMessageFirstOrders();
    var r := SortBy(FilterMap(ms, MessageJoin(us)), NewerMessageFirst);
    JoinedMessagesLive(ms, us, r);
    r
  }

  /** Any arrangement of the joined rows holds stored, undeleted messages. */
  lemma JoinedMessagesLive(ms: seq<ChatMessage>, us: seq<User>, r: seq<MessageView>)
    requires multiset(r) == multiset(FilterMap(ms, MessageJoin(us)))
    ensures forall v :: v in r ==> v.message in ms && !v.message.isDeleted
  {
    forall v | v in r ensures v.message in ms && !v.message.isDeleted {
      assert v in multiset(FilterMap(ms, MessageJoin(us)));
      var m :| m in ms && MessageJoin(us)(m) == Some(v);
    }
  }

  /** With the sender's row in place, every stored message not deleted is
      shown. */
  lemma MessageIsVisible(ms: seq<ChatMessage>, us: seq<User>, m: ChatMessage)
    requires Distinct(us, UserKey)
    requires m in ms && !m.isDeleted && HasUser(us, m.userId)
    ensures exists v :: v in VisibleMessages(ms, us) && v.message == m
  {
    var u :| u in us && u.id == m.userId;
    var k :| 0 <= k < |us| && us[k] == u;
    FindByUniqueKey(us, UserKey, k);
    var v := MessageViewOf(m, us).value;
    assert MessageJoin(us)(m) == Some(v);
    assert v in multiset(VisibleMessages(ms, us));
  }

  /** A message posted by a known user is counted by `get_stats` and shown
      in the chat. */
  lemma PostedMessageCounts(ms: seq<ChatMessage>, us: seq<User>, gs: seq<Game>, m: ChatMessage)
    requires Distinct(us, UserKey)
    requires !m.isDeleted && HasUser(us, m.userId)
    ensures StatsOf(us, gs, ms + [m]).totalMessages == StatsOf(us, gs, ms).totalMessages + 1
    ensures exists v :: v in VisibleMessages(ms + [m], us) && v.message == m
  {
    FilterAppend(ms, m, IsLiveMessage);
    MessageIsVisible(ms + [m], us, m);
  }

  /** `get_chat_messages`: the newest `limit` visible messages, handed back
      oldest first. A visible message left out is no newer than any message
      returned. */
  function RecentMessages(ms: seq<ChatMessage>, us: seq<User>, limit: int): (r: seq<MessageView>)
    ensures limit >= 0 ==> |r| == Min(limit, |VisibleMessages(ms, us)|)
    ensures limit < 0 ==> |r| == |VisibleMessages(ms, us)|
    ensures |r| <= |VisibleMessages(ms, us)| && r == Reverse(VisibleMessages(ms, us)[..|r|])
    ensures forall v :: v in r ==> v in VisibleMessages(ms, us) && !v.message.isDeleted
    ensures Sorted(r, OlderMessageFirst)
    ensures forall v, w :: v in r && w in VisibleMessages(ms, us) && w !in r ==>
              w.message.createdAt <= v.message.createdAt
  {
    var all := VisibleMessages(ms, us);
    var newest := Window(all, limit, 0);
    var r := Reverse(newest);
    assert newest == all[..|newest|];
    assert forall v :: v in r <==> v in newest by {
      forall v ensures v in r <==> v in newest {
        assert v in r <==> v in multiset(r);
      }
    }
    NewestKept(all, |newest|);
    ReversedOldestFirst(newest);
    r
  }

  /** LIMIT on the newest-first order keeps messages at least as new as any
      it drops. */
  lemma NewestKept(all: seq<MessageView>, n: nat)
    requires Sorted(all, NewerMessageFirst) && n <= |all|
    ensures forall w, v :: w in all && w !in all[..n] && v in all[..n] ==> w.message.createdAt <= v.message.createdAt
  {
    forall w | w in all && w !in all[..n] ensures forall v :: v in all[..n] ==> NewerMessageFirst(v, w) {
      SortedPrefixFirst(all, NewerMessageFirst, n, w);
    }
  }

  /** `reversed` turns newest-first into oldest-first. */
  lemma ReversedOldestFirst(newest: seq<MessageView>)
    requires Sorted(newest, NewerMessageFirst)
    ensures Sorted(Reverse(newest), OlderMessageFirst)
  {
    var r := Reverse(newest);
    forall i, j | 0 <= i < j < |r| ensures OlderMessageFirst(r[i], r[j]) {
      assert r[i] == newest[|newest| - 1 - i] && r[j] == newest[|newest| - 1 - j];
    }
  }

  // ---------------------------------------------------------------------------
  // Categories and statistics

  /** `get_categories`: every category, once, ordered by name. */
  function CategoriesByName(cs: seq<Category>): (r: seq<Category>)
    ensures Sorted(r, NameOrder)
    ensures multiset(r) == multiset(cs)
  {
    NameOrderOrders();
    SortBy(cs, NameOrder)
  }

  /** `get_stats`: active users, active games, messages not deleted, and an
      active game no active game out-plays. */
  function StatsOf(us: seq<User>, gs: seq<Game>, ms: seq<ChatMessage>): (r: Stats)
    ensures r.totalUsers <= |us| && r.totalGames <= |gs| && r.totalMessages <= |ms|
  {
    var top := MostPlayed(gs);
    Stats(
      |Filter(us, IsActiveUser)|,
      |Filter(gs, IsActiveGame)|,
      |Filter(ms, IsLiveMessage)|,
      if top.None? then None else Some(PopularGame(top.value.title, top.value.playCount)))
  }

  /** A new database shows no users, no games, no messages and no popular
      game. */
  lemma StatsOfEmpty()
    ensures StatsOf([], [], []) == Stats(0, 0, 0, None)
  {
  }

  /** Appending a row to a table raises its count by one exactly when the
      row is counted: an active user, an active game, a message not
      deleted. */
  lemma StatsCountAppends(us: seq<User>, gs: seq<Game>, ms: seq<ChatMessage>, u: User, g: Game, m: ChatMessage)
    ensures StatsOf(us + [u], gs, ms).totalUsers == StatsOf(us, gs, ms).totalUsers + (if u.isActive then 1 else 0)
    ensures StatsOf(us, gs + [g], ms).totalGames == StatsOf(us, gs, ms).totalGames + (if g.isActive then 1 else 0)
    ensures StatsOf(us, gs, ms + [m]).totalMessages == StatsOf(us, gs, ms).totalMessages + (if m.isDeleted then 0 else 1)
  {
    FilterAppend(us, u, IsActiveUser);
    FilterAppend(gs, g, IsActiveGame);
    FilterAppend(ms, m, IsLiveMessage);
  }

  /** Counting a play and recording a login change no count: neither
      touches `is_active` or `is_deleted`. */
  lemma StatsCountsKeptByUpdates(us: seq<User>, gs: seq<Game>, ms: seq<ChatMessage>, gameId: string, i: nat, now: nat)
    requires i < |us|
    ensures var s, t := StatsOf(us, gs, ms), StatsOf(us[i := us[i].(lastLogin := Some(now))], CountPlays(gs, gameId), ms);
            t.totalUsers == s.totalUsers && t.totalGames == s.totalGames && t.totalMessages == s.totalMessages
  {
    var us' := us[i := us[i].(lastLogin := Some(now))];
    FilterSameVerdicts(us, us', IsActiveUser);
    FilterSameVerdicts(gs, CountPlays(gs, gameId), IsActiveGame);
  }

  /** The dashboard's popular game: none exactly when no game is active, and
      otherwise an active game's title and play count, played at least as
      often as every active game. */
  lemma PopularGameIsMostPlayed(us: seq<User>, gs: seq<Game>, ms: seq<ChatMessage>)
    ensures StatsOf(us, gs, ms).popularGame.None? <==> forall g :: g in gs ==> !g.isActive
    ensures StatsOf(us, gs, ms).popularGame.Some? ==>
              exists g :: g in gs && g.isActive && StatsOf(us, gs, ms).popularGame.value == PopularGame(g.title, g.playCount)
    ensures StatsOf(us, gs, ms).popularGame.Some? ==>
              forall g :: g in gs && g.isActive ==> g.playCount <= StatsOf(us, gs, ms).popularGame.value.playCount
  {
    var top := MostPlayed(gs);
    if top.Some? {
      assert top.value in gs && top.value.isActive;
    }
  }

}
