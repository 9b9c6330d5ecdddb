/** Table-level logic of the catalog store over plain values: the UNIQUE and
    FOREIGN KEY constraints as predicates, the lookups and JOINs its queries
    perform, the LIKE search, and the orders of its ORDER BY clauses. */
module Tables {
  import opened Seqs
  import opened Validation
  import opened Records

  // ---------------------------------------------------------------------------
  // Keys of the UNIQUE constraints

  function UserKey(u: User): string { u.id }
  function UsernameKey(u: User): string { u.username }
  function EmailKey(u: User): string { u.email }
  function CategoryKey(c: Category): nat { c.id }
  function CategoryNameKey(c: Category): string { c.name }
  function GameKey(g: Game): string { g.id }
  /** Not a schema constraint: `add_game` refuses a second game with the same
      title from the same user. */
  function TitleKey(g: Game): (string, string) { (g.title, g.addedBy) }
  function EntryKey(e: LibraryEntry): nat { e.id }
  /** `UNIQUE(user_id, game_id)` of `user_library` */
  function PairKey(e: LibraryEntry): (string, string) { (e.userId, e.gameId) }
  function MessageKey(m: ChatMessage): nat { m.id }

  // ---------------------------------------------------------------------------
  // Row existence (the targets of FOREIGN KEY references)

  predicate HasUser(us: seq<User>, id: string) { exists u :: u in us && u.id == id }
  predicate HasCategory(cs: seq<Category>, id: nat) { exists c :: c in cs && c.id == id }
  predicate HasGame(gs: seq<Game>, id: string) { exists g :: g in gs && g.id == id }

  /** `SELECT 1 FROM games WHERE id = ? AND is_active = 1` finds a row. */
  predicate HasActiveGame(gs: seq<Game>, id: string) { exists g :: g in gs && g.id == id && g.isActive }

  /** `SELECT 1 FROM users WHERE username = ? OR email = ?` finds a row. */
  predicate NameOrEmailTaken(us: seq<User>, username: string, email: string) {
    exists u :: u in us && (u.username == username || u.email == email)
  }

  /** `SELECT 1 FROM games WHERE title = ? AND added_by = ?` finds a row,
      whether or not that game is active. */
  predicate TitleTaken(gs: seq<Game>, title: string, addedBy: string) {
    exists g :: g in gs && g.title == title && g.addedBy == addedBy
  }

  /** `SELECT 1 FROM user_library WHERE user_id = ? AND game_id = ?` finds a row. */
  predicate InLibrary(ls: seq<LibraryEntry>, userId: string, gameId: string) {
    exists e :: e in ls && e.userId == userId && e.gameId == gameId
  }

  // ---------------------------------------------------------------------------
  // Table invariants

  /** Ids, usernames and e-mails are unique, and every stored username and
      e-mail passed the validation that guards each insert. */
  ghost predicate UsersOk(us: seq<User>) {
    && Distinct(us, UserKey)
    && Distinct(us, UsernameKey)
    && Distinct(us, EmailKey)
    && forall u :: u in us ==> ValidUsername(u.username) && ValidEmail(u.email)
  }

  /** Ids and names are unique, and every id is below the AUTOINCREMENT counter. */
  ghost predicate CategoriesOk(cs: seq<Category>, nextId: nat) {
    && Distinct(cs, CategoryKey)
    && Distinct(cs, CategoryNameKey)
    && forall c :: c in cs ==> c.id < nextId
  }

  /** Ids and (title, added_by) pairs are unique; category and author exist. */
  ghost predicate GamesOk(gs: seq<Game>, cs: seq<Category>, us: seq<User>) {
    && Distinct(gs, GameKey)
    && Distinct(gs, TitleKey)
    && forall g :: g in gs ==> HasCategory(cs, g.categoryId) && HasUser(us, g.addedBy)
  }

  /** Ids and (user, game) pairs are unique; user and game exist. */
  ghost predicate LibraryOk(ls: seq<LibraryEntry>, gs: seq<Game>, us: seq<User>, nextId: nat) {
    && Distinct(ls, EntryKey)
    && Distinct(ls, PairKey)
    && forall e :: e in ls ==> e.id < nextId && HasUser(us, e.userId) && HasGame(gs, e.gameId)
  }

  /** Ids are unique; the sender exists; the stored text is non-empty, has
      no whitespace at either end and is at most 500 characters long. */
  ghost predicate MessagesOk(ms: seq<ChatMessage>, us: seq<User>, nextId: nat) {
    && Distinct(ms, MessageKey)
    && forall m :: m in ms ==>
         && m.id < nextId && HasUser(us, m.userId)
         && m.text != [] && Stripped(m.text) && |m.text| <= MaxMessageLength
  }

  // ---------------------------------------------------------------------------
  // Login

  /** `(username = login OR email = login) AND is_active = 1` */
  predicate MatchesLogin(u: User, login: string) {
    u.isActive && (u.username == login || u.email == login)
  }

  /** Usernames and e-mails are each unique and a username is never an
      e-mail, so no two users match the same login string. */
  lemma LoginMatchesAtMostOne(us: seq<User>, login: string, i: nat, j: nat)
    requires UsersOk(us)
    requires i < |us| && j < |us|
    requires MatchesLogin(us[i], login) && MatchesLogin(us[j], login)
    ensures i == j
  {
    assert us[i] in us && us[j] in us;
    NoUsernameIsAnEmail(login);
    DistinctSameKey(us, UsernameKey, i, j);
    DistinctSameKey(us, EmailKey, i, j);
  }

  // ---------------------------------------------------------------------------
  // Foreign-key targets survive inserts and updates that keep the key

  lemma HasUserAppend(us: seq<User>, u: User, id: string)
    requires HasUser(us, id)
    ensures HasUser(us + [u], id)
  {
    var w :| w in us && w.id == id;
    assert w in us + [u];
  }

  lemma HasUserUpdate(us: seq<User>, i: nat, u: User, id: string)
    requires i < |us| && u.id == us[i].id && HasUser(us, id)
    ensures HasUser(us[i := u], id)
  {
    var w :| w in us && w.id == id;
    var k :| 0 <= k < |us| && us[k] == w;
    assert us[i := u][k].id == id;
  }

  lemma HasGameAppend(gs: seq<Game>, g: Game, id: string)
    requires HasGame(gs, id)
    ensures HasGame(gs + [g], id)
  {
    var w :| w in gs && w.id == id;
    assert w in gs + [g];
  }

  // ---------------------------------------------------------------------------
  // Inserting a game

  /** `all([title, description, category, image_url, game_url])`: every one of
      the five texts is non-empty. Whitespace counts as content. */
  predicate FieldsGiven(title: string, description: string, category: string, imageUrl: string, gameUrl: string) {
    title != "" && description != "" && category != "" && imageUrl != "" && gameUrl != ""
  }

  // ---------------------------------------------------------------------------
  // Game listing: JOIN, LIKE and ORDER BY

  /** `games g JOIN categories c ON g.category_id = c.id JOIN users u ON
      g.added_by = u.id` for one game row. */
  function ViewOf(g: Game, cs: seq<Category>, us: seq<User>): (r: Option<GameView>)
    ensures r.Some? ==> r.value.game == g
  {
    match FindByKey(cs, CategoryKey, g.categoryId)
    case None => None
    case Some(c) =>
      match FindByKey(us, UserKey, g.addedBy)
      case None => None
      case Some(u) => Some(GameView(g, c.name, c.color, u.username))
  }

  function GameJoin(cs: seq<Category>, us: seq<User>): Game -> Option<GameView> {
    (g: Game) => ViewOf(g, cs, us)
  }

  /** With the foreign keys in place the join drops no game, and it reports
      the game's own category. */
  lemma ViewOfExisting(gs: seq<Game>, cs: seq<Category>, us: seq<User>, g: Game, c: Category)
    requires GamesOk(gs, cs, us) && Distinct(cs, CategoryKey) && Distinct(us, UserKey)
    requires g in gs && c in cs && c.id == g.categoryId
    ensures ViewOf(g, cs, us).Some?
    ensures ViewOf(g, cs, us).value.categoryName == c.name && ViewOf(g, cs, us).value.categoryColor == c.color
  {
    var u :| u in us && u.id == g.addedBy;
    var ci :| 0 <= ci < |cs| && cs[ci] == c;
    var ui :| 0 <= ui < |us| && us[ui] == u;
    FindByUniqueKey(cs, CategoryKey, ci);
    FindByUniqueKey(us, UserKey, ui);
  }

  /** The games JOIN keeps a game exactly when its category and its author
      exist, and then carries that category's name and colour and that
      author's username. */
  lemma ViewOfJoins(g: Game, cs: seq<Category>, us: seq<User>)
    ensures ViewOf(g, cs, us).Some? <==> HasCategory(cs, g.categoryId) && HasUser(us, g.addedBy)
    ensures ViewOf(g, cs, us).Some? ==>
              exists c :: c in cs && c.id == g.categoryId
                          && ViewOf(g, cs, us).value.categoryName == c.name && ViewOf(g, cs, us).value.categoryColor == c.color
    ensures ViewOf(g, cs, us).Some? ==>
              exists u :: u in us && u.id == g.addedBy && ViewOf(g, cs, us).value.addedByUsername == u.username
  {
    if HasCategory(cs, g.categoryId) {
      var c :| c in cs && c.id == g.categoryId;
      var k :| 0 <= k < |cs| && cs[k] == c;
      assert CategoryKey(cs[k]) == g.categoryId;
    }
    if HasUser(us, g.addedBy) {
      var u :| u in us && u.id == g.addedBy;
      var k :| 0 <= k < |us| && us[k] == u;
      assert UserKey(us[k]) == g.addedBy;
    }
  }

  /** ASCII lower-casing: SQLite's LIKE folds only A-Z. */
  function Lower(c: char): char {
    if 'A' <= c <= 'Z' then (c as int + 32) as char else c
  }

  function Fold(s: string): (r: string)
    ensures |r| == |s| && forall i :: 0 <= i < |s| ==> r[i] == Lower(s[i])
  {
    if s == [] then [] else [Lower(s[0])] + Fold(s[1..])
  }

  /** `term` occurs in `text` at position `k`, up to ASCII case. */
  predicate OccursAt(text: string, term: string, k: int) {
    0 <= k && k + |term| <= |text| && Fold(text[k..k + |term|]) == Fold(term)
  }

  /** `text LIKE '%' || term || '%'`: `term` occurs somewhere in `text`. */
  predicate ContainsIgnoringCase(text: string, term: string) {
    exists k | 0 <= k <= |text| - |term| :: OccursAt(text, term, k)
  }

  /** Folding twice is folding once. */
  lemma FoldTwice(s: string)
    ensures Fold(Fold(s)) == Fold(s)
  {
  }

  /** LIKE finds a term wherever it occurs verbatim. */
  lemma LikeFindsInfix(pre: string, term: string, post: string)
    ensures ContainsIgnoringCase(pre + term + post, term)
  {
    var text := pre + term + post;
    assert text[|pre|..|pre| + |term|] == term;
    assert OccursAt(text, term, |pre|);
  }

  /** The case of the search term does not matter: a term and its
      lower-cased form match the same texts. */
  lemma LikeIgnoresCase(text: string, term: string)
    ensures ContainsIgnoringCase(text, term) <==> ContainsIgnoringCase(text, Fold(term))
  {
    FoldTwice(term);
    forall k | 0 <= k <= |text| - |term|
      ensures OccursAt(text, term, k) <==> OccursAt(text, Fold(term), k)
    {
    }
  }

  /** Python's `if search:` — an absent or empty term adds no condition. */
  predicate SearchApplies(search: Option<string>) { search.Some? && search.value != "" }

  predicate MatchesSearch(g: Game, search: Option<string>) {
    SearchApplies(search) ==>
      ContainsIgnoringCase(g.title, search.value) || ContainsIgnoringCase(g.description, search.value)
  }

  /** `c.name = ?`, when a non-empty category is given. */
  predicate MatchesCategory(v: GameView, category: Option<string>) {
    category.Some? && category.value != "" ==> v.categoryName == category.value
  }

  /** The WHERE clause of `get_games`. */
  predicate Listed(v: GameView, search: Option<string>, category: Option<string>) {
    v.game.isActive && MatchesSearch(v.game, search) && MatchesCategory(v, category)
  }

  function ListedBy(search: Option<string>, category: Option<string>): GameView -> bool {
    (v: GameView) => Listed(v, search, category)
  }

  /** `ORDER BY g.created_at DESC` */
  predicate NewerGameFirst(a: GameView, b: GameView) { a.game.createdAt >= b.game.createdAt }

  lemma NewerGameFirstOrders()
    ensures Total(NewerGameFirst) && Transitive(NewerGameFirst)
  {
  }

  /** `UPDATE games SET play_count = play_count + 1 WHERE id = ?` on one row. */
  function CountPlay(g: Game, gameId: string): Game {
    if g.id == gameId then g.(playCount := g.playCount + 1) else g
  }

  /** The same UPDATE over the whole table. */
  function CountPlays(gs: seq<Game>, gameId: string): (r: seq<Game>)
    ensures |r| == |gs| && forall i :: 0 <= i < |gs| ==> r[i] == CountPlay(gs[i], gameId)
  {
    seq(|gs|, i requires 0 <= i < |gs| => CountPlay(gs[i], gameId))
  }

  /** With unique game ids the UPDATE touches one row when the id exists,
      adding one play to it, and leaves the table as it was otherwise. */
  lemma CountPlaysOneRow(gs: seq<Game>, gameId: string)
    requires Distinct(gs, GameKey)
    ensures !HasGame(gs, gameId) ==> CountPlays(gs, gameId) == gs
    ensures forall i :: 0 <= i < |gs| && gs[i].id == gameId ==>
              CountPlays(gs, gameId) == gs[i := gs[i].(playCount := gs[i].playCount + 1)]
  {
    if !HasGame(gs, gameId) {
      assert forall i :: 0 <= i < |gs| ==> gs[i] in gs;
    }
    forall i | 0 <= i < |gs| && gs[i].id == gameId
      ensures CountPlays(gs, gameId) == gs[i := gs[i].(playCount := gs[i].playCount + 1)]
    {
      forall j | 0 <= j < |gs| && j != i ensures gs[j].id != gameId {
        DistinctSameKey(gs, GameKey, i, j);
      }
    }
  }

  // ---------------------------------------------------------------------------
  // Library listing

  /** `user_library ul JOIN games g ON ul.game_id = g.id JOIN categories c ON
      g.category_id = c.id WHERE g.is_active = 1` for one entry. */
  function ItemOf(e: LibraryEntry, gs: seq<Game>, cs: seq<Category>): (r: Option<LibraryItem>)
    ensures r.Some? ==> r.value.game in gs && r.value.game.id == e.gameId && r.value.game.isActive
    ensures r.Some? ==> r.value.addedAt == e.addedAt
  {
    match FindByKey(gs, GameKey, e.gameId)
    case None => None
    case Some(g) =>
      if !g.isActive then None
      else match FindByKey(cs, CategoryKey, g.categoryId)
        case None => None
        case Some(c) => Some(LibraryItem(g, c.name, c.color, e.addedAt, e.status, e.lastPlayed, e.playTime))
  }

  /** With unique game ids the library JOIN keeps an entry exactly when its
      game exists, is active and has a stored category; the item then carries
      that game, its category's name and colour, and the entry's own
      columns. */
  lemma ItemOfJoins(e: LibraryEntry, gs: seq<Game>, cs: seq<Category>)
    requires Distinct(gs, GameKey)
    ensures ItemOf(e, gs, cs).Some? <==>
              exists g :: g in gs && g.id == e.gameId && g.isActive && HasCategory(cs, g.categoryId)
    ensures ItemOf(e, gs, cs).Some? ==>
              var it := ItemOf(e, gs, cs).value;
              && (exists c :: c in cs && c.id == it.game.categoryId && it.categoryName == c.name && it.categoryColor == c.color)
              && it.status == e.status && it.lastPlayed == e.lastPlayed && it.playTime == e.playTime
  {
    if g :| g in gs && g.id == e.gameId && g.isActive && HasCategory(cs, g.categoryId) {
      var k :| 0 <= k < |gs| && gs[k] == g;
      FindByUniqueKey(gs, GameKey, k);
      var c :| c in cs && c.id == g.categoryId;
      var j :| 0 <= j < |cs| && cs[j] == c;
      assert CategoryKey(cs[j]) == g.categoryId;
    }
  }

  /** The rows of one user's library (`WHERE ul.user_id = ?`). */
  function LibraryJoin(gs: seq<Game>, cs: seq<Category>, userId: string): LibraryEntry -> Option<LibraryItem> {
    (e: LibraryEntry) => if e.userId == userId then ItemOf(e, gs, cs) else None
  }

  /** `ORDER BY ul.added_at DESC` */
  predicate NewerEntryFirst(a: LibraryItem, b: LibraryItem) { a.addedAt >= b.addedAt }

  lemma NewerEntryFirstOrders()
    ensures Total(NewerEntryFirst) && Transitive(NewerEntryFirst)
  {
  }

  /** `DELETE FROM user_library WHERE user_id = ? AND game_id = ?` keeps the
      rows this accepts. */
  function OtherPair(userId: string, gameId: string): LibraryEntry -> bool {
    (e: LibraryEntry) => !(e.userId == userId && e.gameId == gameId)
  }

  /** With (user, game) unique, the DELETE removes at most one row. */
  lemma DeletePairCount(ls: seq<LibraryEntry>, userId: string, gameId: string)
    requires Distinct(ls, PairKey)
    ensures |Filter(ls, OtherPair(userId, gameId))|
            == |ls| - (if InLibrary(ls, userId, gameId) then 1 else 0)
  {
    var p := OtherPair(userId, gameId);
    if InLibrary(ls, userId, gameId) {
      var e :| e in ls && e.userId == userId && e.gameId == gameId;
      var k :| 0 <= k < |ls| && ls[k] == e;
      forall i | 0 <= i < |ls| && i != k ensures p(ls[i]) {
        if i < k { assert PairKey(ls[i]) != PairKey(ls[k]); }
        else { assert PairKey(ls[k]) != PairKey(ls[i]); }
      }
      FilterDropsOne(ls, p, k);
    } else {
      FilterKeepsAll(ls, p);
    }
  }

  // ---------------------------------------------------------------------------
  // Chat

  /** `chat_messages cm JOIN users u ON cm.user_id = u.id WHERE cm.is_deleted = 0`
      for one message. */
  function MessageViewOf(m: ChatMessage, us: seq<User>): (r: Option<MessageView>)
    ensures r.Some? ==> r.value.message == m && !m.isDeleted
  {
    if m.isDeleted then None
    else match FindByKey(us, UserKey, m.userId)
      case None => None
      case Some(u) => Some(MessageView(m, u.username))
  }

  /** The chat JOIN keeps a message exactly when it is not deleted and its
      author exists, and then carries that author's username. */
  lemma MessageViewOfJoins(m: ChatMessage, us: seq<User>)
    ensures MessageViewOf(m, us).Some? <==> !m.isDeleted && HasUser(us, m.userId)
    ensures MessageViewOf(m, us).Some? ==>
              exists u :: u in us && u.id == m.userId && MessageViewOf(m, us).value.username == u.username
  {
    if HasUser(us, m.userId) {
      var u :| u in us && u.id == m.userId;
      var k :| 0 <= k < |us| && us[k] == u;
      assert UserKey(us[k]) == m.userId;
    }
  }

  function MessageJoin(us: seq<User>): ChatMessage -> Option<MessageView> {
    (m: ChatMessage) => MessageViewOf(m, us)
  }

  /** `ORDER BY cm.created_at DESC` */
  predicate NewerMessageFirst(a: MessageView, b: MessageView) { a.message.createdAt >= b.message.createdAt }

  /** The order of the rows `get_chat_messages` hands back. */
  predicate OlderMessageFirst(a: MessageView, b: MessageView) { a.message.createdAt <= b.message.createdAt }

  lemma NewerMessageFirstOrders()
    ensures Total(NewerMessageFirst) && Transitive(NewerMessageFirst)
  {
  }

  // ---------------------------------------------------------------------------
  // Categories

  /** `ORDER BY name` */
  predicate NameOrder(a: Category, b: Category) { TextLeq(a.name, b.name) }

  lemma NameOrderOrders()
    ensures Total(NameOrder) && Transitive(NameOrder)
  {
    forall a: Category, b: Category ensures NameOrder(a, b) || NameOrder(b, a) {
      TextLeqTotal(a.name, b.name);
    }
    forall a: Category, b: Category, c: Category | NameOrder(a, b) && NameOrder(b, c)
      ensures NameOrder(a, c)
    {
      TextLeqTransitive(a.name, b.name, c.name);
    }
  }

  // ---------------------------------------------------------------------------
  // Statistics

  predicate IsActiveUser(u: User) { u.isActive }
  predicate IsActiveGame(g: Game) { g.isActive }
  predicate IsLiveMessage(m: ChatMessage) { !m.isDeleted }

  /** `SELECT title, play_count FROM games WHERE is_active = 1 ORDER BY
      play_count DESC LIMIT 1`: an active game no active game out-plays, or
      none when no game is active. Among equals the first in table order wins. */
  function MostPlayed(gs: seq<Game>): (r: Option<Game>)
    ensures r.None? <==> forall g :: g in gs ==> !g.isActive
    ensures r.Some? ==> r.value in gs && r.value.isActive
    ensures r.Some? ==> forall g :: g in gs && g.isActive ==> g.playCount <= r.value.playCount
  {
    if gs == [] then None
    else
      var rest := MostPlayed(gs[1..]);
      assert forall g :: g in gs ==> g == gs[0] || g in gs[1..];
      if !gs[0].isActive then rest
      else if rest.Some? && rest.value.playCount > gs[0].playCount then rest
      else Some(gs[0])
  }
}
