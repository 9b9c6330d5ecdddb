/** The rows of the catalog's tables, the projections its queries return,
    the password digest, the failure reasons with their user-facing texts,
    and the constants the store seeds and checks against. */
module Records {
  import opened Seqs

  // ---------------------------------------------------------------------------
  // Password digests (bcrypt)

  /** A salted password digest. The model keeps what the digest was computed
      from so that `Verify` can be defined; nothing outside `Verify` looks
      inside, and no query returns a digest. Comparing whole passwords is
      exact only for passwords of at most 72 UTF-8 bytes, the part bcrypt
      reads. */
  datatype Digest = Digest(salt: nat, preimage: string)

  /** `bcrypt.hashpw(password, gensalt(rounds = 12))`, with the random salt
      passed in: whatever the salt, `checkpw` accepts the password the digest
      was made from. */
  function Hash(password: string, salt: nat): (d: Digest)
    ensures Verify(password, d)
  {
    Digest(salt, password)
  }

  /** `bcrypt.checkpw(password, digest)`. */
  predicate Verify(password: string, d: Digest) {
    d.preimage == password
  }

  // ---------------------------------------------------------------------------
  // Table rows. Timestamps are naturals ordered as the ISO-8601 texts are.

  /** A row of `users`. */
  datatype User = User(
    id: string,
    username: string,
    email: string,
    passwordHash: Digest,
    createdAt: nat,
    lastLogin: Option<nat>,
    isActive: bool,
    isAdmin: bool,
    profileImage: Option<string>,
    bio: Option<string>)

  /** A row of `categories`; `id` is an AUTOINCREMENT key. */
  datatype Category = Category(id: nat, name: string, description: string, color: string)

  /** A row of `games`. */
  datatype Game = Game(
    id: string,
    title: string,
    description: string,
    categoryId: nat,
    imageUrl: string,
    gameUrl: string,
    addedBy: string,
    createdAt: nat,
    updatedAt: nat,
    isActive: bool,
    playCount: nat)

  /** A row of `user_library`; `id` is an AUTOINCREMENT key. */
  datatype LibraryEntry = LibraryEntry(
    id: nat,
    userId: string,
    gameId: string,
    addedAt: nat,
    status: string,
    lastPlayed: Option<nat>,
    playTime: nat)

  /** A row of `chat_messages`; `id` is an AUTOINCREMENT key. */
  datatype ChatMessage = ChatMessage(id: nat, userId: string, text: string, createdAt: nat, isDeleted: bool)

  // ---------------------------------------------------------------------------
  // What the queries return

  /** The dictionary `authenticate_user` returns: no password digest. */
  datatype SessionUser = SessionUser(
    id: string,
    username: string,
    email: string,
    isAdmin: bool,
    createdAt: nat,
    lastLogin: Option<nat>)

  /** The columns `get_user_by_id` selects: no password digest. */
  datatype UserProfile = UserProfile(
    id: string,
    username: string,
    email: string,
    createdAt: nat,
    lastLogin: Option<nat>,
    isAdmin: bool,
    profileImage: Option<string>,
    bio: Option<string>)

  /** A game joined with its category and the username of whoever added it. */
  datatype GameView = GameView(game: Game, categoryName: string, categoryColor: string, addedByUsername: string)

  /** A library row: the game, its category, and the entry's own columns. */
  datatype LibraryItem = LibraryItem(
    game: Game,
    categoryName: string,
    categoryColor: string,
    addedAt: nat,
    status: string,
    lastPlayed: Option<nat>,
    playTime: nat)

  /** A chat message joined with its sender's username. */
  datatype MessageView = MessageView(message: ChatMessage, username: string)

  datatype PopularGame = PopularGame(title: string, playCount: nat)

  /** The dictionary `get_stats` returns. */
  datatype Stats = Stats(totalUsers: nat, totalGames: nat, totalMessages: nat, popularGame: Option<PopularGame>)

  function SessionUserOf(u: User): SessionUser {
    SessionUser(u.id, u.username, u.email, u.isAdmin, u.createdAt, u.lastLogin)
  }

  function ProfileOf(u: User): UserProfile {
    UserProfile(u.id, u.username, u.email, u.createdAt, u.lastLogin, u.isAdmin, u.profileImage, u.bio)
  }

  // ---------------------------------------------------------------------------
  // Outcomes: the `(False, message)` tuples of the source

  datatype Reason =
    | InvalidUsername
    | InvalidEmail
    | PasswordTooShort
    | UserExists
    | MissingField
    | InvalidCategory
    | DuplicateTitle
    | GameNotFound
    | AlreadyInLibrary
    | EmptyMessage
    | MessageTooLong
      /** An INSERT refused by a FOREIGN KEY constraint: SQLite raises
          `IntegrityError`, which the store does not catch. */
    | ForeignKeyViolation

  datatype Result<+T> = Ok(value: T) | Err(reason: Reason)

  /** The message text the store returns with each failure. */
  function ReasonText(r: Reason): string {
    match r
    case InvalidUsername =>
      "Nome de usu\U{e1}rio inv\U{e1}lido. Use apenas letras, n\U{fa}meros e _ (3-20 caracteres)"
    case InvalidEmail => "Email inv\U{e1}lido"
    case PasswordTooShort => "Senha deve ter pelo menos 6 caracteres"
    case UserExists => "Nome de usu\U{e1}rio ou email j\U{e1} existe"
    case MissingField => "Todos os campos s\U{e3}o obrigat\U{f3}rios"
    case InvalidCategory => "Categoria inv\U{e1}lida"
    case DuplicateTitle => "Voc\U{ea} j\U{e1} adicionou um jogo com este t\U{ed}tulo"
    case GameNotFound => "Jogo n\U{e3}o encontrado"
    case AlreadyInLibrary => "Jogo j\U{e1} est\U{e1} na sua biblioteca"
    case EmptyMessage => "Mensagem n\U{e3}o pode estar vazia"
    case MessageTooLong => "Mensagem muito longa (m\U{e1}ximo 500 caracteres)"
    case ForeignKeyViolation => "FOREIGN KEY constraint failed"
  }

  /** The length of each failure text. Only `EmptyMessage` and
      `ForeignKeyViolation` share one. */
  function TextLength(r: Reason): nat {
    match r
    case InvalidUsername => 74
    case InvalidEmail => 14
    case PasswordTooShort => 38
    case UserExists => 34
    case MissingField => 32
    case InvalidCategory => 18
    case DuplicateTitle => 41
    case GameNotFound => 19
    case AlreadyInLibrary => 30
    case EmptyMessage => 29
    case MessageTooLong => 44
    case ForeignKeyViolation => 29
  }

  lemma ReasonTextLength(r: Reason)
    ensures |ReasonText(r)| == TextLength(r)
  {
    match r
    case InvalidUsername =>
    case InvalidEmail =>
    case PasswordTooShort =>
    case UserExists =>
    case MissingField =>
    case InvalidCategory =>
    case DuplicateTitle =>
    case GameNotFound =>
    case AlreadyInLibrary =>
    case EmptyMessage =>
    case MessageTooLong =>
    case ForeignKeyViolation =>
  }

  /** Every failure has its own text, so the text the store returns names
      the reason exactly. */
  lemma ReasonTextsDistinct(a: Reason, b: Reason)
    ensures ReasonText(a) == ReasonText(b) <==> a == b
  {
    ReasonTextLength(a);
    ReasonTextLength(b);
    SameLengthTextsDiffer();
    if a != b && TextLength(a) == TextLength(b) {
      SameLengthReasons(a, b);
    }
  }

  /** The two texts of equal length start with different letters. */
  lemma SameLengthTextsDiffer()
    ensures ReasonText(EmptyMessage) != ReasonText(ForeignKeyViolation)
  {
    assert ReasonText(EmptyMessage)[0] == 'M';
  }

  lemma SameLengthReasons(a: Reason, b: Reason)
    requires a != b && TextLength(a) == TextLength(b)
    ensures {a, b} == {EmptyMessage, ForeignKeyViolation}
  {
  }

  const LibraryAddedText := "Jogo adicionado \U{e0} biblioteca"
  const MessageSentText := "Mensagem enviada"

  // ---------------------------------------------------------------------------
  // Constants

  const MinPasswordLength := 6
  const MaxMessageLength := 500

  /** `user_library.status` DEFAULT */
  const DefaultStatus := "owned"

  /** One entry of the seed list: the slug is part of the list but is not stored. */
  datatype SeedCategory = SeedCategory(slug: string, name: string, description: string, color: string)

  const DefaultCategories: seq<SeedCategory> := [
    SeedCategory("acao", "A\U{e7}\U{e3}o", "Jogos de a\U{e7}\U{e3}o e aventura", "#e74c3c"),
    SeedCategory("aventura", "Aventura", "Jogos de aventura e explora\U{e7}\U{e3}o", "#3498db"),
    SeedCategory("estrategia", "Estrat\U{e9}gia", "Jogos de estrat\U{e9}gia e planejamento", "#9b59b6"),
    SeedCategory("corrida", "Corrida", "Jogos de corrida e velocidade", "#f39c12"),
    SeedCategory("puzzle", "Puzzle", "Jogos de quebra-cabe\U{e7}a e l\U{f3}gica", "#2ecc71"),
    SeedCategory("rpg", "RPG", "Jogos de interpreta\U{e7}\U{e3}o de pap\U{e9}is", "#e67e22"),
    SeedCategory("esporte", "Esporte", "Jogos esportivos", "#1abc9c"),
    SeedCategory("simulacao", "Simula\U{e7}\U{e3}o", "Jogos de simula\U{e7}\U{e3}o", "#34495e")
  ]

  const AdminUsername := "admin"
  const AdminEmail := "admin@gdsgames.com"
  const AdminPassword := "admin123"
}
