/**
 * The administrator's conversation with the bot: the states, the updates the
 * bot receives, the handler table of the conversation handler, and what each
 * handler does to the catalog and to the user's session (`context.user_data`).
 *
 * Each handler is a function from the catalog, the session and the update to
 * an Effect: the new catalog, the new session, the state to go to, and
 * whether the catalog was saved to the channel (which Step then performs on
 * the handle). A handler that would raise in Python yields `Raised`: the
 * conversation handler then leaves the user's state as it was, while the
 * session changes made before the exception stay.
 */
module Conversation {
  import opened Wrappers
  import opened Text
  import Slug
  import Ingest
  import opened Catalog
  import opened Persistence

  /** The thirteen states, numbered 0 to 12 in this order. */
  datatype State =
    | SelectingAction | AddTitle | AddDesc | AddCover
    | SelectManga | ActionMenu | AddChapterMethod
    | AddChapterZip | DeleteConfirm | HelpMenu
    | WaitingForCommandInput | AddChapterManual
    | SelectChapterDelete

  /** A document attached to a message; `content` is what the archive reader makes of its bytes. */
  datatype Document = Document(fileId: FileRef, mime: Option<string>, fileName: Option<string>, content: Ingest.Archive)

  /**
   * An update from one user. `Command` is a message whose text starts with a
   * bot command (`name` is the command word, lowered, without the bot's
   * name); `Plain` is any other text message; `Photo` carries the largest
   * size of a photo; `Callback` is a button press; `Other` a message of any
   * other kind.
   */
  datatype Update =
    | Command(name: string, text: string)
    | Plain(text: string)
    | Photo(photoId: FileRef)
    | File(doc: Document)
    | Callback(data: string)
    | Other

  /** `update.message.text`. */
  function MessageText(u: Update): Option<string> {
    match u
    case Command(_, t) => Some(t)
    case Plain(t) => Some(t)
    case _ => None
  }

  /** Whether `update.message` is set: every update but a button press. */
  predicate HasMessage(u: Update) { !u.Callback? }

  predicate IsImageDocument(u: Update) {
    u.File? && u.doc.mime.Some? && StartsWith(u.doc.mime.value, "image/")
  }

  // ---------------------------------------------------------------------------
  // The handler table
  // ---------------------------------------------------------------------------

  datatype Filter =
    | OnCommand(command: string)   // CommandHandler(command)
    | OnCallback                   // CallbackQueryHandler
    | OnPlainText                  // filters.TEXT & ~filters.COMMAND
    | OnPhoto                      // filters.PHOTO
    | OnImageDocument              // filters.Document.IMAGE
    | OnZipDocument                // filters.Document.ZIP

  predicate Matches(f: Filter, u: Update) {
    match f
    case OnCommand(name) => u.Command? && u.name == name
    case OnCallback => u.Callback?
    case OnPlainText => u.Plain?
    case OnPhoto => u.Photo?
    case OnImageDocument => IsImageDocument(u)
    case OnZipDocument => u.File? && u.doc.mime == Some("application/zip")
  }

  datatype Handler =
    | Start | AddComicCommand | AddChapterCommand | DeleteComicCommand
    | ListComicsCommand | StatsCommand | ShowHelp
    | ButtonCallback
    | ReceiveTitle | ReceiveDescription
    | ReceiveCover | ReceiveCoverDocument | SkipCover
    | ReceiveZipFile | ReceiveChapterNumber | ReceiveChapterPage
    | Cancel

  /** The handlers decorated with `admin_only`; the title commands, the listings and help are not. */
  predicate AdminOnly(h: Handler) {
    !(h.AddComicCommand? || h.AddChapterCommand? || h.DeleteComicCommand?
      || h.ListComicsCommand? || h.StatsCommand? || h.ShowHelp?)
  }

  datatype Route = Route(filter: Filter, handler: Handler)

  const EntryPoints: seq<Route> := [
    Route(OnCommand("start"), Start),
    Route(OnCommand("addcomic"), AddComicCommand),
    Route(OnCommand("addchapter"), AddChapterCommand),
    Route(OnCommand("deletecomic"), DeleteComicCommand),
    Route(OnCommand("listcomics"), ListComicsCommand),
    Route(OnCommand("stats"), StatsCommand),
    Route(OnCommand("help"), ShowHelp)]

  const Fallbacks: seq<Route> := [Route(OnCommand("cancel"), Cancel)]

  /** The state table as written. HelpMenu, WaitingForCommandInput and SelectChapterDelete have no entry. */
  function StateRoutes(s: State): seq<Route> {
    match s
    case SelectingAction => [Route(OnCallback, ButtonCallback)]
    case AddTitle => [Route(OnPlainText, ReceiveTitle)]
    case AddDesc => [Route(OnPlainText, ReceiveDescription)]
    case AddCover => [Route(OnPhoto, ReceiveCover), Route(OnImageDocument, ReceiveCoverDocument),
                      Route(OnCommand("skip"), SkipCover)]
    case SelectManga => [Route(OnCallback, ButtonCallback)]
    case ActionMenu => [Route(OnCallback, ButtonCallback)]
    case AddChapterMethod => [Route(OnCallback, ButtonCallback)]
    case AddChapterZip => [Route(OnZipDocument, ReceiveZipFile)]
    case AddChapterManual => [Route(OnPlainText, ReceiveChapterNumber), Route(OnPhoto, ReceiveChapterPage),
                              Route(OnImageDocument, ReceiveChapterPage)]
    case DeleteConfirm => [Route(OnCallback, ButtonCallback)]
    case _ => []
  }

  /**
   * The program as written, and as corrected: `/done` reaches the page handler
   * while adding pages, and a size notice that cannot be sent no longer stops
   * the save.
   */
  datatype Table = AsWritten | Corrected

  function Routes(t: Table, s: State): seq<Route> {
    if t.Corrected? && s == AddChapterManual then StateRoutes(s) + [Route(OnCommand("done"), ReceiveChapterPage)]
    else StateRoutes(s)
  }

  /** The handler of the first route whose filter accepts the update. */
  function FirstMatch(routes: seq<Route>, u: Update): (r: Option<Handler>)
    ensures r.None? <==> forall i :: 0 <= i < |routes| ==> !Matches(routes[i].filter, u)
    ensures r.Some? ==> exists i :: 0 <= i < |routes| && Matches(routes[i].filter, u) && routes[i].handler == r.value
  {
    if routes == [] then None
    else if Matches(routes[0].filter, u) then Some(routes[0].handler)
    else FirstMatch(routes[1..], u)
  }

  /** Trying two lists of routes one after the other is trying their concatenation. */
  lemma {:induction false} FirstMatchAppend(a: seq<Route>, b: seq<Route>, u: Update)
    ensures FirstMatch(a + b, u) == if FirstMatch(a, u).Some? then FirstMatch(a, u) else FirstMatch(b, u)
  {
    if a == [] {
      assert a + b == b;
    } else {
      assert (a + b)[0] == a[0];
      assert (a + b)[1..] == a[1..] + b;
      FirstMatchAppend(a[1..], b, u);
    }
  }

  /**
   * ConversationHandler: with no conversation only the entry points are
   * tried; in a conversation the current state's handlers, then the
   * fallbacks. No match: the update is not handled.
   */
  function Dispatch(t: Table, state: Option<State>, u: Update): (r: Option<Handler>)
    ensures state.None? ==> r == FirstMatch(EntryPoints, u)
    ensures state.Some? ==> r == FirstMatch(Routes(t, state.value) + Fallbacks, u)
  {
    match state
    case None => FirstMatch(EntryPoints, u)
    case Some(s) =>
      FirstMatchAppend(Routes(t, s), Fallbacks, u);
      match FirstMatch(Routes(t, s), u)
      case Some(h) => Some(h)
      case None => FirstMatch(Fallbacks, u)
  }

  // ---------------------------------------------------------------------------
  // Sessions and effects
  // ---------------------------------------------------------------------------

  /** `context.user_data`; an absent key and a None value are read alike, so both are None here. */
  datatype Session = Session(
    selectedSlug: Option<string>,
    selectedTitle: Option<string>,
    deleteSlug: Option<string>,
    deleteTitle: Option<string>,
    title: Option<string>,
    description: Option<string>,
    cover: Option<FileRef>,
    chapterPages: seq<FileRef>,
    currentChapter: Option<string>)

  /** `context.user_data.clear()`. */
  const Cleared := Session(None, None, None, None, None, None, None, [], None)

  /** What a handler returns: a state, END, None (no change) or an exception. */
  datatype Next = Goto(state: State) | End | Keep | Raised

  /** The states HELP_MENU, WAITING_FOR_COMMAND_INPUT and SELECT_CHAPTER_DELETE have no handlers; no handler goes to them. */
  predicate Enterable(n: Next) {
    n.Goto? ==> n.state != HelpMenu && n.state != WaitingForCommandInput && n.state != SelectChapterDelete
  }

  datatype Effect = Effect(comics: Comics, session: Session, next: Next, saves: bool)

  function Stay(c: Comics, s: Session, next: Next): Effect { Effect(c, s, next, false) }

  // ---------------------------------------------------------------------------
  // The quoted argument of the title commands
  // ---------------------------------------------------------------------------

  function LeadingSpaces(s: string): (n: nat)
    ensures n <= |s|
    ensures forall i :: 0 <= i < n ==> IsSpace(s[i])
    ensures n == |s| || !IsSpace(s[n])
  {
    if s != [] && IsSpace(s[0]) then 1 + LeadingSpaces(s[1..]) else 0
  }

  function LeadingNonQuotes(s: string): (n: nat)
    ensures n <= |s|
    ensures forall i :: 0 <= i < n ==> s[i] != '"'
    ensures n == |s| || s[n] == '"'
  {
    if s != [] && s[0] != '"' then 1 + LeadingNonQuotes(s[1..]) else 0
  }

  /** `cmd\s+"([^"]+)"` matched at the start of `s` (neither repetition can give back a character). */
  function QuotedAt(s: string, cmd: string): (r: Option<string>)
    ensures r.Some? ==> r.value != [] && forall i :: 0 <= i < |r.value| ==> r.value[i] != '"'
  {
    if !StartsWith(s, cmd) then None
    else
      var rest := s[|cmd|..];
      var n := LeadingSpaces(rest);
      if n == 0 || n == |rest| || rest[n] != '"' then None
      else
        var body := rest[n + 1..];
        var m := LeadingNonQuotes(body);
        if m == 0 || m == |body| then None else Some(body[..m])
  }

  /** The leftmost quoted title in `s` that follows `cmd` and white space: what the title commands search for. */
  function SearchQuoted(s: string, cmd: string): (r: Option<string>)
    ensures r.Some? ==> r.value != [] && forall i :: 0 <= i < |r.value| ==> r.value[i] != '"'
  {
    if s == [] then None
    else match QuotedAt(s, cmd)
      case Some(t) => Some(t)
      case None => SearchQuoted(s[1..], cmd)
  }

  lemma {:induction false} LeadingSpacesOf(w: string, x: string)
    requires forall i :: 0 <= i < |w| ==> IsSpace(w[i])
    requires x != [] && !IsSpace(x[0])
    ensures LeadingSpaces(w + x) == |w|
  {
    if w != [] {
      assert (w + x)[1..] == w[1..] + x;
      LeadingSpacesOf(w[1..], x);
    }
  }

  lemma {:induction false} LeadingNonQuotesOf(t: string, x: string)
    requires forall i :: 0 <= i < |t| ==> t[i] != '"'
    requires x != [] && x[0] == '"'
    ensures LeadingNonQuotes(t + x) == |t|
  {
    if t != [] {
      assert (t + x)[1..] == t[1..] + x;
      LeadingNonQuotesOf(t[1..], x);
    }
  }

  lemma Split<T>(a: seq<T>, b: seq<T>)
    ensures (a + b)[..|a|] == a && (a + b)[|a|..] == b
  {
  }

  lemma QuotedAtStart(cmd: string, w: string, t: string, q: string)
    requires w != [] && forall i :: 0 <= i < |w| ==> IsSpace(w[i])
    requires t != [] && forall i :: 0 <= i < |t| ==> t[i] != '"'
    ensures QuotedAt(cmd + (w + ("\"" + (t + ("\"" + q)))), cmd) == Some(t)
  {
    var body := t + ("\"" + q);
    var rest := w + ("\"" + body);
    Split(cmd, rest);
    LeadingSpacesOf(w, "\"" + body);
    Split(w, "\"" + body);
    assert rest[|w|] == '"';
    assert rest[|w| + 1..] == body;
    LeadingNonQuotesOf(t, "\"" + q);
    Split(t, "\"" + q);
  }

  /** `cmd` followed by white space and a quoted title yields that title, whatever follows. */
  lemma QuotedTitle(cmd: string, w: string, t: string, q: string)
    requires w != [] && forall i :: 0 <= i < |w| ==> IsSpace(w[i])
    requires t != [] && forall i :: 0 <= i < |t| ==> t[i] != '"'
    ensures SearchQuoted(cmd + (w + ("\"" + (t + ("\"" + q)))), cmd) == Some(t)
  {
    QuotedAtStart(cmd, w, t, q);
  }

  /** Without a quote there is no title. */
  lemma {:induction false} NoQuoteNoTitle(s: string, cmd: string)
    requires forall i :: 0 <= i < |s| ==> s[i] != '"'
    ensures SearchQuoted(s, cmd).None?
  {
    if s != [] {
      NoQuoteNoTitle(s[1..], cmd);
      if StartsWith(s, cmd) {
        var rest := s[|cmd|..];
        var n := LeadingSpaces(rest);
        if 0 < n < |rest| {
          assert rest[n] == s[|cmd| + n];
        }
      }
    }
  }

  // ---------------------------------------------------------------------------
  // Handlers
  // ---------------------------------------------------------------------------

  /** `button_callback`. */
  function ButtonCallbackEffect(c: Comics, s: Session, u: Update): (e: Effect)
    ensures Enterable(e.next)
    ensures !e.saves ==> e.comics == c
    ensures e.saves ==> s.deleteSlug.Some? && e.comics == Remove(c, s.deleteSlug.value) && e.session == Cleared
  {
    if !u.Callback? then Stay(c, s, Raised)
    else
      var data := u.data;
      if data == "add_manga" then Stay(c, s, Goto(AddTitle))
      else if data == "manage_manga" then Stay(c, s, Goto(if c == map[] then SelectingAction else SelectManga))
      else if StartsWith(data, "select_") then
        var slug := data[7..];
        Stay(c, s.(selectedSlug := Some(slug)), Goto(if slug in c then ActionMenu else SelectingAction))
      else if data == "add_chapters" then Stay(c, s, Goto(AddChapterMethod))
      else if data == "add_chapter_zip" then Stay(c, s, Goto(AddChapterZip))
      else if data == "add_chapter_manual" then
        Stay(c, s.(chapterPages := [], currentChapter := None), Goto(AddChapterManual))
      else if data == "delete_comic" then
        match s.selectedSlug
        case Some(slug) =>
          if slug in c then Stay(c, s.(deleteSlug := Some(slug), deleteTitle := Some(c[slug].title)), Goto(DeleteConfirm))
          else Stay(c, s, Raised)
        case None => Stay(c, s, Raised)
      else if data == "confirm_delete" then
        match s.deleteSlug
        case Some(slug) =>
          if slug != "" then Effect(Remove(c, slug), Cleared, Goto(SelectingAction), true)
          else Stay(c, s, Goto(SelectingAction))
        case None => Stay(c, s, Goto(SelectingAction))
      else if data == "main_menu" then Stay(c, Cleared, Goto(SelectingAction))
      else Stay(c, s, Goto(SelectingAction))
  }

  function ReceiveTitleEffect(c: Comics, s: Session, u: Update): (e: Effect)
    ensures Enterable(e.next)
    ensures e.comics == c && !e.saves
  {
    match MessageText(u)
    case None => Stay(c, s, Raised)
    case Some(t) => Stay(c, s.(title := Some(Strip(t))), Goto(AddDesc))
  }

  function ReceiveDescriptionEffect(c: Comics, s: Session, u: Update): (e: Effect)
    ensures Enterable(e.next)
    ensures e.comics == c && !e.saves
  {
    match MessageText(u)
    case None => Stay(c, s, Raised)
    case Some(t) => Stay(c, s.(description := Some(Strip(t))), Goto(AddCover))
  }

  /** The page a message carries: a photo, or a document of an image type. */
  function PageOf(u: Update): Option<FileRef> {
    if u.Photo? then Some(u.photoId)
    else if IsImageDocument(u) then Some(u.doc.fileId)
    else None
  }

  /** The commit at the end of `receive_cover`: the work is stored under the slug of its title. */
  function CommitWork(c: Comics, s: Session): (e: Effect)
    ensures Enterable(e.next)
    ensures !e.saves ==> e.comics == c
    ensures e.saves ==> s.title.Some? && s.description.Some? && e.comics == AddWork(c, s.title.value, s.description.value, s.cover)
  {
    if s.title.Some? && s.description.Some? then
      Effect(AddWork(c, s.title.value, s.description.value, s.cover), Cleared, Goto(SelectingAction), true)
    else Stay(c, s, Raised)
  }

  /** `receive_cover`: a photo or an image document becomes the cover, anything else means no cover. */
  function ReceiveCoverEffect(c: Comics, s: Session, u: Update): (e: Effect)
    ensures Enterable(e.next)
    ensures !e.saves ==> e.comics == c
    ensures e.saves ==> s.title.Some? && s.description.Some? && e.comics == AddWork(c, s.title.value, s.description.value, PageOf(u))
  {
    if !HasMessage(u) then Stay(c, s, Raised)
    else CommitWork(c, s.(cover := PageOf(u)))
  }

  function ReceiveCoverDocumentEffect(c: Comics, s: Session, u: Update): (e: Effect)
    ensures Enterable(e.next)
    ensures !e.saves ==> e.comics == c
    ensures e.saves ==> s.title.Some? && s.description.Some? && e.comics == AddWork(c, s.title.value, s.description.value, PageOf(u))
  {
    if !HasMessage(u) then Stay(c, s, Raised)
    else if IsImageDocument(u) then ReceiveCoverEffect(c, s.(cover := Some(u.doc.fileId)), u)
    else Stay(c, s, Goto(AddCover))
  }

  function SkipCoverEffect(c: Comics, s: Session, u: Update): (e: Effect)
    ensures Enterable(e.next)
    ensures !e.saves ==> e.comics == c
    ensures e.saves ==> s.title.Some? && s.description.Some? && e.comics == AddWork(c, s.title.value, s.description.value, PageOf(u))
  {
    ReceiveCoverEffect(c, s.(cover := None), u)
  }

  /** `manga_slug` in a caption: Python formats a missing slug as "None". */
  function SlugText(slug: Option<string>): string {
    match slug
    case Some(x) => x
    case None => "None"
  }

  function StoreChapters(c: Comics, slug: Option<string>, added: Chapters): Comics {
    if slug.Some? then MergeChapters(c, slug.value, added) else c
  }

  /** `receive_zip_file`. */
  function ReceiveZipFileEffect(c: Comics, s: Session, u: Update, upload: Ingest.Uploader): (e: Effect)
    ensures Enterable(e.next)
    ensures !e.saves ==> e.comics == c
    ensures e.saves ==> (u.File? && e.session == Cleared
      && e.comics == StoreChapters(c, s.selectedSlug, Ingest.ZipChapters(u.doc.content, SlugText(s.selectedSlug), upload)))
  {
    if !HasMessage(u) then Stay(c, s, Raised)
    else if !u.File? then Stay(c, s, Goto(AddChapterZip))
    else if u.doc.fileName.None? then Stay(c, s, Raised)
    else if !EndsWith(Lower(u.doc.fileName.value), ".zip") then Stay(c, s, Goto(AddChapterZip))
    else
      var chapters := Ingest.ZipChapters(u.doc.content, SlugText(s.selectedSlug), upload);
      if chapters == map[] then Stay(c, s, Goto(AddChapterZip))
      else Effect(StoreChapters(c, s.selectedSlug, chapters), Cleared, Goto(SelectingAction), true)
  }

  function ReceiveChapterNumberEffect(c: Comics, s: Session, u: Update): (e: Effect)
    ensures Enterable(e.next)
    ensures e.comics == c && !e.saves
  {
    match MessageText(u)
    case None => Stay(c, s, Raised)
    case Some(t) => Stay(c, s.(currentChapter := Some(Strip(t))), Goto(AddChapterManual))
  }

  /**
   * `finish_manual_chapter`. A chapter number never given is the key None,
   * which the JSON text stores as "null".
   */
  function FinishManualChapterEffect(c: Comics, s: Session): (e: Effect)
    ensures Enterable(e.next)
    ensures !e.saves ==> e.comics == c
    ensures e.saves ==> (s.chapterPages != [] && e.session == Cleared
      && e.comics == StoreChapters(c, s.selectedSlug, map[s.currentChapter.GetOr("null") := s.chapterPages]))
  {
    if s.chapterPages == [] then Stay(c, s, Goto(AddChapterManual))
    else
      var chapter := s.currentChapter.GetOr("null");
      Effect(StoreChapters(c, s.selectedSlug, map[chapter := s.chapterPages]), Cleared, Goto(SelectingAction), true)
  }

  predicate IsDone(u: Update) {
    MessageText(u).Some? && Lower(Strip(MessageText(u).value)) == "/done"
  }

  /** `receive_chapter_page`. */
  function ReceiveChapterPageEffect(c: Comics, s: Session, u: Update): (e: Effect)
    ensures Enterable(e.next)
    ensures !e.saves ==> e.comics == c
    ensures e.saves ==> IsDone(u) && e == FinishManualChapterEffect(c, s)
  {
    if !HasMessage(u) then Stay(c, s, Raised)
    else if IsDone(u) then FinishManualChapterEffect(c, s)
    else match PageOf(u)
      case Some(id) =>
        if id != "" then Stay(c, s.(chapterPages := s.chapterPages + [id]), Goto(AddChapterManual))
        else Stay(c, s, Goto(AddChapterManual))
      case None => Stay(c, s, Goto(AddChapterManual))
  }

  /** `/addcomic "T"`. */
  function AddComicCommandEffect(c: Comics, s: Session, u: Update): (e: Effect)
    ensures Enterable(e.next)
    ensures e.comics == c && !e.saves
  {
    match MessageText(u)
    case None => Stay(c, s, Raised)
    case Some(text) =>
      match SearchQuoted(text, "/addcomic")
      case None => Stay(c, s, End)
      case Some(t) => Stay(c, s.(title := Some(t)), Goto(AddDesc))
  }

  /** `/addchapter "T"`; a work found under the empty slug counts as not found. */
  function AddChapterCommandEffect(c: Comics, s: Session, u: Update): (e: Effect)
    ensures Enterable(e.next)
    ensures e.comics == c && !e.saves
  {
    match MessageText(u)
    case None => Stay(c, s, Raised)
    case Some(text) =>
      match SearchQuoted(text, "/addchapter")
      case None => Stay(c, s, End)
      case Some(t) =>
        match FindByTitle(c, t)
        case None => Stay(c, s, End)
        case Some(slug) =>
          if slug == "" then Stay(c, s, End)
          else Stay(c, s.(selectedSlug := Some(slug), selectedTitle := Some(t)), Goto(AddChapterMethod))
  }

  /** `/deletecomic "T"`; a work found under the empty slug counts as not found. */
  function DeleteComicCommandEffect(c: Comics, s: Session, u: Update): (e: Effect)
    ensures Enterable(e.next)
    ensures e.comics == c && !e.saves
  {
    match MessageText(u)
    case None => Stay(c, s, Raised)
    case Some(text) =>
      match SearchQuoted(text, "/deletecomic")
      case None => Stay(c, s, End)
      case Some(t) =>
        match FindByTitle(c, t)
        case None => Stay(c, s, End)
        case Some(slug) =>
          if slug == "" then Stay(c, s, End)
          else Stay(c, s.(deleteSlug := Some(slug), deleteTitle := Some(t)), Goto(DeleteConfirm))
  }

  /** The handler's body, once `admin_only` (where it applies) has let the user through. */
  function Body(h: Handler, c: Comics, s: Session, u: Update, upload: Ingest.Uploader): Effect {
    match h
    case Start => Stay(c, s, Goto(SelectingAction))
    case AddComicCommand => AddComicCommandEffect(c, s, u)
    case AddChapterCommand => AddChapterCommandEffect(c, s, u)
    case DeleteComicCommand => DeleteComicCommandEffect(c, s, u)
    case ListComicsCommand => Stay(c, s, Keep)
    case StatsCommand => Stay(c, s, Keep)
    case ShowHelp => Stay(c, s, Goto(SelectingAction))
    case ButtonCallback => ButtonCallbackEffect(c, s, u)
    case ReceiveTitle => ReceiveTitleEffect(c, s, u)
    case ReceiveDescription => ReceiveDescriptionEffect(c, s, u)
    case ReceiveCover => ReceiveCoverEffect(c, s, u)
    case ReceiveCoverDocument => ReceiveCoverDocumentEffect(c, s, u)
    case SkipCover => SkipCoverEffect(c, s, u)
    case ReceiveZipFile => ReceiveZipFileEffect(c, s, u, upload)
    case ReceiveChapterNumber => ReceiveChapterNumberEffect(c, s, u)
    case ReceiveChapterPage => ReceiveChapterPageEffect(c, s, u)
    case Cancel => Stay(c, Cleared, Goto(SelectingAction))
  }

  /** `admin_only`: anyone but the administrator is turned away and the conversation ends. */
  function Run(h: Handler, admin: int, user: int, c: Comics, s: Session, u: Update, upload: Ingest.Uploader): (e: Effect)
    ensures AdminOnly(h) && user != admin ==> e == Stay(c, s, End)
  {
    if AdminOnly(h) && user != admin then Stay(c, s, End) else Body(h, c, s, u, upload)
  }

  // ---------------------------------------------------------------------------
  // One update
  // ---------------------------------------------------------------------------

  /** The outside world during one update: the uploader, the saved JSON's length and the channel's answers. */
  datatype Env = Env(upload: Ingest.Uploader, size: nat, sink: Sink)

  datatype World = World(
    comics: Comics,
    sessions: map<int, Session>,
    conversations: map<int, State>,
    handle: Option<MessageId>)

  function SessionOf(w: World, user: int): Session {
    if user in w.sessions then w.sessions[user] else Cleared
  }

  function StateOf(w: World, user: int): Option<State> {
    if user in w.conversations then Some(w.conversations[user]) else None
  }

  /** The conversation handler's bookkeeping of the returned state: a new state is entered, `END` drops the user, and a handler returning nothing or raising keeps the state. */
  function Advance(conversations: map<int, State>, user: int, next: Next): (r: map<int, State>)
    ensures next.Goto? ==> user in r && r[user] == next.state
    ensures next.End? ==> user !in r
    ensures next.Keep? || next.Raised? ==> r == conversations
    ensures forall v :: v != user ==> (v in r <==> v in conversations) && (v in r ==> r[v] == conversations[v])
  {
    match next
    case Goto(s) => conversations[user := s]
    case End => conversations - {user}
    case Keep => conversations
    case Raised => conversations
  }

  /** The handle after a handler's effect: a save runs on the new catalog. */
  function HandleAfter(t: Table, e: Effect, handle: Option<MessageId>, env: Env): Option<MessageId> {
    if !e.saves then handle
    else if t.AsWritten? then Save(e.comics, handle, env.size, env.sink).handle
    else SaveUnblocked(e.comics, handle, env.size, env.sink).handle
  }

  /** One update from `user`, through the conversation handler `t`. */
  function Step(t: Table, admin: int, w: World, user: int, u: Update, env: Env): (r: World)
    ensures Dispatch(t, StateOf(w, user), u).None? ==> r == w
    ensures forall v :: v != user ==> SessionOf(r, v) == SessionOf(w, v) && StateOf(r, v) == StateOf(w, v)
  {
    match Dispatch(t, StateOf(w, user), u)
    case None => w
    case Some(h) =>
      var e := Run(h, admin, user, w.comics, SessionOf(w, user), u, env.upload);
      World(e.comics, w.sessions[user := e.session], Advance(w.conversations, user, e.next), HandleAfter(t, e, w.handle, env))
  }


  // ---------------------------------------------------------------------------
  // Properties of the handlers
  // ---------------------------------------------------------------------------

  /** A handler changes the catalog only when it also saves it; the handlers `admin_only` does not guard never do. */
  lemma OnlySavingChangesCatalog(h: Handler, c: Comics, s: Session, u: Update, upload: Ingest.Uploader)
    ensures !Body(h, c, s, u, upload).saves ==> Body(h, c, s, u, upload).comics == c
    ensures !AdminOnly(h) ==> Body(h, c, s, u, upload).comics == c && !Body(h, c, s, u, upload).saves
  {
    match h
    case Start =>
    case AddComicCommand =>
    case AddChapterCommand =>
    case DeleteComicCommand =>
    case ListComicsCommand =>
    case StatsCommand =>
    case ShowHelp =>
    case ButtonCallback =>
    case ReceiveTitle =>
    case ReceiveDescription =>
    case ReceiveCover =>
    case ReceiveCoverDocument =>
    case SkipCover =>
    case ReceiveZipFile =>
    case ReceiveChapterNumber =>
    case ReceiveChapterPage =>
    case Cancel =>
  }

  /** Only the six handlers that save can change the catalog. */
  lemma OnlySavingHandlersChangeCatalog(h: Handler, c: Comics, s: Session, u: Update, upload: Ingest.Uploader)
    requires !(h.ButtonCallback? || h.ReceiveCover? || h.ReceiveCoverDocument? || h.SkipCover?
               || h.ReceiveZipFile? || h.ReceiveChapterPage?)
    ensures Body(h, c, s, u, upload).comics == c && !Body(h, c, s, u, upload).saves
  {
    match h
    case Start =>
    case AddComicCommand =>
    case AddChapterCommand =>
    case DeleteComicCommand =>
    case ListComicsCommand =>
    case StatsCommand =>
    case ShowHelp =>
    case ReceiveTitle =>
    case ReceiveDescription =>
    case ReceiveChapterNumber =>
    case Cancel =>
  }

  /**
   * Whatever someone other than the administrator sends, the catalog and the
   * handle stay as they were: the unguarded commands only read the catalog.
   */
  lemma OutsiderCannotEdit(t: Table, admin: int, w: World, user: int, u: Update, env: Env)
    requires user != admin
    ensures Step(t, admin, w, user, u, env).comics == w.comics
    ensures Step(t, admin, w, user, u, env).handle == w.handle
  {
    match Dispatch(t, StateOf(w, user), u)
    case None =>
    case Some(h) =>
      if !AdminOnly(h) {
        OnlySavingChangesCatalog(h, w.comics, SessionOf(w, user), u, env.upload);
      }
  }

  /** In a conversation only `/cancel` is heard among the commands, besides `/skip` for the cover (and `/done` once it is routed). */
  lemma OnlyCancelInConversation(t: Table, s: State, name: string, text: string)
    requires s != AddCover && !(t.Corrected? && s == AddChapterManual)
    ensures Dispatch(t, Some(s), Command(name, text)) == (if name == "cancel" then Some(Cancel) else None)
  {
    assert Routes(t, s) == StateRoutes(s);
    match s
    case SelectingAction =>
    case AddTitle =>
    case AddDesc =>
    case SelectManga =>
    case ActionMenu =>
    case AddChapterMethod =>
    case AddChapterZip =>
    case AddChapterManual =>
    case DeleteConfirm =>
    case HelpMenu =>
    case WaitingForCommandInput =>
    case SelectChapterDelete =>
  }

  /** As written, `/done` while adding pages matches no handler: it is ignored. */
  lemma DoneIgnoredAsWritten(text: string)
    ensures Dispatch(AsWritten, Some(AddChapterManual), Command("done", text)).None?
  {
    OnlyCancelInConversation(AsWritten, AddChapterManual, "done", text);
  }

  /** While adding pages, what each kind of update reaches as written. */
  lemma ManualRoutesAsWritten(u: Update)
    ensures var h := Dispatch(AsWritten, Some(AddChapterManual), u);
      && (h == Some(ReceiveChapterPage) <==> u.Photo? || IsImageDocument(u))
      && (h == Some(ReceiveChapterNumber) <==> u.Plain?)
      && (h == Some(Cancel) <==> u.Command? && u.name == "cancel")
      && (h.None? <==> !(u.Photo? || IsImageDocument(u) || u.Plain? || (u.Command? && u.name == "cancel")))
  {
    var routes := StateRoutes(AddChapterManual);
    assert Routes(AsWritten, AddChapterManual) == routes;
    assert routes[1..][1..] == routes[2..];
    if u.Photo? {
      assert FirstMatch(routes, u) == Some(ReceiveChapterPage);
    } else if IsImageDocument(u) {
      assert FirstMatch(routes[2..], u) == Some(ReceiveChapterPage);
      assert FirstMatch(routes, u) == Some(ReceiveChapterPage);
    } else if u.Plain? {
      assert FirstMatch(routes, u) == Some(ReceiveChapterNumber);
    } else {
      assert FirstMatch(routes, u).None?;
    }
  }

  /** As written, whatever reaches a handler in ADD_CHAPTER_MANUAL neither saves nor changes the catalog. */
  lemma ManualHandlersNeverSave(h: Handler, admin: int, user: int, c: Comics, s: Session, u: Update, upload: Ingest.Uploader)
    requires Dispatch(AsWritten, Some(AddChapterManual), u) == Some(h)
    ensures Run(h, admin, user, c, s, u, upload).comics == c
    ensures !Run(h, admin, user, c, s, u, upload).saves
  {
    ManualRoutesAsWritten(u);
    OnlySavingChangesCatalog(h, c, s, u, upload);
    if h == ReceiveChapterPage {
      assert !IsDone(u);
    }
  }

  /** So, as written, no update in ADD_CHAPTER_MANUAL ever stores a chapter or saves. */
  lemma ManualChapterNeverStored(admin: int, w: World, user: int, u: Update, env: Env)
    requires StateOf(w, user) == Some(AddChapterManual)
    ensures Step(AsWritten, admin, w, user, u, env).comics == w.comics
    ensures Step(AsWritten, admin, w, user, u, env).handle == w.handle
  {
    match Dispatch(AsWritten, Some(AddChapterManual), u)
    case None =>
    case Some(h) =>
      ManualHandlersNeverSave(h, admin, user, w.comics, SessionOf(w, user), u, env.upload);
  }

  /** With `/done` routed to the page handler, the routes of ADD_CHAPTER_MANUAL are those as written plus `/done`. */
  lemma DoneRouted(text: string)
    ensures Dispatch(Corrected, Some(AddChapterManual), Command("done", text)) == Some(ReceiveChapterPage)
  {
    var u := Command("done", text);
    var routes := Routes(Corrected, AddChapterManual);
    assert routes[1..][1..][1..] == [Route(OnCommand("done"), ReceiveChapterPage)];
    assert FirstMatch(routes[1..][1..][1..], u) == Some(ReceiveChapterPage);
    assert FirstMatch(routes[1..][1..], u) == Some(ReceiveChapterPage);
    assert FirstMatch(routes[1..], u) == Some(ReceiveChapterPage);
  }

  /** `/done` makes the page handler finish the chapter. */
  lemma DoneFinishesChapter(admin: int, c: Comics, s: Session, text: string, upload: Ingest.Uploader)
    requires Lower(Strip(text)) == "/done"
    requires s.chapterPages != []
    ensures Run(ReceiveChapterPage, admin, admin, c, s, Command("done", text), upload)
         == Effect(StoreChapters(c, s.selectedSlug, map[s.currentChapter.GetOr("null") := s.chapterPages]),
                   Cleared, Goto(SelectingAction), true)
  {
    var u := Command("done", text);
    assert HasMessage(u) && IsDone(u);
    PageEffectOfDone(c, s, u);
    RunPageHandler(admin, c, s, u, upload);
  }

  lemma RunPageHandler(admin: int, c: Comics, s: Session, u: Update, upload: Ingest.Uploader)
    ensures Run(ReceiveChapterPage, admin, admin, c, s, u, upload) == ReceiveChapterPageEffect(c, s, u)
  {
    var h := ReceiveChapterPage;
    assert Run(h, admin, admin, c, s, u, upload) == Body(h, c, s, u, upload);
    BodyOfPageHandler(h, c, s, u, upload);
  }

  lemma BodyOfPageHandler(h: Handler, c: Comics, s: Session, u: Update, upload: Ingest.Uploader)
    requires h.ReceiveChapterPage?
    ensures Body(h, c, s, u, upload) == ReceiveChapterPageEffect(c, s, u)
  {
  }

  lemma PageEffectOfDone(c: Comics, s: Session, u: Update)
    requires HasMessage(u) && IsDone(u) && s.chapterPages != []
    ensures ReceiveChapterPageEffect(c, s, u)
         == Effect(StoreChapters(c, s.selectedSlug, map[s.currentChapter.GetOr("null") := s.chapterPages]),
                   Cleared, Goto(SelectingAction), true)
  {
  }

  /** Once `/done` is routed to the page handler, it stores the collected pages under the chapter number. */
  lemma DoneStoresChapter(admin: int, w: World, text: string, env: Env)
    requires StateOf(w, admin) == Some(AddChapterManual)
    requires Lower(Strip(text)) == "/done"
    requires SessionOf(w, admin).chapterPages != []
    ensures var r := Step(Corrected, admin, w, admin, Command("done", text), env);
      var s := SessionOf(w, admin);
      && r.comics == StoreChapters(w.comics, s.selectedSlug, map[s.currentChapter.GetOr("null") := s.chapterPages])
      && SessionOf(r, admin) == Cleared
      && StateOf(r, admin) == Some(SelectingAction)
      && r.handle == SaveUnblocked(r.comics, w.handle, env.size, env.sink).handle
  {
    DoneRouted(text);
    var s := SessionOf(w, admin);
    DoneFinishesChapter(admin, w.comics, s, text, env.upload);
  }

  /** Photos and image documents reach the page handler while adding pages, whichever table is used. */
  lemma PageRouted(t: Table, u: Update)
    requires u.Photo? || IsImageDocument(u)
    ensures Dispatch(t, Some(AddChapterManual), u) == Some(ReceiveChapterPage)
  {
    ManualRoutesAsWritten(u);
    var routes := StateRoutes(AddChapterManual);
    if t.Corrected? {
      assert Routes(t, AddChapterManual)[..3] == routes;
      assert Routes(t, AddChapterManual)[1..][1..][1..] == [Route(OnCommand("done"), ReceiveChapterPage)];
      assert routes[1..][1..] == routes[2..];
      if u.Photo? {
        assert FirstMatch(Routes(t, AddChapterManual), u) == Some(ReceiveChapterPage);
      } else {
        assert FirstMatch(Routes(t, AddChapterManual)[1..][1..], u) == Some(ReceiveChapterPage);
      }
    }
  }

  /** A photo or an image document given to the page handler is appended, unless its file id is empty. */
  lemma PageRecorded(admin: int, c: Comics, s: Session, u: Update, upload: Ingest.Uploader)
    requires u.Photo? || IsImageDocument(u)
    ensures var id := PageOf(u).value;
      Run(ReceiveChapterPage, admin, admin, c, s, u, upload)
      == Stay(c, s.(chapterPages := s.chapterPages + (if id != "" then [id] else [])), Goto(AddChapterManual))
  {
    assert !IsDone(u);
  }

  /**
   * Each accepted page is appended to the pages collected so far, in arrival
   * order; the state stays ADD_CHAPTER_MANUAL and nothing is stored.
   */
  lemma PageAppended(t: Table, admin: int, w: World, u: Update, env: Env)
    requires StateOf(w, admin) == Some(AddChapterManual)
    requires u.Photo? || IsImageDocument(u)
    ensures var r := Step(t, admin, w, admin, u, env);
      var s := SessionOf(w, admin);
      var id := PageOf(u).value;
      && SessionOf(r, admin) == s.(chapterPages := s.chapterPages + (if id != "" then [id] else []))
      && StateOf(r, admin) == Some(AddChapterManual)
      && r.comics == w.comics && r.handle == w.handle
  {
    PageRouted(t, u);
    PageRecorded(admin, w.comics, SessionOf(w, admin), u, env.upload);
  }

  /** Plain text while adding pages is taken as a new chapter number; the pages collected so far stay. */
  lemma TextRenumbersChapter(admin: int, c: Comics, s: Session, text: string, upload: Ingest.Uploader)
    ensures Dispatch(AsWritten, Some(AddChapterManual), Plain(text)) == Some(ReceiveChapterNumber)
    ensures Run(ReceiveChapterNumber, admin, admin, c, s, Plain(text), upload)
         == Stay(c, s.(currentChapter := Some(Strip(text))), Goto(AddChapterManual))
  {
    ManualRoutesAsWritten(Plain(text));
    var h := ReceiveChapterNumber;
    assert Run(h, admin, admin, c, s, Plain(text), upload) == Body(h, c, s, Plain(text), upload);
    BodyOfChapterNumberHandler(h, c, s, Plain(text), upload);
  }

  lemma BodyOfChapterNumberHandler(h: Handler, c: Comics, s: Session, u: Update, upload: Ingest.Uploader)
    requires h.ReceiveChapterNumber?
    ensures Body(h, c, s, u, upload) == ReceiveChapterNumberEffect(c, s, u)
  {
  }

  /** Button data no branch knows (`edit_info`, say) falls through to SELECTING_ACTION and changes nothing. */
  lemma UnknownButtonFallsThrough(c: Comics, s: Session, data: string)
    requires data != "add_manga" && data != "manage_manga" && data != "add_chapters" && data != "add_chapter_zip"
    requires data != "add_chapter_manual" && data != "delete_comic" && data != "confirm_delete" && data != "main_menu"
    requires !StartsWith(data, "select_")
    ensures ButtonCallbackEffect(c, s, Callback(data)) == Stay(c, s, Goto(SelectingAction))
  {
  }

  /** `confirm_delete` removes exactly the work whose slug the session recorded, then clears the session. */
  lemma ConfirmDeleteRemovesRecorded(c: Comics, s: Session)
    requires s.deleteSlug.Some? && s.deleteSlug.value != ""
    ensures var e := ButtonCallbackEffect(c, s, Callback("confirm_delete"));
      && e.comics.Keys == c.Keys - {s.deleteSlug.value}
      && (forall x :: x in e.comics ==> e.comics[x] == c[x])
      && e.session == Cleared && e.saves && e.next == Goto(SelectingAction)
  {
    assert !StartsWith("confirm_delete", "select_") by {
      assert "confirm_delete"[0] != "select_"[0];
    }
  }

  /** An empty slug recorded for deletion deletes nothing. */
  lemma ConfirmDeleteEmptySlug(c: Comics, s: Session)
    requires s.deleteSlug == Some("")
    ensures ButtonCallbackEffect(c, s, Callback("confirm_delete")) == Stay(c, s, Goto(SelectingAction))
  {
    assert !StartsWith("confirm_delete", "select_") by {
      assert "confirm_delete"[0] != "select_"[0];
    }
  }

  /** An archive that yields no chapter changes nothing and keeps waiting for an archive. */
  lemma EmptyArchiveChangesNothing(c: Comics, s: Session, u: Update, upload: Ingest.Uploader)
    requires u.File? && u.doc.fileName.Some? && EndsWith(Lower(u.doc.fileName.value), ".zip")
    requires Ingest.ZipChapters(u.doc.content, SlugText(s.selectedSlug), upload) == map[]
    ensures ReceiveZipFileEffect(c, s, u, upload) == Stay(c, s, Goto(AddChapterZip))
  {
  }

  /** An archive with chapters overwrites exactly those chapter numbers of the selected work, and saves. */
  lemma ArchiveMergesChapters(c: Comics, s: Session, u: Update, upload: Ingest.Uploader)
    requires u.File? && u.doc.fileName.Some? && EndsWith(Lower(u.doc.fileName.value), ".zip")
    requires s.selectedSlug.Some?
    requires Ingest.ZipChapters(u.doc.content, s.selectedSlug.value, upload) != map[]
    ensures ReceiveZipFileEffect(c, s, u, upload)
         == Effect(MergeChapters(c, s.selectedSlug.value, Ingest.ZipChapters(u.doc.content, s.selectedSlug.value, upload)),
                   Cleared, Goto(SelectingAction), true)
  {
  }

  /** A document whose name does not end in `.zip` (in any case) is refused and the archive is asked for again. */
  lemma NonZipNameRefused(c: Comics, s: Session, u: Update, upload: Ingest.Uploader)
    requires u.File? && u.doc.fileName.Some? && !EndsWith(Lower(u.doc.fileName.value), ".zip")
    ensures ReceiveZipFileEffect(c, s, u, upload) == Stay(c, s, Goto(AddChapterZip))
  {
  }

  /** Finishing a chapter with no pages changes nothing and keeps collecting. */
  lemma NoPagesChangesNothing(c: Comics, s: Session)
    requires s.chapterPages == []
    ensures FinishManualChapterEffect(c, s) == Stay(c, s, Goto(AddChapterManual))
  {
  }

  /** The end of the add-comic flow stores the work under the slug of its title, with the received cover, and clears the session. */
  lemma CoverCommitsWork(c: Comics, s: Session, u: Update)
    requires HasMessage(u) && s.title.Some? && s.description.Some?
    ensures ReceiveCoverEffect(c, s, u)
         == Effect(AddWork(c, s.title.value, s.description.value, PageOf(u)), Cleared, Goto(SelectingAction), true)
  {
  }

  /** `/addchapter "T"` selects the work titled T (ignoring case) when works are stored under their slugs. */
  lemma AddChapterSelectsWork(c: Comics, s: Session, w: string, t: string, q: string, slug: string)
    requires KeysAreSlugs(c) && slug in c && slug != "" && Lower(c[slug].title) == Lower(t)
    requires w != [] && forall i :: 0 <= i < |w| ==> IsSpace(w[i])
    requires t != [] && forall i :: 0 <= i < |t| ==> t[i] != '"'
    ensures var text := "/addchapter" + (w + ("\"" + (t + ("\"" + q))));
      AddChapterCommandEffect(c, s, Command("addchapter", text))
      == Stay(c, s.(selectedSlug := Some(slug), selectedTitle := Some(t)), Goto(AddChapterMethod))
  {
    QuotedTitle("/addchapter", w, t, q);
    FindByTitleUnique(c, t, slug);
  }

  /** `/deletecomic "T"` records the work titled T for deletion and asks for confirmation; nothing is removed yet. */
  lemma DeleteComicRecordsWork(c: Comics, s: Session, w: string, t: string, q: string, slug: string)
    requires KeysAreSlugs(c) && slug in c && slug != "" && Lower(c[slug].title) == Lower(t)
    requires w != [] && forall i :: 0 <= i < |w| ==> IsSpace(w[i])
    requires t != [] && forall i :: 0 <= i < |t| ==> t[i] != '"'
    ensures var text := "/deletecomic" + (w + ("\"" + (t + ("\"" + q))));
      DeleteComicCommandEffect(c, s, Command("deletecomic", text))
      == Stay(c, s.(deleteSlug := Some(slug), deleteTitle := Some(t)), Goto(DeleteConfirm))
  {
    QuotedTitle("/deletecomic", w, t, q);
    FindByTitleUnique(c, t, slug);
  }

  /**
   * A title whose slug is empty (one with no letter, digit or underscore)
   * matches a work the lookup reports as not found: both commands end the
   * conversation and change nothing.
   */
  lemma EmptySlugMatchEnds(c: Comics, s: Session, w: string, t: string, q: string)
    requires KeysAreSlugs(c) && "" in c && Lower(c[""].title) == Lower(t)
    requires w != [] && forall i :: 0 <= i < |w| ==> IsSpace(w[i])
    requires t != [] && forall i :: 0 <= i < |t| ==> t[i] != '"'
    ensures var text := "/addchapter" + (w + ("\"" + (t + ("\"" + q))));
      AddChapterCommandEffect(c, s, Command("addchapter", text)) == Stay(c, s, End)
    ensures var text := "/deletecomic" + (w + ("\"" + (t + ("\"" + q))));
      DeleteComicCommandEffect(c, s, Command("deletecomic", text)) == Stay(c, s, End)
  {
    QuotedTitle("/addchapter", w, t, q);
    QuotedTitle("/deletecomic", w, t, q);
    FindByTitleUnique(c, t, "");
  }

  /** `/addcomic "T"` keeps T as the title and asks for the description. */
  lemma AddComicTakesTitle(c: Comics, s: Session, w: string, t: string, q: string)
    requires w != [] && forall i :: 0 <= i < |w| ==> IsSpace(w[i])
    requires t != [] && forall i :: 0 <= i < |t| ==> t[i] != '"'
    ensures var text := "/addcomic" + (w + ("\"" + (t + ("\"" + q))));
      AddComicCommandEffect(c, s, Command("addcomic", text)) == Stay(c, s.(title := Some(t)), Goto(AddDesc))
  {
    QuotedTitle("/addcomic", w, t, q);
  }

  /** A title command without a quoted title ends the conversation and changes nothing. */
  lemma UnquotedCommandEnds(c: Comics, s: Session, name: string, text: string)
    requires forall i :: 0 <= i < |text| ==> text[i] != '"'
    ensures AddComicCommandEffect(c, s, Command(name, text)) == Stay(c, s, End)
    ensures AddChapterCommandEffect(c, s, Command(name, text)) == Stay(c, s, End)
    ensures DeleteComicCommandEffect(c, s, Command(name, text)) == Stay(c, s, End)
  {
    NoQuoteNoTitle(text, "/addcomic");
    NoQuoteNoTitle(text, "/addchapter");
    NoQuoteNoTitle(text, "/deletecomic");
  }

  /** No handler goes to a state without handlers. */
  lemma UnusedStatesNeverEntered(h: Handler, admin: int, user: int, c: Comics, s: Session, u: Update, upload: Ingest.Uploader)
    ensures Enterable(Run(h, admin, user, c, s, u, upload).next)
  {
    match h
    case Start =>
    case AddComicCommand =>
    case AddChapterCommand =>
    case DeleteComicCommand =>
    case ListComicsCommand =>
    case StatsCommand =>
    case ShowHelp =>
    case ButtonCallback =>
    case ReceiveTitle =>
    case ReceiveDescription =>
    case ReceiveCover =>
    case ReceiveCoverDocument =>
    case SkipCover =>
    case ReceiveZipFile =>
    case ReceiveChapterNumber =>
    case ReceiveChapterPage =>
    case Cancel =>
  }

  /** So a conversation is never in one of those states, once it did not start in one. */
  lemma StepKeepsStatesEnterable(t: Table, admin: int, w: World, user: int, u: Update, env: Env)
    requires forall v :: v in w.conversations ==> Enterable(Goto(w.conversations[v]))
    ensures var r := Step(t, admin, w, user, u, env);
      forall v :: v in r.conversations ==> Enterable(Goto(r.conversations[v]))
  {
    match Dispatch(t, StateOf(w, user), u)
    case None =>
    case Some(h) =>
      UnusedStatesNeverEntered(h, admin, user, w.comics, SessionOf(w, user), u, env.upload);
  }

  /** Works stay stored under the slugs of their titles, and no chapter is stored without pages. */
  predicate CatalogInvariant(c: Comics) {
    KeysAreSlugs(c) && NoEmptyChapters(c)
  }

  lemma StoreKeepsInvariant(c: Comics, slug: Option<string>, added: Chapters)
    requires CatalogInvariant(c)
    requires forall k :: k in added ==> added[k] != []
    ensures CatalogInvariant(StoreChapters(c, slug, added))
  {
    if slug.Some? {
      MergeKeepsSlugs(c, slug.value, added);
      MergeKeepsChaptersNonEmpty(c, slug.value, added);
    }
  }

  lemma ButtonKeepsInvariant(c: Comics, s: Session, u: Update)
    requires CatalogInvariant(c)
    ensures CatalogInvariant(ButtonCallbackEffect(c, s, u).comics)
  {
    if ButtonCallbackEffect(c, s, u).saves {
      RemoveKeepsSlugs(c, s.deleteSlug.value);
    }
  }

  lemma AddWorkKeepsInvariant(c: Comics, title: string, description: string, cover: Option<FileRef>)
    requires CatalogInvariant(c)
    ensures CatalogInvariant(AddWork(c, title, description, cover))
  {
    AddWorkKeepsSlugs(c, title, description, cover);
  }

  lemma CoverKeepsInvariant(c: Comics, s: Session, u: Update)
    requires CatalogInvariant(c)
    ensures CatalogInvariant(ReceiveCoverEffect(c, s, u).comics)
  {
    if s.title.Some? && s.description.Some? {
      AddWorkKeepsInvariant(c, s.title.value, s.description.value, PageOf(u));
    }
  }

  lemma CoverDocumentKeepsInvariant(c: Comics, s: Session, u: Update)
    requires CatalogInvariant(c)
    ensures CatalogInvariant(ReceiveCoverDocumentEffect(c, s, u).comics)
  {
    if s.title.Some? && s.description.Some? {
      AddWorkKeepsInvariant(c, s.title.value, s.description.value, PageOf(u));
    }
  }

  lemma SkipCoverKeepsInvariant(c: Comics, s: Session, u: Update)
    requires CatalogInvariant(c)
    ensures CatalogInvariant(SkipCoverEffect(c, s, u).comics)
  {
    if s.title.Some? && s.description.Some? {
      AddWorkKeepsInvariant(c, s.title.value, s.description.value, PageOf(u));
    }
  }

  lemma ZipKeepsInvariant(c: Comics, s: Session, u: Update, upload: Ingest.Uploader)
    requires CatalogInvariant(c)
    ensures CatalogInvariant(ReceiveZipFileEffect(c, s, u, upload).comics)
  {
    if u.File? {
      StoreKeepsInvariant(c, s.selectedSlug, Ingest.ZipChapters(u.doc.content, SlugText(s.selectedSlug), upload));
    }
  }

  lemma PageKeepsInvariant(c: Comics, s: Session, u: Update)
    requires CatalogInvariant(c)
    ensures CatalogInvariant(ReceiveChapterPageEffect(c, s, u).comics)
  {
    if s.chapterPages != [] {
      StoreKeepsInvariant(c, s.selectedSlug, map[s.currentChapter.GetOr("null") := s.chapterPages]);
    }
  }

  /** Every handler keeps the catalog invariant. */
  lemma RunKeepsInvariant(h: Handler, admin: int, user: int, c: Comics, s: Session, u: Update, upload: Ingest.Uploader)
    requires CatalogInvariant(c)
    ensures CatalogInvariant(Run(h, admin, user, c, s, u, upload).comics)
  {
    OnlySavingChangesCatalog(h, c, s, u, upload);
    var e := Run(h, admin, user, c, s, u, upload);
    if e.comics == c {
    } else if h == ButtonCallback {
      ButtonKeepsInvariant(c, s, u);
    } else if h == ReceiveCover {
      CoverKeepsInvariant(c, s, u);
    } else if h == ReceiveCoverDocument {
      CoverDocumentKeepsInvariant(c, s, u);
    } else if h == SkipCover {
      SkipCoverKeepsInvariant(c, s, u);
    } else if h == ReceiveZipFile {
      ZipKeepsInvariant(c, s, u, upload);
    } else if h == ReceiveChapterPage {
      PageKeepsInvariant(c, s, u);
    } else {
      OnlySavingHandlersChangeCatalog(h, c, s, u, upload);
    }
  }

  /** So every update keeps it. */
  lemma StepKeepsInvariant(t: Table, admin: int, w: World, user: int, u: Update, env: Env)
    requires CatalogInvariant(w.comics)
    ensures CatalogInvariant(Step(t, admin, w, user, u, env).comics)
  {
    match Dispatch(t, StateOf(w, user), u)
    case None =>
    case Some(h) =>
      RunKeepsInvariant(h, admin, user, w.comics, SessionOf(w, user), u, env.upload);
  }
}
