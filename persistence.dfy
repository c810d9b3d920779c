/**
 * The catalog's storage: one pinned message in a private channel holding the
 * catalog as JSON, and `MASTER_MESSAGE_ID`, the handle of that message.
 *
 * JSON text is represented by the JSON value it denotes (`json.dumps` and
 * `json.loads` are taken to be inverse), the serialized length is a number
 * the caller supplies, and every call to the messaging service (send, edit,
 * pin, unpin, delete) succeeds or fails as a `Sink` says.
 */
module Persistence {
  import opened Wrappers
  import opened Catalog

  /** Telegram message ids are positive, so a handle is present exactly when it is truthy. */
  type MessageId = n: int | n > 0 witness 1

  datatype Json =
    | JNull
    | JNumber(n: int)
    | JString(s: string)
    | JArray(items: seq<Json>)
    | JObject(fields: map<string, Json>)

  // ---------------------------------------------------------------------------
  // The catalog as JSON
  // ---------------------------------------------------------------------------

  function EncodePages(p: seq<FileRef>): Json {
    JArray(seq(|p|, i requires 0 <= i < |p| => JString(p[i])))
  }

  function DecodePages(j: Json): Option<seq<FileRef>> {
    if j.JArray? && forall i :: 0 <= i < |j.items| ==> j.items[i].JString? then
      Some(seq(|j.items|, i requires 0 <= i < |j.items| && j.items[i].JString? => j.items[i].s))
    else None
  }

  function EncodeChapters(ch: Chapters): Json {
    JObject(map k | k in ch :: EncodePages(ch[k]))
  }

  function DecodeChapters(j: Json): Option<Chapters> {
    if j.JObject? && forall k :: k in j.fields ==> DecodePages(j.fields[k]).Some? then
      Some(map k | k in j.fields :: DecodePages(j.fields[k]).value)
    else None
  }

  function EncodeCover(cover: Option<FileRef>): Json {
    match cover
    case None => JNull
    case Some(r) => JString(r)
  }

  function DecodeCover(j: Json): Option<Option<FileRef>> {
    match j
    case JNull => Some(None)
    case JString(r) => Some(Some(r))
    case _ => None
  }

  /** A work as the dictionary `{title, description, cover_file_id, chapters}`. */
  function EncodeWork(w: Work): Json {
    JObject(map[
      "title" := JString(w.title),
      "description" := JString(w.description),
      "cover_file_id" := EncodeCover(w.cover),
      "chapters" := EncodeChapters(w.chapters)])
  }

  function DecodeWork(j: Json): Option<Work> {
    if && j.JObject?
       && "title" in j.fields && j.fields["title"].JString?
       && "description" in j.fields && j.fields["description"].JString?
       && "cover_file_id" in j.fields && DecodeCover(j.fields["cover_file_id"]).Some?
       && "chapters" in j.fields && DecodeChapters(j.fields["chapters"]).Some?
    then
      Some(Work(j.fields["title"].s, j.fields["description"].s,
                DecodeCover(j.fields["cover_file_id"]).value, DecodeChapters(j.fields["chapters"]).value))
    else None
  }

  function EncodeComics(c: Comics): Json {
    JObject(map s | s in c :: EncodeWork(c[s]))
  }

  function DecodeComics(j: Json): Option<Comics> {
    if j.JObject? && forall s :: s in j.fields ==> DecodeWork(j.fields[s]).Some? then
      Some(map s | s in j.fields :: DecodeWork(j.fields[s]).value)
    else None
  }

  lemma DecodeEncodePages(p: seq<FileRef>)
    ensures DecodePages(EncodePages(p)) == Some(p)
  {
    var e := EncodePages(p);
    assert forall i :: 0 <= i < |e.items| ==> e.items[i] == JString(p[i]);
    assert seq(|e.items|, i requires 0 <= i < |e.items| && e.items[i].JString? => e.items[i].s) == p;
  }

  lemma DecodeEncodeChapters(ch: Chapters)
    ensures DecodeChapters(EncodeChapters(ch)) == Some(ch)
  {
    var e := EncodeChapters(ch);
    forall k | k in ch
      ensures DecodePages(e.fields[k]) == Some(ch[k])
    {
      DecodeEncodePages(ch[k]);
    }
    assert (map k | k in e.fields :: DecodePages(e.fields[k]).value) == ch;
  }

  lemma DecodeEncodeWork(w: Work)
    ensures DecodeWork(EncodeWork(w)) == Some(w)
  {
    DecodeEncodeChapters(w.chapters);
    var e := EncodeWork(w);
    assert e.fields["chapters"] == EncodeChapters(w.chapters);
    assert DecodeCover(e.fields["cover_file_id"]) == Some(w.cover);
  }

  /** Reading back what EncodeComics wrote gives the catalog itself. */
  lemma DecodeEncodeComics(c: Comics)
    ensures DecodeComics(EncodeComics(c)) == Some(c)
  {
    var e := EncodeComics(c);
    forall s | s in c
      ensures DecodeWork(e.fields[s]) == Some(c[s])
    {
      DecodeEncodeWork(c[s]);
    }
    assert (map s | s in e.fields :: DecodeWork(e.fields[s]).value) == c;
  }

  /**
   * What a save writes: the format version, the two totals and the catalog.
   * The `last_updated` time stamp is not modelled.
   */
  function Envelope(c: Comics): (j: Json)
    ensures Payload(j) == EncodeComics(c)
    ensures j.JObject? && "version" in j.fields && j.fields["version"] == JString("3.0")
    ensures "total_comics" in j.fields && j.fields["total_comics"] == JNumber(|c|)
    ensures "total_chapters" in j.fields && j.fields["total_chapters"] == JNumber(TotalChapters(c))
  {
    JObject(map[
      "version" := JString("3.0"),
      "total_comics" := JNumber(|c|),
      "total_chapters" := JNumber(TotalChapters(c)),
      "data" := EncodeComics(c)])
  }

  // ---------------------------------------------------------------------------
  // Loading
  // ---------------------------------------------------------------------------

  /** The pinned message's text: absent or empty, not JSON, or a JSON value. */
  datatype Body = NoText | Unparsable | Parsed(value: Json)

  datatype Pinned = Pinned(id: MessageId, body: Body)

  /** The channel as `get_chat` returns it; `Unreachable` when that call raises. */
  datatype Chat = Unreachable | Chat(pinned: Option<Pinned>)

  datatype Loaded = Loaded(comics: Comics, handle: Option<MessageId>)

  /** A dictionary with a `data` key is an envelope; any other value is taken as a bare catalog. */
  function Payload(v: Json): (p: Json)
    ensures v.JObject? && "data" in v.fields ==> p == v.fields["data"]
    ensures !(v.JObject? && "data" in v.fields) ==> p == v
  {
    if v.JObject? && "data" in v.fields then v.fields["data"] else v
  }

  /**
   * `load_data_from_channel`: the handle is taken from the pinned message
   * before its text is looked at, so it is set even when the text is unusable.
   */
  function Load(chat: Chat, comics: Comics, handle: Option<MessageId>): (r: Loaded)
    ensures chat.Chat? && chat.pinned.Some? ==> r.handle == Some(chat.pinned.value.id)
    ensures !(chat.Chat? && chat.pinned.Some?) ==> r == Loaded(comics, handle)
    ensures chat.Chat? && chat.pinned.Some? && !chat.pinned.value.body.Parsed? ==> r.comics == comics
  {
    match chat
    case Unreachable => Loaded(comics, handle)
    case Chat(None) => Loaded(comics, handle)
    case Chat(Some(p)) =>
      match p.body
      case NoText => Loaded(comics, Some(p.id))
      case Unparsable => Loaded(comics, Some(p.id))
      case Parsed(v) =>
        match DecodeComics(Payload(v))
        case Some(c) => Loaded(c, Some(p.id))
        case None => Loaded(comics, Some(p.id))
  }

  /** Loading the envelope a save wrote gives back the saved catalog, whatever was there before. */
  lemma LoadAfterSave(c: Comics, id: MessageId, before: Comics, handle: Option<MessageId>)
    ensures Load(Chat(Some(Pinned(id, Parsed(Envelope(c))))), before, handle) == Loaded(c, Some(id))
  {
    DecodeEncodeComics(c);
    assert Payload(Envelope(c)) == EncodeComics(c);
  }

  /** A bare catalog of an older format loads as itself, unless one of its slugs is "data". */
  lemma LoadLegacy(c: Comics, id: MessageId, before: Comics, handle: Option<MessageId>)
    requires "data" !in c
    ensures Load(Chat(Some(Pinned(id, Parsed(EncodeComics(c))))), before, handle) == Loaded(c, Some(id))
  {
    DecodeEncodeComics(c);
  }

  /** A bare catalog holding a work with slug "data" is mistaken for an envelope: only that work is read. */
  lemma LegacyDataSlugMisread(c: Comics)
    requires "data" in c
    ensures Payload(EncodeComics(c)) == EncodeWork(c["data"])
  {
  }

  // ---------------------------------------------------------------------------
  // Saving
  // ---------------------------------------------------------------------------

  /**
   * How each call to the messaging service turns out: `warned`, `alarmed` and
   * `alerted` are the three notices to the administrator, `sent` and `resent`
   * the id of the first and of the recovery message, when sent.
   */
  datatype Sink = Sink(
    unpinned: bool, deleted: bool,
    warned: bool, alarmed: bool,
    edited: bool,
    sent: Option<MessageId>, pinned: bool,
    resent: Option<MessageId>, repinned: bool,
    alerted: bool)

  /** Notices the administrator receives. */
  datatype Notice = SizeWarning | SizeCritical | SaveFailed

  datatype Outcome =
    | NothingToTearDown   // empty catalog, no handle
    | TornDown            // empty catalog, whatever unpin and delete did
    | Aborted             // a size notice failed and raised past the write
    | Updated             // the pinned message was edited
    | Created             // a new message was sent and pinned
    | Recovered           // the first write failed; a new message was sent and pinned
    | RecoveredUnpinned   // as Recovered, but its pin failed
    | Failed              // the first write and the recovery send failed

  datatype Saved = Saved(handle: Option<MessageId>, outcome: Outcome, notices: seq<Notice>)

  const WarningSize := 3500
  const CriticalSize := 4000

  /** The notices that precede the write, when both are delivered. */
  function SizeNotices(size: nat): (n: seq<Notice>)
    ensures SizeWarning in n <==> size > WarningSize
    ensures SizeCritical in n <==> size > CriticalSize
    ensures SaveFailed !in n
  {
    (if size > WarningSize then [SizeWarning] else []) + (if size > CriticalSize then [SizeCritical] else [])
  }

  /** The recovery path: send anew and pin; on failure the administrator is alerted. */
  function Recover(handle: Option<MessageId>, notices: seq<Notice>, sink: Sink): (r: Saved)
    ensures sink.resent.Some? ==> r.handle == sink.resent
    ensures sink.resent.None? ==> r.handle == handle
  {
    var alert := if sink.alerted then [SaveFailed] else [];
    match sink.resent
    case Some(id) => if sink.repinned then Saved(Some(id), Recovered, notices) else Saved(Some(id), RecoveredUnpinned, notices + alert)
    case None => Saved(handle, Failed, notices + alert)
  }

  /** The write: edit the pinned message, or send a new one and pin it; any failure goes to Recover. */
  function Write(handle: Option<MessageId>, notices: seq<Notice>, sink: Sink): (r: Saved)
    ensures r.outcome == Updated <==> handle.Some? && sink.edited
    ensures r.outcome == Created <==> handle.None? && sink.sent.Some? && sink.pinned
    ensures r.outcome in {Updated, Created} ==> r.notices == notices
    ensures r.outcome == Updated ==> r.handle == handle
    ensures r.outcome == Created ==> r.handle == sink.sent
    ensures r.outcome !in {Updated, Created} ==> r.handle == if sink.resent.Some? then sink.resent else if handle.Some? then handle else sink.sent
  {
    match handle
    case Some(h) => if sink.edited then Saved(Some(h), Updated, notices) else Recover(Some(h), notices, sink)
    case None =>
      match sink.sent
      case None => Recover(None, notices, sink)
      case Some(id) => if sink.pinned then Saved(Some(id), Created, notices) else Recover(Some(id), notices, sink)
  }

  /** `save_data_to_channel` on the catalog `c`, whose JSON has `size` characters. */
  function Save(c: Comics, handle: Option<MessageId>, size: nat, sink: Sink): (r: Saved)
    ensures c == map[] ==> r.handle == None
  {
    if c == map[] then
      if handle.None? then Saved(None, NothingToTearDown, []) else Saved(None, TornDown, [])
    else if size > WarningSize && !sink.warned then Saved(handle, Aborted, [])
    else if size > CriticalSize && !sink.alarmed then Saved(handle, Aborted, [SizeWarning])
    else Write(handle, SizeNotices(size), sink)
  }

  /**
   * As written, a size notice that cannot be sent stops the save before the
   * write: the pinned message keeps the previous catalog.
   */
  lemma SaveAbortsOnUnsentNotice(c: Comics, handle: Option<MessageId>, size: nat, sink: Sink)
    requires c != map[]
    ensures size > WarningSize && !sink.warned ==> Save(c, handle, size, sink) == Saved(handle, Aborted, [])
    ensures size > WarningSize && sink.warned && size > CriticalSize && !sink.alarmed
         ==> Save(c, handle, size, sink) == Saved(handle, Aborted, [SizeWarning])
    ensures Save(c, handle, size, sink).outcome == Aborted
        <==> (size > WarningSize && !sink.warned) || (size > CriticalSize && !sink.alarmed)
  {
    WriteNeverAborts(handle, SizeNotices(size), sink);
  }

  lemma WriteNeverAborts(handle: Option<MessageId>, pending: seq<Notice>, sink: Sink)
    ensures Write(handle, pending, sink).outcome != Aborted
  {
  }

  /** The size notices that reach the administrator: those the size calls for whose send succeeds. */
  function DeliveredNotices(size: nat, sink: Sink): (n: seq<Notice>)
    ensures SizeWarning in n <==> size > WarningSize && sink.warned
    ensures SizeCritical in n <==> size > CriticalSize && sink.alarmed
    ensures SaveFailed !in n
    ensures (size <= WarningSize || sink.warned) && (size <= CriticalSize || sink.alarmed) ==> n == SizeNotices(size)
  {
    (if size > WarningSize && sink.warned then [SizeWarning] else [])
      + (if size > CriticalSize && sink.alarmed then [SizeCritical] else [])
  }

  /** `save_data_to_channel` as intended: a size notice that cannot be sent does not stop the write. */
  function SaveUnblocked(c: Comics, handle: Option<MessageId>, size: nat, sink: Sink): (r: Saved)
    ensures c == map[] ==> r == Save(c, handle, size, sink)
  {
    if c == map[] then Save(c, handle, size, sink)
    else Write(handle, DeliveredNotices(size, sink), sink)
  }

  /**
   * Corrected, the notices never block the write: whatever the size and
   * whichever notices are delivered, the catalog is written where it would be
   * without them, and the delivered notices only come first.
   */
  lemma SaveUnblockedAlwaysWrites(c: Comics, handle: Option<MessageId>, size: nat, sink: Sink)
    requires c != map[]
    ensures SaveUnblocked(c, handle, size, sink).handle == Write(handle, [], sink).handle
    ensures SaveUnblocked(c, handle, size, sink).outcome == Write(handle, [], sink).outcome != Aborted
    ensures SaveUnblocked(c, handle, size, sink).notices == DeliveredNotices(size, sink) + Write(handle, [], sink).notices
  {
    WriteOnlyPrepends(handle, DeliveredNotices(size, sink), sink);
    WriteNeverAborts(handle, [], sink);
  }

  /** The correction changes only the saves that abort as written. */
  lemma SaveUnblockedAgrees(c: Comics, handle: Option<MessageId>, size: nat, sink: Sink)
    ensures Save(c, handle, size, sink).outcome != Aborted ==> SaveUnblocked(c, handle, size, sink) == Save(c, handle, size, sink)
  {
    if c != map[] {
      SaveAbortsOnUnsentNotice(c, handle, size, sink);
    }
  }

  /** With a handle, a failed edit falls back to a new message, which becomes the handle when sent. */
  lemma SaveFallsBackToNewMessage(c: Comics, h: MessageId, size: nat, sink: Sink)
    requires c != map[] && sink.warned && sink.alarmed
    requires !sink.edited && sink.resent.Some?
    ensures Save(c, Some(h), size, sink).handle == sink.resent
    ensures Save(c, Some(h), size, sink).outcome in {Recovered, RecoveredUnpinned}
  {
  }

  /** When the edit and the recovery send both fail, the handle is kept. */
  lemma SaveBothFailKeepsHandle(c: Comics, h: MessageId, size: nat, sink: Sink)
    requires c != map[] && sink.warned && sink.alarmed
    requires !sink.edited && sink.resent.None?
    ensures Save(c, Some(h), size, sink) == Saved(Some(h), Failed, SizeNotices(size) + (if sink.alerted then [SaveFailed] else []))
  {
  }

  /**
   * Without a handle the new message's id is stored before the pin: if the pin
   * fails and so does the recovery send, the handle is that unpinned message.
   */
  lemma SaveKeepsUnpinnedFirstMessage(c: Comics, size: nat, sink: Sink)
    requires c != map[] && sink.warned && sink.alarmed
    requires sink.sent.Some? && !sink.pinned
    ensures Save(c, None, size, sink).handle == (if sink.resent.Some? then sink.resent else sink.sent)
  {
  }

  /**
   * The size notices do not stop the write: once they are delivered, the size
   * decides only which notices go out, never where the catalog is written.
   */
  lemma SaveSizeOnlyWarns(c: Comics, handle: Option<MessageId>, small: nat, large: nat, sink: Sink)
    requires c != map[] && sink.warned && sink.alarmed
    requires small <= WarningSize
    ensures Save(c, handle, large, sink).handle == Save(c, handle, small, sink).handle
    ensures Save(c, handle, large, sink).outcome == Save(c, handle, small, sink).outcome
    ensures Save(c, handle, large, sink).notices == SizeNotices(large) + Save(c, handle, small, sink).notices
  {
    assert SizeNotices(small) == [];
    WriteOnlyPrepends(handle, SizeNotices(large), sink);
  }

  /** The notices handed to the write come out first and change nothing else. */
  lemma WriteOnlyPrepends(handle: Option<MessageId>, pending: seq<Notice>, sink: Sink)
    ensures Write(handle, pending, sink).handle == Write(handle, [], sink).handle
    ensures Write(handle, pending, sink).outcome == Write(handle, [], sink).outcome
    ensures Write(handle, pending, sink).notices == pending + Write(handle, [], sink).notices
  {
  }

  /** A save ends with a handle exactly when the catalog is not empty and something was written or kept. */
  lemma SaveSucceededHasHandle(c: Comics, handle: Option<MessageId>, size: nat, sink: Sink)
    requires Save(c, handle, size, sink).outcome in {Updated, Created, Recovered, RecoveredUnpinned}
    ensures c != map[] && Save(c, handle, size, sink).handle.Some?
  {
  }
}
