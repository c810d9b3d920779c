/**
 * The running bot: the module-level state of the program (the catalog
 * `MANGA_DATA`, the pinned message id `MASTER_MESSAGE_ID`, and the
 * conversation handler's per-user sessions and states) as the fields of one
 * object, and the operations that update them in place. Each method is
 * proved against the functions of the other modules that specify it.
 */
module Bot {
  import opened Wrappers
  import Ingest
  import opened Catalog
  import opened Persistence
  import opened Conversation

  /** The chapters of `m` whose numbers are in `keys`. */
  function Restrict(m: Chapters, keys: set<string>): (r: Chapters)
    ensures r.Keys == keys * m.Keys
    ensures forall k :: k in r ==> r[k] == m[k]
  {
    map k | k in keys && k in m :: m[k]
  }

  lemma RestrictAll(m: Chapters, rest: set<string>)
    requires rest == {}
    ensures Restrict(m, m.Keys - rest) == m
  {
  }

  lemma RestrictNone(base: Chapters, m: Chapters)
    ensures base + Restrict(m, m.Keys - m.Keys) == base
  {
  }

  /** Storing one more chapter of the batch extends the merged part by that chapter. */
  lemma StoreOne(base: Chapters, added: Chapters, done: set<string>, k: string)
    requires k in added
    ensures (base + Restrict(added, done))[k := added[k]] == base + Restrict(added, done + {k})
  {
  }

  lemma MergeAsUpdate(c: Comics, slug: string, added: Chapters)
    requires slug in c
    ensures MergeChapters(c, slug, added) == c[slug := c[slug].(chapters := c[slug].chapters + added)]
  {
  }

  lemma MoveKey<K>(all: set<K>, rest: set<K>, k: K)
    requires k in rest && rest <= all
    ensures (all - rest) + {k} == all - (rest - {k})
  {
  }

  class ComicBot {
    /** `ADMIN_USER_ID`. */
    const admin: int
    /** `MANGA_DATA`. */
    var comics: Comics
    /** `context.user_data` of each user. */
    var sessions: map<int, Session>
    /** The conversation handler's current state of each user. */
    var conversations: map<int, State>
    /** `MASTER_MESSAGE_ID`. */
    var handle: Option<MessageId>

    function Snapshot(): World
      reads this
    {
      World(comics, sessions, conversations, handle)
    }

    /** A bot that has loaded nothing yet. */
    constructor (admin: int)
      ensures this.admin == admin
      ensures Snapshot() == World(map[], map[], map[], None)
    {
      this.admin := admin;
      comics := map[];
      sessions := map[];
      conversations := map[];
      handle := None;
    }

    /** `load_data_from_channel`, run once at start-up. */
    method Restore(chat: Chat)
      modifies this
      ensures Loaded(comics, handle) == Load(chat, old(comics), old(handle))
      ensures sessions == old(sessions) && conversations == old(conversations)
    {
      if chat.Unreachable? || chat.pinned.None? {
        return;
      }
      var pinned := chat.pinned.value;
      handle := Some(pinned.id);
      if pinned.body.Parsed? {
        var decoded := DecodeComics(Payload(pinned.body.value));
        if decoded.Some? {
          comics := decoded.value;
        }
      }
    }

    /**
     * `save_data_to_channel`, corrected: tear the pinned message down when the
     * catalog is empty, otherwise send the size notices, going on whether or
     * not they are delivered, and edit the pinned message or send and pin a
     * new one, recovering by a fresh send when that fails.
     */
    method Flush(size: nat, sink: Sink) returns (outcome: Outcome, notices: seq<Notice>)
      modifies this
      ensures Saved(handle, outcome, notices) == SaveUnblocked(comics, old(handle), size, sink)
      ensures comics == old(comics) && sessions == old(sessions) && conversations == old(conversations)
    {
      notices := [];
      if comics == map[] {
        outcome := if handle.Some? then TornDown else NothingToTearDown;
        handle := None;
        return;
      }
      if size > WarningSize && sink.warned {
        notices := notices + [SizeWarning];
      }
      if size > CriticalSize && sink.alarmed {
        notices := notices + [SizeCritical];
      }
      assert notices == DeliveredNotices(size, sink);
      outcome, notices := WriteOut(notices, sink);
    }

    /** Edit the pinned message, or send a new one and pin it; recover when that fails. */
    method WriteOut(pending: seq<Notice>, sink: Sink) returns (outcome: Outcome, notices: seq<Notice>)
      modifies this
      ensures Saved(handle, outcome, notices) == Write(old(handle), pending, sink)
      ensures comics == old(comics) && sessions == old(sessions) && conversations == old(conversations)
    {
      if handle.Some? {
        if sink.edited {
          return Updated, pending;
        }
      } else if sink.sent.Some? {
        handle := sink.sent;
        if sink.pinned {
          return Created, pending;
        }
      }
      outcome, notices := Resend(pending, sink);
    }

    /** The recovery path: a fresh message, pinned; the administrator is alerted when that fails too. */
    method Resend(pending: seq<Notice>, sink: Sink) returns (outcome: Outcome, notices: seq<Notice>)
      modifies this
      ensures Saved(handle, outcome, notices) == Recover(old(handle), pending, sink)
      ensures comics == old(comics) && sessions == old(sessions) && conversations == old(conversations)
    {
      notices := pending;
      if sink.resent.Some? {
        handle := sink.resent;
        if sink.repinned {
          return Recovered, notices;
        }
        outcome := RecoveredUnpinned;
      } else {
        outcome := Failed;
      }
      if sink.alerted {
        notices := notices + [SaveFailed];
      }
    }

    /**
     * Store a batch of chapters into the work `slug` one chapter at a time,
     * each overwriting a chapter of the same number; nothing happens when
     * there is no such work.
     */
    method Store(slug: Option<string>, added: Chapters)
      modifies this
      ensures comics == StoreChapters(old(comics), slug, added)
      ensures sessions == old(sessions) && conversations == old(conversations) && handle == old(handle)
    {
      if slug.None? || slug.value !in comics {
        return;
      }
      var s := slug.value;
      ghost var work := comics[s];
      var chapters := comics[s].chapters;
      var rest := added.Keys;
      RestrictNone(work.chapters, added);
      while rest != {}
        invariant unchanged(this)
        invariant rest <= added.Keys
        invariant chapters == work.chapters + Restrict(added, added.Keys - rest)
        decreases |rest|
      {
        var k :| k in rest;
        StoreOne(work.chapters, added, added.Keys - rest, k);
        MoveKey(added.Keys, rest, k);
        chapters := chapters[k := added[k]];
        rest := rest - {k};
      }
      RestrictAll(added, rest);
      comics := comics[s := comics[s].(chapters := chapters)];
      MergeAsUpdate(old(comics), s, added);
    }

    /** The in-place store of the two handlers that add chapters. */
    method StoreFrom(h: Handler, session: Session, u: Update, upload: Ingest.Uploader)
      requires h == ReceiveZipFile || h == ReceiveChapterPage
      requires Conversation.Body(h, comics, session, u, upload).saves
      modifies this
      ensures comics == Conversation.Body(h, old(comics), session, u, upload).comics
      ensures sessions == old(sessions) && conversations == old(conversations) && handle == old(handle)
    {
      if h == ReceiveZipFile {
        var added := Ingest.ProcessZipChapters(u.doc.content, SlugText(session.selectedSlug), upload);
        Store(session.selectedSlug, added);
      } else {
        Store(session.selectedSlug, map[session.currentChapter.GetOr("null") := session.chapterPages]);
      }
    }

    /** The handler `h` on `user`'s update: its effect, with the catalog already updated to it. */
    method Apply(h: Handler, user: int, u: Update, upload: Ingest.Uploader) returns (e: Effect)
      modifies this
      ensures e == Run(h, admin, user, old(comics), SessionOf(old(Snapshot()), user), u, upload)
      ensures comics == e.comics
      ensures sessions == old(sessions) && conversations == old(conversations) && handle == old(handle)
    {
      var session := SessionOf(Snapshot(), user);
      e := Run(h, admin, user, comics, session, u, upload);
      if (h == ReceiveZipFile || h == ReceiveChapterPage) && e.saves {
        StoreFrom(h, session, u, upload);
      } else {
        comics := e.comics;
      }
    }

    /** The rest of an update once the catalog holds the handler's result: the session, the state, and the save. */
    method Settle(user: int, e: Effect, env: Env)
      requires comics == e.comics
      modifies this
      ensures Snapshot() == World(e.comics, old(sessions)[user := e.session], Advance(old(conversations), user, e.next),
                                  HandleAfter(Corrected, e, old(handle), env))
    {
      sessions := sessions[user := e.session];
      conversations := Advance(conversations, user, e.next);
      if e.saves {
        var outcome, notices := Flush(env.size, env.sink);
      }
    }

    /**
     * One update from `user`: the conversation handler picks the handler, the
     * handler's effect is applied to the session and the state, chapters are
     * stored in place, and a handler that saves flushes the catalog.
     */
    method HandleUpdate(user: int, u: Update, env: Env)
      modifies this
      ensures Snapshot() == Step(Corrected, admin, old(Snapshot()), user, u, env)
    {
      var route := Dispatch(Corrected, StateOf(Snapshot(), user), u);
      if route.None? {
        return;
      }
      var e := Apply(route.value, user, u, env.upload);
      Settle(user, e, env);
    }
  }
}
