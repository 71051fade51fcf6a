/**
 * The chat client's session state and the handlers that change it: sending
 * a message, attaching an image, clearing the chat into the archive, loading
 * an archived conversation, clearing the archive, building the gallery and
 * deleting an image from it.  Clock readings, `confirm` answers, the chat
 * request's outcome, the chosen file and whether a storage write fits the
 * quota are parameters.
 */
module Session {
  import opened Conversation
  import opened Storage
  import opened Archive
  import opened Gallery

  datatype Option<T> = None | Some(value: T)

  /** A picked file: its size in bytes and the data URL the file reader produces for it. */
  datatype ImageFile = ImageFile(size: nat, dataUrl: string)

  /** What the chat request produced: the assistant's reply text, or a failure of any kind. */
  datatype Reply = Replied(text: string) | Failed

  /** How an image pick ended. */
  datatype Ingest = NoFile | TooLarge | Added

  /** Largest accepted image, in bytes (3 MiB). */
  const MAX_IMAGE_BYTES: nat := 3 * 1024 * 1024

  /** An image is refused only when it is strictly larger than 3 MiB. */
  predicate Oversized(file: ImageFile)
  {
    file.size > MAX_IMAGE_BYTES
  }

  /** Keeps, in order, the turns that are not the image with content `c`. */
  method KeepOthers(msgs: seq<Turn>, c: string) returns (kept: seq<Turn>)
    ensures kept == WithoutImage(msgs, c)
  {
    kept := [];
    var i := 0;
    while i < |msgs|
      invariant 0 <= i <= |msgs|
      invariant kept == WithoutImage(msgs[..i], c)
    {
      assert msgs[..i + 1][..i] == msgs[..i];
      if !IsImageOf(msgs[i], c) {
        kept := kept + [msgs[i]];
      }
      i := i + 1;
    }
    assert msgs[..|msgs|] == msgs;
  }

  /** Replaces each archived conversation's turns, one conversation after another, by those that are not the image `c`. */
  method StripEach(a: seq<Archived>, c: string) returns (r: seq<Archived>)
    ensures r == StripImage(a, c)
  {
    r := a;
    var i := 0;
    while i < |r|
      invariant 0 <= i <= |r| == |a|
      invariant forall k :: 0 <= k < i ==> r[k] == a[k].(messages := WithoutImage(a[k].messages, c))
      invariant forall k :: i <= k < |r| ==> r[k] == a[k]
    {
      var kept := KeepOthers(r[i].messages, c);
      r := r[i := r[i].(messages := kept)];
      i := i + 1;
    }
    assert |r| == |StripImage(a, c)|;
  }

  /** Keeps, in order, the archived conversations that still have turns. */
  method KeepNonEmpty(a: seq<Archived>) returns (r: seq<Archived>)
    ensures r == DropEmpty(a)
  {
    r := [];
    var j := 0;
    while j < |a|
      invariant 0 <= j <= |a|
      invariant r == DropEmpty(a[..j])
    {
      assert a[..j + 1][..j] == a[..j];
      if |a[j].messages| > 0 {
        r := r + [a[j]];
      }
      j := j + 1;
    }
    assert a[..j] == a;
  }

  class SessionStore {
    /** The conversation in progress. */
    var current: seq<Turn>
    /** Archived conversations, most recent first. */
    var archive: seq<Archived>
    /** The browser's key/value store. */
    var store: Store

    /** Page start: both lists empty, the store as the browser kept it. */
    constructor (s: Store)
      ensures current == [] && archive == [] && store == s
    {
      current, archive, store := [], [], s;
    }

    /** Write the current list under its key, or remove the key when the list is empty; a failed write is swallowed. */
    method PersistCurrent(writable: bool)
      modifies this`store
      ensures store == Persisted(old(store), current, writable)
    {
      if |current| > 0 {
        if writable {
          store := store[CURRENT_KEY := TurnList(current)];
        }
      } else {
        store := store - {CURRENT_KEY};
      }
    }

    /**
     * Startup restore.  Each restored turn is rendered, and rendering persists
     * the (already replaced) current list, which writes back what was read, so
     * the store ends as it began.
     */
    method LoadSavedState(writable: bool)
      modifies this
      ensures Lists(current, archive) == Load(old(store), old(current), old(archive))
      ensures store == old(store)
    {
      if CURRENT_KEY in store {
        if !store[CURRENT_KEY].TurnList? {
          return;
        }
        current := store[CURRENT_KEY].turns;
        var i := 0;
        while i < |current|
          invariant 0 <= i <= |current|
          invariant current == old(store)[CURRENT_KEY].turns
          invariant store == old(store) && archive == old(archive)
        {
          PersistCurrent(writable);
          i := i + 1;
        }
      }
      if HISTORY_KEY in store {
        if !store[HISTORY_KEY].ArchiveList? {
          return;
        }
        archive := store[HISTORY_KEY].convs;
      }
    }

    /**
     * Send typed text.  Blank input (after trimming) does nothing.  Otherwise
     * the user turn is appended, and the assistant turn only when the request
     * succeeded; a failure shows an apology that is never added to the list.
     * Every rendered message persists the list as it stood before that
     * message's own append, so the store ends holding the list with the user
     * turn but without the assistant's reply.
     */
    method SendMessage(input: string, reply: Reply, writable: bool)
      modifies this`current, this`store
      ensures Trim(input) == [] ==> current == old(current) && store == old(store)
      ensures Trim(input) != [] ==>
        current == old(current) + [Turn(User, Trim(input), Text)]
                   + (if reply.Replied? then [Turn(Assistant, reply.text, Text)] else [])
      ensures Trim(input) != [] ==>
        store == Persisted(Persisted(old(store), old(current), writable), old(current) + [Turn(User, Trim(input), Text)], writable)
      ensures Trim(input) != [] && writable ==>
        CURRENT_KEY in store && store[CURRENT_KEY] == TurnList(old(current) + [Turn(User, Trim(input), Text)])
    {
      var userText := Trim(input);
      if userText == [] {
        return;
      }
      // the user's message is rendered, pushed, then the typing indicator is rendered
      PushAndPersist(Turn(User, userText, Text), writable);
      PersistIdempotent(Persisted(old(store), old(current), writable), current, writable);
      ReceiveReply(reply, writable);
    }

    /**
     * The request's outcome: a reply is rendered (persisting the list as it
     * stands) and then pushed as an assistant turn; a failure renders an
     * apology that is not pushed.
     */
    method ReceiveReply(reply: Reply, writable: bool)
      modifies this`current, this`store
      ensures current == old(current) + (if reply.Replied? then [Turn(Assistant, reply.text, Text)] else [])
      ensures store == Persisted(old(store), old(current), writable)
    {
      match reply {
        case Replied(text) =>
          PersistCurrent(writable);   // rendering the reply
          current := current + [Turn(Assistant, text, Text)];
        case Failed =>
          PersistCurrent(writable);   // rendering the apology
      }
    }

    /**
     * Render a turn (which persists the list as it stands), push it, and
     * persist again, so the store ends in step with the list.
     */
    method PushAndPersist(t: Turn, writable: bool)
      modifies this`current, this`store
      ensures current == old(current) + [t]
      ensures store == Persisted(Persisted(old(store), old(current), writable), current, writable)
      ensures writable ==> CURRENT_KEY in store && store[CURRENT_KEY] == TurnList(current)
    {
      PersistCurrent(writable);
      current := current + [t];
      PersistCurrent(writable);
    }

    /**
     * The image picker.  No file: nothing happens.  A file over 3 MiB: a
     * warning is rendered (which persists the unchanged list) and nothing is
     * appended.  Otherwise the file's data URL is appended as a user image turn.
     */
    method IngestImage(file: Option<ImageFile>, writable: bool) returns (outcome: Ingest)
      modifies this`current, this`store
      ensures file.None? ==> outcome == NoFile && current == old(current) && store == old(store)
      ensures file.Some? && Oversized(file.value) ==>
        outcome == TooLarge && current == old(current) && store == Persisted(old(store), current, writable)
      ensures file.Some? && !Oversized(file.value) ==>
        && outcome == Added
        && current == old(current) + [Turn(User, file.value.dataUrl, Image)]
        && store == Persisted(Persisted(old(store), old(current), writable), current, writable)
    {
      if file.None? {
        return NoFile;
      }
      if file.value.size > MAX_IMAGE_BYTES {
        PersistCurrent(writable);   // rendering the warning
        return TooLarge;
      }
      PushAndPersist(Turn(User, file.value.dataUrl, Image), writable);
      outcome := Added;
    }

    /** Clicking a gallery thumbnail sends that image again in the current conversation. */
    method ResendGalleryImage(src: string, writable: bool)
      modifies this`current, this`store
      ensures current == old(current) + [Turn(User, src, Image)]
      ensures store == Persisted(Persisted(old(store), old(current), writable), current, writable)
    {
      PushAndPersist(Turn(User, src, Image), writable);
    }

    /**
     * Clear the chat.  A non-empty current list is archived at the front
     * (evicting at most one entry) and the archive written.  That write is not
     * guarded: when it fails (`threw`) the handler stops there, with the archive
     * already changed in memory, the current list kept and its key left alone.
     * Otherwise the current list is emptied and its key removed.
     */
    method ClearChat(id: int, iso: string, writable: bool) returns (threw: bool)
      modifies this
      ensures |old(current)| == 0 ==>
        !threw && current == [] && archive == old(archive) && store == old(store) - {CURRENT_KEY}
      ensures |old(current)| > 0 ==> archive == PushBounded(old(archive), Archived(id, iso, old(current)))
      ensures |old(current)| > 0 && !writable ==> threw && current == old(current) && store == old(store)
      ensures |old(current)| > 0 && writable ==>
        !threw && current == [] && store == old(store)[HISTORY_KEY := ArchiveList(archive)] - {CURRENT_KEY}
      ensures WellFormed(old(archive)) ==> WellFormed(archive)
    {
      if |current| > 0 {
        if WellFormed(archive) {
          PushBoundedWellFormed(archive, Archived(id, iso, current));
        }
        archive := PushBounded(archive, Archived(id, iso, current));
        if !writable {
          return true;
        }
        store := store[HISTORY_KEY := ArchiveList(archive)];
      }
      current := [];
      store := store - {CURRENT_KEY};
      threw := false;
    }

    /** The archive panel's clear button: no confirmation. */
    method ClearHistory()
      modifies this`archive, this`store
      ensures archive == [] && store == old(store) - {HISTORY_KEY}
    {
      archive := [];
      store := store - {HISTORY_KEY};
    }

    /** The side panel's clear button: only when the user confirms. */
    method ClearHistoryConfirmed(confirmed: bool)
      modifies this`archive, this`store
      ensures !confirmed ==> archive == old(archive) && store == old(store)
      ensures confirmed ==> archive == [] && store == old(store) - {HISTORY_KEY}
    {
      if !confirmed {
        return;
      }
      ClearHistory();
    }

    /**
     * Open an archived conversation from a history panel entry.  `entry` is
     * the snapshot the entry was rendered with: a panel that was not rendered
     * again after a clear or a delete still offers snapshots that are no
     * longer in the archive, so any snapshot can be opened.  The current list
     * becomes a copy of its turns (rendering each persists it), then it is
     * persisted once more.  The archive is left as it was.
     */
    method LoadArchived(entry: Archived, writable: bool)
      modifies this`current, this`store
      ensures current == entry.messages
      ensures store == Persisted(old(store), current, writable)
    {
      current := entry.messages;
      var i := 0;
      while i < |current|
        invariant 0 <= i <= |current|
        invariant current == entry.messages
        invariant store == old(store) || store == Persisted(old(store), current, writable)
      {
        PersistCurrent(writable);
        i := i + 1;
      }
      PersistCurrent(writable);
    }

    /** Build the gallery: archived images in archive order, then the current conversation's. */
    method GalleryImages(now: int) returns (images: seq<GalleryItem>)
      ensures images == GalleryList(archive, current, now)
    {
      images := [];
      var i := 0;
      while i < |archive|
        invariant 0 <= i <= |archive|
        invariant images == ArchiveImages(archive[..i])
      {
        var conv := archive[i];
        var j := 0;
        while j < |conv.messages|
          invariant 0 <= j <= |conv.messages|
          invariant images == ArchiveImages(archive[..i]) + ImagesOf(conv.messages[..j], SavedAt(conv.timestamp))
        {
          assert conv.messages[..j + 1][..j] == conv.messages[..j];
          if conv.messages[j].kind == Image {
            images := images + [GalleryItem(conv.messages[j].content, SavedAt(conv.timestamp))];
          }
          j := j + 1;
        }
        assert conv.messages[..j] == conv.messages;
        assert archive[..i + 1][..i] == archive[..i];
        i := i + 1;
      }
      assert archive[..i] == archive;
      var j := 0;
      while j < |current|
        invariant 0 <= j <= |current|
        invariant images == ArchiveImages(archive) + ImagesOf(current[..j], Now(now))
      {
        assert current[..j + 1][..j] == current[..j];
        if current[j].kind == Image {
          images := images + [GalleryItem(current[j].content, Now(now))];
        }
        j := j + 1;
      }
      assert current[..j] == current;
    }

    /**
     * Delete image content `c` from the gallery, once confirmed: filter it out
     * of every archived conversation, drop every conversation left empty, and
     * write the archive.  The current conversation is never touched.  The
     * write is not guarded: when it fails (`threw`) the archive has already
     * changed in memory and the store is left as it was.
     */
    method DeleteImage(c: string, confirmed: bool, writable: bool) returns (threw: bool)
      modifies this`archive, this`store
      ensures !confirmed ==> !threw && archive == old(archive) && store == old(store)
      ensures confirmed ==> archive == DeleteFromArchive(old(archive), c)
      ensures confirmed ==> threw == !writable
      ensures confirmed && writable ==> store == old(store)[HISTORY_KEY := ArchiveList(archive)]
      ensures confirmed && !writable ==> store == old(store)
      ensures WellFormed(old(archive)) ==> WellFormed(archive)
    {
      if !confirmed {
        return false;
      }
      archive := StripEach(archive, c);
      archive := KeepNonEmpty(archive);
      DeleteLeavesNoImageAndNoEmpty(old(archive), c);
      if !writable {
        return true;
      }
      store := store[HISTORY_KEY := ArchiveList(archive)];
      threw := false;
    }
  }
}
