# Chat client session store and gallery, in Dafny

This project models the conversation persistence of a browser chat client
(`script.js`). The client keeps three pieces of state:

- the current conversation, a list of turns `{role, content, type}`;
- an archive of past conversations `{id, timestamp, messages}`, most recent first, kept to at most 50;
- the browser's key/value store. The current list lives under `current_conversation_v1` and the archive under `conversations_history_v1`.

Its event handlers change this state. Sending a message appends turns.
Picking an image, or clicking a gallery thumbnail, appends an image turn.
Clearing the chat moves a non-empty conversation to the front of the archive.
Clicking an archive entry loads it as the current conversation.
Two buttons clear the archive; only one of them asks for confirmation.
The gallery lists every image turn. Deleting an image from it filters the archive.

The model is a class `Session.SessionStore` with fields `current`, `archive` and
`store`. Its methods follow the handlers step by step, and each is proved against
pure functions. The archive functions are in `Archive`, the gallery projection in
`Gallery`, and the store's write and restore in `Storage`. The lemmas beside them
prove what the client promises: the 50-entry bound, that repeated clears keep the
most recent conversations, the delete cascade, the gallery's order and
multiplicity, and the store round trip.

Files: `conversation.dfy` (turns, snapshots, JavaScript `trim`), `storage.dfy`,
`archive.dfy`, `gallery.dfy`, `session.dfy`.

## Quirks of the code the model reproduces

- **Persisting lags the append.** Rendering a message persists the list before that message is pushed (script.js:90 against 104-105 and 137-138). After a successful send, the store holds the user turn but not the assistant's reply. `SendMessage` states this.
- **Eviction pops at most once** (script.js:196). The bound of 50 is kept only if it already held: `PushBounded` and `PushBoundedKeepsBound`.
- **Two archive writes are unguarded.** `clearChat` (script.js:197) and the gallery delete (script.js:470) call `setItem` outside any `try`. A failed write stops the handler after the archive has already changed in memory. Persisting the current list does catch failures (script.js:157-159). See `ClearChat` and `DeleteImage`.
- **Restoring shares one `try`** (script.js:164-181). A corrupt current key also skips the history key. A corrupt history key keeps the current list that was already restored.
- **Deleting an image drops every empty archived conversation** (script.js:469), not only the ones this deletion emptied.
- **Gallery stamps.** Archived images carry their conversation's timestamp. Current images carry a clock reading.

## Model

| member | source | states |
|---|---|---|
| `Conversation.TrimStart` | script.js:97 | the text after leading whitespace is a suffix of the input, everything before it is whitespace (all ECMAScript whitespace and line terminators), and it does not start with whitespace |
| `Conversation.Trim` | script.js:97 | the trimmed text neither starts nor ends with whitespace |
| `Conversation.TrimIsSlice` | script.js:97 | the trimmed text is the contiguous piece of the input that starts right after its leading whitespace |
| `Conversation.TrimDropsTrailingSpace` | script.js:97 | everything of the input after the trimmed text is whitespace |
| `Conversation.TrimEmptyIffAllSpace` | script.js:97-98 | the text to send is empty exactly when the input is all whitespace (the case where a send does nothing) |
| `Storage.Persisted` | script.js:150-160 | after a persist the current key holds exactly the list when it is non-empty and the write fits; it is absent when the list is empty; a failed write leaves the store unchanged; no other key changes |
| `Storage.Load` | script.js:164-181 | a list changes at startup only to exactly what its key holds; an absent current key keeps the current list; the archive is read only when the current key is absent or well formed |
| `Storage.PersistIdempotent` | script.js:150-160 | persisting the same list again leaves the store as it was after the first persist |
| `Storage.PersistThenLoad` | script.js:150-181 | persisting a list and then restoring at startup gives back that same list, in order |
| `Storage.ArchiveThenLoad` | script.js:175-178 | an archive written under the history key is restored at startup unless the current key is corrupt |
| `Storage.CorruptCurrentSkipsHistory` | script.js:164-181 | a current key that does not parse leaves both lists as they were, even when the history key is valid |
| `Archive.PushBounded` | script.js:190-196 | clearing puts the new snapshot at index 0 and keeps the old entries behind it in order; the length grows by one unless that would pass 50, in which case only the last entry goes |
| `Archive.PushBoundedKeepsBound` | script.js:195-196 | an archive of at most 50 entries still has at most 50 after a clear; from exactly 50, the old last entry is gone and the other 49 shift down one place |
| `Archive.PushBoundedWellFormed` | script.js:188-196 | archiving a non-empty conversation keeps the archive within the bound with no empty conversation |
| `Archive.PushAll` | script.js:187-198 | after a run of clears the newest snapshot is at index 0, the archive grew by at most one entry per clear, and a bounded archive stays within 50 |
| `Archive.PushAllKeepsMostRecent` | script.js:187-198 | from a bounded archive, any run of clears leaves the new snapshots newest first followed by the old entries, cut to the first 50 |
| `Archive.ManyClearsFillArchive` | script.js:190-196 | after at least 50 clears the archive holds exactly 50 entries, all of them the most recent snapshots, newest first |
| `Archive.WithoutImage` | script.js:466 | a turn is kept exactly when it is a turn of the input other than the deleted image |
| `Archive.StripImage` | script.js:465-467 | each archived conversation keeps its id and timestamp, and its turns are replaced by the filtered ones |
| `Archive.DropEmpty` | script.js:469 | exactly the archived conversations with at least one turn are kept |
| `Archive.DeleteFromArchive` | script.js:465-469 | deleting an image never grows the archive and leaves no conversation without turns |
| `Archive.DeleteKeepsOtherTurnsInOrder` | script.js:465-469 | after deleting an image, the archived turns read conversation after conversation are the old ones with that image filtered out, so every other turn keeps its relative order |
| `Archive.DeleteLeavesNoImageAndNoEmpty` | script.js:465-469 | after deleting image `c`, no archived turn is an image with content `c`, no archived conversation is empty, and the archive did not grow |
| `Archive.DeleteKeepsSurvivors` | script.js:465-469 | a conversation that still has turns after the filter stays in the archive with only the matching images removed |
| `Archive.DeleteIdempotent` | script.js:465-470 | deleting the same image a second time changes nothing |
| `Gallery.GalleryList` | script.js:433-437 | the gallery starts with the archived images, followed by at most one item per current turn, each stamped with the clock reading |
| `Gallery.GalleryHoldsEveryImageInOrder` | script.js:433-437 | the gallery lists the image contents of every archived conversation in archive order, then those of the current conversation stamped with the clock reading; its length is the number of image turns |
| `Gallery.GalleryKeepsDuplicates` | script.js:433-437 | an image appears in the gallery once for every image turn carrying it, archived or current: nothing is de-duplicated |
| `Gallery.GalleryAfterDelete` | script.js:433-470 | after an image is deleted from the archive, the gallery shows it exactly as many times as the current conversation holds it |
| `Session.KeepOthers` | script.js:466 | the loop keeps exactly the turns that are not the deleted image, in order |
| `Session.StripEach` | script.js:465-467 | the loop replaces each conversation's turns by the filtered ones |
| `Session.KeepNonEmpty` | script.js:469 | the loop keeps exactly the archived conversations that still have turns |
| `Session.SessionStore.constructor` | script.js:31-32 | the page starts with both lists empty and the store as the browser kept it |
| `Session.SessionStore.PersistCurrent` | script.js:150-160 | the store becomes the persisted store for the current list |
| `Session.SessionStore.LoadSavedState` | script.js:163-184 | the lists become what `Load` restores from the store; re-rendering the restored turns writes back what was read, so the store is unchanged |
| `Session.SessionStore.SendMessage` | script.js:96-147 | blank input changes nothing; otherwise exactly the user turn is appended, then the assistant turn only when the request succeeded (the apology is never added); the store ends holding the list with the user turn but without the reply |
| `Session.SessionStore.PushAndPersist` | script.js:225-229 | rendering a turn persists the list as it stood, the turn is appended, and the next persist leaves the store holding the whole list |
| `Session.SessionStore.ReceiveReply` | script.js:130-143 | a reply is appended as one assistant turn after the list was persisted without it; a failure appends nothing |
| `Session.SessionStore.IngestImage` | script.js:214-234 | no file: nothing; a file over 3 MiB (strictly larger than 3145728 bytes): refused, list unchanged; otherwise its data URL is appended as a user image turn |
| `Session.SessionStore.ResendGalleryImage` | script.js:450-455 | clicking a thumbnail appends that image to the current conversation as a user turn |
| `Session.SessionStore.ClearChat` | script.js:187-209 | a non-empty current list is archived at index 0 with its turns (at most one eviction) and, if the write succeeds, the current list is emptied, its key removed and the archive written; an empty current list leaves the archive and history key unchanged but still removes the current key; a failed write stops with the archive changed and the current list kept; a well-formed archive stays well formed |
| `Session.SessionStore.ClearHistory` | script.js:358-362 | the archive becomes empty and the history key is removed, with no confirmation |
| `Session.SessionStore.ClearHistoryConfirmed` | script.js:363-369 | the same effect only when the user confirms; otherwise nothing changes |
| `Session.SessionStore.LoadArchived` | script.js:394-401 | opening a history entry (either panel, also script.js:418-424) sets the current list to a copy of the entry's turns, whether or not that snapshot is still in the archive, and persists it; the archive is not changed |
| `Session.SessionStore.GalleryImages` | script.js:431-437 | the two nested loops build exactly the gallery list |
| `Session.SessionStore.DeleteImage` | script.js:461-472 | once confirmed, the archive becomes the delete-filtered archive and, if the write succeeds, the history key stores it; the current conversation is untouched; unconfirmed, nothing changes |

## Left out

- Rendering: messages, the welcome block, the typing indicator, the panels, textarea resizing, the font slider and the theme toggle are UI only. Speech input and output use browser APIs.
- The chat request: the `fetch` to the proxy and the parsing of its reply are one input. An HTTP error, a failed request, or a body without `choices[0]` or without its `message` is a failure.
- Session.Reply: does not represent a body whose `message` has no `content`. The code then renders and pushes an assistant turn whose content is `undefined` (script.js:136-138).
- JSON: the store holds the lists directly, and serialising then parsing is taken to round-trip. Text that does not parse is `Unparsable`. An empty string under a key is treated by the code as no value (script.js:166 and 175 test the text before parsing), so the model represents it by the absent key. Parseable JSON of the wrong shape under a key is treated like unparsable text; the code would accept it and fail later.
- Storage failures: only `setItem` exceeding the quota is modelled. One `writable` flag per handler covers all its writes. Failures of `getItem`/`removeItem` when storage is disabled are not modelled.
- Clock readings (`Date.now()`, `toISOString()`) and `confirm()` answers are parameters. Snapshot ids are not checked for uniqueness.
- Session.SessionStore.GalleryImages: uses one clock reading for every current image, whereas the code reads the clock once per image.
- Images: `FileReader` runs asynchronously and produces a data URL (RFC 2397). The model treats the data URL as an opaque string and runs the reader's completion right after the size check.
- Concurrency: a reply arriving after the chat was cleared, and two tabs writing the same store. `SendMessage` is one atomic step.
- Stale panel entries: some handlers re-render only one of the two history panels. The unconfirmed "clear history" button re-renders only the side panel (script.js:358-362); the confirmed one re-renders both (script.js:363-369). `clearChat` re-renders only the history list (script.js:208), so side-panel entries go stale, including one for a conversation the eviction at script.js:196 just dropped. A gallery delete re-renders only the side panel (script.js:471). A stale entry still opens its old snapshot.
- Session.SessionStore.LoadArchived: the entry's snapshot is a parameter, so stale entries are covered, but object identity is not modelled. The code's entries hold references to the archived objects, and a delete filters their turns in place (script.js:465-467). A stale entry then opens the filtered, possibly empty, turns; the model covers this only when the caller passes that filtered snapshot.
- The send button's enabled state and the proxy server (`server.js`).
