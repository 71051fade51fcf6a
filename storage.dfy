/**
 * The browser's key/value store as the chat client uses it: the current
 * conversation under one key, the archive under another.  Values are held
 * directly (serialising to JSON and parsing back is taken to round-trip);
 * text that does not parse is kept as `Unparsable`.  An empty string under
 * a key reads as no value at all (the client tests the text before parsing
 * it), so it is modelled by the key being absent.
 */
module Storage {
  import opened Conversation

  const CURRENT_KEY: string := "current_conversation_v1"
  const HISTORY_KEY: string := "conversations_history_v1"

  /** What a key can hold. */
  datatype Stored =
    | TurnList(turns: seq<Turn>)
    | ArchiveList(convs: seq<Archived>)
    | Unparsable

  type Store = map<string, Stored>

  /** The two lists the client holds in memory. */
  datatype Lists = Lists(current: seq<Turn>, archive: seq<Archived>)

  /**
   * The store after persisting `cur`: a non-empty list is written under the
   * current key, an empty one removes that key.  `writable` says whether the
   * write fits the store's quota; a failed write is caught and leaves the store
   * as it was.  Removing a key always succeeds.  No other key is touched.
   */
  function Persisted(s: Store, cur: seq<Turn>, writable: bool): (r: Store)
    ensures |cur| > 0 && writable ==> CURRENT_KEY in r && r[CURRENT_KEY] == TurnList(cur)
    ensures |cur| > 0 && !writable ==> r == s
    ensures |cur| == 0 ==> CURRENT_KEY !in r
    ensures forall k :: k != CURRENT_KEY ==> (k in r <==> k in s)
    ensures forall k :: k != CURRENT_KEY && k in r ==> r[k] == s[k]
  {
    if |cur| > 0 then
      if writable then s[CURRENT_KEY := TurnList(cur)] else s
    else
      s - {CURRENT_KEY}
  }

  /** Persisting the same list twice leaves the store as persisting it once. */
  lemma PersistIdempotent(s: Store, cur: seq<Turn>, writable: bool)
    ensures Persisted(Persisted(s, cur, writable), cur, writable) == Persisted(s, cur, writable)
  {
  }

  /**
   * Startup restore.  A present current key replaces the current list, then a
   * present history key replaces the archive.  Both reads share one failure
   * path: a current key that does not parse also skips the history key, while
   * a history key that does not parse keeps the current list already restored.
   * An absent key leaves its list as it was.
   */
  function Load(s: Store, cur: seq<Turn>, arch: seq<Archived>): (r: Lists)
    ensures CURRENT_KEY !in s ==> r.current == cur
    ensures r.current != cur ==> CURRENT_KEY in s && s[CURRENT_KEY] == TurnList(r.current)
    ensures r.archive != arch ==> HISTORY_KEY in s && s[HISTORY_KEY] == ArchiveList(r.archive)
    ensures r.archive != arch ==> CURRENT_KEY !in s || s[CURRENT_KEY].TurnList?
  {
    if CURRENT_KEY in s && !s[CURRENT_KEY].TurnList? then
      Lists(cur, arch)
    else
      var cur' := if CURRENT_KEY in s then s[CURRENT_KEY].turns else cur;
      if HISTORY_KEY in s then
        if s[HISTORY_KEY].ArchiveList? then Lists(cur', s[HISTORY_KEY].convs) else Lists(cur', arch)
      else
        Lists(cur', arch)
  }

  /** Persisting and then restoring at startup (current list empty) gives back the persisted list. */
  lemma PersistThenLoad(s: Store, cur: seq<Turn>, arch: seq<Archived>)
    ensures Load(Persisted(s, cur, true), [], arch).current == cur
  {
  }

  /** An archive written under the history key comes back at startup unless the current key is corrupt. */
  lemma ArchiveThenLoad(s: Store, a: seq<Archived>, cur: seq<Turn>, arch: seq<Archived>)
    requires CURRENT_KEY !in s || s[CURRENT_KEY].TurnList?
    ensures Load(s[HISTORY_KEY := ArchiveList(a)], cur, arch).archive == a
  {
  }

  /** A corrupt current key leaves both lists untouched, however good the history key is. */
  lemma CorruptCurrentSkipsHistory(s: Store, cur: seq<Turn>, arch: seq<Archived>)
    requires CURRENT_KEY in s && s[CURRENT_KEY] == Unparsable
    ensures Load(s, cur, arch) == Lists(cur, arch)
  {
  }
}
