/**
 * The values the chat client keeps: turns of a conversation and archived
 * snapshots of past conversations, plus the whitespace trimming that decides
 * whether typed input is sent at all.
 */
module Conversation {

  /** Who produced a turn ("user" or "assistant" on the wire). */
  datatype Role = User | Assistant

  /** Whether a turn's content is plain text or an inline image (a data URL, kept opaque). */
  datatype Kind = Text | Image

  /** One message `{role, content, type}` of a conversation. */
  datatype Turn = Turn(role: Role, content: string, kind: Kind)

  /** A snapshot `{id, timestamp, messages}` taken when the current conversation is cleared. */
  datatype Archived = Archived(id: int, timestamp: string, messages: seq<Turn>)

  /** The turn is an image whose content is exactly `c`. */
  predicate IsImageOf(t: Turn, c: string)
  {
    t.kind == Image && t.content == c
  }

  /**
   * The characters JavaScript's `String.prototype.trim` removes: the
   * WhiteSpace and LineTerminator code points of ECMAScript (tab, line feed,
   * vertical tab, form feed, carriage return, space, no-break space, the other
   * Unicode space separators, line and paragraph separator, byte-order mark).
   */
  const JS_SPACES: seq<char> := [
    '\t', '\n', '\U{000B}', '\U{000C}', '\r', ' ', '\U{00A0}', '\U{1680}',
    '\U{2000}', '\U{2001}', '\U{2002}', '\U{2003}', '\U{2004}', '\U{2005}',
    '\U{2006}', '\U{2007}', '\U{2008}', '\U{2009}', '\U{200A}',
    '\U{2028}', '\U{2029}', '\U{202F}', '\U{205F}', '\U{3000}', '\U{FEFF}'
  ]

  predicate IsSpace(ch: char)
  {
    Among(ch, JS_SPACES)
  }

  /** `ch` occurs in `cs` (written recursively, so the solver unfolds the list only when asked). */
  predicate Among(ch: char, cs: seq<char>)
  {
    cs != [] && (cs[0] == ch || Among(ch, cs[1..]))
  }

  predicate AllSpace(s: string)
  {
    forall k :: 0 <= k < |s| ==> IsSpace(s[k])
  }

  /** `s` without its leading whitespace: a suffix of `s` that does not start with a space. */
  function TrimStart(s: string): (r: string)
    ensures |r| <= |s| && r == s[|s| - |r|..]
    ensures forall k :: 0 <= k < |s| - |r| ==> IsSpace(s[k])
    ensures r == [] || !IsSpace(r[0])
  {
    if s == [] || !IsSpace(s[0]) then s else TrimStart(s[1..])
  }

  /** `s` without its trailing whitespace: a prefix of `s` that does not end with a space. */
  function TrimEnd(s: string): (r: string)
    ensures |r| <= |s| && r == s[..|r|]
    ensures forall k :: |r| <= k < |s| ==> IsSpace(s[k])
    ensures r == [] || !IsSpace(r[|r| - 1])
  {
    if s == [] || !IsSpace(s[|s| - 1]) then s else TrimEnd(s[..|s| - 1])
  }

  /** JavaScript's `trim`: what is left neither starts nor ends with whitespace. */
  function Trim(s: string): (r: string)
    ensures r == [] || (!IsSpace(r[0]) && !IsSpace(r[|r| - 1]))
  {
    TrimEnd(TrimStart(s))
  }

  /**
   * The trimmed text is the piece of `s` that starts after its leading
   * whitespace (which `TrimStart` removes, and which is all whitespace).
   */
  lemma TrimIsSlice(s: string)
    ensures |s| - |TrimStart(s)| + |Trim(s)| <= |s|
    ensures Trim(s) == s[|s| - |TrimStart(s)|..|s| - |TrimStart(s)| + |Trim(s)|]
  {
    var t := TrimStart(s);
    var r := TrimEnd(t);
    assert t == s[|s| - |t|..] && r == t[..|r|];
  }

  /** Everything of `s` after the trimmed text is whitespace. */
  lemma TrimDropsTrailingSpace(s: string)
    ensures forall k :: |s| - |TrimStart(s)| + |Trim(s)| <= k < |s| ==> IsSpace(s[k])
  {
    var t := TrimStart(s);
    TrailingSpaces(s, t, TrimEnd(t));
  }

  lemma TrailingSpaces(s: string, t: string, r: string)
    requires |t| <= |s| && t == s[|s| - |t|..]
    requires |r| <= |t| && forall k :: |r| <= k < |t| ==> IsSpace(t[k])
    ensures forall k :: |s| - |t| + |r| <= k < |s| ==> IsSpace(s[k])
  {
    var i := |s| - |t|;
    forall k | i + |r| <= k < |s| ensures IsSpace(s[k]) {
      assert s[k] == t[k - i];
    }
  }

  /** Trimming leaves nothing exactly when the input is all whitespace (a send is then ignored). */
  lemma TrimEmptyIffAllSpace(s: string)
    ensures Trim(s) == [] <==> AllSpace(s)
  {
    var t := TrimStart(s);
    var r := TrimEnd(t);
    if r == [] {
      assert t == [];
      assert s[..|s|] == s;
    } else {
      assert r[0] == t[0] == s[|s| - |t|];
    }
  }
}
