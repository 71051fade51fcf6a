/**
 * The archive of past conversations, most recent first: the bounded prepend
 * done when the current conversation is cleared, and the filter that deletes
 * an image from every archived conversation and drops the ones left empty.
 */
module Archive {
  import opened Conversation

  /** The archive keeps at most this many conversations. */
  const MAX_SAVED: nat := 50

  /** Within the bound, and every archived conversation has at least one turn. */
  predicate WellFormed(a: seq<Archived>)
  {
    |a| <= MAX_SAVED && forall i :: 0 <= i < |a| ==> |a[i].messages| > 0
  }

  /**
   * `unshift` the new snapshot, then `pop` once if the archive is over the
   * bound.  Only one entry is ever evicted, so an archive already over the
   * bound stays over it.
   */
  function PushBounded(a: seq<Archived>, e: Archived): (r: seq<Archived>)
    ensures |r| == if |a| + 1 > MAX_SAVED then |a| else |a| + 1
    ensures r[0] == e && r[1..] == a[..|r| - 1]
  {
    var grown := [e] + a;
    if |grown| > MAX_SAVED then grown[..|grown| - 1] else grown
  }

  /** An archive within the bound stays within it; when it was full, the oldest entry is the one dropped. */
  lemma PushBoundedKeepsBound(a: seq<Archived>, e: Archived)
    requires |a| <= MAX_SAVED
    ensures |PushBounded(a, e)| <= MAX_SAVED
    ensures |a| == MAX_SAVED ==> |PushBounded(a, e)| == MAX_SAVED && PushBounded(a, e)[1..] == a[..MAX_SAVED - 1]
  {
  }

  /** Archiving a non-empty conversation keeps the archive well formed. */
  lemma PushBoundedWellFormed(a: seq<Archived>, e: Archived)
    requires WellFormed(a) && |e.messages| > 0
    ensures WellFormed(PushBounded(a, e))
  {
    var r := PushBounded(a, e);
    forall i | 0 <= i < |r| ensures |r[i].messages| > 0 {
      if i > 0 {
        assert r[i] == r[1..][i - 1] == a[i - 1];
      }
    }
  }

  /** The archive after the snapshots `es` have been pushed one after the other, `es[0]` first. */
  function PushAll(a: seq<Archived>, es: seq<Archived>): (r: seq<Archived>)
    ensures |a| <= MAX_SAVED ==> |r| <= MAX_SAVED
    ensures |r| <= |a| + |es|
    ensures es != [] ==> |r| > 0 && r[0] == es[|es| - 1]
  {
    if es == [] then a else PushBounded(PushAll(a, es[..|es| - 1]), es[|es| - 1])
  }

  function Reverse<T>(s: seq<T>): (r: seq<T>)
    ensures |r| == |s|
  {
    if s == [] then [] else [s[|s| - 1]] + Reverse(s[..|s| - 1])
  }

  /** The first `n` elements of `s`, or all of `s` when it is shorter. */
  function Take<T>(s: seq<T>, n: nat): (r: seq<T>)
    ensures |r| == if |s| <= n then |s| else n
    ensures r == s[..|r|]
  {
    if |s| <= n then s else s[..n]
  }

  /**
   * Starting within the bound, any run of clears leaves exactly the 50 most
   * recently archived conversations, newest first (fewer when fewer exist).
   */
  lemma {:induction false} PushAllKeepsMostRecent(a: seq<Archived>, es: seq<Archived>)
    requires |a| <= MAX_SAVED
    ensures PushAll(a, es) == Take(Reverse(es) + a, MAX_SAVED)
  {
    if es != [] {
      var init, last := es[..|es| - 1], es[|es| - 1];
      PushAllKeepsMostRecent(a, init);
      var p := PushAll(a, init);
      assert p == Take(Reverse(init) + a, MAX_SAVED);
      assert Reverse(es) + a == [last] + (Reverse(init) + a);
      var full := [last] + (Reverse(init) + a);
      assert PushBounded(p, last) == Take(full, MAX_SAVED) by {
        var r := PushBounded(p, last);
        var t := Take(full, MAX_SAVED);
        assert |r| == |t|;
        forall k | 0 <= k < |r| ensures r[k] == t[k] {
          if k > 0 {
            assert r[k] == r[1..][k - 1] == p[k - 1];
          }
        }
      }
    }
  }

  /** After at least 50 clears from a bounded archive, it holds exactly 50 conversations. */
  lemma ManyClearsFillArchive(a: seq<Archived>, es: seq<Archived>)
    requires |a| <= MAX_SAVED && |es| >= MAX_SAVED
    ensures |PushAll(a, es)| == MAX_SAVED
    ensures PushAll(a, es) == Reverse(es)[..MAX_SAVED]
  {
    PushAllKeepsMostRecent(a, es);
    assert (Reverse(es) + a)[..MAX_SAVED] == Reverse(es)[..MAX_SAVED];
  }

  /** The turns of `msgs` that are not an image with content `c`, in their original order. */
  function WithoutImage(msgs: seq<Turn>, c: string): (r: seq<Turn>)
    ensures |r| <= |msgs|
    ensures forall t :: t in r ==> t in msgs && !IsImageOf(t, c)
    ensures forall t :: t in msgs && !IsImageOf(t, c) ==> t in r
  {
    if msgs == [] then []
    else
      var rest := WithoutImage(msgs[..|msgs| - 1], c);
      var last := msgs[|msgs| - 1];
      if IsImageOf(last, c) then rest else rest + [last]
  }

  /** Each archived conversation with its images of content `c` filtered out (the first pass of a delete). */
  function StripImage(a: seq<Archived>, c: string): (r: seq<Archived>)
    ensures |r| == |a|
    ensures forall i :: 0 <= i < |a| ==> r[i] == a[i].(messages := WithoutImage(a[i].messages, c))
  {
    if a == [] then []
    else
      var last := a[|a| - 1];
      StripImage(a[..|a| - 1], c) + [last.(messages := WithoutImage(last.messages, c))]
  }

  /** The conversations of `a` that have at least one turn, in order (the second pass of a delete). */
  function DropEmpty(a: seq<Archived>): (r: seq<Archived>)
    ensures |r| <= |a|
    ensures forall x :: x in r ==> x in a && |x.messages| > 0
    ensures forall x :: x in a && |x.messages| > 0 ==> x in r
  {
    if a == [] then []
    else
      var rest := DropEmpty(a[..|a| - 1]);
      var last := a[|a| - 1];
      assert a == a[..|a| - 1] + [last];
      if |last.messages| > 0 then rest + [last] else rest
  }

  /** The archive after deleting image content `c` from the gallery. */
  function DeleteFromArchive(a: seq<Archived>, c: string): (r: seq<Archived>)
    ensures |r| <= |a|
    ensures forall x :: x in r ==> |x.messages| > 0
  {
    DropEmpty(StripImage(a, c))
  }

  /** All archived turns, conversation after conversation. */
  function Flatten(a: seq<Archived>): seq<Turn>
  {
    if a == [] then [] else Flatten(a[..|a| - 1]) + a[|a| - 1].messages
  }

  lemma {:induction false} WithoutImageAppend(x: seq<Turn>, y: seq<Turn>, c: string)
    ensures WithoutImage(x + y, c) == WithoutImage(x, c) + WithoutImage(y, c)
  {
    if y == [] {
      assert x + y == x;
    } else {
      assert (x + y)[..|x + y| - 1] == x + y[..|y| - 1];
      WithoutImageAppend(x, y[..|y| - 1], c);
    }
  }

  lemma {:induction false} FlattenStripImage(a: seq<Archived>, c: string)
    ensures Flatten(StripImage(a, c)) == WithoutImage(Flatten(a), c)
  {
    if a != [] {
      var init := a[..|a| - 1];
      FlattenStripImage(init, c);
      WithoutImageAppend(Flatten(init), a[|a| - 1].messages, c);
      assert StripImage(a, c)[..|a| - 1] == StripImage(init, c);
    }
  }

  lemma {:induction false} FlattenDropEmpty(a: seq<Archived>)
    ensures Flatten(DropEmpty(a)) == Flatten(a)
  {
    if a != [] {
      var init, last := a[..|a| - 1], a[|a| - 1];
      FlattenDropEmpty(init);
      if |last.messages| > 0 {
        assert (DropEmpty(init) + [last])[..|DropEmpty(init)|] == DropEmpty(init);
      }
    }
  }

  /**
   * Deleting an image keeps every other archived turn, in the same relative
   * order across the whole archive: the turns of the new archive, read
   * conversation after conversation, are the old ones with the matching
   * images filtered out.
   */
  lemma DeleteKeepsOtherTurnsInOrder(a: seq<Archived>, c: string)
    ensures Flatten(DeleteFromArchive(a, c)) == WithoutImage(Flatten(a), c)
  {
    FlattenDropEmpty(StripImage(a, c));
    FlattenStripImage(a, c);
  }

  /**
   * After deleting image content `c`: no archived turn is that image, no
   * archived conversation is empty (including ones that were already empty),
   * and the archive did not grow, so a well-formed archive stays well formed.
   */
  lemma DeleteLeavesNoImageAndNoEmpty(a: seq<Archived>, c: string)
    ensures forall x, t :: x in DeleteFromArchive(a, c) && t in x.messages ==> !IsImageOf(t, c)
    ensures forall x :: x in DeleteFromArchive(a, c) ==> |x.messages| > 0
    ensures |DeleteFromArchive(a, c)| <= |a|
    ensures WellFormed(a) ==> WellFormed(DeleteFromArchive(a, c))
  {
    var s := StripImage(a, c);
    var r := DropEmpty(s);
    forall x, t | x in r && t in x.messages ensures !IsImageOf(t, c) {
      var i :| 0 <= i < |s| && s[i] == x;
    }
    forall i | 0 <= i < |r| ensures |r[i].messages| > 0 {
      assert r[i] in r;
    }
  }

  /**
   * A conversation that still has turns once the image is filtered out stays
   * in the archive with only those turns removed; its id and timestamp are kept.
   */
  lemma DeleteKeepsSurvivors(a: seq<Archived>, c: string, x: Archived)
    requires x in a && WithoutImage(x.messages, c) != []
    ensures x.(messages := WithoutImage(x.messages, c)) in DeleteFromArchive(a, c)
  {
    var i :| 0 <= i < |a| && a[i] == x;
    assert StripImage(a, c)[i] in StripImage(a, c);
  }

  lemma {:induction false} DropEmptyOfNonEmpty(a: seq<Archived>)
    requires forall x :: x in a ==> |x.messages| > 0
    ensures DropEmpty(a) == a
  {
    if a != [] {
      var init, last := a[..|a| - 1], a[|a| - 1];
      assert forall x :: x in init ==> x in a;
      DropEmptyOfNonEmpty(init);
      assert |last.messages| > 0 by {
        assert last in a;
      }
      assert a == init + [last];
    }
  }

  lemma {:induction false} StripImageOfStripped(a: seq<Archived>, c: string)
    requires forall x, t :: x in a && t in x.messages ==> !IsImageOf(t, c)
    ensures StripImage(a, c) == a
  {
    forall i | 0 <= i < |a| ensures StripImage(a, c)[i] == a[i] {
      WithoutImageNoMatch(a[i].messages, c);
    }
  }

  lemma {:induction false} WithoutImageNoMatch(msgs: seq<Turn>, c: string)
    requires forall t :: t in msgs ==> !IsImageOf(t, c)
    ensures WithoutImage(msgs, c) == msgs
  {
    if msgs != [] {
      WithoutImageNoMatch(msgs[..|msgs| - 1], c);
      assert msgs == msgs[..|msgs| - 1] + [msgs[|msgs| - 1]];
    }
  }

  /** Deleting the same image twice changes nothing the second time. */
  lemma DeleteIdempotent(a: seq<Archived>, c: string)
    ensures DeleteFromArchive(DeleteFromArchive(a, c), c) == DeleteFromArchive(a, c)
  {
    var r := DeleteFromArchive(a, c);
    DeleteLeavesNoImageAndNoEmpty(a, c);
    StripImageOfStripped(r, c);
    DropEmptyOfNonEmpty(r);
  }
}
