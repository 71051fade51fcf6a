/**
 * The image gallery: a list computed afresh from the archive and the current
 * conversation, one entry per image turn, never de-duplicated.
 */
module Gallery {
  import opened Conversation
  import opened Archive

  /**
   * When an image was seen: an archived image carries its conversation's
   * timestamp, an image of the current conversation the clock reading taken
   * while the gallery is built.
   */
  datatype Stamp = SavedAt(iso: string) | Now(millis: int)

  /** One thumbnail `{src, ts}`. */
  datatype GalleryItem = GalleryItem(src: string, ts: Stamp)

  /** The image turns of `msgs`, in order, each stamped `ts`. */
  function ImagesOf(msgs: seq<Turn>, ts: Stamp): (r: seq<GalleryItem>)
    ensures |r| <= |msgs|
    ensures forall i :: 0 <= i < |r| ==> r[i].ts == ts
  {
    if msgs == [] then []
    else
      var rest := ImagesOf(msgs[..|msgs| - 1], ts);
      var last := msgs[|msgs| - 1];
      if last.kind == Image then rest + [GalleryItem(last.content, ts)] else rest
  }

  /** The image turns of every archived conversation, in archive order. */
  function ArchiveImages(a: seq<Archived>): seq<GalleryItem>
  {
    if a == [] then []
    else
      var last := a[|a| - 1];
      ArchiveImages(a[..|a| - 1]) + ImagesOf(last.messages, SavedAt(last.timestamp))
  }

  /**
   * The gallery: archived images first, then the current conversation's, at
   * most one per current turn and each stamped with the clock reading.
   */
  function GalleryList(a: seq<Archived>, cur: seq<Turn>, now: int): (r: seq<GalleryItem>)
    ensures |ArchiveImages(a)| <= |r| <= |ArchiveImages(a)| + |cur|
    ensures r[..|ArchiveImages(a)|] == ArchiveImages(a)
    ensures forall i :: |ArchiveImages(a)| <= i < |r| ==> r[i].ts == Now(now)
  {
    ArchiveImages(a) + ImagesOf(cur, Now(now))
  }

  /** The image contents of gallery items, in order. */
  function Sources(items: seq<GalleryItem>): seq<string>
  {
    seq(|items|, i requires 0 <= i < |items| => items[i].src)
  }

  /** The contents of the image turns of `msgs`, in order. */
  function ImageContents(msgs: seq<Turn>): seq<string>
  {
    if msgs == [] then []
    else
      var rest := ImageContents(msgs[..|msgs| - 1]);
      var last := msgs[|msgs| - 1];
      if last.kind == Image then rest + [last.content] else rest
  }

  /** How many turns of `msgs` are the image `c`. */
  function CountImage(msgs: seq<Turn>, c: string): nat
  {
    if msgs == [] then 0
    else CountImage(msgs[..|msgs| - 1], c) + (if IsImageOf(msgs[|msgs| - 1], c) then 1 else 0)
  }

  lemma {:induction false} ImagesOfContents(msgs: seq<Turn>, ts: Stamp)
    ensures Sources(ImagesOf(msgs, ts)) == ImageContents(msgs)
  {
    if msgs != [] {
      ImagesOfContents(msgs[..|msgs| - 1], ts);
    }
  }

  lemma {:induction false} ImageContentsAppend(x: seq<Turn>, y: seq<Turn>)
    ensures ImageContents(x + y) == ImageContents(x) + ImageContents(y)
  {
    if y == [] {
      assert x + y == x;
    } else {
      assert (x + y)[..|x + y| - 1] == x + y[..|y| - 1];
      ImageContentsAppend(x, y[..|y| - 1]);
    }
  }

  lemma SourcesAppend(x: seq<GalleryItem>, y: seq<GalleryItem>)
    ensures Sources(x + y) == Sources(x) + Sources(y)
  {
    assert |Sources(x + y)| == |Sources(x) + Sources(y)|;
  }

  lemma {:induction false} ArchiveImagesContents(a: seq<Archived>)
    ensures Sources(ArchiveImages(a)) == ImageContents(Flatten(a))
  {
    if a != [] {
      var init, last := a[..|a| - 1], a[|a| - 1];
      ArchiveImagesContents(init);
      ImagesOfContents(last.messages, SavedAt(last.timestamp));
      SourcesAppend(ArchiveImages(init), ImagesOf(last.messages, SavedAt(last.timestamp)));
      ImageContentsAppend(Flatten(init), last.messages);
    }
  }

  /**
   * The gallery lists the image turns of every archived conversation in
   * archive order, then those of the current conversation, each stamped with
   * the clock reading; its length is the number of image turns.
   */
  lemma GalleryHoldsEveryImageInOrder(a: seq<Archived>, cur: seq<Turn>, now: int)
    ensures Sources(GalleryList(a, cur, now)) == ImageContents(Flatten(a)) + ImageContents(cur)
    ensures |GalleryList(a, cur, now)| == |ImageContents(Flatten(a))| + |ImageContents(cur)|
    ensures forall i :: |ArchiveImages(a)| <= i < |GalleryList(a, cur, now)| ==> GalleryList(a, cur, now)[i].ts == Now(now)
  {
    ArchiveImagesContents(a);
    ImagesOfContents(cur, Now(now));
    SourcesAppend(ArchiveImages(a), ImagesOf(cur, Now(now)));
  }

  lemma {:induction false} ImageContentsCount(msgs: seq<Turn>, c: string)
    ensures multiset(ImageContents(msgs))[c] == CountImage(msgs, c)
  {
    if msgs != [] {
      ImageContentsCount(msgs[..|msgs| - 1], c);
    }
  }

  /**
   * No de-duplication: an image content appears in the gallery once for every
   * image turn carrying it, archived or current.
   */
  lemma GalleryKeepsDuplicates(a: seq<Archived>, cur: seq<Turn>, now: int, c: string)
    ensures multiset(Sources(GalleryList(a, cur, now)))[c] == CountImage(Flatten(a), c) + CountImage(cur, c)
  {
    GalleryHoldsEveryImageInOrder(a, cur, now);
    ImageContentsCount(Flatten(a), c);
    ImageContentsCount(cur, c);
  }

  lemma {:induction false} CountImageNone(msgs: seq<Turn>, c: string)
    requires forall t :: t in msgs ==> !IsImageOf(t, c)
    ensures CountImage(msgs, c) == 0
  {
    if msgs != [] {
      CountImageNone(msgs[..|msgs| - 1], c);
    }
  }

  /**
   * After image `c` is deleted from the archive, the gallery still shows it
   * once for each copy in the current conversation, and no more.
   */
  lemma GalleryAfterDelete(a: seq<Archived>, cur: seq<Turn>, now: int, c: string)
    ensures multiset(Sources(GalleryList(DeleteFromArchive(a, c), cur, now)))[c] == CountImage(cur, c)
  {
    GalleryKeepsDuplicates(DeleteFromArchive(a, c), cur, now, c);
    DeleteKeepsOtherTurnsInOrder(a, c);
    CountImageNone(WithoutImage(Flatten(a), c), c);
  }
}
