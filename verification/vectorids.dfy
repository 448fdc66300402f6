/**
 Vector ids of the upload step:
   text pieces  `f"{chunk['document']}_{chunk['chunk_id']}"`,
   tables       `f"{doc_filename}_table"`,
   images       `f"{doc_filename}_{Path(image_path).stem}"`.
 Text ids and image ids determine what they were built from; a table id only
 determines its document, so every table of a document shares one id.
 */
module VectorIds {
  import opened Text
  import opened Naming

  function TextVectorId(document: string, chunkId: nat): string
  {
    document + "_" + NatToString(chunkId)
  }

  function TableVectorId(doc: string): string
  {
    doc + "_table"
  }

  /** The id of an image file, from its stem alone. */
  function ImageVectorId(stem: string): string
  {
    ImageDocName(stem) + "_" + stem
  }

  /** A text id determines its document and chunk id. */
  lemma TextVectorIdInjective(d1: string, c1: nat, d2: string, c2: nat)
    requires TextVectorId(d1, c1) == TextVectorId(d2, c2)
    ensures d1 == d2 && c1 == c2
  {
    var id := TextVectorId(d1, c1);
    var n1, n2 := NatToString(c1), NatToString(c2);
    assert id == d1 + "_" + n1 && id == d2 + "_" + n2;
    assert forall j :: 0 <= j < |n1| ==> id[|id| - |n1| + j] == n1[j];
    assert forall j :: 0 <= j < |n2| ==> id[|id| - |n2| + j] == n2[j];
    assert id[|id| - |n1| - 1] == '_' && id[|id| - |n2| - 1] == '_';
    assert |n1| == |n2|;
    assert n1 == id[|id| - |n1|..] == n2;
    assert d1 == id[..|d1|] == d2;
    NatToStringInjective(c1, c2);
  }

  /** Two table files share an id exactly when they name the same document. */
  lemma TableVectorIdShared(stem1: string, stem2: string)
    ensures TableVectorId(TableDocName(stem1)) == TableVectorId(TableDocName(stem2))
        <==> TableDocName(stem1) == TableDocName(stem2)
  {
    var d1, d2 := TableDocName(stem1), TableDocName(stem2);
    if TableVectorId(d1) == TableVectorId(d2) {
      assert d1 == TableVectorId(d1)[..|d1|];
      assert d2 == TableVectorId(d2)[..|d2|];
    }
  }

  /** A text id ends in a digit and a table id in "e", so the table loop
      never overwrites a text entry. */
  lemma TextTableIdsDisjoint(document: string, chunkId: nat, doc: string)
    ensures TextVectorId(document, chunkId) != TableVectorId(doc)
  {
    var digits := NatToString(chunkId);
    var id := TextVectorId(document, chunkId);
    assert id[|id| - 1] == digits[|digits| - 1];
    assert IsDigit(digits[|digits| - 1]);
  }

  predicate IsImageMarker(p: string)
  {
    p == PageMarker || p == PictureMarker
  }

  /**
   What `split('-page')[0].split('-picture')[0]` promises: the result is a
   prefix of the stem, no marker starts inside it, and it ends where the stem
   ends or where a marker starts.
   */
  lemma ImageDocNameSpec(s: string)
    ensures StartsWith(s, ImageDocName(s))
    ensures forall i: nat, p | i < |ImageDocName(s)| && IsImageMarker(p) :: !OccursAt(s, p, i)
    ensures ImageDocName(s) == s || OccursAt(s, PageMarker, |ImageDocName(s)|)
                                 || OccursAt(s, PictureMarker, |ImageDocName(s)|)
  {
    var h := SplitHead(s, PageMarker);
    var d := SplitHead(h, PictureMarker);
    assert h == s[..|h|];
    forall i: nat | i < |d| ensures !OccursAt(s, PictureMarker, i) {
      if i + |PictureMarker| <= |h| {
        OccursInLeft(h, s[|h|..], PictureMarker, i);
        assert h + s[|h|..] == s;
      } else if i + |PictureMarker| <= |s| {
        assert h != s;
        assert OccursAt(s, PageMarker, |h|);
        MarkersAreHeadUnique();
        assert h + s[|h|..] == s;
        NoStraddle(h, s[|h|..], PictureMarker, i);
      }
    }
    if d != h {
      OccursInLeft(h, s[|h|..], PictureMarker, |d|);
      assert h + s[|h|..] == s;
    }
  }

  /** A marker occurring at `i` in `d + "_" + rest`, where `d` is a prefix of
      `s` and no marker starts in `s` before |d|, starts after the "_". */
  lemma MarkerAfterUnderscore(d: string, rest: string, s: string, p: string, i: nat)
    requires IsImageMarker(p)
    requires StartsWith(s, d)
    requires forall j: nat | j < |d| :: !OccursAt(s, p, j)
    requires i <= |d|
    ensures !OccursAt(d + "_" + rest, p, i)
  {
    var id := d + "_" + rest;
    assert forall k :: 0 <= k < |p| ==> p[k] != '_';
    if i + |p| <= |id| {
      if i + |p| <= |d| {
        assert id[i..i + |p|] == d[i..i + |p|];
        assert forall k :: 0 <= k < |d| ==> d[k] == s[..|d|][k] == s[k];
        assert d[i..i + |p|] == s[i..i + |p|];
        assert !OccursAt(s, p, i);
        assert s[i..i + |p|] != p;
        assert id[i..i + |p|] != p;
      } else {
        assert id[i..i + |p|][|d| - i] == '_' != p[|d| - i];
        assert id[i..i + |p|] != p;
      }
    }
  }

  /** No marker starts in an image id before the copy of the document in its stem ends. */
  lemma NoMarkerInIdPrefix(s: string, p: string, at: nat)
    requires IsImageMarker(p) && at < 2 * |ImageDocName(s)| + 1
    ensures !OccursAt(ImageVectorId(s), p, at)
  {
    var d := ImageDocName(s);
    ImageDocNameSpec(s);
    if at <= |d| {
      MarkerAfterUnderscore(d, s, s, p, at);
    } else {
      assert ImageVectorId(s) == (d + "_") + s;
      OccursInRight(d + "_", s, p, at - |d| - 1);
    }
  }

  /** A marker that ends the document part of a stem shows up in the id right
      after the document's second copy. */
  lemma MarkerInId(s: string, p: string)
    requires IsImageMarker(p) && OccursAt(s, p, |ImageDocName(s)|)
    ensures OccursAt(ImageVectorId(s), p, 2 * |ImageDocName(s)| + 1)
  {
    var d := ImageDocName(s);
    assert ImageVectorId(s) == (d + "_") + s;
    OccursInRight(d + "_", s, p, |d|);
  }

  /** Two stems with the same id have document parts of the same length: a
      shorter one would put a marker inside the other's document part. */
  lemma ImageDocNotShorter(s1: string, s2: string)
    requires ImageVectorId(s1) == ImageVectorId(s2)
    ensures |ImageDocName(s1)| >= |ImageDocName(s2)|
  {
    var d1, d2 := ImageDocName(s1), ImageDocName(s2);
    var id := ImageVectorId(s1);
    if |d1| < |d2| {
      assert OccursAt(s1, PageMarker, |d1|) || OccursAt(s1, PictureMarker, |d1|) by {
        ImageDocNameSpec(s1);
        assert |d2| <= |SplitHead(s2, PageMarker)| <= |s2|;
        assert |id| == |d1| + 1 + |s1| == |d2| + 1 + |s2|;
        assert s1 != d1;
      }
      var p := if OccursAt(s1, PageMarker, |d1|) then PageMarker else PictureMarker;
      MarkerInId(s1, p);
      NoMarkerInIdPrefix(s2, p, 2 * |d1| + 1);
      assert false;
    }
  }

  /** Distinct image stems get distinct ids: `d + "_" + stem` determines `stem`. */
  lemma ImageVectorIdInjective(s1: string, s2: string)
    requires ImageVectorId(s1) == ImageVectorId(s2)
    ensures s1 == s2
  {
    var d1, d2 := ImageDocName(s1), ImageDocName(s2);
    var id := ImageVectorId(s1);
    ImageDocNotShorter(s1, s2);
    ImageDocNotShorter(s2, s1);
    assert d1 == id[..|d1|] == d2;
    assert s1 == id[|d1| + 1..] == s2;
  }

  /** Anything after a page stem is ignored when recovering the document. */
  lemma ImageDocOfPageStem(doc: string, pageNo: nat, suffix: string)
    requires !Contains(doc, PageMarker) && !Contains(doc, PictureMarker)
    ensures ImageDocName(PageStem(doc, pageNo) + suffix) == doc
  {
    var tail := "-page-" + NatToString(pageNo) + suffix;
    assert PageStem(doc, pageNo) + suffix == doc + tail;
    assert tail[..|PageMarker|] == PageMarker;
    MarkersAreHeadUnique();
    SplitHeadOfJoin(doc, tail, PageMarker);
    SplitHeadAbsent(doc, PictureMarker);
  }

  /** The id schemes share one space of ids and can meet: for any document
      `d` free of the markers and any page `p`, the image stem
      `{d}-page-{p}_{c}` has the id of text chunk `c` of the document
      `{d}_{d}-page-{p}`. */
  lemma ImageTextCollision(doc: string, pageNo: nat, c: nat)
    requires !Contains(doc, PageMarker) && !Contains(doc, PictureMarker)
    ensures ImageVectorId(PageStem(doc, pageNo) + ("_" + NatToString(c)))
            == TextVectorId(doc + "_" + PageStem(doc, pageNo), c)
  {
    var stem := PageStem(doc, pageNo);
    var digits := "_" + NatToString(c);
    ImageDocOfPageStem(doc, pageNo, digits);
    assert doc + "_" + (stem + digits) == (doc + "_" + stem) + digits;
  }

  /** Likewise the image stem `{d}-page-{p}_table` has the table id of the
      document `{d}_{d}-page-{p}`. */
  lemma ImageTableCollision(doc: string, pageNo: nat)
    requires !Contains(doc, PageMarker) && !Contains(doc, PictureMarker)
    ensures ImageVectorId(PageStem(doc, pageNo) + "_table") == TableVectorId(doc + "_" + PageStem(doc, pageNo))
  {
    var stem := PageStem(doc, pageNo);
    ImageDocOfPageStem(doc, pageNo, "_table");
    assert doc + "_" + (stem + "_table") == (doc + "_" + stem) + "_table";
  }
}
