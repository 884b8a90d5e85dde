/** EPUB assembly (src/converter.rs): the XHTML page of a chapter, the name of
    its section, and `generate_epub`, which fills a book builder with the title,
    the cover and one section per chapter.

    The builder of the EPUB library is modelled by what it has been given. Its
    archive is a parameter: `accepts(path)` says whether writing a file at
    `path` into the archive succeeds. */
module Converter {
  import opened Wrappers
  import Text
  import opened MangalibApi

  // ---------------------------------------------------------------------------
  // Stripping the empty paragraphs

  /** An empty paragraph holding one no-break space, left behind by the
      upstream rich-text editor. */
  const Marker: string := "<p>\U{A0}</p>"

  /** An occurrence of the marker starts at position `i` of `s`. */
  predicate MarkerAt(s: string, i: nat)
  {
    i + |Marker| <= |s| && s[i..i + |Marker|] == Marker
  }

  /** `s.replace(Marker, "")`: one scan from the left that removes each marker
      it meets and resumes after it. */
  function RemoveMarkers(s: string): (r: string)
    decreases |s|
  {
    if |s| < |Marker| then s
    else if s[..|Marker|] == Marker then RemoveMarkers(s[|Marker|..])
    else [s[0]] + RemoveMarkers(s[1..])
  }

  /** The same scan, keeping the text between the markers it removes: the
      pieces of `s` around the removed occurrences. */
  function Segments(s: string): (r: seq<string>)
    ensures |r| >= 1
    decreases |s|
  {
    if |s| < |Marker| then [s]
    else if s[..|Marker|] == Marker then [[]] + Segments(s[|Marker|..])
    else
      var rest := Segments(s[1..]);
      [[s[0]] + rest[0]] + rest[1..]
  }

  /** Putting a marker back between neighbouring segments gives the original
      content, and the stripped content is the segments run together: exactly
      the removed occurrences are gone, and nothing else. */
  lemma {:induction false} RemoveMarkersBySegments(s: string)
    ensures Text.Join(Segments(s), Marker) == s
    ensures Text.Join(Segments(s), "") == RemoveMarkers(s)
    decreases |s|
  {
    if |s| < |Marker| {
    } else if s[..|Marker|] == Marker {
      var rest := Segments(s[|Marker|..]);
      RemoveMarkersBySegments(s[|Marker|..]);
      assert ([[]] + rest)[1..] == rest;
      assert s == Marker + s[|Marker|..];
    } else {
      var rest := Segments(s[1..]);
      RemoveMarkersBySegments(s[1..]);
      JoinConsFirst(s[0], rest, Marker);
      JoinConsFirst(s[0], rest, "");
      assert s == [s[0]] + s[1..];
    }
  }

  /** A marker at position `p > 0` of `s` is a marker at `p - 1` of `s[1..]`. */
  lemma MarkerAtShift(s: string, p: nat)
    requires 0 < p && |s| >= 1
    ensures MarkerAt(s, p) <==> MarkerAt(s[1..], p - 1)
  {
    if p + |Marker| <= |s| {
      assert s[1..][p - 1..p - 1 + |Marker|] == s[p..p + |Marker|];
    }
  }

  /** The cuts fall at the leftmost markers: the first segment holds no marker
      start, a single segment means the content holds no marker at all, and
      otherwise a marker starts right after the first segment and the other
      segments are those of the text after that marker. */
  lemma {:induction false} SegmentsCutAtLeftmostMarker(s: string)
    ensures var segs := Segments(s);
      && (forall p: nat :: p < |segs[0]| ==> !MarkerAt(s, p))
      && (|segs| == 1 ==> forall p: nat :: p < |s| ==> !MarkerAt(s, p))
      && (|segs| > 1 ==> && |segs[0]| + |Marker| <= |s|
                         && MarkerAt(s, |segs[0]|)
                         && segs[1..] == Segments(s[|segs[0]| + |Marker|..]))
    decreases |s|
  {
    if |s| < |Marker| {
    } else if s[..|Marker|] == Marker {
      assert MarkerAt(s, 0);
    } else {
      var rest := Segments(s[1..]);
      SegmentsCutAtLeftmostMarker(s[1..]);
      assert !MarkerAt(s, 0);
      forall p: nat | 0 < p < |s|
        ensures MarkerAt(s, p) <==> MarkerAt(s[1..], p - 1)
      {
        MarkerAtShift(s, p);
      }
      if |rest| > 1 {
        var k := |rest[0]|;
        assert s[1..][k + |Marker|..] == s[1 + k + |Marker|..];
      }
    }
  }

  /** The pass changes the content exactly when a marker occurs in it. */
  lemma RemoveMarkersChangesIffMarker(s: string)
    ensures RemoveMarkers(s) == s <==> forall p: nat :: p < |s| ==> !MarkerAt(s, p)
  {
    var segs := Segments(s);
    SegmentsCutAtLeftmostMarker(s);
    RemoveMarkersBySegments(s);
    if |segs| == 1 {
      assert Text.Join(segs, Marker) == segs[0] == Text.Join(segs, "");
    } else {
      RemoveMarkersLength(s);
      assert MarkerAt(s, |segs[0]|);
    }
  }

  /** Prepending a character to the first piece prepends it to the join. */
  lemma JoinConsFirst(ch: char, pieces: seq<string>, sep: string)
    requires |pieces| >= 1
    ensures Text.Join([[ch] + pieces[0]] + pieces[1..], sep) == [ch] + Text.Join(pieces, sep)
  {
    var p := [[ch] + pieces[0]] + pieces[1..];
    if |pieces| > 1 {
      assert p[1..] == pieces[1..];
    }
  }

  /** Every removed occurrence shortens the content by exactly the marker's
      eight characters. */
  lemma {:induction false} RemoveMarkersLength(s: string)
    ensures |RemoveMarkers(s)| == |s| - |Marker| * (|Segments(s)| - 1)
    decreases |s|
  {
    if |s| < |Marker| {
    } else if s[..|Marker|] == Marker {
      RemoveMarkersLength(s[|Marker|..]);
    } else {
      RemoveMarkersLength(s[1..]);
    }
  }

  /** Content holding no marker is kept verbatim. */
  lemma {:induction false} RemoveMarkersWithoutMarker(s: string)
    requires forall i: nat :: i < |s| ==> !MarkerAt(s, i)
    ensures RemoveMarkers(s) == s
    ensures |Segments(s)| == 1
    decreases |s|
  {
    if |s| >= |Marker| {
      assert !MarkerAt(s, 0);
      forall i: nat | i < |s[1..]|
        ensures !MarkerAt(s[1..], i)
      {
        assert !MarkerAt(s, i + 1);
        if i + |Marker| <= |s[1..]| {
          assert s[1..][i..i + |Marker|] == s[i + 1..i + 1 + |Marker|];
        }
      }
      RemoveMarkersWithoutMarker(s[1..]);
      assert s == [s[0]] + s[1..];
    }
  }

  /** One step of the scan where no marker starts: the first character is
      kept and the scan goes on from the next one. */
  lemma RemoveMarkersKeepStep(s: string)
    requires |s| >= 1 && !MarkerAt(s, 0)
    ensures RemoveMarkers(s) == [s[0]] + RemoveMarkers(s[1..])
  {
    if |s| < |Marker| {
      assert s == [s[0]] + s[1..];
    }
  }

  /** One step of the scan at a marker: it is dropped and the scan goes on
      after it. */
  lemma RemoveMarkersDropStep(rest: string)
    ensures RemoveMarkers(Marker + rest) == RemoveMarkers(rest)
  {
    var s := Marker + rest;
    assert s[..|Marker|] == Marker && s[|Marker|..] == rest;
  }

  /** A marker wrapped around another one, split after its first three
      characters, loses only the inner one. */
  lemma NestedMarkerRemains()
    ensures RemoveMarkers(Marker[..3] + (Marker + Marker[3..])) == Marker
  {
    var head := Marker[..3];
    var tail := Marker[3..];
    var s := head + (Marker + tail);
    RemoveMarkersDropStep(tail);
    assert |tail| < |Marker|;
    assert s[3..] == Marker + tail;
    assert !MarkerAt(s[2..], 0) by { assert s[2..][..|Marker|][0] == Marker[2]; }
    RemoveMarkersKeepStep(s[2..]);
    assert s[2..][1..] == s[3..];
    assert !MarkerAt(s[1..], 0) by { assert s[1..][..|Marker|][0] == Marker[1]; }
    RemoveMarkersKeepStep(s[1..]);
    assert s[1..][1..] == s[2..];
    assert !MarkerAt(s, 0) by { assert s[..|Marker|][3] == Marker[0]; }
    RemoveMarkersKeepStep(s);
    assert [s[0], s[1], s[2]] == head;
    assert head + tail == Marker;
  }

  /** The scan is a single pass: removing a marker can bring the two halves of
      another one together, and that one stays. */
  lemma SinglePassLeavesMarker()
    ensures RemoveMarkers("<p><p>\U{A0}</p>\U{A0}</p>") == Marker
  {
    NestedMarkerRemains();
    assert Marker[..3] + (Marker + Marker[3..]) == "<p><p>\U{A0}</p>\U{A0}</p>";
  }

  // ---------------------------------------------------------------------------
  // The XHTML page of a chapter

  const XhtmlHead: string :=
    "<?xml version=\"1.0\" encoding=\"UTF-8\" ?>\n"
    + "<!DOCTYPE html PUBLIC \"-//W3C//DTD XHTML 1.1//EN\" \"http://www.w3.org/TR/xhtml11/DTD/xhtml11.dtd\">\n"
    + "<html xmlns=\"http://www.w3.org/1999/xhtml\" xml:lang=\"en\">\n"
    + "  <head>\n"
    + "    <meta http-equiv=\"Content-Type\" content=\"application/xhtml+xml; charset=utf-8\" />\n"
    + "    <title>"

  const XhtmlAfterTitle: string :=
    "</title>\n"
    + "    <link rel=\"stylesheet\" href=\"css/main.css\" type=\"text/css\" />\n"
    + "  </head>\n"
    + "  <body>\n"
    + "  <h1>"

  const XhtmlAfterHeading: string := "</h1>\n  "

  const XhtmlTail: string := "\n  </body>\n</html>"

  /** `make_xhtml_content`: the chapter's name in `<title>` and in `<h1>`, then
      its content with the markers stripped. */
  function MakeXhtmlContent(chapter: Chapter): (page: string)
    ensures |page| == |XhtmlHead| + |XhtmlAfterTitle| + |XhtmlAfterHeading| + |XhtmlTail|
                      + 2 * |chapter.name| + |chapter.content| - |Marker| * (|Segments(chapter.content)| - 1)
  {
    var body := RemoveMarkers(chapter.content);
    var page := XhtmlHead + chapter.name + XhtmlAfterTitle + chapter.name + XhtmlAfterHeading
                + body + XhtmlTail;
    RemoveMarkersLength(chapter.content);
    page
  }

  /** Reads the title back from a page made from a template that starts with
      `head`: the text after `head` up to the first `<`. */
  function TitleIn(doc: string, head: string): Option<string>
  {
    if |head| <= |doc| && doc[..|head|] == head then
      match Text.SplitOnce(doc[|head|..], '<')
      case Some(parts) => Some(parts.0)
      case None => None
    else None
  }

  /** Reads the body back from a page made from a template: what lies between
      the heading (which must repeat the title) and the fixed tail. */
  function BodyIn(doc: string, head: string, afterTitle: string, afterHeading: string, tail: string)
    : Option<string>
  {
    match TitleIn(doc, head)
    case None => None
    case Some(title) =>
      var front := head + title + afterTitle + title + afterHeading;
      if |front| + |tail| <= |doc| && doc[..|front|] == front && doc[|doc| - |tail|..] == tail
      then Some(doc[|front|..|doc| - |tail|])
      else None
  }

  /** A page made from a template whose text after the title starts with `<`
      gives back its title and its body, when the title holds no `<`. */
  lemma TemplateRoundTrip(head: string, afterTitle: string, afterHeading: string, tail: string,
                          title: string, body: string)
    requires '<' !in title && |afterTitle| >= 1 && afterTitle[0] == '<'
    ensures var doc := head + title + afterTitle + title + afterHeading + body + tail;
      && TitleIn(doc, head) == Some(title)
      && BodyIn(doc, head, afterTitle, afterHeading, tail) == Some(body)
  {
    var doc := head + title + afterTitle + title + afterHeading + body + tail;
    var rest := afterTitle[1..] + title + afterHeading + body + tail;
    var front := head + title + afterTitle + title + afterHeading;
    assert doc == head + (title + ['<'] + rest);
    assert doc[..|head|] == head;
    assert doc[|head|..] == title + ['<'] + rest;
    Text.SplitOnceAt(title, '<', rest);
    assert doc == front + body + tail;
    assert doc[..|front|] == front;
    assert doc[|doc| - |tail|..] == tail;
    assert doc[|front|..|doc| - |tail|] == body;
  }

  /** Every slot of a page filled from a template holds what was put there:
      the fixed pieces, the title twice and the body. */
  lemma TemplateSlots(head: string, afterTitle: string, afterHeading: string, tail: string,
                      title: string, body: string)
    ensures var doc := head + title + afterTitle + title + afterHeading + body + tail;
      var t1 := |head| + |title| + |afterTitle|;
      var b0 := t1 + |title| + |afterHeading|;
      && |doc| == b0 + |body| + |tail|
      && doc[..|head|] == head
      && doc[|head|..|head| + |title|] == title
      && doc[|head| + |title|..t1] == afterTitle
      && doc[t1..t1 + |title|] == title
      && doc[t1 + |title|..b0] == afterHeading
      && doc[b0..b0 + |body|] == body
      && doc[b0 + |body|..] == tail
  {
    var doc := head + title + afterTitle + title + afterHeading + body + tail;
    var t1 := |head| + |title| + |afterTitle|;
    var b0 := t1 + |title| + |afterHeading|;
    var front := head + title + afterTitle + title + afterHeading;
    assert doc == front + body + tail;
    assert doc[..|front|] == front;
    assert doc[b0..b0 + |body|] == body;
    assert doc[b0 + |body|..] == tail;
    assert front[..|head|] == head;
    assert front[|head|..|head| + |title|] == title;
    assert front[|head| + |title|..t1] == afterTitle;
    assert front[t1..t1 + |title|] == title;
    assert front[t1 + |title|..b0] == afterHeading;
  }

  /** Whatever the chapter's name, the page holds it in the `<title>` and in
      the `<h1>` slot, and its stripped content between the heading and the
      closing tags. */
  lemma PageSlots(c: Chapter)
    ensures var page := MakeXhtmlContent(c);
      var t0 := |XhtmlHead|;
      var t1 := t0 + |c.name| + |XhtmlAfterTitle|;
      var b0 := t1 + |c.name| + |XhtmlAfterHeading|;
      && |page| == b0 + |RemoveMarkers(c.content)| + |XhtmlTail|
      && page[..t0] == XhtmlHead
      && page[t0..t0 + |c.name|] == c.name
      && page[t1..t1 + |c.name|] == c.name
      && page[b0..|page| - |XhtmlTail|] == RemoveMarkers(c.content)
      && page[|page| - |XhtmlTail|..] == XhtmlTail
  {
    TemplateSlots(XhtmlHead, XhtmlAfterTitle, XhtmlAfterHeading, XhtmlTail, c.name, RemoveMarkers(c.content));
  }

  /** A chapter whose name holds no `<` can be read back from its page: the
      title and the heading give its name, and the body is its stripped
      content. */
  lemma XhtmlRoundTrip(chapter: Chapter)
    requires '<' !in chapter.name
    ensures TitleIn(MakeXhtmlContent(chapter), XhtmlHead) == Some(chapter.name)
    ensures BodyIn(MakeXhtmlContent(chapter), XhtmlHead, XhtmlAfterTitle, XhtmlAfterHeading, XhtmlTail)
            == Some(RemoveMarkers(chapter.content))
  {
    assert XhtmlAfterTitle[0] == '<';
    TemplateRoundTrip(XhtmlHead, XhtmlAfterTitle, XhtmlAfterHeading, XhtmlTail,
                      chapter.name, RemoveMarkers(chapter.content));
  }

  // ---------------------------------------------------------------------------
  // Sections

  /** The file name of a chapter's section inside the book. */
  function SectionFileName(volume: string, number: string): (name: string)
    ensures |name| == |volume| + |number| + 21
    ensures name[|name| - 6..] == ".xhtml"
    ensures name[..7] == "volume_" && name[7..7 + |volume|] == volume
  {
    "volume" + ['_'] + (volume + ['_'] + ("number_" + number + ".xhtml"))
  }

  /** Chapters whose volumes hold no `_` get distinct file names unless they
      have the same volume and number. (The names do not sort in reading
      order: number "10" sorts before number "2".) */
  lemma SectionFileNameInjective(v1: string, n1: string, v2: string, n2: string)
    requires '_' !in v1 && '_' !in v2
    requires SectionFileName(v1, n1) == SectionFileName(v2, n2)
    ensures v1 == v2 && n1 == n2
  {
    SectionFileNameParts(v1, n1);
    SectionFileNameParts(v2, n2);
    var t1 := "number_" + n1 + ".xhtml";
    var t2 := "number_" + n2 + ".xhtml";
    assert n1 == t1[7..|t1| - 6];
    assert n2 == t2[7..|t2| - 6];
  }

  /** A file name splits at its first two `_` into `volume`, the volume and the
      rest, when the volume holds no `_`. */
  lemma SectionFileNameParts(volume: string, number: string)
    requires '_' !in volume
    ensures var name := SectionFileName(volume, number);
      var rest := volume + "_number_" + number + ".xhtml";
      && Text.SplitOnce(name, '_') == Some(("volume", rest))
      && Text.SplitOnce(rest, '_') == Some((volume, "number_" + number + ".xhtml"))
  {
    var name := SectionFileName(volume, number);
    var rest := volume + "_number_" + number + ".xhtml";
    assert "volume_" == "volume" + ['_'];
    assert name == "volume" + ['_'] + rest;
    Text.SplitOnceAt("volume", '_', rest);
    var tail := "number_" + number + ".xhtml";
    assert rest == volume + ['_'] + tail;
    Text.SplitOnceAt(volume, '_', tail);
  }

  /** One section of the book: its file name, its title and its page. */
  datatype Section = Section(fileName: string, title: string, body: string)

  function SectionOf(chapter: Chapter): (section: Section)
    ensures section.title == chapter.name
    ensures |section.fileName| >= 6 && section.fileName[|section.fileName| - 6..] == ".xhtml"
  {
    Section(SectionFileName(chapter.volume, chapter.number), chapter.name, MakeXhtmlContent(chapter))
  }

  /** One section per chapter, in the chapters' order. */
  function SectionsOf(chapters: seq<Chapter>): (sections: seq<Section>)
    ensures |sections| == |chapters|
    ensures forall i :: 0 <= i < |chapters| ==> sections[i].title == chapters[i].name
  {
    seq(|chapters|, i requires 0 <= i < |chapters| => SectionOf(chapters[i]))
  }

  /** One more chapter adds its section at the end. */
  lemma SectionsOfAppend(chapters: seq<Chapter>, i: nat)
    requires i < |chapters|
    ensures SectionsOf(chapters[..i + 1]) == SectionsOf(chapters[..i]) + [SectionOf(chapters[i])]
  {
    var longer := SectionsOf(chapters[..i + 1]);
    var shorter := SectionsOf(chapters[..i]);
    assert forall j :: 0 <= j < i ==> longer[j] == SectionOf(chapters[j]) == shorter[j];
  }

  /** Distinct chapters (by volume and number, volumes free of `_`) get
      sections with distinct file names. */
  lemma SectionNamesDistinct(chapters: seq<Chapter>)
    requires forall i :: 0 <= i < |chapters| ==> '_' !in chapters[i].volume
    requires forall i, j :: 0 <= i < j < |chapters| ==>
               chapters[i].volume != chapters[j].volume || chapters[i].number != chapters[j].number
    ensures forall i, j :: 0 <= i < j < |chapters| ==>
              SectionsOf(chapters)[i].fileName != SectionsOf(chapters)[j].fileName
  {
    var sections := SectionsOf(chapters);
    forall i, j | 0 <= i < j < |chapters|
      ensures sections[i].fileName != sections[j].fileName
    {
      SectionFileNamesDiffer(chapters[i], chapters[j]);
    }
  }

  lemma SectionFileNamesDiffer(a: Chapter, b: Chapter)
    requires '_' !in a.volume && '_' !in b.volume
    requires a.volume != b.volume || a.number != b.number
    ensures SectionOf(a).fileName != SectionOf(b).fileName
  {
    if SectionFileName(a.volume, a.number) == SectionFileName(b.volume, b.number) {
      SectionFileNameInjective(a.volume, a.number, b.volume, b.number);
    }
  }

  // ---------------------------------------------------------------------------
  // The book builder and generate_epub

  datatype CoverImage = CoverImage(path: string, data: seq<bv8>, mediaType: string)

  /** The archive refused the file written at `path`. */
  datatype EpubError = ArchiveRejected(path: string)

  const CoverPath: string := "cover_image.png"
  const CoverMediaType: string := "image/png"

  /** What the EPUB builder has been given so far. */
  class EpubBuilder {
    /** Whether the archive accepts a file written at a path. */
    const accepts: string -> bool
    var title: Option<string>
    var cover: Option<CoverImage>
    var sections: seq<Section>

    constructor (accepts: string -> bool)
      ensures this.accepts == accepts
      ensures title == None && cover == None && sections == []
    {
      this.accepts := accepts;
      title := None;
      cover := None;
      sections := [];
    }

    /** `metadata("title", t)`. */
    method SetTitle(t: string)
      modifies this
      ensures title == Some(t)
      ensures cover == old(cover) && sections == old(sections)
    {
      title := Some(t);
    }

    /** `add_cover_image(path, data, mediaType)`. */
    method AddCoverImage(path: string, data: seq<bv8>, mediaType: string) returns (ok: bool)
      modifies this
      ensures ok == accepts(path)
      ensures cover == if ok then Some(CoverImage(path, data, mediaType)) else old(cover)
      ensures title == old(title) && sections == old(sections)
    {
      ok := accepts(path);
      if ok {
        cover := Some(CoverImage(path, data, mediaType));
      }
    }

    /** `add_content(section)`: the section goes after the ones already added. */
    method AddContent(section: Section) returns (ok: bool)
      modifies this
      ensures ok == accepts(section.fileName)
      ensures sections == if ok then old(sections) + [section] else old(sections)
      ensures title == old(title) && cover == old(cover)
    {
      ok := accepts(section.fileName);
      if ok {
        sections := sections + [section];
      }
    }
  }

  /** How many chapters are added before the archive first refuses one. */
  function AcceptedPrefix(chapters: seq<Chapter>, accepts: string -> bool): (k: nat)
    ensures k <= |chapters|
    ensures forall i :: 0 <= i < k ==> accepts(SectionFileName(chapters[i].volume, chapters[i].number))
    ensures k < |chapters| ==> !accepts(SectionFileName(chapters[k].volume, chapters[k].number))
  {
    if chapters == [] then 0
    else if !accepts(SectionFileName(chapters[0].volume, chapters[0].number)) then 0
    else 1 + AcceptedPrefix(chapters[1..], accepts)
  }

  /** The name of the output file. */
  function EpubFileName(info: Info): (file: string)
    ensures |file| == |info.name| + 5
    ensures file[..|info.name|] == info.name && file[|info.name|..] == ".epub"
  {
    info.name + ".epub"
  }

  /** `generate_epub` up to writing the file: the title is the work's Russian
      name, the cover is registered as a PNG, then one section per chapter is
      added in order; the first refusal of the archive ends the run with an
      error and no further sections. On success the result names the file the
      book is written to. */
  method GenerateEpub(info: Info, cover: seq<bv8>, chapters: seq<Chapter>, accepts: string -> bool)
    returns (r: Result<string, EpubError>, book: EpubBuilder)
    ensures book.title == Some(info.rusName)
    ensures !accepts(CoverPath) ==>
              r == Err(ArchiveRejected(CoverPath)) && book.cover == None && book.sections == []
    ensures accepts(CoverPath) ==>
              var k := AcceptedPrefix(chapters, accepts);
              && book.cover == Some(CoverImage(CoverPath, cover, CoverMediaType))
              && book.sections == SectionsOf(chapters[..k])
              && (k == |chapters| ==> r == Ok(EpubFileName(info)))
              && (k < |chapters| ==> r == Err(ArchiveRejected(SectionFileName(chapters[k].volume, chapters[k].number))))
  {
    book := new EpubBuilder(accepts);
    book.SetTitle(info.rusName);
    var coverOk := book.AddCoverImage(CoverPath, cover, CoverMediaType);
    if !coverOk {
      return Err(ArchiveRejected(CoverPath)), book;
    }
    var i := 0;
    while i < |chapters|
      invariant 0 <= i <= |chapters|
      invariant forall j :: 0 <= j < i ==> accepts(SectionFileName(chapters[j].volume, chapters[j].number))
      invariant book.title == Some(info.rusName)
      invariant book.cover == Some(CoverImage(CoverPath, cover, CoverMediaType))
      invariant book.sections == SectionsOf(chapters[..i])
    {
      var chapter := chapters[i];
      var section := SectionOf(chapter);
      SectionsOfAppend(chapters, i);
      var added := book.AddContent(section);
      if !added {
        AcceptedPrefixAt(chapters, accepts, i);
        return Err(ArchiveRejected(section.fileName)), book;
      }
      assert chapters[..i + 1][..i] == chapters[..i];
      i := i + 1;
    }
    AcceptedPrefixAt(chapters, accepts, i);
    assert chapters[..i] == chapters;
    r := Ok(EpubFileName(info));
  }

  /** The accepted prefix is determined by the first refusal. */
  lemma AcceptedPrefixAt(chapters: seq<Chapter>, accepts: string -> bool, k: nat)
    requires k <= |chapters|
    requires forall i :: 0 <= i < k ==> accepts(SectionFileName(chapters[i].volume, chapters[i].number))
    requires k < |chapters| ==> !accepts(SectionFileName(chapters[k].volume, chapters[k].number))
    ensures AcceptedPrefix(chapters, accepts) == k
  {
  }

  /** When the archive accepts everything, the book holds one section per
      chapter, in the chapters' order. */
  lemma GenerateEpubAllAccepted(chapters: seq<Chapter>, accepts: string -> bool)
    requires forall i :: 0 <= i < |chapters| ==> accepts(SectionFileName(chapters[i].volume, chapters[i].number))
    ensures AcceptedPrefix(chapters, accepts) == |chapters|
    ensures chapters[..AcceptedPrefix(chapters, accepts)] == chapters
  {
    AcceptedPrefixAt(chapters, accepts, |chapters|);
  }
}
