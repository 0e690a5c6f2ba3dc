/** `update_publications.py`: the record pipeline of the updater that reads
    its Scholar ID from `SCHOLAR_ID`, with its strict sort key and an
    always-printed venue. */
module UpdatePublications {
  import opened Text
  import opened Records
  import opened StableSort
  import opened Html
  import Markers

  // ---------------------------------------------------------------------------
  // The sort key

  /** The sort lambda: 0 for `n.d.`, otherwise `int(year)`; `None` is the
      `ValueError` that `int` raises. */
  function SortYear(year: string): (k: Option<int>)
    ensures year == "n.d." ==> k == Some(0)
    ensures year != "n.d." ==> k == ParseInt(year)
  {
    if year != "n.d." then ParseInt(year) else Some(0)
  }

  /** Every record's key can be computed. */
  predicate KeysParse(ps: seq<Pub>)
  {
    forall i :: 0 <= i < |ps| ==> SortYear(ps[i].year).Some?
  }

  /** The key as `list.sort` sees it once every key has been computed. */
  function StrictKey(p: Pub): int
  {
    match SortYear(p.year)
    case Some(v) => v
    case None => 0
  }

  /** Years printed as plain integers, and `n.d.`, have keys; an empty year,
      one with text around the number, or one with a trailing letter raises. */
  lemma SortYearCases(n: nat)
    ensures SortYear(NatToDecimal(n)) == Some(n)
    ensures SortYear("n.d.") == Some(0)
    ensures SortYear("") == None
    ensures SortYear("Spring " + NatToDecimal(n)) == None
    ensures SortYear(NatToDecimal(n) + "a") == None
  {
    ParseIntOfDecimal(n);
    var d := NatToDecimal(n);
    var spring := "Spring " + d;
    assert spring[0] == 'S';
    ParseIntStray(spring, 0);
    var lettered := d + "a";
    assert lettered[|d|] == 'a';
    ParseIntStray(lettered, |d|);
  }

  // ---------------------------------------------------------------------------
  // fetch_publications: extraction loop, sort and truncation

  /** The reference definition: the records in source order, stably sorted
      by year, largest first, cut to ten; or no record at all when some
      year cannot be read, because the whole body is inside one `try`. */
  function Top(raws: seq<RawPub>): (r: seq<Pub>)
    ensures !KeysParse(NormalizeAll(raws)) ==> r == []
    ensures KeysParse(NormalizeAll(raws)) ==> |r| == (if |raws| < 10 then |raws| else 10)
    ensures SortedDesc(r, StrictKey)
  {
    var ps := NormalizeAll(raws);
    TopOfSorted(ps, StrictKey, 10);
    if KeysParse(ps) then Take(SortDesc(ps, StrictKey), 10) else []
  }

  /** `fetch_publications` after the network calls. `list.sort` computes
      the key of every element before it moves any, so the scan over the
      keys comes first; the first key that raises ends the call in the
      `except` branch, which returns `[]`. */
  method FetchPublications(raws: seq<RawPub>) returns (pubs: seq<Pub>)
    ensures pubs == Top(raws)
  {
    var publications := CollectRecords(raws);
    var j := 0;
    while j < |publications|
      invariant 0 <= j <= |publications|
      invariant forall k :: 0 <= k < j ==> SortYear(publications[k].year).Some?
    {
      if SortYear(publications[j].year).None? {
        BadYearWipesResult(raws, j);
        return [];
      }
      j := j + 1;
    }
    GoodYearsSorted(raws);
    var sorted := SortList(publications, StrictKey);
    pubs := Take(sorted, 10);
  }

  /** When every year reads as an integer or is `n.d.`: as many records as
      there are, up to ten; largest year first; drawn from the input;
      records of the same year in input order; and no record left out has a
      larger year than one kept. */
  lemma TopProperties(raws: seq<RawPub>)
    requires KeysParse(NormalizeAll(raws))
    ensures var r := Top(raws);
      && |r| == (if |raws| < 10 then |raws| else 10)
      && SortedDesc(r, StrictKey)
      && multiset(r) <= multiset(NormalizeAll(raws))
      && (forall k :: WithKey(r, StrictKey, k) <= WithKey(NormalizeAll(raws), StrictKey, k))
      && (forall i, j :: 0 <= i < |r| <= j < |raws| ==>
            StrictKey(SortDesc(NormalizeAll(raws), StrictKey)[j]) <= StrictKey(r[i]))
  {
    TopOfSorted(NormalizeAll(raws), StrictKey, 10);
  }

  /** When every year reads as an integer or is `n.d.`, the result is the
      sorted records cut to ten. */
  lemma GoodYearsSorted(raws: seq<RawPub>)
    requires KeysParse(NormalizeAll(raws))
    ensures Top(raws) == Take(SortDesc(NormalizeAll(raws), StrictKey), 10)
  {
  }

  /** One record whose year is not an integer (and not `n.d.`) wipes the
      whole result, whatever the other records are. */
  lemma BadYearWipesResult(raws: seq<RawPub>, i: nat)
    requires i < |raws|
    requires SortYear(Normalize(raws[i]).year).None?
    ensures Top(raws) == []
  {
    assert NormalizeAll(raws)[i] == Normalize(raws[i]);
  }

  /** The strict key agrees with the written year: a record kept by a
      successful run has the year its text spells. */
  lemma StrictKeyIsYear(p: Pub)
    requires SortYear(p.year).Some?
    ensures p.year == "n.d." ==> StrictKey(p) == 0
    ensures p.year != "n.d." ==> ParseInt(p.year) == Some(StrictKey(p))
  {
  }

  // ---------------------------------------------------------------------------
  // format_publication_html

  /** The opening of the `venue-info` line: the venue, a comma and the year,
      whatever the venue is. */
  function VenueHead(p: Pub): string
  {
    VenueOpen + p.venue + ", " + p.year
  }

  /** The `venue-info` line without its closing tag. */
  function VenueLine(p: Pub): string
  {
    VenueHead(p) + CitationsPart(p.citations)
  }

  /** The fragment this script prints for one record, piece by piece in the
      order the source appends them. */
  function Fragment(p: Pub): (r: string)
    ensures r == ItemOpen + TitleLine(p) + AuthorsLine(p) + VenueLine(p) + ParagraphClose + ItemClose
  {
    AppendAssoc(ItemOpen + TitleLine(p) + AuthorsLine(p), VenueHead(p), CitationsPart(p.citations));
    ItemOpen + TitleLine(p) + AuthorsLine(p) + VenueHead(p) + CitationsPart(p.citations)
    + ParagraphClose + ItemClose
  }

  /** `format_publication_html`, built piece by piece as the source does. */
  method FormatPublicationHtml(p: Pub) returns (html: string)
    ensures html == Fragment(p)
  {
    var authors: string;
    match p.authors {
      case AuthorText(t) => authors := t;
      case AuthorList(names) => authors := Join(names, ", ");
    }
    html := ItemOpen;
    if p.url != "" {
      html := html + (LinkOpen + p.url + LinkMid + p.title + LinkClose);
    } else {
      html := html + (H3Open + p.title + H3Close);
    }
    html := html + (AuthorsOpen + authors + ParagraphClose);
    ghost var lead := html;
    assert lead == ItemOpen + TitleLine(p) + AuthorsLine(p);
    html := html + (VenueOpen + p.venue + ", " + p.year);
    if p.citations > 0 {
      html := html + (CitationsOpen + NatToDecimal(p.citations) + CitationsClose);
    } else {
      assert html + CitationsPart(p.citations) == html;
    }
    AppendAssoc(lead, VenueHead(p), CitationsPart(p.citations));
    html := html + ParagraphClose;
    html := html + ItemClose;
  }

  // ---------------------------------------------------------------------------
  // generate_publications_html

  /** The fragments of `pubs`, in list order. */
  function RenderAll(pubs: seq<Pub>): string
  {
    ConcatMap(Fragment, pubs)
  }

  /** `generate_publications_html` with the timestamp given. */
  method GeneratePublicationsHtml(pubs: seq<Pub>, timestamp: string) returns (html: string)
    ensures html == Region(RenderAll(pubs), timestamp)
  {
    html := Markers.Start;
    html := html + (StampOpen + timestamp + StampClose);
    html := html + ListOpen;
    HeaderSteps(timestamp);
    ghost var header := html;
    var i := 0;
    while i < |pubs|
      invariant 0 <= i <= |pubs|
      invariant html == header + RenderAll(pubs[..i])
    {
      var fragment := FormatPublicationHtml(pubs[i]);
      ConcatMapStep(header, Fragment, pubs, i);
      html := html + fragment;
      i := i + 1;
    }
    assert pubs[..i] == pubs;
    html := html + ListClose;
    html := html + (Indent + Markers.End);
    FooterSteps(header + RenderAll(pubs));
  }

  // ---------------------------------------------------------------------------
  // Properties of the rendering

  /** The venue is never hidden: the venue-info line holds the venue, a comma
      and the year verbatim, even for an empty or `Unpublished` venue. */
  lemma VenueAlwaysShown(p: Pub)
    ensures VenueHead(p)[|VenueOpen|..] == p.venue + ", " + p.year
    ensures VenueHead(p)[|VenueOpen|..|VenueOpen| + |p.venue|] == p.venue
    ensures VenueHead(p)[|VenueHead(p)| - |p.year|..] == p.year
  {
    assert VenueHead(p) == VenueOpen + (p.venue + ", " + p.year);
  }

  /** The record that carries every default prints `Unpublished, n.d.` and
      no citations. */
  lemma DefaultRecordFragment()
    ensures var p := Normalize(RawPub(map[], None, None, map[]));
      && TitleLine(p) == H3Open + "No title" + H3Close
      && AuthorsLine(p) == AuthorsOpen + "Unknown authors" + ParagraphClose
      && VenueHead(p) == VenueOpen + "Unpublished, n.d."
      && CitationsPart(p.citations) == ""
  {
  }

  lemma FragmentPlain(p: Pub)
    requires PlainPub(p)
    ensures Plain(Fragment(p))
  {
    TitleLinePlain(p);
    AuthorsLinePlain(p);
    CitationsPartPlain(p.citations);
    ItemTagsPlain(); DefaultsPlain();
    PlainCat(VenueOpen, p.venue);
    PlainCat(VenueOpen + p.venue, ", ");
    PlainCat(VenueOpen + p.venue + ", ", p.year);
    var s0 := ItemOpen + TitleLine(p);
    PlainCat(ItemOpen, TitleLine(p));
    var s1 := s0 + AuthorsLine(p);
    PlainCat(s0, AuthorsLine(p));
    var s2 := s1 + VenueHead(p);
    PlainCat(s1, VenueHead(p));
    var s3 := s2 + CitationsPart(p.citations);
    PlainCat(s2, CitationsPart(p.citations));
    PlainCat(s3, ParagraphClose);
    PlainCat(s3 + ParagraphClose, ItemClose);
  }

  lemma RenderAllPlain(pubs: seq<Pub>)
    requires forall i :: 0 <= i < |pubs| ==> PlainPub(pubs[i])
    ensures Plain(RenderAll(pubs))
  {
    forall i | 0 <= i < |pubs|
      ensures Plain(Fragment(pubs[i]))
    {
      FragmentPlain(pubs[i]);
    }
    ConcatMapPlain(Fragment, pubs);
  }

  // ---------------------------------------------------------------------------
  // The whole run

  /** Running the updater twice on the same records and timestamp writes the
      same document as running it once, provided every text entry is plain. (`main` stops before writing when
      the list is empty.) */
  lemma RegenerateIdempotent(content: string, raws: seq<RawPub>, timestamp: string)
    requires forall i :: 0 <= i < |raws| ==> PlainRaw(raws[i])
    requires Plain(timestamp)
    ensures var c := Region(RenderAll(Top(raws)), timestamp);
      && '\\' !in c
      && (Markers.UpdateHtml(content, c).Some? ==>
          Markers.UpdateHtml(Markers.UpdateHtml(content, c).value, c) == Markers.UpdateHtml(content, c))
  {
    var pubs := Top(raws);
    if KeysParse(NormalizeAll(raws)) {
      TopOfSorted(NormalizeAll(raws), StrictKey, 10);
    }
    RecordsPlain(raws, pubs);
    RenderAllPlain(pubs);
    var c := Region(RenderAll(pubs), timestamp);
    RegionWellFormed(RenderAll(pubs), timestamp);
    Markers.UpdateHtmlIdempotent(content, c);
  }
}
