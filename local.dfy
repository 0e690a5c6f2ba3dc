/** `update_publications_local.py`: the record pipeline of the local updater,
    with its tolerant sort key and its venue suppression. */
module UpdatePublicationsLocal {
  import opened Text
  import opened Records
  import opened StableSort
  import opened Html
  import Markers

  // ---------------------------------------------------------------------------
  // get_sort_year

  /** The pattern `(19|20)\d{2}` matches `s` at index `i` (`\d` read as an
      ASCII digit). */
  predicate YearMatchAt(s: string, i: nat)
  {
    && i + 4 <= |s|
    && ((s[i] == '1' && s[i + 1] == '9') || (s[i] == '2' && s[i + 1] == '0'))
    && IsDigit(s[i + 2]) && IsDigit(s[i + 3])
  }

  /** `re.search` for that pattern from index `from`: the leftmost match. */
  function FirstYearMatch(s: string, from: nat): (r: Option<nat>)
    decreases |s| - from
    ensures r.Some? ==> from <= r.value && YearMatchAt(s, r.value)
    ensures r.Some? ==> forall k: nat :: from <= k < r.value ==> !YearMatchAt(s, k)
    ensures r.None? ==> forall k: nat :: from <= k ==> !YearMatchAt(s, k)
  {
    if from + 4 > |s| then None
    else if YearMatchAt(s, from) then Some(from)
    else FirstYearMatch(s, from + 1)
  }

  /** The key the local script sorts by: 0 for `n.d.` or an empty year, else
      the leftmost four-digit year inside the text, else the text read as an
      integer, else 0 (the bare `except`). */
  function SortYear(year: string): (k: int)
    ensures year == "n.d." || year == "" ==> k == 0
    ensures FirstYearMatch(year, 0).Some? ==> 1900 <= k <= 2099
  {
    if year == "n.d." || year == "" then 0
    else
      match FirstYearMatch(year, 0)
      case Some(i) =>
        FourDigits(year[i..i + 4]);
        DigitsValue(year[i..i + 4])
      case None =>
        match ParseInt(year)
        case Some(v) => v
        case None => 0
  }

  /** The same key on a whole record, as `list.sort` applies it. */
  function LocalKey(p: Pub): int
  {
    SortYear(p.year)
  }

  /** A year text holding a match is keyed by its leftmost match, which is
      a year from 1900 to 2099. */
  lemma {:induction false} SortYearLeftmostMatch(year: string, i: nat)
    requires YearMatchAt(year, i)
    requires forall k: nat :: k < i ==> !YearMatchAt(year, k)
    ensures SortYear(year) == DigitsValue(year[i..i + 4])
    ensures 1900 <= SortYear(year) <= 2099
  {
    assert year != "n.d." && year != "";
    var w := year[i..i + 4];
    assert FirstYearMatch(year, 0) == Some(i);
    FourDigits(w);
  }

  /** A text holding no match falls back to integer parsing, and to 0 when
      that fails: the key never raises. */
  lemma SortYearFallback(year: string)
    requires forall k: nat :: !YearMatchAt(year, k)
    ensures year != "n.d." && ParseInt(year).Some? ==> SortYear(year) == ParseInt(year).value
    ensures ParseInt(year).None? ==> SortYear(year) == 0
  {
  }

  /** A year from 1900 to 2099 embedded in surrounding text, after a prefix
      that holds no digit (as in `"Spring 2019 (online)"` or `"2019a"`), is
      keyed by the year itself, whatever follows it. */
  lemma SortYearInText(prefix: string, y: nat, suffix: string)
    requires 1900 <= y <= 2099
    requires forall k :: 0 <= k < |prefix| ==> !IsDigit(prefix[k])
    ensures SortYear(prefix + NatToDecimal(y) + suffix) == y
  {
    var d := NatToDecimal(y);
    var s := prefix + d + suffix;
    assert |d| == 4 by {
      DigitsBelowPow(d);
      DigitsAtLeastPow(d);
      if |d| < 4 {
        Pow10Mono(|d|, 3);
      } else if |d| > 4 {
        Pow10Mono(4, |d| - 1);
      }
    }
    assert s[|prefix|..|prefix| + 4] == d;
    assert YearMatchAt(s, |prefix|) by {
      YearLeadDigits(d, y);
      assert s[|prefix|] == d[0] && s[|prefix| + 1] == d[1];
      assert s[|prefix| + 2] == d[2] && s[|prefix| + 3] == d[3];
    }
    forall k: nat | k < |prefix|
      ensures !YearMatchAt(s, k)
    {
      assert s[k] == prefix[k];
      if k + 1 < |prefix| {
        assert s[k + 1] == prefix[k + 1];
      }
    }
    SortYearLeftmostMatch(s, |prefix|);
  }

  /** The first two digits of a four-digit spelling of a year in [1900, 2099]
      are `19` or `20`. */
  lemma YearLeadDigits(d: string, y: nat)
    requires |d| == 4 && AllDigits(d) && DigitsValue(d) == y && 1900 <= y <= 2099
    ensures (d[0] == '1' && d[1] == '9') || (d[0] == '2' && d[1] == '0')
  {
    FourDigits(d);
  }

  // ---------------------------------------------------------------------------
  // fetch_publications: extraction loop, sort and truncation

  /** The ten most recent records, as the reference definition: the records
      in source order, stably sorted by `LocalKey`, largest first, cut to
      ten. */
  function Top(raws: seq<RawPub>): (r: seq<Pub>)
    ensures |r| == (if |raws| < 10 then |raws| else 10)
    ensures SortedDesc(r, LocalKey)
  {
    TopOfSorted(NormalizeAll(raws), LocalKey, 10);
    Take(SortDesc(NormalizeAll(raws), LocalKey), 10)
  }

  /** The ten kept records: as many as there are, up to ten; newest first;
      drawn from the input; records of the same key in input order; and no
      record left out is newer than one kept. */
  lemma TopProperties(raws: seq<RawPub>)
    ensures var r := Top(raws);
      && |r| == (if |raws| < 10 then |raws| else 10)
      && SortedDesc(r, LocalKey)
      && multiset(r) <= multiset(NormalizeAll(raws))
      && (forall k :: WithKey(r, LocalKey, k) <= WithKey(NormalizeAll(raws), LocalKey, k))
      && (forall i, j :: 0 <= i < |r| <= j < |raws| ==>
            LocalKey(SortDesc(NormalizeAll(raws), LocalKey)[j]) <= LocalKey(r[i]))
  {
    TopOfSorted(NormalizeAll(raws), LocalKey, 10);
  }

  /** `fetch_publications` after the network calls: the filled records are
      appended in order, sorted in place and cut to the first ten. The key
      never raises, so this path never ends in the `except` branch. */
  method FetchPublications(raws: seq<RawPub>) returns (pubs: seq<Pub>)
    ensures pubs == Top(raws)
    ensures |pubs| == if |raws| < 10 then |raws| else 10
    ensures SortedDesc(pubs, LocalKey)
    ensures multiset(pubs) <= multiset(NormalizeAll(raws))
    ensures forall k :: WithKey(pubs, LocalKey, k) <= WithKey(NormalizeAll(raws), LocalKey, k)
  {
    var publications := CollectRecords(raws);
    var sorted := SortList(publications, LocalKey);
    pubs := Take(sorted, 10);
    TopProperties(raws);
  }

  // ---------------------------------------------------------------------------
  // format_publication_html

  /** The venue is printed only when it is non-empty, not `Unpublished` and
      not all whitespace. */
  predicate ShowVenue(venue: string)
  {
    venue != "" && venue != "Unpublished" && !Blank(venue)
  }

  /** What precedes the year on the venue-info line. */
  function VenuePrefix(venue: string): string
  {
    if ShowVenue(venue) then venue + ", " else ""
  }

  /** The `venue-info` line without its closing tag. */
  function VenueLine(p: Pub): string
  {
    VenueOpen + VenuePrefix(p.venue) + p.year + CitationsPart(p.citations)
  }

  /** The fragment the local script prints for one record, piece by piece in
      the order the source appends them. */
  function Fragment(p: Pub): (r: string)
    ensures r == ItemOpen + TitleLine(p) + AuthorsLine(p) + VenueLine(p) + ParagraphClose + ItemClose
  {
    var lead := ItemOpen + TitleLine(p) + AuthorsLine(p);
    var vp := VenuePrefix(p.venue);
    var cp := CitationsPart(p.citations);
    AppendAssoc(lead, VenueOpen, vp);
    AppendAssoc(lead, VenueOpen + vp, p.year);
    AppendAssoc(lead, VenueOpen + vp + p.year, cp);
    ItemOpen + TitleLine(p) + AuthorsLine(p)
    + VenueOpen + VenuePrefix(p.venue) + p.year + CitationsPart(p.citations)
    + ParagraphClose + ItemClose
  }

  /** `format_publication_html`, built piece by piece as the source does. */
  method FormatPublicationHtml(p: Pub) returns (html: string)
    ensures html == Fragment(p)
  {
    var authors: string;
    match p.authors {
      case AuthorText(t) => authors := t;
      case AuthorList(names) => authors := Join(names, ", ");
    }
    html := ItemOpen;
    if p.url != "" {
      html := html + (LinkOpen + p.url + LinkMid + p.title + LinkClose);
    } else {
      html := html + (H3Open + p.title + H3Close);
    }
    html := html + (AuthorsOpen + authors + ParagraphClose);
    ghost var lead := html;
    assert lead == ItemOpen + TitleLine(p) + AuthorsLine(p);
    html := html + VenueOpen;
    var venue := p.venue;
    if venue != "" && venue != "Unpublished" && !Blank(venue) {
      html := html + (venue + ", ");
    } else {
      assert html + VenuePrefix(venue) == html;
    }
    html := html + p.year;
    if p.citations > 0 {
      html := html + (CitationsOpen + NatToDecimal(p.citations) + CitationsClose);
    } else {
      assert html + CitationsPart(p.citations) == html;
    }
    assert html == lead + VenueLine(p) by {
      var vp := VenuePrefix(p.venue);
      AppendAssoc(lead, VenueOpen, vp);
      AppendAssoc(lead, VenueOpen + vp, p.year);
      AppendAssoc(lead, VenueOpen + vp + p.year, CitationsPart(p.citations));
    }
    html := html + ParagraphClose;
    html := html + ItemClose;
  }

  // ---------------------------------------------------------------------------
  // generate_publications_html

  /** The fragments of `pubs`, in list order. */
  function RenderAll(pubs: seq<Pub>): string
  {
    ConcatMap(Fragment, pubs)
  }

  /** `generate_publications_html` with the timestamp given. */
  method GeneratePublicationsHtml(pubs: seq<Pub>, timestamp: string) returns (html: string)
    ensures html == Region(RenderAll(pubs), timestamp)
  {
    html := Markers.Start;
    html := html + (StampOpen + timestamp + StampClose);
    html := html + ListOpen;
    HeaderSteps(timestamp);
    ghost var header := html;
    var i := 0;
    while i < |pubs|
      invariant 0 <= i <= |pubs|
      invariant html == header + RenderAll(pubs[..i])
    {
      var fragment := FormatPublicationHtml(pubs[i]);
      ConcatMapStep(header, Fragment, pubs, i);
      html := html + fragment;
      i := i + 1;
    }
    assert pubs[..i] == pubs;
    html := html + ListClose;
    html := html + (Indent + Markers.End);
    FooterSteps(header + RenderAll(pubs));
  }

  // ---------------------------------------------------------------------------
  // Properties of the rendering

  /** The venue rules: hidden when empty, `Unpublished` or all whitespace,
      printed with `", "` otherwise; the year always follows verbatim. */
  lemma VenueRules(p: Pub)
    ensures p.venue == "" || p.venue == "Unpublished" || Blank(p.venue) ==> VenuePrefix(p.venue) == ""
    ensures p.venue != "" && p.venue != "Unpublished" && !Blank(p.venue) ==>
      VenuePrefix(p.venue) == p.venue + ", "
    ensures var o := |VenueOpen| + |VenuePrefix(p.venue)|;
      VenueLine(p)[o..o + |p.year|] == p.year
  {
    var o := |VenueOpen| + |VenuePrefix(p.venue)|;
    assert VenueLine(p) == (VenueOpen + VenuePrefix(p.venue)) + p.year + CitationsPart(p.citations);
  }

  /** A venue of spaces or one that only contains `Unpublished` is handled as
      its text says: the first is hidden, the second shown. */
  lemma VenueExamples()
    ensures !ShowVenue("   ") && !ShowVenue("\t\n") && !ShowVenue("Unpublished")
    ensures ShowVenue(" Unpublished") && ShowVenue("Conf Y")
  {
    assert !IsSpace(" Unpublished"[1]);
    assert !IsSpace("Conf Y"[0]);
  }

  /** The record that carries every default: the venue is hidden and only
      `n.d.` is printed. */
  lemma DefaultRecordFragment()
    ensures var p := Normalize(RawPub(map[], None, None, map[]));
      && TitleLine(p) == H3Open + "No title" + H3Close
      && AuthorsLine(p) == AuthorsOpen + "Unknown authors" + ParagraphClose
      && VenueLine(p) == VenueOpen + "n.d."
  {
    var p := Normalize(RawPub(map[], None, None, map[]));
    assert !ShowVenue(p.venue);
  }

  lemma FragmentPlain(p: Pub)
    requires PlainPub(p)
    ensures Plain(Fragment(p))
  {
    TitleLinePlain(p);
    AuthorsLinePlain(p);
    CitationsPartPlain(p.citations);
    ItemTagsPlain(); DefaultsPlain();
    if ShowVenue(p.venue) {
      PlainCat(p.venue, ", ");
    }
    var s0 := ItemOpen + TitleLine(p);
    PlainCat(ItemOpen, TitleLine(p));
    var s1 := s0 + AuthorsLine(p);
    PlainCat(s0, AuthorsLine(p));
    var s2 := s1 + VenueOpen;
    PlainCat(s1, VenueOpen);
    var s3 := s2 + VenuePrefix(p.venue);
    PlainCat(s2, VenuePrefix(p.venue));
    var s4 := s3 + p.year;
    PlainCat(s3, p.year);
    var s5 := s4 + CitationsPart(p.citations);
    PlainCat(s4, CitationsPart(p.citations));
    PlainCat(s5, ParagraphClose);
    PlainCat(s5 + ParagraphClose, ItemClose);
  }

  lemma RenderAllPlain(pubs: seq<Pub>)
    requires forall i :: 0 <= i < |pubs| ==> PlainPub(pubs[i])
    ensures Plain(RenderAll(pubs))
  {
    forall i | 0 <= i < |pubs|
      ensures Plain(Fragment(pubs[i]))
    {
      FragmentPlain(pubs[i]);
    }
    ConcatMapPlain(Fragment, pubs);
  }

  // ---------------------------------------------------------------------------
  // The whole run

  /** Running the updater twice on the same records and timestamp writes the
      same document as running it once, provided every text entry is plain (so no entry can spell an end marker
      or a `re.sub` escape). */
  lemma RegenerateIdempotent(content: string, raws: seq<RawPub>, timestamp: string)
    requires forall i :: 0 <= i < |raws| ==> PlainRaw(raws[i])
    requires Plain(timestamp)
    ensures var c := Region(RenderAll(Top(raws)), timestamp);
      && '\\' !in c
      && (Markers.UpdateHtml(content, c).Some? ==>
          Markers.UpdateHtml(Markers.UpdateHtml(content, c).value, c) == Markers.UpdateHtml(content, c))
  {
    var pubs := Top(raws);
    TopOfSorted(NormalizeAll(raws), LocalKey, 10);
    RecordsPlain(raws, pubs);
    RenderAllPlain(pubs);
    var c := Region(RenderAll(pubs), timestamp);
    RegionWellFormed(RenderAll(pubs), timestamp);
    Markers.UpdateHtmlIdempotent(content, c);
  }
}
