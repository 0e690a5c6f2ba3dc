/** The HTML both scripts emit: the lines of one `publication-item` fragment
    that the two copies of `format_publication_html` share, and the region
    `generate_publications_html` wraps around the fragments. */
module Html {
  import opened Text
  import opened Records
  import Markers

  const ItemOpen: string := "        <div class=\"publication-item\">\n"
  const ItemClose: string := "        </div>\n"
  const VenueOpen: string := "            <p class=\"venue-info\">"
  const ParagraphClose: string := "</p>\n"
  const ListOpen: string := "    <div class=\"publications-list\">\n"
  const ListClose: string := "    </div>\n"
  const StampOpen: string := "\n    <!-- Last updated: "
  const StampClose: string := " -->\n"
  const H3Open: string := "            <h3>"
  const H3Close: string := "</h3>\n"
  const LinkOpen: string := "            <h3><a href=\""
  const LinkMid: string := "\" target=\"_blank\">"
  const LinkClose: string := "</a></h3>\n"
  const AuthorsOpen: string := "            <p class=\"authors\">"
  const CitationsOpen: string := " \U{2022} <span class=\"citations\">"
  const CitationsClose: string := " citations</span>"
  const Indent: string := "    "

  /** The authors as printed: a list is joined with `", "`, a text is kept. */
  function AuthorsText(a: Authors): string
  {
    match a
    case AuthorText(t) => t
    case AuthorList(names) => Join(names, ", ")
  }

  /** The heading line: the title, linked in a new tab when the url is
      non-empty. */
  function TitleLine(p: Pub): string
  {
    if p.url != "" then LinkOpen + p.url + LinkMid + p.title + LinkClose
    else H3Open + p.title + H3Close
  }

  function AuthorsLine(p: Pub): string
  {
    AuthorsOpen + AuthorsText(p.authors) + ParagraphClose
  }

  /** The citation count, shown only when it is positive. */
  function CitationsPart(n: int): string
  {
    if n > 0 then CitationsOpen + NatToDecimal(n) + CitationsClose
    else ""
  }

  /** Everything `generate_publications_html` emits before the first fragment. */
  function Header(timestamp: string): string
  {
    Markers.Start + StampOpen + timestamp + StampClose + ListOpen
  }

  /** Everything it emits after the last fragment; nothing follows the end
      marker. */
  function Footer(): string
  {
    ListClose + Indent + Markers.End
  }

  /** The whole replacement region around the concatenated fragments: it
      opens with the start marker and closes with the end marker. */
  function Region(body: string, timestamp: string): (r: string)
    ensures |r| >= |Markers.Start| + |Markers.End|
    ensures r[..|Markers.Start|] == Markers.Start
    ensures r[|r| - |Markers.End|..] == Markers.End
  {
    var h := Header(timestamp);
    assert h[..|Markers.Start|] == Markers.Start;
    assert (h + body + Footer())[..|Markers.Start|] == h[..|Markers.Start|];
    h + body + Footer()
  }

  /** The texts `f(x)` for the elements `x` of `s`, concatenated in order:
      the fragments joined by the loop of `generate_publications_html`. */
  function ConcatMap<T>(f: T -> string, s: seq<T>): string
  {
    if s == [] then "" else ConcatMap(f, s[..|s| - 1]) + f(s[|s| - 1])
  }

  // ---------------------------------------------------------------------------
  // Lemmas

  /** A list of authors is printed as its names joined with `", "`, and the
      names can be read back when none holds a comma. */
  lemma AuthorsListJoined(names: seq<string>)
    requires |names| > 0
    requires forall k :: 0 <= k < |names| ==> ',' !in names[k]
    ensures AuthorsText(AuthorList(names)) == Join(names, ", ")
    ensures Split(AuthorsText(AuthorList(names)), ", ") == names
  {
    SplitJoin(names, ", ");
  }

  /** The title is wrapped in a new-tab link to the url exactly when the url is
      non-empty; without a url the heading holds the bare title. */
  lemma TitleLinkedIffUrl(p: Pub)
    ensures p.url != "" <==> TitleLine(p) == LinkOpen + p.url + LinkMid + p.title + LinkClose
    ensures p.url == "" <==> TitleLine(p) == H3Open + p.title + H3Close
  {
    var linked := LinkOpen + p.url + LinkMid + p.title + LinkClose;
    var bare := H3Open + p.title + H3Close;
    assert |linked| > |bare|;
  }

  /** A positive count is shown, and the digits between the citation tags
      read back as the count; any other count shows nothing. */
  lemma CitationsReadBack(n: int)
    ensures n <= 0 <==> CitationsPart(n) == ""
    ensures n > 0 ==>
      var c := CitationsPart(n);
      && |c| > |CitationsOpen| + |CitationsClose|
      && c[..|CitationsOpen|] == CitationsOpen
      && ParseInt(c[|CitationsOpen|..|c| - |CitationsClose|]) == Some(n)
  {
    if n > 0 {
      var d := NatToDecimal(n);
      var c := CitationsPart(n);
      assert c == CitationsOpen + d + CitationsClose;
      assert c[|CitationsOpen|..|c| - |CitationsClose|] == d;
      ParseIntOfDecimal(n);
    }
  }

  /** One more element adds its text at the end. */
  lemma ConcatMapSnoc<T>(f: T -> string, s: seq<T>, x: T)
    ensures ConcatMap(f, s + [x]) == ConcatMap(f, s) + f(x)
  {
    assert (s + [x])[..|s + [x]| - 1] == s;
  }

  /** One iteration of a loop that appends `f(s[i])` to a text holding
      `prefix` and the texts of `s[..i]`. */
  lemma ConcatMapStep<T>(prefix: string, f: T -> string, s: seq<T>, i: nat)
    requires i < |s|
    ensures prefix + ConcatMap(f, s[..i]) + f(s[i]) == prefix + ConcatMap(f, s[..i + 1])
  {
    assert s[..i + 1] == s[..i] + [s[i]];
    ConcatMapSnoc(f, s[..i], s[i]);
    AppendAssoc(prefix, ConcatMap(f, s[..i]), f(s[i]));
  }

  /** The texts of a concatenation are the concatenated texts: order is kept. */
  lemma {:induction false} ConcatMapAppend<T>(f: T -> string, a: seq<T>, b: seq<T>)
    ensures ConcatMap(f, a + b) == ConcatMap(f, a) + ConcatMap(f, b)
    decreases |b|
  {
    if b == [] {
      assert a + b == a;
    } else {
      var init := b[..|b| - 1];
      var last := b[|b| - 1];
      assert a + b == (a + init) + [last];
      assert b == init + [last];
      ConcatMapSnoc(f, a + init, last);
      ConcatMapSnoc(f, init, last);
      ConcatMapAppend(f, a, init);
    }
  }

  /** The header as `generate_publications_html` appends it: the start
      marker, the timestamp line (its newline leading), the list opening. */
  lemma HeaderSteps(timestamp: string)
    ensures Markers.Start + (StampOpen + timestamp + StampClose) + ListOpen == Header(timestamp)
  {
    AppendAssoc(Markers.Start, StampOpen + timestamp, StampClose);
    AppendAssoc(Markers.Start, StampOpen, timestamp);
  }

  /** The footer as it is appended: the list closing, then the indented end
      marker. */
  lemma FooterSteps(text: string)
    ensures text + ListClose + (Indent + Markers.End) == text + Footer()
  {
    AppendAssoc(text, ListClose, Indent + Markers.End);
    AppendAssoc(ListClose, Indent, Markers.End);
  }

  /** The timestamp follows the comment opening right after the start
      marker, and the fragments follow the header unchanged. */
  lemma RegionShape(body: string, timestamp: string)
    ensures var r := Region(body, timestamp);
      var t := |Markers.Start| + |StampOpen|;
      && |r| == |Header(timestamp)| + |body| + |Footer()|
      && r[t..t + |timestamp|] == timestamp
      && r[|Header(timestamp)|..|Header(timestamp)| + |body|] == body
  {
    var r := Region(body, timestamp);
    var h := Header(timestamp);
    var t := |Markers.Start| + |StampOpen|;
    assert r == (Markers.Start + StampOpen) + timestamp + (StampClose + ListOpen + body + Footer());
    assert r[t..t + |timestamp|] == timestamp;
    assert r == h + body + Footer();
    assert r[|h|..|h| + |body|] == body by {
      assert r == (h + body) + Footer();
    }
  }

  // ---------------------------------------------------------------------------
  // Regions that read back

  /** Text without a backslash in which every `<` is followed, inside the
      text, by a character other than `!`: no end marker can start in it.
      Text without `<` and backslash is plain. */
  predicate Plain(s: string)
  {
    forall i {:trigger s[i]} :: 0 <= i < |s| ==> s[i] != '\\' && (s[i] == '<' ==> i + 1 < |s| && s[i + 1] != '!')
  }

  lemma PlainCat(a: string, b: string)
    requires Plain(a) && Plain(b)
    ensures Plain(a + b)
  {
    var s := a + b;
    forall i | 0 <= i < |s|
      ensures s[i] != '\\' && (s[i] == '<' ==> i + 1 < |s| && s[i + 1] != '!')
    {
      if i < |a| {
        assert s[i] == a[i];
        if a[i] == '<' {
          assert s[i + 1] == a[i + 1];
        }
      } else {
        assert s[i] == b[i - |a|];
        if b[i - |a|] == '<' {
          assert s[i + 1] == b[i + 1 - |a|];
        }
      }
    }
  }

  /** The fixed text of a fragment is plain: each of its `<` opens a tag,
      never a comment. The same holds for the list around the fragments, for the
      defaults and for the separator `", "`. */
  lemma ItemTagsPlain()
    ensures Plain(ItemOpen) && Plain(ItemClose) && Plain(VenueOpen) && Plain(ParagraphClose)
  {
  }

  lemma HeadingTagsPlain()
    ensures Plain(H3Open) && Plain(H3Close) && Plain(LinkOpen) && Plain(LinkMid) && Plain(LinkClose)
  {
  }

  lemma DetailTagsPlain()
    ensures Plain(AuthorsOpen) && Plain(CitationsOpen) && Plain(CitationsClose)
  {
  }

  lemma ListTagsPlain()
    ensures Plain(ListOpen) && Plain(ListClose) && Plain(StampClose) && Plain(Indent)
  {
  }

  lemma DefaultsPlain()
    ensures Plain("No title") && Plain("Unknown authors") && Plain("n.d.") && Plain("Unpublished")
    ensures Plain(", ")
  {
  }

  lemma JoinPlain(parts: seq<string>, sep: string)
    requires Plain(sep)
    requires forall k :: 0 <= k < |parts| ==> Plain(parts[k])
    ensures Plain(Join(parts, sep))
  {
    if |parts| > 1 {
      JoinPlain(parts[1..], sep);
      PlainCat(parts[0], sep);
      PlainCat(parts[0] + sep, Join(parts[1..], sep));
    }
  }

  lemma DecimalPlain(n: nat)
    ensures Plain(NatToDecimal(n))
  {
    var d := NatToDecimal(n);
    assert forall i :: 0 <= i < |d| ==> IsDigit(d[i]);
  }

  lemma {:induction false} ConcatMapPlain<T>(f: T -> string, s: seq<T>)
    requires forall i :: 0 <= i < |s| ==> Plain(f(s[i]))
    ensures Plain(ConcatMap(f, s))
  {
    if s != [] {
      ConcatMapPlain(f, s[..|s| - 1]);
      PlainCat(ConcatMap(f, s[..|s| - 1]), f(s[|s| - 1]));
    }
  }

  /** Every text field of a record (and each listed author) is plain. */
  predicate PlainPub(p: Pub)
  {
    && Plain(p.title) && Plain(p.year) && Plain(p.venue) && Plain(p.url)
    && match p.authors
       case AuthorText(t) => Plain(t)
       case AuthorList(names) => forall k :: 0 <= k < |names| ==> Plain(names[k])
  }

  /** Every text entry of a raw record is plain. */
  predicate PlainRaw(raw: RawPub)
  {
    && (forall k :: k in raw.bib ==> Plain(raw.bib[k]))
    && (forall k :: k in raw.links ==> Plain(raw.links[k]))
    && match raw.author
       case None => true
       case Some(AuthorText(t)) => Plain(t)
       case Some(AuthorList(names)) => forall k :: 0 <= k < |names| ==> Plain(names[k])
  }

  /** Normalising keeps plain text plain: the defaults are plain too. */
  lemma NormalizePlain(raw: RawPub)
    requires PlainRaw(raw)
    ensures PlainPub(Normalize(raw))
  {
    DefaultsPlain();
  }

  /** Every record drawn from plain raw records is plain. */
  lemma RecordsPlain(raws: seq<RawPub>, ps: seq<Pub>)
    requires forall i :: 0 <= i < |raws| ==> PlainRaw(raws[i])
    requires multiset(ps) <= multiset(NormalizeAll(raws))
    ensures forall i :: 0 <= i < |ps| ==> PlainPub(ps[i])
  {
    var all := NormalizeAll(raws);
    forall i | 0 <= i < |ps|
      ensures PlainPub(ps[i])
    {
      assert ps[i] in multiset(ps);
      assert ps[i] in multiset(all);
      var j :| 0 <= j < |all| && all[j] == ps[i];
      NormalizePlain(raws[j]);
    }
  }

  lemma TitleLinePlain(p: Pub)
    requires PlainPub(p)
    ensures Plain(TitleLine(p))
  {
    HeadingTagsPlain();
    if p.url != "" {
      PlainCat(LinkOpen, p.url);
      PlainCat(LinkOpen + p.url, LinkMid);
      PlainCat(LinkOpen + p.url + LinkMid, p.title);
      PlainCat(LinkOpen + p.url + LinkMid + p.title, LinkClose);
    } else {
      PlainCat(H3Open, p.title);
      PlainCat(H3Open + p.title, H3Close);
    }
  }

  lemma AuthorsLinePlain(p: Pub)
    requires PlainPub(p)
    ensures Plain(AuthorsLine(p))
  {
    match p.authors
    case AuthorText(t) =>
    case AuthorList(names) =>
      DefaultsPlain();
      JoinPlain(names, ", ");
    DetailTagsPlain(); ItemTagsPlain();
    PlainCat(AuthorsOpen, AuthorsText(p.authors));
    PlainCat(AuthorsOpen + AuthorsText(p.authors), ParagraphClose);
  }

  lemma CitationsPartPlain(n: int)
    ensures Plain(CitationsPart(n))
  {
    if n > 0 {
      DecimalPlain(n);
      DetailTagsPlain();
      PlainCat(CitationsOpen, NatToDecimal(n));
      PlainCat(CitationsOpen + NatToDecimal(n), CitationsClose);
    }
  }

  /** Where `<` sits in the timestamp comment's opening: only in `<!--`,
      which is followed by ` L`, not ` P`. */
  lemma StampOpenShape()
    ensures forall k :: 0 <= k < |StampOpen| && k != 5 ==> StampOpen[k] != '<'
    ensures StampOpen[10] == 'L' && '\\' !in StampOpen
  {
  }

  lemma MarkersShape()
    ensures Markers.End[0] == '<' && Markers.End[1] == '!' && Markers.End[5] == 'P'
    ensures '\\' !in Markers.Start && '\\' !in Markers.End
  {
  }

  /** The text between the comment opening and the end marker, plain when
      the timestamp and the fragments are. */
  function Middle(body: string, timestamp: string): string
  {
    timestamp + StampClose + ListOpen + body + ListClose + Indent
  }

  lemma MiddlePlain(body: string, timestamp: string)
    requires Plain(body) && Plain(timestamp)
    ensures Plain(Middle(body, timestamp))
  {
    ListTagsPlain();
    PlainCat(timestamp, StampClose);
    PlainCat(timestamp + StampClose, ListOpen);
    PlainCat(timestamp + StampClose + ListOpen, body);
    PlainCat(timestamp + StampClose + ListOpen + body, ListClose);
    PlainCat(timestamp + StampClose + ListOpen + body + ListClose, Indent);
  }

  /** No end marker starts inside a region with a plain middle, except the
      closing one. */
  lemma NoInnerEnd(m: string, q: nat)
    requires Plain(m)
    requires |Markers.Start| <= q < |Markers.Start| + |StampOpen| + |m|
    ensures !OccursAt(Markers.Start + StampOpen + m + Markers.End, Markers.End, q)
  {
    var r := Markers.Start + StampOpen + m + Markers.End;
    var h1 := |Markers.Start| + |StampOpen|;
    StampOpenShape();
    MarkersShape();
    if q + |Markers.End| <= |r| {
      assert r[q] != '<' || r[q + 1] != '!' || r[q + 5] != 'P' by {
        if q < h1 {
          assert r[q] == StampOpen[q - |Markers.Start|];
          if q - |Markers.Start| == 5 {
            assert r[q + 5] == StampOpen[10];
          }
        } else {
          assert r[q] == m[q - h1];
          if m[q - h1] == '<' {
            assert r[q + 1] == m[q + 1 - h1];
          }
        }
      }
      assert r[q..q + |Markers.End|][0] == r[q];
      assert r[q..q + |Markers.End|][1] == r[q + 1];
      assert r[q..q + |Markers.End|][5] == r[q + 5];
    }
  }

  /** A region built from plain fragments and a plain timestamp is a
      well-formed region: its only end marker is the closing one, so the
      splice reads it back as one region. It also has no backslash, so the
      splice may take it as a replacement. */
  lemma RegionWellFormed(body: string, timestamp: string)
    requires Plain(body) && Plain(timestamp)
    ensures Markers.WellFormedRegion(Region(body, timestamp))
    ensures '\\' !in Region(body, timestamp)
  {
    var m := Middle(body, timestamp);
    MiddlePlain(body, timestamp);
    assert Region(body, timestamp) == Markers.Start + StampOpen + m + Markers.End;
    WrappedWellFormed(m);
    NoBackslash(m);
  }

  /** Plain text between the comment opening and the end marker makes a
      region that reads back as one. */
  lemma WrappedWellFormed(m: string)
    requires Plain(m)
    ensures Markers.WellFormedRegion(Markers.Start + StampOpen + m + Markers.End)
  {
    var r := Markers.Start + StampOpen + m + Markers.End;
    assert r[..|Markers.Start|] == Markers.Start;
    assert r[|r| - |Markers.End|..] == Markers.End;
    forall q: nat | |Markers.Start| <= q < |r| - |Markers.End|
      ensures !OccursAt(r, Markers.End, q)
    {
      NoInnerEnd(m, q);
    }
  }

  lemma NoBackslash(m: string)
    requires Plain(m)
    ensures '\\' !in Markers.Start + StampOpen + m + Markers.End
  {
    StampOpenShape();
    MarkersShape();
    assert '\\' !in m;
  }
}
