/** The records both scripts build from the bibliographic source: each filled
    publication becomes a six-field dictionary with key-presence defaults. The
    two scripts hold identical copies of this step. */
module Records {
  import opened Text

  /** The `author` entry of a record: one text, or a list of names. */
  datatype Authors = AuthorText(text: string) | AuthorList(names: seq<string>)

  /** One filled publication as the source returns it: the text entries of its
      `bib` dictionary (`title`, `pub_year`, `venue`, `journal`, ...), the
      `author` entry of that dictionary, and the top-level `num_citations` and
      text entries (`pub_url`, `eprint_url`), each possibly absent. */
  datatype RawPub = RawPub(
    bib: map<string, string>,
    author: Option<Authors>,
    numCitations: Option<int>,
    links: map<string, string>)

  /** The normalised record: the dictionary with keys `title`, `authors`,
      `year`, `venue`, `citations` and `url`. */
  datatype Pub = Pub(
    title: string,
    authors: Authors,
    year: string,
    venue: string,
    citations: int,
    url: string)

  /** Python's `d.get(k, default)`. */
  function Get(m: map<string, string>, k: string, default: string): string
  {
    if k in m then m[k] else default
  }

  /** The dictionary appended for one filled publication. A default is used
      only when its key is absent; a present but empty entry is kept. */
  function Normalize(raw: RawPub): (p: Pub)
    ensures "title" in raw.bib ==> p.title == raw.bib["title"]
    ensures "title" !in raw.bib ==> p.title == "No title"
    ensures raw.author.Some? ==> p.authors == raw.author.value
    ensures raw.author.None? ==> p.authors == AuthorText("Unknown authors")
    ensures "pub_year" in raw.bib ==> p.year == raw.bib["pub_year"]
    ensures "pub_year" !in raw.bib ==> p.year == "n.d."
    ensures "venue" in raw.bib ==> p.venue == raw.bib["venue"]
    ensures "venue" !in raw.bib && "journal" in raw.bib ==> p.venue == raw.bib["journal"]
    ensures "venue" !in raw.bib && "journal" !in raw.bib ==> p.venue == "Unpublished"
    ensures raw.numCitations.Some? ==> p.citations == raw.numCitations.value
    ensures raw.numCitations.None? ==> p.citations == 0
    ensures "pub_url" in raw.links ==> p.url == raw.links["pub_url"]
    ensures "pub_url" !in raw.links && "eprint_url" in raw.links ==> p.url == raw.links["eprint_url"]
    ensures "pub_url" !in raw.links && "eprint_url" !in raw.links ==> p.url == ""
  {
    Pub(
      Get(raw.bib, "title", "No title"),
      match raw.author case Some(a) => a case None => AuthorText("Unknown authors"),
      Get(raw.bib, "pub_year", "n.d."),
      Get(raw.bib, "venue", Get(raw.bib, "journal", "Unpublished")),
      match raw.numCitations case Some(n) => n case None => 0,
      Get(raw.links, "pub_url", Get(raw.links, "eprint_url", "")))
  }

  /** The list built by the extraction loop, one record per filled
      publication, in the source's order. */
  function NormalizeAll(raws: seq<RawPub>): (ps: seq<Pub>)
    ensures |ps| == |raws|
    ensures forall i :: 0 <= i < |raws| ==> ps[i] == Normalize(raws[i])
  {
    seq(|raws|, i requires 0 <= i < |raws| => Normalize(raws[i]))
  }

  /** The extraction loop of `fetch_publications`: one record appended per
      filled publication. */
  method CollectRecords(raws: seq<RawPub>) returns (publications: seq<Pub>)
    ensures publications == NormalizeAll(raws)
  {
    publications := [];
    var i := 0;
    while i < |raws|
      invariant 0 <= i <= |raws|
      invariant |publications| == i
      invariant forall k :: 0 <= k < i ==> publications[k] == Normalize(raws[k])
    {
      publications := publications + [Normalize(raws[i])];
      i := i + 1;
    }
  }

  /** A record with none of the optional entries gets every placeholder. */
  lemma EmptyRecordDefaults()
    ensures Normalize(RawPub(map[], None, None, map[]))
         == Pub("No title", AuthorText("Unknown authors"), "n.d.", "Unpublished", 0, "")
  {
  }

  /** Present entries win even when empty: an empty title or year stays empty
      and an empty venue hides the journal. */
  lemma PresentEmptyEntriesKept(journal: string)
    ensures var p := Normalize(RawPub(map["title" := "", "pub_year" := "", "venue" := "", "journal" := journal],
                                      None, Some(0), map["pub_url" := "", "eprint_url" := "x"]));
      p.title == "" && p.year == "" && p.venue == "" && p.url == ""
  {
  }
}
