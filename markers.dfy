/** The marker splice of `update_html_file`: the document text is rewritten by
    `re.sub(escape(START) + '.*?' + escape(END), new_content, text,
    flags=re.DOTALL)` once both marker strings are known to be present. Both
    scripts hold identical copies of this step. */
module Markers {
  import opened Text

  const Start: string := "<!-- PUBLICATIONS_START -->"
  const End: string := "<!-- PUBLICATIONS_END -->"

  /** The text after an `End` found at index `j`. */
  function After(text: string, j: nat): (r: string)
    requires j + |End| <= |text|
    ensures |r| == |text| - j - |End|
  {
    text[j + |End|..]
  }

  /** After a region `c` whose closing `End` is at `e`, what follows it. */
  lemma AfterRegion(p: string, c: string, rest: string, e: nat)
    requires |c| >= |End| && e == |p| + |c| - |End|
    ensures After(p + c + rest, e) == rest
  {
    assert e + |End| == |p + c|;
  }

  /** Every leftmost, non-overlapping `Start ... End` span (shortest body,
      newlines included) replaced by `repl`, read literally. A `Start` that no
      later `End` follows, and everything after it, stays as it is. */
  function ReplaceRegions(text: string, repl: string): (r: string)
    decreases |text|
    ensures Find(text, Start, 0).None? ==> r == text
    ensures Find(text, Start, 0).Some? ==>
      var i := Find(text, Start, 0).value;
      |r| >= i && r[..i] == text[..i]
  {
    match Find(text, Start, 0)
    case None => text
    case Some(i) =>
      match Find(text, End, i + |Start|)
      case None => text
      case Some(j) => text[..i] + repl + ReplaceRegions(After(text, j), repl)
  }

  /** The string logic of `update_html_file`: `None` is the `return False`
      before any write, `Some(t)` the text written back. The replacement must
      not hold a backslash, which `re.sub` would read as an escape. */
  function UpdateHtml(content: string, newContent: string): (r: Option<string>)
    requires '\\' !in newContent
    ensures r.None? <==> !Contains(content, Start) || !Contains(content, End)
    ensures r.Some? ==> r.value == ReplaceRegions(content, newContent)
  {
    if !Contains(content, Start) || !Contains(content, End) then None
    else Some(ReplaceRegions(content, newContent))
  }

  /** A replacement that reads back as exactly one region: it opens with
      `Start`, closes with `End`, and has no earlier `End` after its `Start`. */
  predicate WellFormedRegion(c: string)
  {
    && |c| >= |Start| + |End|
    && c[..|Start|] == Start
    && c[|c| - |End|..] == End
    && forall q: nat :: |Start| <= q < |c| - |End| ==> !OccursAt(c, End, q)
  }

  // ---------------------------------------------------------------------------
  // Facts about where the markers are found

  /** Putting a text that begins with `Start` at the first `Start` of `t` does
      not move the first `Start`. */
  lemma FirstStartKept(t: string, i: nat, c: string, rest: string)
    requires Find(t, Start, 0) == Some(i)
    requires |c| >= |Start| && c[..|Start|] == Start
    ensures Find(t[..i] + c + rest, Start, 0) == Some(i)
  {
    var u := t[..i] + c + rest;
    var n := i + |Start|;
    assert u[..n] == t[..n] by {
      assert t[i..n] == Start;
      TakeOfCat(t[..i], c, rest, |Start|);
      TakeSplit(t, i, n);
    }
    FindInCommonPrefix(t, u, Start, 0, n, i);
  }

  /** In a well-formed region placed at index `i`, the first `End` after its
      `Start` is its own closing `End`. */
  lemma RegionEndFound(t: string, i: nat, c: string, rest: string)
    requires i <= |t| && WellFormedRegion(c)
    ensures Find(t[..i] + c + rest, End, i + |Start|) == Some(i + |c| - |End|)
  {
    var p := t[..i];
    var u := p + c + rest;
    forall k: nat | i + |Start| <= k < i + |c| - |End|
      ensures !OccursAt(u, End, k)
    {
      OccursInMiddle(p, c, rest, End, k - i, k);
    }
    assert OccursAt(c, End, |c| - |End|);
    OccursInMiddle(p, c, rest, End, |c| - |End|, i + |c| - |End|);
    FindFirst(u, End, i + |Start|, i + |c| - |End|);
  }

  // ---------------------------------------------------------------------------
  // update_html_file

  /** A document lacking either marker is refused and nothing is written. */
  lemma MissingMarkerRefused(content: string, newContent: string)
    requires '\\' !in newContent
    requires !Contains(content, Start) || !Contains(content, End)
    ensures UpdateHtml(content, newContent) == None
  {
  }

  /** When every `End` comes before the first `Start`, both markers are
      present but nothing matches: the text is written back unchanged. */
  lemma EndOnlyBeforeStartUnchanged(content: string, newContent: string, i: nat)
    requires '\\' !in newContent
    requires Find(content, Start, 0) == Some(i)
    requires Contains(content, End)
    requires forall q: nat :: OccursAt(content, End, q) ==> q < i
    ensures UpdateHtml(content, newContent) == Some(content)
  {
    assert OccursAt(content, Start, i);
  }

  /** With exactly one `Start` and one `End` after it, the region between them
      (markers included) becomes `newContent` and the text on both sides stays. */
  lemma SingleRegionReplaced(content: string, newContent: string, i: nat, j: nat)
    requires '\\' !in newContent
    requires OccursAt(content, Start, i) && OccursAt(content, End, j) && i + |Start| <= j
    requires forall q: nat :: OccursAt(content, Start, q) ==> q == i
    requires forall q: nat :: OccursAt(content, End, q) ==> q == j
    ensures UpdateHtml(content, newContent)
         == Some(content[..i] + newContent + content[j + |End|..])
  {
    FindFirst(content, Start, 0, i);
    FindFirst(content, End, i + |Start|, j);
    NoStartInSuffix(content, j + |End|, i);
    assert After(content, j) == content[j + |End|..];
    assert ReplaceRegions(After(content, j), newContent) == After(content, j);
    assert Contains(content, Start) && Contains(content, End);
  }

  /** Reading back a document spliced at its first `Start`: the new first
      region starts at the same place and ends at the closing `End` of the
      well-formed `newContent`. */
  lemma SplicedRegionReadsBack(content: string, i: nat, newContent: string, after: string)
    requires Find(content, Start, 0) == Some(i)
    requires WellFormedRegion(newContent)
    ensures Find(content[..i] + newContent + after, Start, 0) == Some(i)
    ensures Find(content[..i] + newContent + after, End, i + |Start|) == Some(i + |newContent| - |End|)
  {
    FirstStartKept(content, i, newContent, after);
    RegionEndFound(content, i, newContent, after);
  }

  /** A suffix that starts after the only `Start` of a text holds none. */
  lemma NoStartInSuffix(content: string, from: nat, i: nat)
    requires from <= |content| && i < from
    requires forall q: nat :: OccursAt(content, Start, q) ==> q == i
    ensures Find(content[from..], Start, 0) == None
  {
    var rest := content[from..];
    forall q: nat | q + |Start| <= |rest|
      ensures !OccursAt(rest, Start, q)
    {
      assert content[from + q..from + q + |Start|] == rest[q..q + |Start|];
      if OccursAt(rest, Start, q) {
        assert OccursAt(content, Start, from + q);
      }
    }
  }

  /** One step of the scan: the first match is replaced and the scan
      continues after it. */
  lemma ReplaceRegionsStep(text: string, repl: string, i: nat, j: nat)
    requires Find(text, Start, 0) == Some(i)
    requires Find(text, End, i + |Start|) == Some(j)
    ensures j + |End| <= |text|
    ensures ReplaceRegions(text, repl) == text[..i] + repl + ReplaceRegions(After(text, j), repl)
  {
  }

  /** Scanning a text again after a well-formed region was spliced in at its
      first `Start`: the region is replaced by itself and the scan resumes
      right after it. */
  lemma SplicedRegionRescanned(text: string, i: nat, c: string, rest: string)
    requires Find(text, Start, 0) == Some(i)
    requires WellFormedRegion(c)
    ensures ReplaceRegions(text[..i] + c + rest, c) == text[..i] + c + ReplaceRegions(rest, c)
  {
    SplicedScan(text, i, c, rest);
    ReplaceRegionsStepAt(text[..i] + c + rest, c, i, i + |c| - |End|, text[..i], rest);
  }

  /** Where the scan of a spliced text finds its first region, and what it
      keeps before and after it. */
  lemma SplicedScan(text: string, i: nat, c: string, rest: string)
    requires Find(text, Start, 0) == Some(i)
    requires WellFormedRegion(c)
    ensures var u := text[..i] + c + rest;
      && Find(u, Start, 0) == Some(i)
      && Find(u, End, i + |Start|) == Some(i + |c| - |End|)
      && i + |c| - |End| + |End| <= |u|
      && u[..i] == text[..i]
      && After(u, i + |c| - |End|) == rest
  {
    var u := text[..i] + c + rest;
    var e: nat := i + |c| - |End|;
    SplicedRegionReadsBack(text, i, c, rest);
    assert u[..i] == text[..i];
    AfterRegion(text[..i], c, rest, e);
  }

  /** `ReplaceRegionsStep` with the kept prefix and the remaining text named. */
  lemma ReplaceRegionsStepAt(text: string, repl: string, i: nat, j: nat, pre: string, rest: string)
    requires Find(text, Start, 0) == Some(i)
    requires Find(text, End, i + |Start|) == Some(j)
    requires pre == text[..i]
    requires j + |End| <= |text| && rest == After(text, j)
    ensures ReplaceRegions(text, repl) == pre + repl + ReplaceRegions(rest, repl)
  {
    ReplaceRegionsStep(text, repl, i, j);
  }

  /** Splicing a well-formed region is idempotent: a second pass with the same
      content finds every region it wrote and rewrites it with itself. */
  lemma {:induction false} ReplaceRegionsIdempotent(text: string, c: string)
    requires WellFormedRegion(c)
    ensures ReplaceRegions(ReplaceRegions(text, c), c) == ReplaceRegions(text, c)
    decreases |text|
  {
    var fs := Find(text, Start, 0);
    if fs.Some? {
      var i := fs.value;
      var fe := Find(text, End, i + |Start|);
      if fe.Some? {
        var j := fe.value;
        ReplaceRegionsStep(text, c, i, j);
        SplicedRegionRescanned(text, i, c, ReplaceRegions(After(text, j), c));
        ReplaceRegionsIdempotent(After(text, j), c);
      }
    }
  }

  /** The same for `update_html_file`: once a run has written the document,
      a second run with the same content writes the same document. */
  lemma UpdateHtmlIdempotent(content: string, c: string)
    requires '\\' !in c && WellFormedRegion(c)
    ensures UpdateHtml(content, c).Some? ==>
      UpdateHtml(UpdateHtml(content, c).value, c) == UpdateHtml(content, c)
  {
    if UpdateHtml(content, c).Some? {
      ReplaceRegionsIdempotent(content, c);
      FindContains(content, Start);
      var i := Find(content, Start, 0).value;
      var fe := Find(content, End, i + |Start|);
      if fe.Some? {
        var j := fe.value;
        ReplaceRegionsStep(content, c, i, j);
        var once := ReplaceRegions(After(content, j), c);
        var u := content[..i] + c + once;
        SplicedRegionReadsBack(content, i, c, once);
        assert OccursAt(u, Start, i) && OccursAt(u, End, i + |c| - |End|);
      }
    }
  }
}
