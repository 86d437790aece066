/**
 * The link extractor (getter-url.js): from the list items of a saved page,
 * build the ordered list of `{url, text}` records. The parser's selector
 * matching is outside the model; each matched `li` arrives as a candidate.
 */
module Extractor {
  import opened Wrappers
  import opened JsText

  /** A link record `{url, text}`; `text` is the display title. */
  datatype LinkRecord = LinkRecord(url: string, text: string)

  /**
   * One matched `li.YGmRi0kR`: the `href` of its first `a[href]` (None when
   * there is none) and the text of its nested `span`s before trimming.
   */
  datatype Candidate = Candidate(href: Option<string>, rawText: string)

  /**
   * `$li.find('a[href]').attr('href')?.replace('//', '') || ''` (line 23): no
   * link gives the empty url; a link loses its first `//`, so a protocol-relative
   * one loses exactly its leading `//`, and one without `//` is kept whole.
   */
  function UrlOf(href: Option<string>): (u: string)
    ensures href.None? ==> u == ""
    ensures href.Some? && StartsWith(href.value, "//") ==> u == href.value[2..]
    ensures href.Some? && (forall k :: !OccursAt(href.value, "//", k)) ==> u == href.value
    ensures href.Some? && (exists k :: OccursAt(href.value, "//", k)) ==> |u| == |href.value| - 2
    ensures u == "" <==> href.None? || href.value == "" || href.value == "//"
  {
    match href
    case None => ""
    case Some(h) =>
      assert StartsWith(h, "//") ==> OccursAt(h, "//", 0);
      ReplaceFirstSpec(h, "//", "");
      var u := ReplaceFirst(h, "//", "");
      assert |h| == 2 && IndexOfFrom(h, "//", 0).Some? ==> h == "//" by {
        if |h| == 2 && IndexOfFrom(h, "//", 0).Some? {
          assert OccursAt(h, "//", IndexOfFrom(h, "//", 0).value);
          assert h == h[0..2];
        }
      }
      u
  }

  /** `....text().trim()` (line 26). */
  function TextOf(c: Candidate): string
  {
    Trim(c.rawText)
  }

  /** The record lines 23 and 26 compute for one candidate, before the test of line 28. */
  function Draft(c: Candidate): LinkRecord
  {
    LinkRecord(UrlOf(c.href), TextOf(c))
  }

  /** The test `if (url && text)` of line 28: both fields are non-empty. */
  predicate IsComplete(r: LinkRecord)
  {
    r.url != "" && r.text != ""
  }

  /**
   * The drafts of all candidates, in candidate order: each title is trimmed,
   * and a draft passes the test of line 28 exactly when its candidate has a
   * link other than `""` and `//` and a title that is not all white space.
   */
  function Drafts(cs: seq<Candidate>): (ds: seq<LinkRecord>)
    ensures |ds| == |cs| && forall i :: 0 <= i < |cs| ==> ds[i] == Draft(cs[i])
    ensures forall i :: 0 <= i < |cs| ==> NoOuterWhiteSpace(ds[i].text)
    ensures forall i :: 0 <= i < |cs| ==>
              (IsComplete(ds[i]) <==>
                 && cs[i].href.Some? && cs[i].href.value != "" && cs[i].href.value != "//"
                 && Trim(cs[i].rawText) != "")
  {
    seq(|cs|, i requires 0 <= i < |cs| => Draft(cs[i]))
  }

  /**
   * The complete records among `ds`, in their order: what the pushes of lines
   * 29-32 collect. Every kept record is one of the inputs and complete; there
   * are at most as many.
   */
  function KeepComplete(ds: seq<LinkRecord>): (rs: seq<LinkRecord>)
    ensures |rs| <= |ds|
    ensures forall k :: 0 <= k < |rs| ==> rs[k] in ds && IsComplete(rs[k])
  {
    if ds == [] then []
    else
      var last := ds[|ds| - 1];
      var init := ds[..|ds| - 1];
      assert forall r :: r in init ==> r in ds;
      KeepComplete(init) + (if IsComplete(last) then [last] else [])
  }

  /** The positions of the complete records among `ds`. */
  function CompletePositions(ds: seq<LinkRecord>): seq<nat>
  {
    if ds == [] then []
    else CompletePositions(ds[..|ds| - 1]) + (if IsComplete(ds[|ds| - 1]) then [|ds| - 1] else [])
  }

  /**
   * The filter keeps order: record k of the output is the record at the k-th
   * complete position, those positions increase strictly, and every complete
   * record has its position among them. So the output length is the number of
   * complete records.
   */
  lemma {:induction false} KeepCompleteIsOrderedFilter(ds: seq<LinkRecord>)
    ensures |CompletePositions(ds)| == |KeepComplete(ds)|
    ensures forall k :: 0 <= k < |KeepComplete(ds)| ==>
              CompletePositions(ds)[k] < |ds| && IsComplete(ds[CompletePositions(ds)[k]]) &&
              KeepComplete(ds)[k] == ds[CompletePositions(ds)[k]]
    ensures forall k, l :: 0 <= k < l < |CompletePositions(ds)| ==>
              CompletePositions(ds)[k] < CompletePositions(ds)[l]
    ensures forall i :: 0 <= i < |ds| && IsComplete(ds[i]) ==> i in CompletePositions(ds)
  {
    if ds != [] {
      var init := ds[..|ds| - 1];
      KeepCompleteIsOrderedFilter(init);
      var ps, rs := CompletePositions(init), KeepComplete(init);
      forall k | 0 <= k < |rs|
        ensures CompletePositions(ds)[k] < |ds| && IsComplete(ds[CompletePositions(ds)[k]])
        ensures KeepComplete(ds)[k] == ds[CompletePositions(ds)[k]]
      {
        assert CompletePositions(ds)[k] == ps[k];
        assert KeepComplete(ds)[k] == rs[k];
        assert init[ps[k]] == ds[ps[k]];
      }
      forall i | 0 <= i < |init| && IsComplete(ds[i]) ensures i in CompletePositions(ds) {
        assert init[i] == ds[i];
        assert i in ps;
      }
    }
  }

  /** A record as the extractor writes them: both fields non-empty, the title trimmed. */
  predicate WellFormed(r: LinkRecord)
  {
    IsComplete(r) && NoOuterWhiteSpace(r.text)
  }

  /**
   * The records the `.each` loop has pushed after the candidates `cs`: at most
   * one per candidate, each with a non-empty url and a non-empty trimmed title.
   */
  function Extracted(cs: seq<Candidate>): (rs: seq<LinkRecord>)
    ensures |rs| <= |cs|
    ensures forall r :: r in rs ==> WellFormed(r)
  {
    KeepComplete(Drafts(cs))
  }

  /**
   * The candidates that pass the test of line 28 give the output, in order:
   * record k comes from the candidate at the k-th passing position, and each
   * passing candidate is among those positions.
   */
  lemma ExtractedFollowsCandidates(cs: seq<Candidate>)
    ensures var rs, ps := Extracted(cs), CompletePositions(Drafts(cs));
            && |ps| == |rs|
            && (forall k :: 0 <= k < |rs| ==>
                  ps[k] < |cs| && IsComplete(Draft(cs[ps[k]])) && rs[k] == Draft(cs[ps[k]]))
            && (forall k, l :: 0 <= k < l < |ps| ==> ps[k] < ps[l])
            && (forall i :: 0 <= i < |cs| && IsComplete(Draft(cs[i])) ==> i in ps)
  {
    KeepCompleteIsOrderedFilter(Drafts(cs));
  }

  /** A missing `href` gives the empty url, so that candidate is dropped. */
  lemma MissingHrefDropped(rawText: string)
    ensures UrlOf(None) == ""
    ensures !IsComplete(Draft(Candidate(None, rawText)))
  {
  }

  /** The worked example: `//example.com/a` is stored as `example.com/a`. */
  lemma UrlOfExample()
    ensures UrlOf(Some("//example.com/a")) == "example.com/a"
  {
    assert StartsWith("//example.com/a", "//");
  }

  /**
   * The pattern is a plain string, so only its first occurrence goes, wherever
   * it is, not only a leading one: an absolute `https://a//b` is stored as
   * `https:a//b`.
   */
  lemma UrlOfAbsoluteExample()
    ensures UrlOf(Some("https://a//b")) == "https:a//b"
  {
    var h := "https://a//b";
    assert OccursAt(h, "//", 6);
    forall j | 0 <= j < 6 ensures !OccursAt(h, "//", j) {
      assert h[j] != '/';
    }
    assert IndexOfFrom(h, "//", 0) == Some(6);
    assert h[..6] == "https:" && h[8..] == "a//b";
  }

  /** The `.each` loop of lines 19-34: push the record of every kept candidate, in order. */
  method CollectLinks(candidates: seq<Candidate>) returns (results: seq<LinkRecord>)
    ensures results == Extracted(candidates)
    ensures |results| <= |candidates|
    ensures forall k :: 0 <= k < |results| ==> WellFormed(results[k])
  {
    results := [];
    var i := 0;
    while i < |candidates|
      invariant 0 <= i <= |candidates|
      invariant results == KeepComplete(Drafts(candidates[..i]))
    {
      var c := candidates[i];
      var url := UrlOf(c.href);
      var text := TextOf(c);
      if url != "" && text != "" {
        results := results + [LinkRecord(url, text)];
      }
      assert Drafts(candidates[..i + 1])[..i] == Drafts(candidates[..i]);
      i := i + 1;
    }
    assert candidates[..i] == candidates;
  }

  /** The saved page: unreadable (read or parse error), or its matched candidates. */
  datatype SavedPage = Unreadable | Loaded(candidates: seq<Candidate>)

  /**
   * The whole script: the JSON file is written (Some) with the extracted
   * records, or, when reading failed before line 37, not written at all (None).
   */
  method ExtractLinks(page: SavedPage) returns (written: Option<seq<LinkRecord>>)
    ensures page.Unreadable? <==> written.None?
    ensures page.Loaded? ==> written == Some(Extracted(page.candidates))
  {
    match page
    case Unreadable =>
      written := None;
    case Loaded(candidates) =>
      var results := CollectLinks(candidates);
      written := Some(results);
  }
}
