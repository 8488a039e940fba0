/** Discovery of video links on an arbitrary page: the YouTube `src` of embedded frames
    (rewritten from the embed form to the watch form) and YouTube anchors, each kept once,
    in the order first seen, frames before anchors. Fetching and parsing the page are not
    modelled: the attribute values are the input. */
module Links {
  import opened Wrappers
  import opened Seqs

  /** `s.includes(sub)`. */
  predicate Contains(s: string, sub: string) {
    sub <= s || (s != [] && Contains(s[1..], sub))
  }

  /** `s.replace(pat, rep)` with a string pattern: only the first occurrence is replaced. */
  function ReplaceFirst(s: string, pat: string, rep: string): string {
    if pat <= s then rep + s[|pat|..]
    else if s == [] then []
    else [s[0]] + ReplaceFirst(s[1..], pat, rep)
  }

  /** `sub` occurs in `s` exactly when it starts at some position. */
  lemma {:induction false} ContainsAt(s: string, sub: string)
    ensures Contains(s, sub) <==> exists i | 0 <= i <= |s| :: sub <= s[i..]
  {
    if s != [] {
      ContainsAt(s[1..], sub);
      if exists i | 0 <= i <= |s[1..]| :: sub <= s[1..][i..] {
        var i :| 0 <= i <= |s[1..]| && sub <= s[1..][i..];
        assert s[1..][i..] == s[i + 1..];
      }
      if exists i | 0 <= i <= |s| :: sub <= s[i..] {
        var i :| 0 <= i <= |s| && sub <= s[i..];
        if i > 0 {
          assert s[1..][i - 1..] == s[i..];
        }
      }
    } else {
      assert s[0..] == s;
    }
  }

  /** `pat` starts at no position of `pre` in the text `pre + tail`. */
  predicate NoMatchBefore(pre: string, tail: string, pat: string) {
    pre == [] || (!(pat <= pre + tail) && NoMatchBefore(pre[1..], tail, pat))
  }

  /** When the first occurrence of `pat` follows `pre`, that occurrence alone is replaced. */
  lemma {:induction false} ReplaceFirstAt(pre: string, pat: string, rep: string, post: string)
    requires NoMatchBefore(pre, pat + post, pat)
    ensures ReplaceFirst(pre + (pat + post), pat, rep) == pre + (rep + post)
  {
    var s := pre + (pat + post);
    if pre == [] {
      assert s == pat + post;
      assert s[|pat|..] == post;
    } else {
      assert s[0] == pre[0] && s[1..] == pre[1..] + (pat + post);
      ReplaceFirstAt(pre[1..], pat, rep, post);
      assert pre + (rep + post) == [pre[0]] + (pre[1..] + (rep + post));
    }
  }

  /** Without an occurrence nothing is replaced. */
  lemma {:induction false} ReplaceFirstAbsent(s: string, pat: string, rep: string)
    requires !Contains(s, pat)
    ensures ReplaceFirst(s, pat, rep) == s
  {
    if s != [] {
      ReplaceFirstAbsent(s[1..], pat, rep);
    }
  }

  /** An embedded frame that points at YouTube. */
  predicate IsYoutubeFrameSrc(src: string) {
    Contains(src, "youtube.com") || Contains(src, "youtu.be")
  }

  /** An anchor that points at a YouTube video. */
  predicate IsYoutubeLinkHref(href: string) {
    Contains(href, "youtube.com/watch") || Contains(href, "youtu.be")
  }

  /** The embed form of a frame's address turned into the watch form. */
  function WatchUrl(src: string): string {
    ReplaceFirst(src, "embed/", "watch?v=")
  }

  /** The attribute values of a fetched page, in document order; `None` is an element
      without the attribute. */
  datatype Page = Page(iframeSrcs: seq<Option<string>>, anchorHrefs: seq<Option<string>>)

  function FrameCandidate(src: Option<string>): seq<string> {
    if src.Some? && IsYoutubeFrameSrc(src.value) then [WatchUrl(src.value)] else []
  }

  function LinkCandidate(href: Option<string>): seq<string> {
    if href.Some? && IsYoutubeLinkHref(href.value) then [href.value] else []
  }

  /** What the frame loop adds to the set, in order, repetitions included. */
  function FrameCandidates(srcs: seq<Option<string>>): seq<string> {
    if srcs == [] then [] else FrameCandidates(srcs[..|srcs| - 1]) + FrameCandidate(srcs[|srcs| - 1])
  }

  /** What the anchor loop adds to the set, in order, repetitions included. */
  function LinkCandidates(hrefs: seq<Option<string>>): seq<string> {
    if hrefs == [] then [] else LinkCandidates(hrefs[..|hrefs| - 1]) + LinkCandidate(hrefs[|hrefs| - 1])
  }

  function Candidates(page: Page): seq<string> {
    FrameCandidates(page.iframeSrcs) + LinkCandidates(page.anchorHrefs)
  }

  lemma FrameStep(srcs: seq<Option<string>>, i: nat)
    requires i < |srcs|
    ensures FrameCandidates(srcs[..i + 1]) == FrameCandidates(srcs[..i]) + FrameCandidate(srcs[i])
  {
    assert srcs[..i + 1][..i] == srcs[..i];
  }

  lemma LinkStep(hrefs: seq<Option<string>>, j: nat)
    requires j < |hrefs|
    ensures LinkCandidates(hrefs[..j + 1]) == LinkCandidates(hrefs[..j]) + LinkCandidate(hrefs[j])
  {
    assert hrefs[..j + 1][..j] == hrefs[..j];
  }

  /** `youtubeUrls.add(u)`: the set, read in insertion order, gains `u` at the end unless it
      already holds it. `urls` and `seen` are that order and that membership. */
  method AddUrl(urls: seq<string>, seen: set<string>, u: string,
                ghost start: seq<string>, ghost added: seq<string>)
    returns (urls': seq<string>, seen': set<string>)
    requires urls == AddAll(start, added)
    requires forall v :: v in seen <==> v in urls
    ensures urls' == AddAll(start, added + [u])
    ensures forall v :: v in seen' <==> v in urls'
  {
    AddAllSnoc(start, added, u);
    if u in seen {
      urls', seen' := urls, seen;
    } else {
      urls', seen' := urls + [u], seen + {u};
    }
  }

  /** The frame loop: the watch form of every YouTube frame, each once, with the set of
      links seen so far. */
  method CollectFrameUrls(srcs: seq<Option<string>>) returns (urls: seq<string>, seen: set<string>)
    ensures urls == Dedup(FrameCandidates(srcs))
    ensures forall v :: v in seen <==> v in urls
  {
    seen := {};
    urls := [];
    ghost var cands: seq<string> := [];
    var i := 0;
    while i < |srcs|
      invariant 0 <= i <= |srcs|
      invariant cands == FrameCandidates(srcs[..i])
      invariant urls == AddAll([], cands)
      invariant forall v :: v in seen <==> v in urls
    {
      var src := srcs[i];
      FrameStep(srcs, i);
      if src.Some? && IsYoutubeFrameSrc(src.value) {
        urls, seen := AddUrl(urls, seen, WatchUrl(src.value), [], cands);
      } else {
        assert cands + FrameCandidate(src) == cands;
      }
      cands := cands + FrameCandidate(src);
      i := i + 1;
    }
    assert srcs[..i] == srcs;
  }

  /** The anchor loop: adds every YouTube anchor to the set left by the frame loop. */
  method CollectLinkUrls(hrefs: seq<Option<string>>, urls0: seq<string>, seen0: set<string>)
    returns (urls: seq<string>, seen: set<string>)
    requires forall v :: v in seen0 <==> v in urls0
    ensures urls == AddAll(urls0, LinkCandidates(hrefs))
    ensures forall v :: v in seen <==> v in urls
  {
    urls, seen := urls0, seen0;
    ghost var cands: seq<string> := [];
    var j := 0;
    while j < |hrefs|
      invariant 0 <= j <= |hrefs|
      invariant cands == LinkCandidates(hrefs[..j])
      invariant urls == AddAll(urls0, cands)
      invariant forall v :: v in seen <==> v in urls
    {
      var href := hrefs[j];
      LinkStep(hrefs, j);
      if href.Some? && IsYoutubeLinkHref(href.value) {
        urls, seen := AddUrl(urls, seen, href.value, urls0, cands);
      } else {
        assert cands + LinkCandidate(href) == cands;
      }
      cands := cands + LinkCandidate(href);
      j := j + 1;
    }
    assert hrefs[..j] == hrefs;
  }

  /** The links of a page, or none when fetching or parsing it failed (`page` is `None`):
      the frame loop, then the anchor loop on the same set. */
  method ExtractYoutubeUrls(page: Option<Page>) returns (urls: seq<string>)
    ensures page.None? ==> urls == []
    ensures page.Some? ==> urls == Dedup(Candidates(page.value))
    ensures NoDuplicates(urls)
  {
    if page.None? {
      return [];
    }
    var frameUrls, seen := CollectFrameUrls(page.value.iframeSrcs);
    urls, seen := CollectLinkUrls(page.value.anchorHrefs, frameUrls, seen);
    AddAllDedup(FrameCandidates(page.value.iframeSrcs), LinkCandidates(page.value.anchorHrefs));
  }

  /** A frame address is a candidate exactly when some frame has a YouTube `src` whose watch
      form it is. */
  lemma {:induction false} FrameCandidatesOrigin(srcs: seq<Option<string>>, u: string)
    ensures u in FrameCandidates(srcs) <==>
      exists i | 0 <= i < |srcs| :: srcs[i].Some? && IsYoutubeFrameSrc(srcs[i].value) && WatchUrl(srcs[i].value) == u
  {
    if srcs != [] {
      var init := srcs[..|srcs| - 1];
      FrameCandidatesOrigin(init, u);
      forall i | 0 <= i < |init| ensures init[i] == srcs[i] { }
    }
  }

  /** A link address is a candidate exactly when some anchor has it as a YouTube `href`. */
  lemma {:induction false} LinkCandidatesOrigin(hrefs: seq<Option<string>>, u: string)
    ensures u in LinkCandidates(hrefs) <==>
      exists i | 0 <= i < |hrefs| :: hrefs[i].Some? && IsYoutubeLinkHref(hrefs[i].value) && hrefs[i].value == u
  {
    if hrefs != [] {
      var init := hrefs[..|hrefs| - 1];
      LinkCandidatesOrigin(init, u);
      forall i | 0 <= i < |init| ensures init[i] == hrefs[i] { }
    }
  }

  /** Some frame of the page has a YouTube `src` whose watch form is `u`. */
  predicate FromFrame(page: Page, u: string) {
    exists i | 0 <= i < |page.iframeSrcs| ::
      page.iframeSrcs[i].Some? && IsYoutubeFrameSrc(page.iframeSrcs[i].value) && WatchUrl(page.iframeSrcs[i].value) == u
  }

  /** Some anchor of the page has the YouTube `href` `u`. */
  predicate FromAnchor(page: Page, u: string) {
    exists i | 0 <= i < |page.anchorHrefs| ::
      page.anchorHrefs[i].Some? && IsYoutubeLinkHref(page.anchorHrefs[i].value) && page.anchorHrefs[i].value == u
  }

  /** The links of a page: no repetitions; exactly the watch forms of YouTube frames and the
      YouTube anchors; in the order of their first appearance, frames before anchors. */
  lemma PageUrlsSpec(page: Page, u: string)
    ensures NoDuplicates(Dedup(Candidates(page)))
    ensures u in Dedup(Candidates(page)) <==> FromFrame(page, u) || FromAnchor(page, u)
    ensures forall i, j | 0 <= i < j < |Dedup(Candidates(page))| ::
      IndexOf(Candidates(page), Dedup(Candidates(page))[i]) < IndexOf(Candidates(page), Dedup(Candidates(page))[j])
  {
    FrameCandidatesOrigin(page.iframeSrcs, u);
    LinkCandidatesOrigin(page.anchorHrefs, u);
    DedupFirstOccurrenceOrder(Candidates(page));
  }

  /** Every link that comes from a frame precedes every link that comes from anchors only. */
  lemma FramesBeforeAnchors(page: Page, i: nat, j: nat)
    requires i < |Dedup(Candidates(page))| && j < |Dedup(Candidates(page))|
    requires Dedup(Candidates(page))[i] in FrameCandidates(page.iframeSrcs)
    requires Dedup(Candidates(page))[j] !in FrameCandidates(page.iframeSrcs)
    ensures i < j
  {
    var c, d := Candidates(page), Dedup(Candidates(page));
    var frames := FrameCandidates(page.iframeSrcs);
    DedupFirstOccurrenceOrder(c);
    IndexOfAppend(frames, LinkCandidates(page.anchorHrefs), d[i]);
    assert d[j] in c;
  }
}
