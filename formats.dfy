/** The `/quality` handler's format lists: the catalog's formats split into video-only,
    audio-only and combined lists, each ranked best first. */
module Formats {
  import opened Wrappers
  import opened Chars
  import opened Numerals
  import opened Seqs

  /** One entry of the catalog the video service returns for a video. A missing
      `qualityLabel` is JavaScript's `null`, and so is a missing `audioBitrate`. */
  datatype Format = Format(
    itag: int,
    hasVideo: bool,
    hasAudio: bool,
    container: string,
    qualityLabel: Option<string>,
    audioBitrate: Option<int>)

  predicate IsVideoOnly(f: Format) { f.hasVideo && !f.hasAudio }
  predicate IsAudioOnly(f: Format) { !f.hasVideo && f.hasAudio }
  predicate IsCombined(f: Format) { f.hasVideo && f.hasAudio }
  predicate HasNeither(f: Format) { !f.hasVideo && !f.hasAudio }

  /** The record a video-only or combined format is projected to before ranking (its
      display strings for fps, bitrate and size are not modelled). */
  datatype VideoOption = VideoOption(itag: int, qualityLabel: Option<string>, container: string)

  /** The record an audio-only format is projected to before ranking. */
  datatype AudioOption = AudioOption(itag: int, container: string, audioBitrate: Option<int>)

  function VideoOptionOf(f: Format): VideoOption {
    VideoOption(f.itag, f.qualityLabel, f.container)
  }

  function AudioOptionOf(f: Format): AudioOption {
    AudioOption(f.itag, f.container, f.audioBitrate)
  }

  // ---------------------------------------------------------------------------------------
  // Quality labels: the number written by the first run of digits in the label.

  /** The value of the first maximal run of decimal digits in a label, or `None` when it has
      no digit (where `match` returns `null` and indexing it throws). */
  function ParseQuality(text: string): Option<nat> {
    if text == [] then None
    else if IsDigit(text[0]) then Some(ValueIn(LeadingDigitsIn(text, 10), 10))
    else ParseQuality(text[1..])
  }

  /** The quality of a possibly missing label; a `null` label throws as well. */
  function QualityOf(text: Option<string>): Option<nat> {
    match text
    case None => None
    case Some(s) => ParseQuality(s)
  }

  predicate NoDigit(s: string) {
    forall i | 0 <= i < |s| :: !IsDigit(s[i])
  }

  /** A label yields no quality exactly when it contains no digit. */
  lemma {:induction false} ParseQualityNone(text: string)
    ensures ParseQuality(text) == None <==> NoDigit(text)
  {
    if text != [] && !IsDigit(text[0]) {
      ParseQualityNone(text[1..]);
      assert NoDigit(text) <==> NoDigit(text[1..]) by {
        if NoDigit(text[1..]) {
          forall i | 0 <= i < |text| ensures !IsDigit(text[i]) {
            if i > 0 { assert text[i] == text[1..][i - 1]; }
          }
        }
      }
    }
  }

  /** When the first digit of the label is at `i`, the quality is the value of the maximal
      run of digits that starts there. */
  lemma {:induction false} ParseQualityAt(text: string, i: nat)
    requires i < |text| && IsDigit(text[i]) && NoDigit(text[..i])
    ensures ParseQuality(text) == Some(ValueIn(LeadingDigitsIn(text[i..], 10), 10))
  {
    if i > 0 {
      assert !IsDigit(text[0]) by { assert text[0] == text[..i][0]; }
      assert text[1..][i - 1..] == text[i..];
      assert text[1..][..i - 1] == text[1..i];
      ParseQualityAt(text[1..], i - 1);
    }
  }

  /** A number rendered in decimal, between a digit-free prefix and a suffix that does not
      continue the digits, parses back to itself: "1080p60" gives 1080, "720p" gives 720. */
  lemma QualityOfRendered(prefix: string, n: nat, suffix: string)
    requires NoDigit(prefix)
    requires suffix == [] || !IsDigit(suffix[0])
    ensures ParseQuality(prefix + DecimalString(n) + suffix) == Some(n)
  {
    var d := DecimalString(n);
    var text := prefix + d + suffix;
    assert text[..|prefix|] == prefix;
    assert text[|prefix|..] == d + suffix;
    ParseQualityAt(text, |prefix|);
    LeadingDigitsOfDigitsThen(d, suffix, 10);
    DecimalStringValue(n);
  }

  lemma QualityOf1080p60()
    ensures ParseQuality("1080p60") == Some(1080)
  {
    assert DecimalString(1) == "1";
    assert DecimalString(10) == "10";
    assert DecimalString(108) == "108";
    assert DecimalString(1080) == "1080";
    QualityOfRendered("", 1080, "p60");
    assert "" + "1080" + "p60" == "1080p60";
  }

  lemma QualityOf720p()
    ensures ParseQuality("720p") == Some(720)
  {
    assert DecimalString(7) == "7";
    assert DecimalString(72) == "72";
    assert DecimalString(720) == "720";
    QualityOfRendered("", 720, "p");
    assert "" + "720" + "p" == "720p";
  }

  lemma QualityOfNoDigits()
    ensures ParseQuality("audio") == None
  {
    ParseQualityNone("audio");
  }

  // ---------------------------------------------------------------------------------------
  // Ranking keys.

  /** The sort key of a video option. The comparator throws for a text without a quality;
      the fallback value 0 is only consulted for lists of at most one element, which
      `sort` returns without calling the comparator (see `Seqs.SortDescShort`). */
  function QualityKey(v: VideoOption): int {
    match QualityOf(v.qualityLabel)
    case Some(n) => n
    case None => 0
  }

  /** `b.audioBitrate - a.audioBitrate` reads a `null` bitrate as 0. */
  function AudioKey(a: AudioOption): int {
    match a.audioBitrate
    case Some(b) => b
    case None => 0
  }

  /** Sorting `vs` by quality never throws: the comparator is not called for fewer than
      two elements, and otherwise every text has a quality. */
  predicate RankableByQuality(vs: seq<VideoOption>) {
    |vs| < 2 || forall i | 0 <= i < |vs| :: QualityOf(vs[i].qualityLabel).Some?
  }

  /** A catalog class whose quality sort throws: two or more formats and one of them with
      a text that has no quality. */
  predicate BreaksQualitySort(fs: seq<Format>) {
    |fs| >= 2 && exists i | 0 <= i < |fs| :: QualityOf(fs[i].qualityLabel).None?
  }

  // ---------------------------------------------------------------------------------------
  // Classification.

  datatype Listing = Listing(videoOnly: seq<VideoOption>, audioOnly: seq<AudioOption>, combined: seq<VideoOption>)

  /** The handler gives up (the error response) when a quality sort throws. */
  datatype ClassifyError = UnparsableQualityLabel

  function VideoCandidates(formats: seq<Format>): seq<VideoOption> {
    MapSeq(Filter(formats, IsVideoOnly), VideoOptionOf)
  }

  function AudioCandidates(formats: seq<Format>): seq<AudioOption> {
    MapSeq(Filter(formats, IsAudioOnly), AudioOptionOf)
  }

  function CombinedCandidates(formats: seq<Format>): seq<VideoOption> {
    MapSeq(Filter(formats, IsCombined), VideoOptionOf)
  }

  /** Filter, project and stably sort the catalog into the three lists. */
  function Classify(formats: seq<Format>): Result<Listing, ClassifyError> {
    var video := VideoCandidates(formats);
    var combined := CombinedCandidates(formats);
    if !RankableByQuality(video) || !RankableByQuality(combined) then Failure(UnparsableQualityLabel)
    else Success(Listing(
      SortDesc(video, QualityKey),
      SortDesc(AudioCandidates(formats), AudioKey),
      SortDesc(combined, QualityKey)))
  }

  lemma RankableByQualityOf(fs: seq<Format>)
    ensures RankableByQuality(MapSeq(fs, VideoOptionOf)) <==> !BreaksQualitySort(fs)
  {
    var vs := MapSeq(fs, VideoOptionOf);
    if BreaksQualitySort(fs) {
      var i :| 0 <= i < |fs| && QualityOf(fs[i].qualityLabel).None?;
      assert QualityOf(vs[i].qualityLabel).None?;
    }
  }

  /** The listing fails exactly when the video-only or the combined class has two or more
      formats and one of them has a text without a quality. */
  lemma ClassifyFails(formats: seq<Format>)
    ensures Classify(formats).Failure? <==>
      BreaksQualitySort(Filter(formats, IsVideoOnly)) || BreaksQualitySort(Filter(formats, IsCombined))
  {
    RankableByQualityOf(Filter(formats, IsVideoOnly));
    RankableByQualityOf(Filter(formats, IsCombined));
  }

  /** Each list is a reordering of its class, projected. */
  lemma ClassifyPermutes(formats: seq<Format>, l: Listing)
    requires Classify(formats) == Success(l)
    ensures multiset(l.videoOnly) == multiset(VideoCandidates(formats))
    ensures multiset(l.audioOnly) == multiset(AudioCandidates(formats))
    ensures multiset(l.combined) == multiset(CombinedCandidates(formats))
  {
    SortDescPermutes(VideoCandidates(formats), QualityKey);
    SortDescPermutes(AudioCandidates(formats), AudioKey);
    SortDescPermutes(CombinedCandidates(formats), QualityKey);
  }

  lemma {:induction false} ClassSizes(formats: seq<Format>)
    ensures |Filter(formats, IsVideoOnly)| + |Filter(formats, IsAudioOnly)| + |Filter(formats, IsCombined)|
            + |Filter(formats, HasNeither)| == |formats|
  {
    if formats != [] {
      ClassSizes(formats[1..]);
    }
  }

  /** Nothing is duplicated or lost: the three lists hold one entry per format that has
      video or audio, and formats with neither flag are dropped. */
  lemma ClassifyCounts(formats: seq<Format>, l: Listing)
    requires Classify(formats) == Success(l)
    ensures |l.videoOnly| + |l.audioOnly| + |l.combined| == |formats| - |Filter(formats, HasNeither)|
  {
    ClassSizes(formats);
  }

  /** An option is listed as video-only exactly when it is the projection of a video-only
      format of the catalog; likewise for audio-only and combined. */
  lemma ClassifyMembers(formats: seq<Format>, l: Listing, v: VideoOption, a: AudioOption)
    requires Classify(formats) == Success(l)
    ensures v in l.videoOnly <==>
      exists i | 0 <= i < |formats| :: IsVideoOnly(formats[i]) && VideoOptionOf(formats[i]) == v
    ensures a in l.audioOnly <==>
      exists i | 0 <= i < |formats| :: IsAudioOnly(formats[i]) && AudioOptionOf(formats[i]) == a
    ensures v in l.combined <==>
      exists i | 0 <= i < |formats| :: IsCombined(formats[i]) && VideoOptionOf(formats[i]) == v
  {
    ClassifyPermutes(formats, l);
    assert v in l.videoOnly <==> v in VideoCandidates(formats) by {
      assert v in l.videoOnly <==> v in multiset(l.videoOnly);
    }
    assert a in l.audioOnly <==> a in AudioCandidates(formats) by {
      assert a in l.audioOnly <==> a in multiset(l.audioOnly);
    }
    assert v in l.combined <==> v in CombinedCandidates(formats) by {
      assert v in l.combined <==> v in multiset(l.combined);
    }
    ClassMember(formats, IsVideoOnly, VideoOptionOf, v);
    ClassMember(formats, IsAudioOnly, AudioOptionOf, a);
    ClassMember(formats, IsCombined, VideoOptionOf, v);
  }

  lemma ClassMember<U>(formats: seq<Format>, p: Format -> bool, f: Format -> U, y: U)
    ensures y in MapSeq(Filter(formats, p), f) <==> exists i | 0 <= i < |formats| :: p(formats[i]) && f(formats[i]) == y
  {
    var fs := Filter(formats, p);
    FilterSpec(formats, p);
    MapSeqMember(fs, f, y);
    if y in MapSeq(fs, f) {
      var j :| 0 <= j < |fs| && f(fs[j]) == y;
      assert fs[j] in formats;
    }
    if exists i | 0 <= i < |formats| :: p(formats[i]) && f(formats[i]) == y {
      var i :| 0 <= i < |formats| && p(formats[i]) && f(formats[i]) == y;
      assert formats[i] in fs;
    }
  }

  /** Itags identify formats within one catalog. */
  predicate UniqueItags(formats: seq<Format>) {
    forall i, j | 0 <= i < j < |formats| :: formats[i].itag != formats[j].itag
  }

  /** A listed video-only option comes from a video-only format of the catalog. */
  lemma VideoOrigin(formats: seq<Format>, l: Listing, v: VideoOption) returns (i: nat)
    requires Classify(formats) == Success(l) && v in l.videoOnly
    ensures i < |formats| && IsVideoOnly(formats[i]) && formats[i].itag == v.itag
  {
    ClassifyMembers(formats, l, v, AudioOption(0, "", None));
    i :| 0 <= i < |formats| && IsVideoOnly(formats[i]) && VideoOptionOf(formats[i]) == v;
  }

  /** A listed audio-only option comes from an audio-only format of the catalog. */
  lemma AudioOrigin(formats: seq<Format>, l: Listing, a: AudioOption) returns (i: nat)
    requires Classify(formats) == Success(l) && a in l.audioOnly
    ensures i < |formats| && IsAudioOnly(formats[i]) && formats[i].itag == a.itag
  {
    ClassifyMembers(formats, l, VideoOption(0, None, ""), a);
    i :| 0 <= i < |formats| && IsAudioOnly(formats[i]) && AudioOptionOf(formats[i]) == a;
  }

  /** A listed combined option comes from a combined format of the catalog. */
  lemma CombinedOrigin(formats: seq<Format>, l: Listing, c: VideoOption) returns (i: nat)
    requires Classify(formats) == Success(l) && c in l.combined
    ensures i < |formats| && IsCombined(formats[i]) && formats[i].itag == c.itag
  {
    ClassifyMembers(formats, l, c, AudioOption(0, "", None));
    i :| 0 <= i < |formats| && IsCombined(formats[i]) && VideoOptionOf(formats[i]) == c;
  }

  /** With unique itags no two lists share an itag, and a format with neither flag
      contributes its itag to none of them; any of the lists may be empty. */
  lemma ClassifyDisjoint(formats: seq<Format>, l: Listing, v: VideoOption, a: AudioOption, c: VideoOption)
    requires UniqueItags(formats)
    requires Classify(formats) == Success(l)
    ensures v in l.videoOnly && a in l.audioOnly ==> v.itag != a.itag
    ensures v in l.videoOnly && c in l.combined ==> v.itag != c.itag
    ensures a in l.audioOnly && c in l.combined ==> a.itag != c.itag
    ensures forall i | 0 <= i < |formats| && HasNeither(formats[i]) ::
      && (v in l.videoOnly ==> formats[i].itag != v.itag)
      && (a in l.audioOnly ==> formats[i].itag != a.itag)
      && (c in l.combined ==> formats[i].itag != c.itag)
  {
    if v in l.videoOnly {
      var iv := VideoOrigin(formats, l, v);
      if a in l.audioOnly {
        var ia := AudioOrigin(formats, l, a);
        assert iv != ia;
      }
      if c in l.combined {
        var ic := CombinedOrigin(formats, l, c);
        assert iv != ic;
      }
      NeitherDiffers(formats, iv);
    }
    if a in l.audioOnly {
      var ia := AudioOrigin(formats, l, a);
      if c in l.combined {
        var ic := CombinedOrigin(formats, l, c);
        assert ia != ic;
      }
      NeitherDiffers(formats, ia);
    }
    if c in l.combined {
      var ic := CombinedOrigin(formats, l, c);
      NeitherDiffers(formats, ic);
    }
  }

  /** With unique itags a format with video or audio shares its itag with no format that has
      neither. */
  lemma NeitherDiffers(formats: seq<Format>, j: nat)
    requires UniqueItags(formats) && j < |formats| && !HasNeither(formats[j])
    ensures forall i | 0 <= i < |formats| && HasNeither(formats[i]) :: formats[i].itag != formats[j].itag
  {
    forall i | 0 <= i < |formats| && HasNeither(formats[i]) ensures formats[i].itag != formats[j].itag {
      assert i != j;
    }
  }

  /** Video-only and combined lists are non-increasing in quality, and when they have two
      or more entries every text has a quality; the audio-only list is non-increasing in
      bitrate. */
  lemma ClassifyOrdered(formats: seq<Format>, l: Listing)
    requires Classify(formats) == Success(l)
    ensures SortedDesc(l.videoOnly, QualityKey) && SortedDesc(l.combined, QualityKey)
    ensures SortedDesc(l.audioOnly, AudioKey)
    ensures |l.videoOnly| >= 2 ==> forall i | 0 <= i < |l.videoOnly| :: QualityOf(l.videoOnly[i].qualityLabel).Some?
    ensures |l.combined| >= 2 ==> forall i | 0 <= i < |l.combined| :: QualityOf(l.combined[i].qualityLabel).Some?
  {
    SortDescSorted(VideoCandidates(formats), QualityKey);
    SortDescSorted(AudioCandidates(formats), AudioKey);
    SortDescSorted(CombinedCandidates(formats), QualityKey);
    ClassifyPermutes(formats, l);
    forall i | 0 <= i < |l.videoOnly| ensures l.videoOnly[i] in VideoCandidates(formats) {
      assert l.videoOnly[i] in multiset(l.videoOnly);
    }
    forall i | 0 <= i < |l.combined| ensures l.combined[i] in CombinedCandidates(formats) {
      assert l.combined[i] in multiset(l.combined);
    }
  }

  /** Options of equal rank keep their catalog order (the sort is stable). */
  lemma ClassifyStable(formats: seq<Format>, l: Listing, k: int)
    requires Classify(formats) == Success(l)
    ensures WithKey(l.videoOnly, QualityKey, k) == WithKey(VideoCandidates(formats), QualityKey, k)
    ensures WithKey(l.audioOnly, AudioKey, k) == WithKey(AudioCandidates(formats), AudioKey, k)
    ensures WithKey(l.combined, QualityKey, k) == WithKey(CombinedCandidates(formats), QualityKey, k)
  {
    SortDescStable(VideoCandidates(formats), QualityKey, k);
    SortDescStable(AudioCandidates(formats), AudioKey, k);
    SortDescStable(CombinedCandidates(formats), QualityKey, k);
  }

  // ---------------------------------------------------------------------------------------
  // Texts without a quality: the listing as written fails, the evidently intended one ranks
  // them last.

  /** As written, one video-only format without a quality label beside a 1080p one makes
      the whole listing fail. */
  lemma ClassifyUnlabelledFails()
    ensures
      var hd := Format(137, true, false, "mp4", Some("1080p"), None);
      var unlabelled := Format(160, true, false, "mp4", None, None);
      Classify([hd, unlabelled]).Failure?
  {
    var hd := Format(137, true, false, "mp4", Some("1080p"), None);
    var unlabelled := Format(160, true, false, "mp4", None, None);
    FilterCons(hd, [unlabelled], IsVideoOnly);
    FilterCons(unlabelled, [], IsVideoOnly);
    assert [hd, unlabelled] == [hd] + [unlabelled];
    assert [unlabelled] + [] == [unlabelled];
    ClassifyFails([hd, unlabelled]);
    assert QualityOf(Filter([hd, unlabelled], IsVideoOnly)[1].qualityLabel).None?;
  }

  /** A text without a quality ranks below every quality. */
  function RankKey(v: VideoOption): int {
    match QualityOf(v.qualityLabel)
    case Some(n) => n
    case None => -1
  }

  /** The listing with texts that have no quality ranked last instead of failing. */
  function ClassifyRanked(formats: seq<Format>): Listing {
    Listing(
      SortDesc(VideoCandidates(formats), RankKey),
      SortDesc(AudioCandidates(formats), AudioKey),
      SortDesc(CombinedCandidates(formats), RankKey))
  }

  /** The ranked listing reorders each class, is non-increasing in quality and bitrate,
      keeps the catalog order among equal ranks, and puts every video-only or combined
      option without a quality after all those with one. */
  lemma ClassifyRankedSpec(formats: seq<Format>, k: int)
    ensures var l := ClassifyRanked(formats);
      && multiset(l.videoOnly) == multiset(VideoCandidates(formats))
      && multiset(l.audioOnly) == multiset(AudioCandidates(formats))
      && multiset(l.combined) == multiset(CombinedCandidates(formats))
      && SortedDesc(l.videoOnly, RankKey) && SortedDesc(l.combined, RankKey)
      && SortedDesc(l.audioOnly, AudioKey)
      && WithKey(l.videoOnly, RankKey, k) == WithKey(VideoCandidates(formats), RankKey, k)
      && WithKey(l.combined, RankKey, k) == WithKey(CombinedCandidates(formats), RankKey, k)
      && WithKey(l.audioOnly, AudioKey, k) == WithKey(AudioCandidates(formats), AudioKey, k)
    ensures var l := ClassifyRanked(formats);
      forall i, j | 0 <= i < j < |l.videoOnly| ::
        QualityOf(l.videoOnly[i].qualityLabel).None? ==> QualityOf(l.videoOnly[j].qualityLabel).None?
    ensures var l := ClassifyRanked(formats);
      forall i, j | 0 <= i < j < |l.combined| ::
        QualityOf(l.combined[i].qualityLabel).None? ==> QualityOf(l.combined[j].qualityLabel).None?
  {
    var l := ClassifyRanked(formats);
    SortDescPermutes(VideoCandidates(formats), RankKey);
    SortDescPermutes(AudioCandidates(formats), AudioKey);
    SortDescPermutes(CombinedCandidates(formats), RankKey);
    SortDescSorted(VideoCandidates(formats), RankKey);
    SortDescSorted(AudioCandidates(formats), AudioKey);
    SortDescSorted(CombinedCandidates(formats), RankKey);
    SortDescStable(VideoCandidates(formats), RankKey, k);
    SortDescStable(CombinedCandidates(formats), RankKey, k);
    SortDescStable(AudioCandidates(formats), AudioKey, k);
    UnqualifiedLast(l.videoOnly);
    UnqualifiedLast(l.combined);
  }

  lemma UnqualifiedLast(vs: seq<VideoOption>)
    requires SortedDesc(vs, RankKey)
    ensures forall i, j | 0 <= i < j < |vs| ::
      QualityOf(vs[i].qualityLabel).None? ==> QualityOf(vs[j].qualityLabel).None?
  {
    forall i, j | 0 <= i < j < |vs| && QualityOf(vs[i].qualityLabel).None?
      ensures QualityOf(vs[j].qualityLabel).None?
    {
      assert RankKey(vs[i]) >= RankKey(vs[j]);
    }
  }

  /** Wherever the listing as written succeeds, the ranked listing is the same. */
  lemma ClassifyRankedAgrees(formats: seq<Format>)
    requires Classify(formats).Success?
    ensures Classify(formats).value == ClassifyRanked(formats)
  {
    SameRankWhereRankable(VideoCandidates(formats));
    SameRankWhereRankable(CombinedCandidates(formats));
  }

  lemma SameRankWhereRankable(vs: seq<VideoOption>)
    requires RankableByQuality(vs)
    ensures SortDesc(vs, QualityKey) == SortDesc(vs, RankKey)
  {
    if |vs| < 2 {
      SortDescShort(vs, QualityKey);
      SortDescShort(vs, RankKey);
    } else {
      SortDescSameKeys(vs, QualityKey, RankKey);
    }
  }

  /** The catalog of a video with one 1080p video-only format and one 128 kbps audio-only
      format lists each in its own class. */
  lemma ClassifyTwoFormats()
    ensures
      var video := Format(137, true, false, "mp4", Some("1080p"), None);
      var audio := Format(140, false, true, "mp4", None, Some(128));
      Classify([video, audio]) == Success(Listing([VideoOptionOf(video)], [AudioOptionOf(audio)], []))
  {
    var video := Format(137, true, false, "mp4", Some("1080p"), None);
    var audio := Format(140, false, true, "mp4", None, Some(128));
    var fs := [video, audio];
    assert fs == [video] + [audio];
    FilterCons(video, [audio], IsVideoOnly);
    FilterCons(video, [audio], IsAudioOnly);
    FilterCons(video, [audio], IsCombined);
    FilterCons(audio, [], IsVideoOnly);
    FilterCons(audio, [], IsAudioOnly);
    FilterCons(audio, [], IsCombined);
    assert [audio] + [] == [audio];
    SortDescShort([VideoOptionOf(video)], QualityKey);
    SortDescShort([AudioOptionOf(audio)], AudioKey);
  }
}
