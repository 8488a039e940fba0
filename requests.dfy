/** The request handling around a download: which query parameters admit a request, how an
    `itag` parameter selects formats (`parseInt` and then `===`), how the temporary files of a
    merge are named, and the `Content-Disposition` header built from a cleaned title. Fetching
    video information, validating a URL, streaming and merging are not modelled; the URL check
    is a parameter. */
module Requests {
  import opened Wrappers
  import opened Chars
  import opened Numerals
  import opened Seqs
  import opened Formats
  import opened Titles

  // ---------------------------------------------------------------------------------------
  // parseInt with no radix argument

  /** A `0x` or `0X` prefix, which makes `parseInt` read hexadecimal digits. */
  predicate HasHexPrefix(s: string) {
    |s| >= 2 && s[0] == '0' && (s[1] == 'x' || s[1] == 'X')
  }

  /** The unsigned part of `parseInt`: a hexadecimal number after `0x`/`0X`, a decimal one
      otherwise; reading stops at the first character that is not a digit, and no digit at
      all gives `NaN` (`None`). */
  function ReadMagnitude(u: string): Option<nat> {
    var radix := if HasHexPrefix(u) then 16 else 10;
    var body := if HasHexPrefix(u) then u[2..] else u;
    var digits := LeadingDigitsIn(body, radix);
    if digits == [] then None else Some(ValueIn(digits, radix))
  }

  predicate AllJsWhitespace(ws: string) {
    forall i | 0 <= i < |ws| :: IsJsWhitespace(ws[i])
  }

  /** Text after the white space: an optional sign, then the magnitude. */
  function ParseSigned(t: string): Option<int> {
    if t != [] && t[0] == '-' then
      (if ReadMagnitude(t[1..]).None? then None else Some(-(ReadMagnitude(t[1..]).value as int)))
    else if t != [] && t[0] == '+' then
      (if ReadMagnitude(t[1..]).None? then None else Some(ReadMagnitude(t[1..]).value as int))
    else
      (if ReadMagnitude(t).None? then None else Some(ReadMagnitude(t).value as int))
  }

  /** `parseInt(s)`, where `None` is `NaN`: the leading white space is skipped. */
  function ParseIntJs(s: string): Option<int> {
    if s != [] && IsJsWhitespace(s[0]) then ParseIntJs(s[1..]) else ParseSigned(s)
  }

  /** Leading white space does not change what `parseInt` reads. */
  lemma {:induction false} ParseIntSkips(ws: string, t: string)
    requires AllJsWhitespace(ws)
    requires t == [] || !IsJsWhitespace(t[0])
    ensures ParseIntJs(ws + t) == ParseSigned(t)
  {
    if ws != [] {
      assert (ws + t)[1..] == ws[1..] + t;
      ParseIntSkips(ws[1..], t);
    } else {
      assert ws + t == t;
    }
  }

  /** A rendered number read back as a magnitude; `rest` stops the digits, and cannot turn a
      lone `0` into a hexadecimal prefix. */
  lemma ReadDecimal(n: nat, rest: string)
    requires rest == [] || !IsDigit(rest[0])
    requires n == 0 && rest != [] ==> rest[0] != 'x' && rest[0] != 'X'
    ensures ReadMagnitude(DecimalString(n) + rest) == Some(n)
  {
    var d := DecimalString(n);
    if |d| == 1 && rest != [] {
      assert (d + rest)[1] == rest[0];
    }
    assert !HasHexPrefix(d + rest);
    LeadingDigitsOfDigitsThen(d, rest, 10);
    DecimalStringValue(n);
  }

  /** A number rendered in decimal, after any white space and before any text that does not
      continue it, reads back as that number. */
  lemma ParseIntRendered(ws: string, n: nat, rest: string)
    requires AllJsWhitespace(ws)
    requires rest == [] || !IsDigit(rest[0])
    requires n == 0 && rest != [] ==> rest[0] != 'x' && rest[0] != 'X'
    ensures ParseIntJs(ws + (DecimalString(n) + rest)) == Some(n)
  {
    var t := DecimalString(n) + rest;
    assert IsDigit(t[0]);
    ParseIntSkips(ws, t);
    ReadDecimal(n, rest);
  }

  /** After the white space, a minus sign negates the magnitude that follows it and a plus
      sign leaves it as it is. */
  lemma ParseIntSigned(ws: string, u: string)
    requires AllJsWhitespace(ws)
    ensures ParseIntJs(ws + ("-" + u)) == if ReadMagnitude(u).None? then None else Some(-(ReadMagnitude(u).value as int))
    ensures ParseIntJs(ws + ("+" + u)) == if ReadMagnitude(u).None? then None else Some(ReadMagnitude(u).value as int)
  {
    var m, p := "-" + u, "+" + u;
    assert m[0] == '-' && m[1..] == u;
    assert p[0] == '+' && p[1..] == u;
    ParseIntSkips(ws, m);
    ParseIntSkips(ws, p);
  }

  /** Text that starts with neither white space, a sign nor a digit is `NaN`. */
  lemma ParseIntNoDigit(s: string)
    requires s != [] && !IsJsWhitespace(s[0]) && s[0] != '+' && s[0] != '-' && !IsDigit(s[0])
    ensures ParseIntJs(s) == None
  {
  }

  /** `parseInt(undefined)` reads the text "undefined", which is `NaN`. */
  lemma ParseIntUndefined()
    ensures ParseIntJs("undefined") == None
  {
    ParseIntNoDigit("undefined");
  }

  /** A hexadecimal parameter: `0x89` is 137. */
  lemma ParseIntHex()
    ensures ParseIntJs("0x89") == Some(137)
  {
    assert LeadingDigitsIn("89", 16) == "89";
    assert ValueIn("8", 16) == 8;
  }

  // ---------------------------------------------------------------------------------------
  // Format selection by itag

  /** `String(itag)` where `parseInt` receives a missing query parameter. */
  function ItagText(itag: Option<string>): string {
    if itag.Some? then itag.value else "undefined"
  }

  /** The stream filter `format.itag === parseInt(itag)`; `NaN` equals nothing. */
  predicate ItagMatches(f: Format, itag: Option<string>) {
    ParseIntJs(ItagText(itag)) == Some(f.itag)
  }

  /** The formats the stream filter lets through, in their order. */
  function Selected(formats: seq<Format>, itag: Option<string>): seq<Format> {
    Filter(formats, (f: Format) => ItagMatches(f, itag))
  }

  /** The filter keeps the formats whose itag is the parameter's number, and nothing when the
      parameter is not a number; all the formats it keeps share one itag. */
  lemma SelectedSpec(formats: seq<Format>, itag: Option<string>, f: Format)
    ensures f in Selected(formats, itag) <==> f in formats && ParseIntJs(ItagText(itag)) == Some(f.itag)
    ensures ParseIntJs(ItagText(itag)).None? ==> Selected(formats, itag) == []
    ensures forall g, h | g in Selected(formats, itag) && h in Selected(formats, itag) :: g.itag == h.itag
    ensures IsSubsequence(Selected(formats, itag), formats)
  {
    var p := (f: Format) => ItagMatches(f, itag);
    FilterSpec(formats, p);
    FilterIsSubsequence(formats, p);
    if Selected(formats, itag) != [] {
      assert p(Selected(formats, itag)[0]);
    }
  }

  /** An itag sent back as the decimal text of a listed itag selects exactly the formats with
      that itag. */
  lemma SelectRenderedItag(formats: seq<Format>, n: nat, f: Format)
    ensures f in Selected(formats, Some(DecimalString(n))) <==> f in formats && f.itag == n
  {
    assert "" + (DecimalString(n) + "") == DecimalString(n);
    ParseIntRendered("", n, "");
    SelectedSpec(formats, Some(DecimalString(n)), f);
  }

  /** A missing itag (the direct route does not require one) selects no format. */
  lemma MissingItagSelectsNothing(formats: seq<Format>)
    ensures Selected(formats, None) == []
  {
    ParseIntUndefined();
    SelectedSpec(formats, None, Format(0, false, false, "", None, None));
  }

  // ---------------------------------------------------------------------------------------
  // Admission of a request

  /** The 400 answers: the merge route's incomplete parameters, the direct route's missing
      URL, and a URL the validator rejects. */
  datatype Rejection = IncompleteParameters | MissingVideoUrl | InvalidVideoUrl

  /** A query parameter that passes `!param`: present and not empty. */
  predicate Truthy(p: Option<string>) {
    p.Some? && p.value != ""
  }

  datatype MergeJob = MergeJob(url: string, videoItag: string, audioItag: string)

  /** `/download-merge`: all three parameters must be truthy, then the URL must be valid. */
  function AdmitMerge(url: Option<string>, videoItag: Option<string>, audioItag: Option<string>,
                      isValidUrl: string -> bool): Result<MergeJob, Rejection>
  {
    if !Truthy(url) || !Truthy(videoItag) || !Truthy(audioItag) then Failure(IncompleteParameters)
    else if !isValidUrl(url.value) then Failure(InvalidVideoUrl)
    else Success(MergeJob(url.value, videoItag.value, audioItag.value))
  }

  /** The merge route admits exactly complete requests with a valid URL, carrying their
      parameters; it answers incomplete parameters before consulting the validator. */
  lemma AdmitMergeSpec(url: Option<string>, videoItag: Option<string>, audioItag: Option<string>,
                       isValidUrl: string -> bool, otherValidator: string -> bool)
    ensures var r := AdmitMerge(url, videoItag, audioItag, isValidUrl);
      && (r == Failure(IncompleteParameters) <==> !(Truthy(url) && Truthy(videoItag) && Truthy(audioItag)))
      && (r == Failure(InvalidVideoUrl) <==>
            Truthy(url) && Truthy(videoItag) && Truthy(audioItag) && !isValidUrl(url.value))
      && (r.Success? <==> Truthy(url) && Truthy(videoItag) && Truthy(audioItag) && isValidUrl(url.value))
      && (r.Success? ==> r.value == MergeJob(url.value, videoItag.value, audioItag.value))
      && (r.Failure? ==> r.error != MissingVideoUrl)
    ensures !(Truthy(url) && Truthy(videoItag) && Truthy(audioItag)) ==>
      AdmitMerge(url, videoItag, audioItag, isValidUrl) == AdmitMerge(url, videoItag, audioItag, otherValidator)
  {
  }

  /** The two downloads an admitted merge starts: the formats each itag selects. */
  function MergeStreams(formats: seq<Format>, job: MergeJob): (seq<Format>, seq<Format>) {
    (Selected(formats, Some(job.videoItag)), Selected(formats, Some(job.audioItag)))
  }

  /** Passing back the itags of a listed video-only format and a listed audio-only format
      selects those formats (and any other format sharing their itag). */
  lemma MergeOfListedItags(formats: seq<Format>, url: string, v: nat, a: nat, f: Format)
    ensures var (vs, as_) := MergeStreams(formats, MergeJob(url, DecimalString(v), DecimalString(a)));
      && (f in vs <==> f in formats && f.itag == v)
      && (f in as_ <==> f in formats && f.itag == a)
  {
    SelectRenderedItag(formats, v, f);
    SelectRenderedItag(formats, a, f);
  }

  datatype DirectJob = DirectJob(url: string, itag: Option<string>)

  /** `/download`: only the URL is required; the itag may be missing. */
  function AdmitDirect(url: Option<string>, itag: Option<string>, isValidUrl: string -> bool)
    : Result<DirectJob, Rejection>
  {
    if !Truthy(url) then Failure(MissingVideoUrl)
    else if !isValidUrl(url.value) then Failure(InvalidVideoUrl)
    else Success(DirectJob(url.value, itag))
  }

  /** The direct route admits a request exactly when its URL is present and valid, whatever
      its itag; an admitted request without an itag then streams no format. */
  lemma AdmitDirectSpec(url: Option<string>, itag: Option<string>, otherItag: Option<string>,
                        isValidUrl: string -> bool, formats: seq<Format>)
    ensures var r := AdmitDirect(url, itag, isValidUrl);
      && (r == Failure(MissingVideoUrl) <==> !Truthy(url))
      && (r == Failure(InvalidVideoUrl) <==> Truthy(url) && !isValidUrl(url.value))
      && (r.Success? <==> Truthy(url) && isValidUrl(url.value))
      && (r.Success? ==> r.value == DirectJob(url.value, itag))
    ensures AdmitDirect(url, itag, isValidUrl).Success? == AdmitDirect(url, otherItag, isValidUrl).Success?
    ensures AdmitDirect(url, None, isValidUrl).Success? ==>
      Selected(formats, AdmitDirect(url, None, isValidUrl).value.itag) == []
  {
    MissingItagSelectsNothing(formats);
  }

  // ---------------------------------------------------------------------------------------
  // Temporary files of a merge

  /** `path.join(dir, name)` for a directory and a plain file name. */
  function JoinPath(dir: string, name: string): string {
    dir + "/" + name
  }

  const VideoPrefix: string := "temp_video_"
  const AudioPrefix: string := "temp_audio_"
  const OutputPrefix: string := "output_"

  predicate IsTempPrefix(p: string) {
    p == VideoPrefix || p == AudioPrefix || p == OutputPrefix
  }

  /** A file name rendered from a prefix and the request's timestamp. */
  function TempName(prefix: string, timestamp: nat): string {
    prefix + DecimalString(timestamp) + ".mp4"
  }

  datatype TempFiles = TempFiles(video: string, audio: string, output: string)

  /** The three files of a merge started at `timestamp`, in the server's directory `dir`. */
  function TempFilesFor(dir: string, timestamp: nat): TempFiles {
    TempFiles(JoinPath(dir, TempName(VideoPrefix, timestamp)),
              JoinPath(dir, TempName(AudioPrefix, timestamp)),
              JoinPath(dir, TempName(OutputPrefix, timestamp)))
  }

  lemma JoinPathInjective(dir: string, a: string, b: string)
    requires JoinPath(dir, a) == JoinPath(dir, b)
    ensures a == b
  {
    assert a == JoinPath(dir, a)[|dir| + 1..];
    assert b == JoinPath(dir, b)[|dir| + 1..];
  }

  lemma TempNameAt(prefix: string, timestamp: nat, k: nat)
    requires k < |prefix|
    ensures k < |TempName(prefix, timestamp)| && TempName(prefix, timestamp)[k] == prefix[k]
  {
  }

  /** Names from different prefixes differ in their prefix. */
  lemma TempPrefixesDiffer(p: string, q: string, s: nat, t: nat)
    requires IsTempPrefix(p) && IsTempPrefix(q) && p != q
    ensures TempName(p, s) != TempName(q, t)
  {
    var k := if p == OutputPrefix || q == OutputPrefix then 0 else 5;
    TempNameAt(p, s, k);
    TempNameAt(q, t, k);
    assert p[k] != q[k];
  }

  /** Names from one prefix differ in their timestamp. */
  lemma TempTimestampsDiffer(p: string, s: nat, t: nat)
    requires TempName(p, s) == TempName(p, t)
    ensures s == t
  {
    var ds, dt := DecimalString(s), DecimalString(t);
    assert |ds| == |dt|;
    assert ds == TempName(p, s)[|p|..|p| + |ds|];
    assert dt == TempName(p, t)[|p|..|p| + |dt|];
    DecimalStringInjective(s, t);
  }

  /** A temporary name determines its prefix and its timestamp. */
  lemma TempNameInjective(p: string, s: nat, q: string, t: nat)
    requires IsTempPrefix(p) && IsTempPrefix(q)
    requires TempName(p, s) == TempName(q, t)
    ensures p == q && s == t
  {
    if p != q {
      TempPrefixesDiffer(p, q, s, t);
    } else {
      TempTimestampsDiffer(p, s, t);
    }
  }

  /** Two temporary paths in one directory coincide only for the same prefix and timestamp. */
  lemma TempPathsDiffer(dir: string, p: string, x: nat, q: string, y: nat)
    requires IsTempPrefix(p) && IsTempPrefix(q) && (p != q || x != y)
    ensures JoinPath(dir, TempName(p, x)) != JoinPath(dir, TempName(q, y))
  {
    if JoinPath(dir, TempName(p, x)) == JoinPath(dir, TempName(q, y)) {
      JoinPathInjective(dir, TempName(p, x), TempName(q, y));
      TempNameInjective(p, x, q, y);
    }
  }

  /** The paths of one merge are three different files. */
  lemma TempFilesDistinct(dir: string, s: nat)
    ensures var f := TempFilesFor(dir, s);
      f.video != f.audio && f.video != f.output && f.audio != f.output
  {
    TempPathsDiffer(dir, VideoPrefix, s, AudioPrefix, s);
    TempPathsDiffer(dir, VideoPrefix, s, OutputPrefix, s);
    TempPathsDiffer(dir, AudioPrefix, s, OutputPrefix, s);
  }

  /** Merges started at different timestamps share no file. */
  lemma TempFilesSeparate(dir: string, s: nat, t: nat)
    requires s != t
    ensures var f, g := TempFilesFor(dir, s), TempFilesFor(dir, t);
      {f.video, f.audio, f.output} !! {g.video, g.audio, g.output}
  {
    var prefixes := [VideoPrefix, AudioPrefix, OutputPrefix];
    forall a, b | 0 <= a < 3 && 0 <= b < 3
      ensures JoinPath(dir, TempName(prefixes[a], s)) != JoinPath(dir, TempName(prefixes[b], t))
    {
      TempPathsDiffer(dir, prefixes[a], s, prefixes[b], t);
    }
    assert JoinPath(dir, TempName(prefixes[0], s)) == TempFilesFor(dir, s).video;
    assert JoinPath(dir, TempName(prefixes[1], s)) == TempFilesFor(dir, s).audio;
    assert JoinPath(dir, TempName(prefixes[2], s)) == TempFilesFor(dir, s).output;
    assert JoinPath(dir, TempName(prefixes[0], t)) == TempFilesFor(dir, t).video;
    assert JoinPath(dir, TempName(prefixes[1], t)) == TempFilesFor(dir, t).audio;
    assert JoinPath(dir, TempName(prefixes[2], t)) == TempFilesFor(dir, t).output;
  }

  // ---------------------------------------------------------------------------------------
  // The attachment header

  const DispositionPrefix: string := "attachment; filename=\""

  /** The `Content-Disposition` value for a cleaned title. */
  function Disposition(stem: string): string {
    DispositionPrefix + stem + ".mp4\""
  }

  /** With a stem free of quotes, the quoted file name is the stem with `.mp4`, closed by the
      last character and by no earlier one. */
  lemma DispositionQuotesStem(stem: string)
    requires '"' !in stem
    ensures var h := Disposition(stem);
      && h[|DispositionPrefix| - 1] == '"' && h[|h| - 1] == '"'
      && h[|DispositionPrefix|..|h| - 1] == stem + ".mp4"
      && forall k | |DispositionPrefix| <= k < |h| - 1 :: h[k] != '"'
  {
    var h := Disposition(stem);
    assert h[|DispositionPrefix|..|h| - 1] == stem + ".mp4";
    forall k | |DispositionPrefix| <= k < |h| - 1 ensures h[k] != '"' {
      var i := k - |DispositionPrefix|;
      assert h[k] == (stem + ".mp4")[i];
      if i < |stem| {
        assert h[k] == stem[i];
      }
    }
  }

  /** Both routes' stems are free of quotes, so their headers name the file as intended. */
  lemma StemsQuoteFree(title: string)
    ensures '"' !in MergeStem(title)
    ensures '"' !in DirectStem(title)
  {
    MergeStemShape(title);
    DirectStemSpec(title, '"');
  }

  /** The direct route's stem keeps every line feed of the title, and so does its header. */
  lemma DirectHeaderKeepsLineFeeds(title: string)
    requires '\n' in title
    ensures '\n' in Disposition(DirectStem(title))
  {
    DirectStemSpec(title, '\n');
    var h := Disposition(DirectStem(title));
    var i :| 0 <= i < |DirectStem(title)| && DirectStem(title)[i] == '\n';
    assert h[|DispositionPrefix| + i] == '\n';
  }
}
