/**
 * The self-contained rules of the YouTube page parser: URL builders and tests, the video-id
 * extractor and validator, page-type classification, the `ratebypass` step, the choice of
 * stream formats and of the author icon, and the scan for the innertube API key.
 * JSON values reach these rules as plain records (`Format`, `Icon`).
 */
module StreamParser {
  import opened Wrappers
  import opened Strings
  import opened CppArith
  import opened YoutubeTypes

  // ---------------------------------------------------------------- URL builders

  const THUMBNAIL_PREFIX := "https://i.ytimg.com/vi/"
  const THUMBNAIL_HOST := "i.ytimg.com/vi/"
  const WATCH_PREFIX := "https://m.youtube.com/watch?"

  /** `youtube_get_video_thumbnail_url_by_id`. */
  function ThumbnailUrl(id: string): (r: string)
    ensures StartsWith(r, THUMBNAIL_PREFIX)
  {
    assert (THUMBNAIL_PREFIX + id + "/default.jpg")[..|THUMBNAIL_PREFIX|] == THUMBNAIL_PREFIX;
    THUMBNAIL_PREFIX + id + "/default.jpg"
  }

  /** `youtube_get_video_thumbnail_hq_url_by_id`. */
  function ThumbnailHqUrl(id: string): (r: string)
    ensures StartsWith(r, THUMBNAIL_PREFIX)
  {
    assert (THUMBNAIL_PREFIX + id + "/hqdefault.jpg")[..|THUMBNAIL_PREFIX|] == THUMBNAIL_PREFIX;
    THUMBNAIL_PREFIX + id + "/hqdefault.jpg"
  }

  /** `youtube_get_video_url_by_id`. */
  function VideoUrl(id: string): (r: string)
    ensures StartsWith(r, WATCH_PREFIX) && r[|WATCH_PREFIX|..] == "v=" + id
  {
    "https://m.youtube.com/watch?v=" + id
  }

  // ---------------------------------------------------------------- video ids

  /** `get_video_id_from_thumbnail_url`: the text after "i.ytimg.com/vi/" up to the next '/'. */
  function IdFromThumbnailUrl(url: string): (r: string)
    ensures Find(url, THUMBNAIL_HOST).None? ==> r == ""
    ensures '/' !in r
    ensures Find(url, THUMBNAIL_HOST).Some? ==>
              var start := Find(url, THUMBNAIL_HOST).value + |THUMBNAIL_HOST|;
              && start + |r| <= |url| && url[start..start + |r|] == r
              && (start + |r| == |url| || url[start + |r|] == '/')
  {
    match Find(url, THUMBNAIL_HOST)
    case None => ""
    case Some(pos) => TakeUntil(url, pos + |THUMBNAIL_HOST|, '/')
  }

  method VideoIdFromThumbnailUrl(url: string) returns (id: string)
    ensures id == IdFromThumbnailUrl(url)
  {
    var pos := Find(url, THUMBNAIL_HOST);
    if pos.None? {
      return "";
    }
    id := CopyUntil(url, pos.value + |THUMBNAIL_HOST|, '/');
  }

  /** The thumbnail host is found right after "https://" in a URL built from an id. */
  lemma {:induction false} ThumbnailHostAfterScheme(url: string)
    requires StartsWith(url, THUMBNAIL_PREFIX)
    ensures Find(url, THUMBNAIL_HOST) == Some(8)
  {
    assert url[..|THUMBNAIL_PREFIX|] == THUMBNAIL_PREFIX;
    assert url[8..8 + |THUMBNAIL_HOST|] == THUMBNAIL_HOST;
    forall j | 0 <= j < 8
      ensures !OccursAt(url, THUMBNAIL_HOST, j)
    {
      assert url[j] == THUMBNAIL_PREFIX[j];
      assert url[j] != 'i';
    }
    FindIsFirst(url, THUMBNAIL_HOST, 8);
  }

  /** Both thumbnail URLs of an id without '/' give the id back. */
  lemma {:induction false} ThumbnailRoundTrip(id: string)
    requires '/' !in id
    ensures IdFromThumbnailUrl(ThumbnailUrl(id)) == id
    ensures IdFromThumbnailUrl(ThumbnailHqUrl(id)) == id
  {
    var start := |THUMBNAIL_PREFIX|;
    var url := ThumbnailUrl(id);
    ThumbnailHostAfterScheme(url);
    assert url[start..start + |id|] == id;
    assert url[start + |id|] == '/';
    IdBeforeSlash(url, start, id);
    var hq := ThumbnailHqUrl(id);
    ThumbnailHostAfterScheme(hq);
    assert hq[start..start + |id|] == id;
    assert hq[start + |id|] == '/';
    IdBeforeSlash(hq, start, id);
  }

  lemma {:induction false} IdBeforeSlash(s: string, from: nat, id: string)
    requires from + |id| < |s| && s[from..from + |id|] == id && s[from + |id|] == '/'
    requires '/' !in id
    ensures TakeUntil(s, from, '/') == id
  {
    forall j | from <= j < from + |id|
      ensures s[j] != '/'
    {
      assert s[j] == id[j - from];
    }
    IndexOfCharAt(s, from, '/', from + |id|);
  }

  /** The characters `isalnum` accepts in the C locale, plus '-' and '_'. */
  predicate IsIdChar(c: char) {
    'a' <= c <= 'z' || 'A' <= c <= 'Z' || '0' <= c <= '9' || c == '-' || c == '_'
  }

  /** `youtube_is_valid_video_id`. */
  method IsValidVideoId(id: string) returns (ok: bool)
    ensures ok <==> |id| == 11 && forall i :: 0 <= i < |id| ==> IsIdChar(id[i])
  {
    for i := 0 to |id|
      invariant forall j :: 0 <= j < i ==> IsIdChar(id[j])
    {
      if !IsIdChar(id[i]) {
        return false;
      }
    }
    if |id| != 11 {
      return false;
    }
    return true;
  }

  // ---------------------------------------------------------------- URL tests

  /** The loop over a pattern list that returns true at the first prefix that matches. */
  predicate StartsWithAny(url: string, patterns: seq<string>)
    decreases |patterns|
  {
    |patterns| > 0 && (StartsWith(url, patterns[0]) || StartsWithAny(url, patterns[1..]))
  }

  lemma {:induction false} StartsWithAnyIff(url: string, patterns: seq<string>)
    ensures StartsWithAny(url, patterns) <==> exists i :: 0 <= i < |patterns| && StartsWith(url, patterns[i])
    decreases |patterns|
  {
    if |patterns| > 0 {
      StartsWithAnyIff(url, patterns[1..]);
      if StartsWithAny(url, patterns[1..]) {
        var i :| 0 <= i < |patterns[1..]| && StartsWith(url, patterns[1..][i]);
        assert StartsWith(url, patterns[i + 1]);
      }
      if exists i :: 0 <= i < |patterns| && StartsWith(url, patterns[i]) {
        var i :| 0 <= i < |patterns| && StartsWith(url, patterns[i]);
        if i > 0 {
          assert StartsWith(url, patterns[1..][i - 1]);
        }
      }
    }
  }

  /**
   * The `for (auto pattern : patterns)` loop of `is_youtube_url` and `is_youtube_thumbnail_url`:
   * true at the first pattern the URL starts with, false after the last.
   */
  method MatchesAnyPattern(url: string, patterns: seq<string>) returns (found: bool)
    ensures found == StartsWithAny(url, patterns)
  {
    StartsWithAnyIff(url, patterns);
    for i := 0 to |patterns|
      invariant forall j :: 0 <= j < i ==> !StartsWith(url, patterns[j])
    {
      if StartsWith(url, patterns[i]) {
        return true;
      }
    }
    return false;
  }

  const YOUTUBE_PATTERNS := ["https://m.youtube.com/", "https://www.youtube.com/"]
  const THUMBNAIL_PATTERNS := [THUMBNAIL_PREFIX, "https://yt3.ggpht.com/"]

  /** A URL that starts with one of several https patterns is itself an https URL. */
  lemma {:induction false} AnyPatternIsHttps(url: string, patterns: seq<string>)
    requires forall j :: 0 <= j < |patterns| ==> |patterns[j]| >= 8 && patterns[j][..8] == "https://"
    ensures StartsWithAny(url, patterns) ==> |url| >= 8 && url[..8] == "https://"
    decreases |patterns|
  {
    if |patterns| > 0 {
      AnyPatternIsHttps(url, patterns[1..]);
      if StartsWith(url, patterns[0]) {
        assert url[..8] == url[..|patterns[0]|][..8];
      }
    }
  }

  /** `is_youtube_url`. */
  predicate IsYoutubeUrl(url: string): (b: bool)
    ensures b ==> StartsWith(url, "https://")
  {
    AnyPatternIsHttps(url, YOUTUBE_PATTERNS);
    StartsWithAny(url, YOUTUBE_PATTERNS)
  }

  /** `is_youtube_thumbnail_url`. */
  predicate IsYoutubeThumbnailUrl(url: string): (b: bool)
    ensures b ==> StartsWith(url, "https://")
  {
    AnyPatternIsHttps(url, THUMBNAIL_PATTERNS);
    StartsWithAny(url, THUMBNAIL_PATTERNS)
  }

  lemma {:induction false} IsYoutubeUrlIff(url: string)
    ensures IsYoutubeUrl(url) <==>
              StartsWith(url, "https://m.youtube.com/") || StartsWith(url, "https://www.youtube.com/")
  {
    StartsWithAnyIff(url, YOUTUBE_PATTERNS);
    if StartsWith(url, "https://m.youtube.com/") {
      assert StartsWith(url, YOUTUBE_PATTERNS[0]);
    }
    if StartsWith(url, "https://www.youtube.com/") {
      assert StartsWith(url, YOUTUBE_PATTERNS[1]);
    }
  }

  lemma {:induction false} IsYoutubeThumbnailUrlIff(url: string)
    ensures IsYoutubeThumbnailUrl(url) <==>
              StartsWith(url, THUMBNAIL_PREFIX) || StartsWith(url, "https://yt3.ggpht.com/")
  {
    StartsWithAnyIff(url, THUMBNAIL_PATTERNS);
    if StartsWith(url, THUMBNAIL_PREFIX) {
      assert StartsWith(url, THUMBNAIL_PATTERNS[0]);
    }
    if StartsWith(url, "https://yt3.ggpht.com/") {
      assert StartsWith(url, THUMBNAIL_PATTERNS[1]);
    }
  }

  /** A watch URL is a mobile YouTube URL starting with the watch prefix. */
  lemma {:induction false} VideoUrlIsYoutubeUrl(id: string)
    ensures StartsWith(VideoUrl(id), WATCH_PREFIX)
    ensures IsYoutubeUrl(VideoUrl(id))
  {
    var u := VideoUrl(id);
    assert u[..|WATCH_PREFIX|] == WATCH_PREFIX;
    assert u[..|YOUTUBE_PATTERNS[0]|] == YOUTUBE_PATTERNS[0];
  }

  /** Both thumbnail URLs of an id are recognised as thumbnail URLs. */
  lemma {:induction false} ThumbnailUrlIsThumbnail(id: string)
    ensures IsYoutubeThumbnailUrl(ThumbnailUrl(id))
    ensures IsYoutubeThumbnailUrl(ThumbnailHqUrl(id))
  {
  }

  // ---------------------------------------------------------------- page type

  datatype PageType = Video | Channel | Search | Invalid

  const USER_PREFIX := "https://m.youtube.com/user/"
  const CHANNEL_PREFIX := "https://m.youtube.com/channel/"
  const CUSTOM_PREFIX := "https://m.youtube.com/c/"
  const RESULTS_PREFIX := "https://m.youtube.com/results?"

  /**
   * `youtube_get_page_type`. The URL is first rewritten by `convert_url_to_mobile`, whose body
   * is not part of this model; it is the parameter `toMobile`.
   */
  function GetPageType(url: string, toMobile: string -> string): (r: PageType)
    ensures var m := toMobile(url);
            && (r == Video <==> StartsWith(m, WATCH_PREFIX))
            && (r == Channel <==> StartsWith(m, USER_PREFIX) || StartsWith(m, CHANNEL_PREFIX) || StartsWith(m, CUSTOM_PREFIX))
            && (r == Search <==> StartsWith(m, RESULTS_PREFIX))
  {
    var m := toMobile(url);
    PagePrefixesExclusive(m);
    if StartsWith(m, WATCH_PREFIX) then Video
    else if StartsWith(m, USER_PREFIX) then Channel
    else if StartsWith(m, CHANNEL_PREFIX) then Channel
    else if StartsWith(m, CUSTOM_PREFIX) then Channel
    else if StartsWith(m, RESULTS_PREFIX) then Search
    else Invalid
  }

  lemma {:induction false} DifferAt(s: string, p: string, q: string, k: nat)
    requires k < |p| && k < |q| && p[k] != q[k]
    ensures !(StartsWith(s, p) && StartsWith(s, q))
  {
    if StartsWith(s, p) {
      assert s[k] == p[k];
    }
  }

  /** The five prefixes exclude each other, so the order of the tests does not matter. */
  lemma {:induction false} PagePrefixesExclusive(s: string)
    ensures !(StartsWith(s, WATCH_PREFIX) && StartsWith(s, USER_PREFIX))
    ensures !(StartsWith(s, WATCH_PREFIX) && StartsWith(s, CHANNEL_PREFIX))
    ensures !(StartsWith(s, WATCH_PREFIX) && StartsWith(s, CUSTOM_PREFIX))
    ensures !(StartsWith(s, WATCH_PREFIX) && StartsWith(s, RESULTS_PREFIX))
    ensures !(StartsWith(s, USER_PREFIX) && StartsWith(s, CHANNEL_PREFIX))
    ensures !(StartsWith(s, USER_PREFIX) && StartsWith(s, CUSTOM_PREFIX))
    ensures !(StartsWith(s, USER_PREFIX) && StartsWith(s, RESULTS_PREFIX))
    ensures !(StartsWith(s, CHANNEL_PREFIX) && StartsWith(s, CUSTOM_PREFIX))
    ensures !(StartsWith(s, CHANNEL_PREFIX) && StartsWith(s, RESULTS_PREFIX))
    ensures !(StartsWith(s, CUSTOM_PREFIX) && StartsWith(s, RESULTS_PREFIX))
  {
    DifferAt(s, WATCH_PREFIX, USER_PREFIX, 22);
    DifferAt(s, WATCH_PREFIX, CHANNEL_PREFIX, 22);
    DifferAt(s, WATCH_PREFIX, CUSTOM_PREFIX, 22);
    DifferAt(s, WATCH_PREFIX, RESULTS_PREFIX, 22);
    DifferAt(s, USER_PREFIX, CHANNEL_PREFIX, 22);
    DifferAt(s, USER_PREFIX, CUSTOM_PREFIX, 22);
    DifferAt(s, USER_PREFIX, RESULTS_PREFIX, 22);
    DifferAt(s, CHANNEL_PREFIX, CUSTOM_PREFIX, 23);
    DifferAt(s, CHANNEL_PREFIX, RESULTS_PREFIX, 22);
    DifferAt(s, CUSTOM_PREFIX, RESULTS_PREFIX, 22);
  }

  /** A watch URL that the mobile rewrite leaves alone is a video page. */
  lemma {:induction false} VideoUrlIsVideoPage(id: string, toMobile: string -> string)
    requires toMobile(VideoUrl(id)) == VideoUrl(id)
    ensures GetPageType(VideoUrl(id), toMobile) == Video
  {
    VideoUrlIsYoutubeUrl(id);
  }

  // ---------------------------------------------------------------- ratebypass

  const RATEBYPASS := "ratebypass"

  /** The step that appends "&ratebypass=yes" to a stream URL that lacks "ratebypass". */
  function WithRateBypass(url: string): (r: string)
    ensures StartsWith(r, url) && |r| > 0
  {
    if Contains(url, RATEBYPASS) then url else url + "&ratebypass=yes"
  }

  /** After the step the URL contains "ratebypass"; a URL that already did is unchanged. */
  lemma {:induction false} RateBypassAdded(url: string)
    ensures Contains(WithRateBypass(url), RATEBYPASS)
    ensures Contains(url, RATEBYPASS) ==> WithRateBypass(url) == url
  {
    if !Contains(url, RATEBYPASS) {
      var r := url + "&ratebypass=yes";
      assert r[|url| + 1..|url| + 1 + |RATEBYPASS|] == RATEBYPASS;
      assert OccursAt(r, RATEBYPASS, |url| + 1);
    }
  }

  lemma {:induction false} RateBypassIdempotent(url: string)
    ensures WithRateBypass(WithRateBypass(url)) == WithRateBypass(url)
  {
    RateBypassAdded(url);
  }

  // ---------------------------------------------------------------- stream formats

  /** One entry of the player response's adaptive formats, reduced to the fields the rules read. */
  datatype Format = Format(mimeType: string, itag: int, bitrate: int, url: string, targetDurationSec: Option<int>)

  /** Only H.264 video counts: the mime type starts with "video" and contains "avc1". */
  predicate IsVideoFormat(f: Format): (b: bool)
    ensures b ==> !StartsWith(f.mimeType, "audio")
  {
    DifferAt(f.mimeType, "video", "audio", 0);
    StartsWith(f.mimeType, "video") && Contains(f.mimeType, "avc1")
  }

  /** Only WebM audio counts: the mime type starts with "audio" and contains "webm". */
  predicate IsAudioFormat(f: Format): (b: bool)
    ensures b ==> !StartsWith(f.mimeType, "video")
  {
    DifferAt(f.mimeType, "audio", "video", 0);
    StartsWith(f.mimeType, "audio") && Contains(f.mimeType, "webm")
  }

  predicate HasTargetDuration(f: Format) {
    f.targetDurationSec.Some?
  }

  /** One format after the ratebypass step: only its URL changes. */
  function RateBypassed(f: Format): (g: Format)
    ensures g == f.(url := g.url)
    ensures StartsWith(g.url, f.url) && Contains(g.url, RATEBYPASS) && g.url != ""
  {
    RateBypassAdded(f.url);
    f.(url := WithRateBypass(f.url))
  }

  /**
   * The formats after the ratebypass step of the `n`-parameter loop: only the URLs change, each
   * keeps its old text as a prefix and now contains "ratebypass".
   */
  function RateBypassAll(fs: seq<Format>): (r: seq<Format>)
    ensures |r| == |fs| && UrlsPresent(r)
    ensures forall i :: 0 <= i < |fs| ==> r[i] == RateBypassed(fs[i])
    ensures forall i :: 0 <= i < |fs| ==>
              && r[i] == fs[i].(url := r[i].url)
              && StartsWith(r[i].url, fs[i].url)
              && Contains(r[i].url, RATEBYPASS)
  {
    seq(|fs|, i requires 0 <= i < |fs| => RateBypassed(fs[i]))
  }

  /** The loop `for (auto &i : formats)` as far as "ratebypass" goes, rewriting each format in place. */
  method AddRateBypass(fs: seq<Format>) returns (formats: seq<Format>)
    ensures formats == RateBypassAll(fs)
  {
    formats := fs;
    for i := 0 to |formats|
      invariant |formats| == |fs|
      invariant forall j :: 0 <= j < i ==> formats[j] == RateBypassed(fs[j])
      invariant forall j :: i <= j < |fs| ==> formats[j] == fs[j]
    {
      var url := formats[i].url;
      if !Contains(url, RATEBYPASS) {
        url := url + "&ratebypass=yes";
      }
      formats := formats[i := formats[i].(url := url)];
    }
  }

  /** The formats satisfying `p`, in input order. */
  function Filter(fs: seq<Format>, p: Format -> bool): (r: seq<Format>)
    ensures |r| <= |fs|
    decreases |fs|
  {
    if |fs| == 0 then []
    else Filter(fs[..|fs| - 1], p) + (if p(fs[|fs| - 1]) then [fs[|fs| - 1]] else [])
  }

  lemma {:induction false} FilterMembers(fs: seq<Format>, p: Format -> bool, f: Format)
    ensures f in Filter(fs, p) <==> f in fs && p(f)
    decreases |fs|
  {
    if |fs| > 0 {
      var init := fs[..|fs| - 1];
      FilterMembers(init, p, f);
      assert fs == init + [fs[|fs| - 1]];
    }
  }

  /** The index of the last format satisfying `p`. */
  function LastIndex(fs: seq<Format>, p: Format -> bool): (r: Option<nat>)
    ensures r.Some? ==> r.value < |fs| && p(fs[r.value])
    ensures r.Some? ==> forall j :: r.value < j < |fs| ==> !p(fs[j])
    ensures r.None? ==> forall j :: 0 <= j < |fs| ==> !p(fs[j])
    decreases |fs|
  {
    if |fs| == 0 then None
    else if p(fs[|fs| - 1]) then Some(|fs| - 1)
    else LastIndex(fs[..|fs| - 1], p)
  }

  /** `stream_fragment_len`: the target duration of the last format that has one, or -1. */
  function FragmentLen(fs: seq<Format>): (n: int)
    ensures (forall i :: 0 <= i < |fs| ==> !HasTargetDuration(fs[i])) ==> n == -1
    ensures forall i :: 0 <= i < |fs| && HasTargetDuration(fs[i]) && (forall j :: i < j < |fs| ==> !HasTargetDuration(fs[j])) ==>
              n == fs[i].targetDurationSec.value
  {
    match LastIndex(fs, HasTargetDuration)
    case None => -1
    case Some(k) => fs[k].targetDurationSec.value
  }

  /** A stream is live exactly when some format has a target duration. */
  lemma {:induction false} LivestreamIff(fs: seq<Format>)
    ensures LastIndex(fs, HasTargetDuration).Some? <==> exists i :: 0 <= i < |fs| && HasTargetDuration(fs[i])
  {
  }

  /** How the filtered lists and the live-stream facts grow by one more format. */
  lemma PrefixStep(fs: seq<Format>, i: nat)
    requires i < |fs|
    ensures Filter(fs[..i + 1], IsVideoFormat) == Filter(fs[..i], IsVideoFormat) + (if IsVideoFormat(fs[i]) then [fs[i]] else [])
    ensures Filter(fs[..i + 1], IsAudioFormat) == Filter(fs[..i], IsAudioFormat) + (if IsAudioFormat(fs[i]) then [fs[i]] else [])
    ensures FragmentLen(fs[..i + 1]) == if HasTargetDuration(fs[i]) then fs[i].targetDurationSec.value else FragmentLen(fs[..i])
    ensures LastIndex(fs[..i + 1], HasTargetDuration).Some? == (HasTargetDuration(fs[i]) || LastIndex(fs[..i], HasTargetDuration).Some?)
  {
    assert fs[..i + 1][..i] == fs[..i];
  }

  /** The first loop of `extract_stream`: live-stream facts and the video and audio lists. */
  method ClassifyFormats(fs: seq<Format>)
    returns (videoFormats: seq<Format>, audioFormats: seq<Format>, fragmentLen: int, isLivestream: bool)
    ensures videoFormats == Filter(fs, IsVideoFormat)
    ensures audioFormats == Filter(fs, IsAudioFormat)
    ensures fragmentLen == FragmentLen(fs)
    ensures isLivestream == LastIndex(fs, HasTargetDuration).Some?
  {
    fragmentLen, isLivestream := -1, false;
    videoFormats, audioFormats := [], [];
    for i := 0 to |fs|
      invariant videoFormats == Filter(fs[..i], IsVideoFormat)
      invariant audioFormats == Filter(fs[..i], IsAudioFormat)
      invariant fragmentLen == FragmentLen(fs[..i])
      invariant isLivestream == LastIndex(fs[..i], HasTargetDuration).Some?
    {
      var f := fs[i];
      PrefixStep(fs, i);
      if f.targetDurationSec.Some? {
        fragmentLen := f.targetDurationSec.value;
        isLivestream := true;
      }
      if StartsWith(f.mimeType, "video") {
        if Contains(f.mimeType, "avc1") {
          videoFormats := videoFormats + [f];
        }
      } else if StartsWith(f.mimeType, "audio") {
        if Contains(f.mimeType, "webm") {
          audioFormats := audioFormats + [f];
        }
      }
    }
    assert fs[..|fs|] == fs;
  }

  /** The audio format the bitrate loop keeps: the first with the strictly greatest bitrate above -1. */
  function AudioChoice(fs: seq<Format>): (r: Option<nat>)
    ensures r.Some? ==> r.value < |fs| && fs[r.value].bitrate > -1
    ensures r.Some? ==> forall j :: 0 <= j < |fs| ==> fs[j].bitrate <= fs[r.value].bitrate
    ensures r.Some? ==> forall j :: 0 <= j < r.value ==> fs[j].bitrate < fs[r.value].bitrate
    ensures r.None? ==> forall j :: 0 <= j < |fs| ==> fs[j].bitrate <= -1
    decreases |fs|
  {
    if |fs| == 0 then None
    else
      var prev := AudioChoice(fs[..|fs| - 1]);
      var best := if prev.None? then -1 else fs[prev.value].bitrate;
      if best < fs[|fs| - 1].bitrate then Some(|fs| - 1) else prev
  }

  /** The audio loop of `extract_stream`: `audioUrl` is the previous value when nothing beats -1. */
  method ChooseAudioUrl(audioFormats: seq<Format>, audioUrl: string) returns (url: string)
    ensures url == match AudioChoice(audioFormats)
                   case None => audioUrl
                   case Some(k) => audioFormats[k].url
  {
    var maxBitrate := -1;
    url := audioUrl;
    for i := 0 to |audioFormats|
      invariant maxBitrate == match AudioChoice(audioFormats[..i])
                              case None => -1
                              case Some(k) => audioFormats[k].bitrate
      invariant url == match AudioChoice(audioFormats[..i])
                       case None => audioUrl
                       case Some(k) => audioFormats[k].url
    {
      assert audioFormats[..i + 1][..i] == audioFormats[..i];
      var cur := audioFormats[i].bitrate;
      if maxBitrate < cur {
        maxBitrate := cur;
        url := audioFormats[i].url;
      }
    }
    assert audioFormats[..|audioFormats|] == audioFormats;
  }

  /** `itag_to_p`: itags 160, 133 and 134 are the 144p, 240p and 360p video-only streams. */
  function ItagToP(itag: int): (p: Option<int>)
    ensures p.Some? <==> itag == 160 || itag == 133 || itag == 134
    ensures p.Some? ==> p.value == 144 || p.value == 240 || p.value == 360
  {
    if itag == 160 then Some(144)
    else if itag == 133 then Some(240)
    else if itag == 134 then Some(360)
    else None
  }

  function ItagIs(itag: int): Format -> bool {
    (f: Format) => f.itag == itag
  }

  /** `video_stream_urls` after the itag loop, starting from `urls`. */
  function ItagUrls(urls: map<int, string>, fs: seq<Format>): (r: map<int, string>)
    decreases |fs|
    ensures urls.Keys <= r.Keys
    ensures forall k :: k in r && k !in urls ==> exists i :: 0 <= i < |fs| && ItagToP(fs[i].itag) == Some(k)
  {
    if |fs| == 0 then urls
    else
      var m := ItagUrls(urls, fs[..|fs| - 1]);
      var f := fs[|fs| - 1];
      match ItagToP(f.itag)
      case None => m
      case Some(p) => m[p := f.url]
  }

  /** The itag loop only ever adds the keys 144, 240 and 360. */
  lemma {:induction false} ItagUrlsKeys(urls: map<int, string>, fs: seq<Format>, k: int)
    ensures k in ItagUrls(urls, fs) ==> k in urls || k == 144 || k == 240 || k == 360
    decreases |fs|
  {
    if |fs| > 0 {
      ItagUrlsKeys(urls, fs[..|fs| - 1], k);
    }
  }

  /** For a mapped itag, the last format with that itag decides its key; none leaves the key alone. */
  lemma {:induction false} ItagUrlsLastWins(urls: map<int, string>, fs: seq<Format>, itag: int)
    requires ItagToP(itag).Some?
    ensures var p := ItagToP(itag).value;
            var r := ItagUrls(urls, fs);
            match LastIndex(fs, ItagIs(itag))
            case None => (p in r <==> p in urls) && (p in urls ==> r[p] == urls[p])
            case Some(k) => p in r && r[p] == fs[k].url
    decreases |fs|
  {
    if |fs| > 0 {
      var n := |fs| - 1;
      var init := fs[..n];
      ItagUrlsLastWins(urls, init, itag);
      if fs[n].itag != itag {
        assert LastIndex(fs, ItagIs(itag)) == LastIndex(init, ItagIs(itag));
        if ItagToP(fs[n].itag).Some? {
          assert ItagToP(fs[n].itag).value != ItagToP(itag).value;
        }
        match LastIndex(init, ItagIs(itag))
        case None =>
        case Some(k) => assert fs[k] == init[k];
      }
    }
  }

  method CollectVideoUrls(videoFormats: seq<Format>, urls: map<int, string>) returns (res: map<int, string>)
    ensures res == ItagUrls(urls, videoFormats)
  {
    res := urls;
    for i := 0 to |videoFormats|
      invariant res == ItagUrls(urls, videoFormats[..i])
    {
      assert videoFormats[..i + 1][..i] == videoFormats[..i];
      var p := ItagToP(videoFormats[i].itag);
      if p.Some? {
        res := res[p.value := videoFormats[i].url];
      }
    }
    assert videoFormats[..|videoFormats|] == videoFormats;
  }

  /** `both_stream_url`: the URL of the last itag-18 format, else the previous value. */
  method ChooseBothStreamUrl(videoFormats: seq<Format>, bothUrl: string) returns (url: string)
    ensures url == match LastIndex(videoFormats, ItagIs(18))
                   case None => bothUrl
                   case Some(k) => videoFormats[k].url
  {
    url := bothUrl;
    for i := 0 to |videoFormats|
      invariant url == match LastIndex(videoFormats[..i], ItagIs(18))
                       case None => bothUrl
                       case Some(k) => videoFormats[k].url
    {
      assert videoFormats[..i + 1][..i] == videoFormats[..i];
      if videoFormats[i].itag == 18 {
        url := videoFormats[i].url;
      }
    }
    assert videoFormats[..|videoFormats|] == videoFormats;
  }

  /** What `extract_stream` stores in the video page from the format list. */
  function SelectStreams(d: VideoDetail, fs: seq<Format>): (r: VideoDetail)
    ensures r == d.(streamFragmentLen := r.streamFragmentLen, isLivestream := r.isLivestream,
                    audioStreamUrl := r.audioStreamUrl, videoStreamUrls := r.videoStreamUrls,
                    bothStreamUrl := r.bothStreamUrl)
    ensures r.isLivestream <==> exists i :: 0 <= i < |fs| && HasTargetDuration(fs[i])
  {
    var video := Filter(fs, IsVideoFormat);
    var audio := Filter(fs, IsAudioFormat);
    d.(streamFragmentLen := FragmentLen(fs),
       isLivestream := LastIndex(fs, HasTargetDuration).Some?,
       audioStreamUrl := match AudioChoice(audio) case None => d.audioStreamUrl case Some(k) => audio[k].url,
       videoStreamUrls := ItagUrls(d.videoStreamUrls, video),
       bothStreamUrl := match LastIndex(video, ItagIs(18)) case None => d.bothStreamUrl case Some(k) => video[k].url)
  }

  /** The format-selection part of `extract_stream`, loop by loop. */
  method ExtractStreams(d: VideoDetail, fs: seq<Format>) returns (r: VideoDetail)
    ensures r == SelectStreams(d, fs)
  {
    var video, audio, fragmentLen, isLivestream := ClassifyFormats(fs);
    var audioUrl := ChooseAudioUrl(audio, d.audioStreamUrl);
    var videoUrls := CollectVideoUrls(video, d.videoStreamUrls);
    var bothUrl := ChooseBothStreamUrl(video, d.bothStreamUrl);
    r := d.(streamFragmentLen := fragmentLen, isLivestream := isLivestream, audioStreamUrl := audioUrl,
            videoStreamUrls := videoUrls, bothStreamUrl := bothUrl);
  }

  predicate HasMuxedFormat(fs: seq<Format>) {
    exists i :: 0 <= i < |fs| && IsVideoFormat(fs[i]) && fs[i].itag == 18
  }

  predicate HasVideoOnlyFormat(fs: seq<Format>) {
    exists i :: 0 <= i < |fs| && IsVideoFormat(fs[i]) && ItagToP(fs[i].itag).Some?
  }

  predicate HasAudioFormat(fs: seq<Format>) {
    exists i :: 0 <= i < |fs| && IsAudioFormat(fs[i]) && fs[i].bitrate > -1
  }

  predicate UrlsPresent(fs: seq<Format>) {
    forall i :: 0 <= i < |fs| ==> fs[i].url != ""
  }

  /**
   * A page without streams yet, whose formats all carry a URL, becomes playable exactly when
   * its status is "OK" and the formats hold an itag-18 H.264 stream, or a WebM audio stream
   * with a bitrate above -1 together with a 144p, 240p or 360p H.264 stream.
   */
  lemma {:induction false} PlayableIff(d: VideoDetail, fs: seq<Format>)
    requires d.audioStreamUrl == "" && d.videoStreamUrls == map[] && d.bothStreamUrl == ""
    requires UrlsPresent(fs)
    ensures SelectStreams(d, fs).IsPlayable() <==>
              d.playabilityStatus == "OK" && (HasMuxedFormat(fs) || (HasAudioFormat(fs) && HasVideoOnlyFormat(fs)))
  {
    MuxedStream(d, fs);
    AudioStream(d, fs);
    VideoOnlyStreams(d, fs);
  }

  /** The rewrite changes no mime type, itag or bitrate, so it keeps which streams exist. */
  lemma {:induction false} RateBypassKeepsStreams(fs: seq<Format>)
    ensures HasMuxedFormat(RateBypassAll(fs)) == HasMuxedFormat(fs)
    ensures HasAudioFormat(RateBypassAll(fs)) == HasAudioFormat(fs)
    ensures HasVideoOnlyFormat(RateBypassAll(fs)) == HasVideoOnlyFormat(fs)
  {
    var r := RateBypassAll(fs);
    forall i | 0 <= i < |fs|
      ensures IsVideoFormat(r[i]) == IsVideoFormat(fs[i]) && IsAudioFormat(r[i]) == IsAudioFormat(fs[i])
      ensures r[i].itag == fs[i].itag && r[i].bitrate == fs[i].bitrate
    {
      assert r[i] == fs[i].(url := r[i].url);
    }
  }

  /**
   * On the formats as `extract_stream` leaves them, every URL is present, so a fresh page is
   * playable exactly when its status is "OK" and the muxed stream, or an audio stream together
   * with a video-only stream, exists.
   */
  lemma {:induction false} PlayableAfterRateBypass(d: VideoDetail, fs: seq<Format>)
    requires d.audioStreamUrl == "" && d.videoStreamUrls == map[] && d.bothStreamUrl == ""
    ensures SelectStreams(d, RateBypassAll(fs)).IsPlayable() <==>
              d.playabilityStatus == "OK" && (HasMuxedFormat(fs) || (HasAudioFormat(fs) && HasVideoOnlyFormat(fs)))
  {
    PlayableIff(d, RateBypassAll(fs));
    RateBypassKeepsStreams(fs);
  }

  lemma {:induction false} MuxedStream(d: VideoDetail, fs: seq<Format>)
    requires d.bothStreamUrl == "" && UrlsPresent(fs)
    ensures SelectStreams(d, fs).bothStreamUrl != "" <==> HasMuxedFormat(fs)
  {
    var video := Filter(fs, IsVideoFormat);
    match LastIndex(video, ItagIs(18))
    case None =>
      forall i | 0 <= i < |fs| && IsVideoFormat(fs[i])
        ensures fs[i].itag != 18
      {
        FilterMembers(fs, IsVideoFormat, fs[i]);
        var j :| 0 <= j < |video| && video[j] == fs[i];
        assert !ItagIs(18)(video[j]);
      }
    case Some(k) =>
      FilterMembers(fs, IsVideoFormat, video[k]);
      var i :| 0 <= i < |fs| && fs[i] == video[k];
      assert IsVideoFormat(fs[i]) && fs[i].itag == 18;
  }

  lemma {:induction false} AudioStream(d: VideoDetail, fs: seq<Format>)
    requires d.audioStreamUrl == "" && UrlsPresent(fs)
    ensures SelectStreams(d, fs).audioStreamUrl != "" <==> HasAudioFormat(fs)
  {
    var audio := Filter(fs, IsAudioFormat);
    match AudioChoice(audio)
    case None =>
      forall i | 0 <= i < |fs| && IsAudioFormat(fs[i])
        ensures fs[i].bitrate <= -1
      {
        FilterMembers(fs, IsAudioFormat, fs[i]);
        var j :| 0 <= j < |audio| && audio[j] == fs[i];
      }
    case Some(k) =>
      FilterMembers(fs, IsAudioFormat, audio[k]);
      var i :| 0 <= i < |fs| && fs[i] == audio[k];
      assert IsAudioFormat(fs[i]) && fs[i].bitrate > -1;
  }

  lemma {:induction false} VideoOnlyStreams(d: VideoDetail, fs: seq<Format>)
    requires d.videoStreamUrls == map[] && UrlsPresent(fs)
    ensures |SelectStreams(d, fs).videoStreamUrls| > 0 <==> HasVideoOnlyFormat(fs)
  {
    if HasVideoOnlyFormat(fs) {
      VideoOnlyFormatGivesUrl(fs);
    }
    if !HasVideoOnlyFormat(fs) {
      NoVideoOnlyFormatNoUrls(fs);
    }
  }

  lemma {:induction false} VideoOnlyFormatGivesUrl(fs: seq<Format>)
    requires HasVideoOnlyFormat(fs)
    ensures |ItagUrls(map[], Filter(fs, IsVideoFormat))| > 0
  {
    var video := Filter(fs, IsVideoFormat);
    var i :| 0 <= i < |fs| && IsVideoFormat(fs[i]) && ItagToP(fs[i].itag).Some?;
    FilterMembers(fs, IsVideoFormat, fs[i]);
    var j :| 0 <= j < |video| && video[j] == fs[i];
    assert ItagIs(fs[i].itag)(video[j]);
    ItagUrlsLastWins(map[], video, fs[i].itag);
    var urls := ItagUrls(map[], video);
    assert ItagToP(fs[i].itag).value in urls.Keys;
  }

  lemma {:induction false} NoVideoOnlyFormatNoUrls(fs: seq<Format>)
    requires !HasVideoOnlyFormat(fs)
    ensures ItagUrls(map[], Filter(fs, IsVideoFormat)) == map[]
  {
    var video := Filter(fs, IsVideoFormat);
    var urls := ItagUrls(map[], video);
    forall j | 0 <= j < |video|
      ensures ItagToP(video[j].itag).None?
    {
      FilterMembers(fs, IsVideoFormat, video[j]);
    }
    forall p
      ensures p !in urls
    {
      ItagUrlsKeys(map[], video, p);
      ItagUrlsLastWins(map[], video, 160);
      ItagUrlsLastWins(map[], video, 133);
      ItagUrlsLastWins(map[], video, 134);
    }
  }

  // ---------------------------------------------------------------- author icons

  datatype Icon = Icon(height: int, url: string)

  const TARGET_HEIGHT := 70
  const MAX_ICON_HEIGHT := 256
  const INITIAL_DISTANCE := 100000

  /** Icons of height 256 or more are skipped as too large. */
  predicate Eligible(icon: Icon) {
    icon.height < MAX_ICON_HEIGHT
  }

  function Distance(icon: Icon): nat {
    Abs(TARGET_HEIGHT - icon.height)
  }

  /** The icon the loop keeps: the first eligible one closest to 70 px, if closer than 100000. */
  function IconChoice(icons: seq<Icon>): (r: Option<nat>)
    ensures r.Some? ==> r.value < |icons| && Eligible(icons[r.value]) && Distance(icons[r.value]) < INITIAL_DISTANCE
    ensures r.Some? ==> forall j :: 0 <= j < |icons| && Eligible(icons[j]) ==> Distance(icons[r.value]) <= Distance(icons[j])
    ensures r.Some? ==> forall j :: 0 <= j < r.value && Eligible(icons[j]) ==> Distance(icons[r.value]) < Distance(icons[j])
    ensures r.None? ==> forall j :: 0 <= j < |icons| && Eligible(icons[j]) ==> Distance(icons[j]) >= INITIAL_DISTANCE
    decreases |icons|
  {
    if |icons| == 0 then None
    else
      var prev := IconChoice(icons[..|icons| - 1]);
      var best := if prev.None? then INITIAL_DISTANCE else Distance(icons[prev.value]);
      var icon := icons[|icons| - 1];
      if Eligible(icon) && best > Distance(icon) then Some(|icons| - 1) else prev
  }

  function ChosenIconUrl(icons: seq<Icon>): (url: string)
    ensures url != "" ==> exists k :: 0 <= k < |icons| && Eligible(icons[k]) && icons[k].url == url
  {
    match IconChoice(icons)
    case None => ""
    case Some(k) => icons[k].url
  }

  /** The icon loop of `extract_comment_from_comment_renderer` (and the first half of `extract_owner`). */
  method ChooseIcon(icons: seq<Icon>) returns (bestIcon: string)
    ensures bestIcon == ChosenIconUrl(icons)
  {
    var minDistance := INITIAL_DISTANCE;
    bestIcon := "";
    for i := 0 to |icons|
      invariant minDistance == match IconChoice(icons[..i])
                               case None => INITIAL_DISTANCE
                               case Some(k) => Distance(icons[k])
      invariant bestIcon == ChosenIconUrl(icons[..i])
    {
      assert icons[..i + 1][..i] == icons[..i];
      var curHeight := icons[i].height;
      if curHeight >= MAX_ICON_HEIGHT {
        continue;
      }
      if minDistance > Abs(TARGET_HEIGHT - curHeight) {
        minDistance := Abs(TARGET_HEIGHT - curHeight);
        bestIcon := icons[i].url;
      }
    }
    assert icons[..|icons|] == icons;
  }

  /** An owner icon given as a scheme-relative "//..." URL gets "https:" in front. */
  function OwnerIconUrl(icon: string): (r: string)
    ensures |icon| <= |r| && r[|r| - |icon|..] == icon
  {
    if StartsWith(icon, "//") then "https:" + icon else icon
  }

  lemma {:induction false} OwnerIconUrlIsAbsolute(icon: string)
    ensures !StartsWith(OwnerIconUrl(icon), "//")
    ensures StartsWith(icon, "//") ==> OwnerIconUrl(icon) == "https:" + icon
    ensures !StartsWith(icon, "//") ==> OwnerIconUrl(icon) == icon
  {
    if StartsWith(icon, "//") {
      var r := "https:" + icon;
      assert r[0] == 'h';
    }
  }

  /** The icon part of `extract_owner`. */
  method ChooseOwnerIcon(icons: seq<Icon>) returns (iconUrl: string)
    ensures iconUrl == OwnerIconUrl(ChosenIconUrl(icons))
  {
    iconUrl := ChooseIcon(icons);
    if StartsWith(iconUrl, "//") {
      iconUrl := "https:" + iconUrl;
    }
  }

  // ---------------------------------------------------------------- API key

  const API_KEY_PREFIX := "\"INNERTUBE_API_KEY\":\""
  const API_KEY_NOT_FOUND := "INNERTUBE_API_KEY not found"

  /** The text between the first `"INNERTUBE_API_KEY":"` and the next '"' (or the end). */
  function ApiKeyOf(html: string): (key: string)
    ensures '"' !in key
    ensures Find(html, API_KEY_PREFIX).None? ==> key == ""
    ensures Find(html, API_KEY_PREFIX).Some? ==>
              var start := Find(html, API_KEY_PREFIX).value + |API_KEY_PREFIX|;
              && start + |key| <= |html| && html[start..start + |key|] == key
              && (start + |key| == |html| || html[start + |key|] == '"')
  {
    match Find(html, API_KEY_PREFIX)
    case None => ""
    case Some(pos) => TakeUntil(html, pos + |API_KEY_PREFIX|, '"')
  }

  /** A page whose first '"' opens the key entry yields exactly that key. */
  lemma {:induction false} ApiKeyOfPage(html: string, pre: string, key: string, post: string)
    requires '"' !in pre && '"' !in key
    requires html == pre + API_KEY_PREFIX + key + "\"" + post
    ensures ApiKeyOf(html) == key
  {
    var start := |pre| + |API_KEY_PREFIX|;
    assert html[|pre|..start] == API_KEY_PREFIX;
    forall j | 0 <= j < |pre|
      ensures !OccursAt(html, API_KEY_PREFIX, j)
    {
      assert html[j] == pre[j];
    }
    FindIsFirst(html, API_KEY_PREFIX, |pre|);
    assert html[start..start + |key|] == key;
    assert html[start + |key|] == '"';
    forall j | start <= j < start + |key|
      ensures html[j] != '"'
    {
      assert html[j] == key[j - start];
    }
    IndexOfCharAt(html, start, '"', start + |key|);
  }

  /** The key scan of `extract_metadata`: the key is appended to `continueKey`; an empty key sets `error`. */
  method ExtractApiKey(html: string, continueKey: string, error: string) returns (key: string, err: string)
    ensures key == continueKey + ApiKeyOf(html)
    ensures key == "" ==> err == API_KEY_NOT_FOUND
    ensures key != "" ==> err == error
  {
    key := continueKey;
    var pos := Find(html, API_KEY_PREFIX);
    if pos.Some? {
      var found := CopyUntil(html, pos.value + |API_KEY_PREFIX|, '"');
      key := key + found;
    }
    err := error;
    if key == "" {
      err := API_KEY_NOT_FOUND;
    }
  }
}
