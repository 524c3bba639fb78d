/**
 * The result records of the YouTube parser and their query members: the tagged succinct item
 * (video, channel or playlist) with its accessors, and the `has_*`, `is_playable` and
 * `needs_timestamp_adjusting` predicates of search results, video pages, comments and channels.
 * Only the fields those members and the stream-selection rules read are kept.
 */
module YoutubeTypes {

  datatype ChannelSuccinct = ChannelSuccinct(name: string, url: string, iconUrl: string, subscribers: string, videoNum: string)

  datatype VideoSuccinct = VideoSuccinct(
    url: string, title: string, durationText: string, publishDate: string,
    viewsStr: string, author: string, thumbnailUrl: string)

  datatype PlaylistSuccinct = PlaylistSuccinct(url: string, title: string, videoCountStr: string, thumbnailUrl: string)

  const NO_CHANNEL := ChannelSuccinct("", "", "", "", "")
  const NO_VIDEO := VideoSuccinct("", "", "", "", "", "", "")
  const NO_PLAYLIST := PlaylistSuccinct("", "", "", "")

  datatype ItemType = VideoItem | ChannelItem | PlaylistItem

  /**
   * `YouTubeSuccinctItem`: a type tag next to all three payloads; the constructors fill in the
   * tagged one and leave the other two default-constructed.
   */
  datatype SuccinctItem = SuccinctItem(kind: ItemType, video: VideoSuccinct, channel: ChannelSuccinct, playlist: PlaylistSuccinct)
  {
    /** `get_url`. */
    function GetUrl(): (r: string)
      ensures r == video.url || r == channel.url || r == playlist.url
      ensures kind == ChannelItem ==> r == channel.url
    {
      if kind == VideoItem then video.url else if kind == ChannelItem then channel.url else playlist.url
    }

    /** `get_thumbnail_url`: a channel's icon stands in for the thumbnail. */
    function GetThumbnailUrl(): (r: string)
      ensures r == video.thumbnailUrl || r == channel.iconUrl || r == playlist.thumbnailUrl
      ensures kind == ChannelItem ==> r == channel.iconUrl
    {
      if kind == VideoItem then video.thumbnailUrl else if kind == ChannelItem then channel.iconUrl else playlist.thumbnailUrl
    }

    /** `get_name`: a video's or playlist's title, a channel's name. */
    function GetName(): (r: string)
      ensures r == video.title || r == channel.name || r == playlist.title
      ensures kind == ChannelItem ==> r == channel.name
    {
      if kind == VideoItem then video.title else if kind == ChannelItem then channel.name else playlist.title
    }
  }

  function FromVideo(v: VideoSuccinct): (item: SuccinctItem)
    ensures item.kind == VideoItem && item.video == v
    ensures item.GetUrl() == v.url && item.GetThumbnailUrl() == v.thumbnailUrl && item.GetName() == v.title
  {
    SuccinctItem(VideoItem, v, NO_CHANNEL, NO_PLAYLIST)
  }

  function FromChannel(c: ChannelSuccinct): (item: SuccinctItem)
    ensures item.kind == ChannelItem && item.channel == c
    ensures item.GetUrl() == c.url && item.GetThumbnailUrl() == c.iconUrl && item.GetName() == c.name
  {
    SuccinctItem(ChannelItem, NO_VIDEO, c, NO_PLAYLIST)
  }

  function FromPlaylist(p: PlaylistSuccinct): (item: SuccinctItem)
    ensures item.kind == PlaylistItem && item.playlist == p
    ensures item.GetUrl() == p.url && item.GetThumbnailUrl() == p.thumbnailUrl && item.GetName() == p.title
  {
    SuccinctItem(PlaylistItem, NO_VIDEO, NO_CHANNEL, p)
  }

  /** Items built from different kinds of payload never coincide. */
  lemma ItemKindsDistinct(v: VideoSuccinct, c: ChannelSuccinct, p: PlaylistSuccinct)
    ensures FromVideo(v) != FromChannel(c) && FromVideo(v) != FromPlaylist(p) && FromChannel(c) != FromPlaylist(p)
  {
  }

  datatype SearchResult = SearchResult(
    error: string, estimatedResultNum: int, results: seq<SuccinctItem>,
    continueToken: string, continueKey: string)
  {
    /** A further page can be requested only with both a continuation token and an innertube key. */
    predicate HasContinue()
    {
      continueToken != "" && continueKey != ""
    }
  }

  datatype LivestreamType = Premiere | Livestream

  datatype Comment = Comment(
    author: ChannelSuccinct, content: string, id: string, replyNum: int, replies: seq<Comment>,
    continueKey: string, repliesContinueToken: string)
  {
    predicate HasMoreReplies()
    {
      repliesContinueToken != ""
    }
  }

  datatype VideoDetail = VideoDetail(
    error: string, url: string, title: string,
    audioStreamUrl: string, videoStreamUrls: map<int, string>, bothStreamUrl: string,
    isLivestream: bool, livestreamType: LivestreamType, playabilityStatus: string, streamFragmentLen: int,
    comments: seq<Comment>, continueKey: string, suggestionsContinueToken: string,
    commentContinueToken: string, commentContinueType: int)
  {
    predicate HasMoreSuggestions()
    {
      continueKey != "" && suggestionsContinueToken != ""
    }

    /** `comment_continue_type` is -1 when no more comments can be loaded. */
    predicate HasMoreComments()
    {
      commentContinueType != -1
    }

    predicate NeedsTimestampAdjusting()
    {
      isLivestream && livestreamType == Premiere
    }

    /** Playable with the muxed stream, or with an audio stream and at least one video-only stream. */
    predicate IsPlayable()
    {
      playabilityStatus == "OK" && (bothStreamUrl != "" || (audioStreamUrl != "" && |videoStreamUrls| > 0))
    }
  }

  datatype ChannelDetail = ChannelDetail(
    id: string, error: string, name: string, url: string, iconUrl: string, bannerUrl: string,
    videos: seq<VideoSuccinct>, continueToken: string, continueKey: string)
  {
    predicate HasContinue()
    {
      continueToken != "" && continueKey != ""
    }
  }

  /** A default-constructed `YouTubeChannelDetail`. */
  const NO_CHANNEL_DETAIL := ChannelDetail("", "", "", "", "", "", [], "", "")
}
