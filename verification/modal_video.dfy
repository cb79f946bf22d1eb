/**
 * The video modal: a video URL is classified as YouTube or Vimeo, its video
 * id is cut out of the URL by position, and the modal button, the modal and
 * the player are given ids derived from it.
 */
module ModalVideo {
  import opened Wrappers
  import Strings

  /** The two players the site embeds. */
  datatype VideoType = YouTube | Vimeo {
    /** The `videoType` string handed to the player. */
    function Name(): string {
      match this
      case YouTube => "youtube"
      case Vimeo => "vimeo"
    }
  }

  /** The rendered modal: the shared button/modal id, the player id and what the player receives. */
  datatype VideoModal = VideoModal(modalId: string, videoId: string, videoType: VideoType, playerId: string,
                                   title: string, transcript: string, captions: string)

  /** A YouTube video id is the last eleven characters of the URL. */
  const YouTubeIdLength: nat := 11

  /** A Vimeo video id follows the eighteen characters of `https://vimeo.com/`. */
  const VimeoIdOffset: nat := 18

  /** `videoType`: YouTube when the URL mentions `youtube` or `youtu.be`, Vimeo otherwise. */
  function ClassifyVideo(url: string): (t: VideoType)
    ensures t == YouTube <==> (exists k :: Strings.OccursAt(url, "youtube", k)) || (exists k :: Strings.OccursAt(url, "youtu.be", k))
  {
    Strings.ContainsIff(url, "youtube");
    Strings.ContainsIff(url, "youtu.be");
    if Strings.Contains(url, "youtube") || Strings.Contains(url, "youtu.be") then YouTube else Vimeo
  }

  /**
   * `videoID`: `substr(length - 11)` for YouTube, `substr(18)` for Vimeo.
   * A URL shorter than eleven characters gives `substr` a negative start,
   * which counts back from the end once more.
   */
  function VideoId(url: string, t: VideoType): (id: string)
    ensures t == YouTube && |url| >= YouTubeIdLength ==> id == url[|url| - YouTubeIdLength..]
    ensures t == YouTube && |url| < YouTubeIdLength ==>
      id == url[if 2 * |url| >= YouTubeIdLength then 2 * |url| - YouTubeIdLength else 0..]
    ensures t == Vimeo ==> id == if |url| >= VimeoIdOffset then url[VimeoIdOffset..] else ""
  {
    match t
    case YouTube => Strings.Substr(url, |url| - YouTubeIdLength)
    case Vimeo => Strings.Substr(url, VimeoIdOffset)
  }

  /**
   * `ModalVideo(props)`: nothing for an empty URL; otherwise the modal whose
   * button and body share `modal-<id>` and whose player is `player-<id>`.
   */
  function RenderModalVideo(url: string, title: string, transcript: string, captions: string): (r: Option<VideoModal>)
    ensures r.None? <==> url == ""
    ensures r.Some? ==> r.value.videoType == ClassifyVideo(url) && r.value.videoId == VideoId(url, ClassifyVideo(url))
    ensures r.Some? ==> r.value.title == title && r.value.transcript == transcript && r.value.captions == captions
    ensures r.Some? ==> |r.value.videoId| <= |url| && url[|url| - |r.value.videoId|..] == r.value.videoId
    ensures r.Some? && r.value.videoType == YouTube && |url| >= YouTubeIdLength ==> |r.value.videoId| == YouTubeIdLength
    ensures r.Some? ==> r.value.modalId == "modal-" + r.value.videoId && r.value.playerId == "player-" + r.value.videoId
  {
    if url == "" then None
    else
      var videoType := ClassifyVideo(url);
      var videoId := VideoId(url, videoType);
      Some(VideoModal("modal-" + videoId, videoId, videoType, "player-" + videoId, title, transcript, captions))
  }

  /** The modal and the player never share an id, and both give back the video id. */
  lemma ElementIds(url: string, title: string, transcript: string, captions: string)
    requires url != ""
    ensures var m := RenderModalVideo(url, title, transcript, captions).value;
      m.modalId != m.playerId
      && Strings.ReplaceFirst(m.modalId, "modal-", "") == m.videoId
      && Strings.ReplaceFirst(m.playerId, "player-", "") == m.videoId
  {
    var m := RenderModalVideo(url, title, transcript, captions).value;
    assert m.modalId[0] == 'm' && m.playerId[0] == 'p';
    Strings.ReplaceLeading("modal-", m.videoId);
    Strings.ReplaceLeading("player-", m.videoId);
  }

  /** A `youtu.be` share link yields the eleven-character id it ends with. */
  lemma YouTubeShareLink(prefix: string, id: string)
    requires |id| == YouTubeIdLength
    ensures ClassifyVideo(prefix + "youtu.be/" + id) == YouTube
    ensures VideoId(prefix + "youtu.be/" + id, YouTube) == id
  {
    var url := prefix + "youtu.be/" + id;
    Strings.ContainsInside(prefix, "youtu.be", "/" + id);
    assert url == prefix + "youtu.be" + ("/" + id);
    assert url[|url| - YouTubeIdLength..] == id;
  }

  /** The modal for a `youtu.be` share link is keyed by the id the link ends with. */
  lemma ShareLinkModal(prefix: string, id: string, title: string, transcript: string, captions: string)
    requires |id| == YouTubeIdLength
    ensures RenderModalVideo(prefix + "youtu.be/" + id, title, transcript, captions)
         == Some(VideoModal("modal-" + id, id, YouTube, "player-" + id, title, transcript, captions))
  {
    YouTubeShareLink(prefix, id);
  }

  /** A `https://vimeo.com/` link read as a Vimeo video yields the id it ends with. */
  lemma VimeoLink(id: string)
    ensures VideoId("https://vimeo.com/" + id, Vimeo) == id
  {
    var url := "https://vimeo.com/" + id;
    assert |"https://vimeo.com/"| == VimeoIdOffset;
    assert url[VimeoIdOffset..] == id;
  }
}
