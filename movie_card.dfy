/**
 * The movie card's two string helpers (src/components/MovieCard.jsx): the `M:SS` rendering
 * of the trailer's playback time, and the choice of player for the trailer URL together
 * with the rewriting of a YouTube link into its embeddable form.
 */
module MovieCard {
  import opened Wrappers
  import opened JsStrings

  /** `formatTime(seconds)` for a whole number of seconds. */
  function FormatTime(seconds: nat): string {
    NatToString(seconds / 60) + ":" + PadTwo(seconds % 60)
  }

  /**
   * The minutes are the unpadded numeral of seconds div 60, the seconds two digits of
   * seconds mod 60, and reading both back gives the time again.
   */
  lemma FormatTimeReadsBack(seconds: nat)
    ensures var parts := Split(FormatTime(seconds), ":");
      && |parts| == 2
      && parts[0] == NatToString(seconds / 60)
      && |parts[1]| == 2 && IsDigit(parts[1][0]) && IsDigit(parts[1][1])
      && DigitsValue(parts[1], 10) < 60
      && DigitsValue(parts[0], 10) * 60 + DigitsValue(parts[1], 10) == seconds
  {
    NumeralAndPadTwo(seconds / 60, seconds % 60, ':');
  }

  /** The seconds are zero-padded below ten and the minutes are never padded. */
  lemma FormatTimePadding(seconds: nat)
    ensures seconds % 60 < 10 ==> FormatTime(seconds)[|FormatTime(seconds)| - 2] == '0'
    ensures FormatTime(seconds)[0] == '0' ==> seconds < 60
  {
    var m := NatToString(seconds / 60);
    assert FormatTime(seconds)[0] == m[0];
  }

  const YouTubeEmbedBase := "https://www.youtube.com/embed/"

  /** The player shown for the card's trailer. */
  datatype VideoElement =
    | NoVideo                  // no `videoUrl`: no video container
    | YouTubeFrame(src: string)
    | Html5Video(src: string)

  predicate IsYouTube(url: string) {
    Contains(url, "youtube.com") || Contains(url, "youtu.be")
  }

  /** The `src` of the YouTube iframe. */
  function EmbedUrl(url: string): string {
    if Contains(url, "youtube.com/watch?v=") then
      Split(ReplaceFirst(url, "watch?v=", "embed/"), "&")[0]
    else if Contains(url, "youtu.be/") then
      YouTubeEmbedBase + Split(Split(url, "youtu.be/")[1], "?")[0]
    else url
  }

  /** The video part of the card for an optional `videoUrl`. */
  function VideoOf(videoUrl: Option<string>): VideoElement {
    if !Truthy(videoUrl) then NoVideo
    else if IsYouTube(videoUrl.value) then YouTubeFrame(EmbedUrl(videoUrl.value))
    else Html5Video(videoUrl.value)
  }

  /** An iframe is used exactly for URLs naming youtube.com or youtu.be; other URLs play as video. */
  lemma PlayerChoice(videoUrl: Option<string>)
    ensures VideoOf(videoUrl).YouTubeFrame? <==> videoUrl.Some? && IsYouTube(videoUrl.value)
    ensures VideoOf(videoUrl).Html5Video? <==> Truthy(videoUrl) && !IsYouTube(videoUrl.value)
    ensures VideoOf(videoUrl).Html5Video? ==> VideoOf(videoUrl).src == videoUrl.value
    ensures VideoOf(videoUrl) == NoVideo <==> !Truthy(videoUrl)
  {
    if videoUrl == Some("") {
      assert !OccursAt("", "youtube.com", 0);
      assert !IsYouTube("");
    }
  }

  /**
   * A watch URL has its first "watch?v=" replaced by "embed/" and is cut before the first
   * "&"; this rule is applied even when the URL also names youtu.be/.
   */
  lemma WatchUrlRule(url: string)
    requires Contains(url, "youtube.com/watch?v=")
    ensures var replaced := ReplaceFirst(url, "watch?v=", "embed/");
      && EmbedUrl(url) <= replaced
      && (forall i :: 0 <= i < |EmbedUrl(url)| ==> EmbedUrl(url)[i] != '&')
      && (!Contains(replaced, "&") ==> EmbedUrl(url) == replaced)
      && (IndexOf(replaced, "&").Some? ==> EmbedUrl(url) == replaced[..IndexOf(replaced, "&").value])
  {
    var replaced := ReplaceFirst(url, "watch?v=", "embed/");
    FirstPieceIsPrefix(replaced, "&");
    FirstPieceLacksSeparator(replaced, '&');
  }

  /**
   * A URL naming "youtube.com/watch?v=" names "watch?v=", and the replacement rewrites its
   * first occurrence, which may lie before the one in "youtube.com/watch?v=".
   */
  lemma WatchReplacementShape(url: string)
    requires Contains(url, "youtube.com/watch?v=")
    ensures Contains(url, "watch?v=")
    ensures var i := IndexOf(url, "watch?v=").value;
      ReplaceFirst(url, "watch?v=", "embed/") == url[..i] + "embed/" + url[i + 8..]
  {
    var j := IndexOf(url, "youtube.com/watch?v=").value;
    assert url[j + 12..j + 20] == url[j..j + 20][12..20];
    assert OccursAt(url, "watch?v=", j + 12);
    ContainsIff(url, "watch?v=");
  }

  /**
   * A youtu.be URL (without a watch part) becomes the embed base followed by the text after
   * the first "youtu.be/", cut before the first "?" and before any further "youtu.be/":
   * the id is the text up to the next "youtu.be/", cut again before its first "?".
   */
  lemma ShortUrlRule(url: string) returns (id: string)
    requires !Contains(url, "youtube.com/watch?v=") && Contains(url, "youtu.be/")
    ensures IndexOf(url, "youtu.be/").value + 9 <= |url|
    ensures EmbedUrl(url) == YouTubeEmbedBase + id
    ensures var rest := url[IndexOf(url, "youtu.be/").value + 9..];
      && id <= rest
      && (forall i :: 0 <= i < |id| ==> id[i] != '?')
      && (!Contains(rest, "youtu.be/") && !Contains(rest, "?") ==> id == rest)
      && var piece := if IndexOf(rest, "youtu.be/").Some? then rest[..IndexOf(rest, "youtu.be/").value] else rest;
        id == if IndexOf(piece, "?").Some? then piece[..IndexOf(piece, "?").value] else piece
  {
    SecondPiece(url, "youtu.be/");
    var rest := url[IndexOf(url, "youtu.be/").value + 9..];
    var piece := Split(url, "youtu.be/")[1];
    id := Split(piece, "?")[0];
    PieceOfRest(rest, piece, id);
  }

  lemma PieceOfRest(rest: string, piece: string, id: string)
    requires piece == Split(rest, "youtu.be/")[0] && id == Split(piece, "?")[0]
    ensures id <= rest
    ensures forall i :: 0 <= i < |id| ==> id[i] != '?'
    ensures !Contains(rest, "youtu.be/") && !Contains(rest, "?") ==> id == rest
    ensures piece == if IndexOf(rest, "youtu.be/").Some? then rest[..IndexOf(rest, "youtu.be/").value] else rest
    ensures id == if IndexOf(piece, "?").Some? then piece[..IndexOf(piece, "?").value] else piece
  {
    FirstPieceIsPrefix(rest, "youtu.be/");
    FirstPieceIsPrefix(piece, "?");
    FirstPieceLacksSeparator(piece, '?');
  }

  /** A YouTube URL with neither a watch part nor youtu.be/ is embedded unchanged. */
  lemma OtherYouTubeUrlUnchanged(url: string)
    requires IsYouTube(url) && !Contains(url, "youtube.com/watch?v=") && !Contains(url, "youtu.be/")
    ensures VideoOf(Some(url)) == YouTubeFrame(url)
  {
  }
}
