/**
 * The three POST handlers of the service, `/api/extract`, `/api/download`
 * and `/api/download_all`, with every call inside a handler's `try` into
 * the scraping library, the HTTP client or the file system passed in as a
 * function from its argument to its outcome.
 */
module Handlers {
  import opened Wrappers
  import opened PyStrings
  import opened Shortcode
  import opened Caption
  import opened Media
  import opened Download

  type Bytes = seq<bv8>

  /** What a library or network call gives back: a value, or the text of the exception it raised. */
  datatype Fetch<T> = Fetched(value: T) | Failed(message: string)

  /** The JSON body of a successful `/api/extract`. */
  datatype Extraction = Extraction(
    postId: string,
    caption: string,
    hashtags: seq<string>,
    mediaCount: nat,
    media: seq<MediaItem>)

  datatype Response =
    | BadRequest(error: string)                          // 400, `{"error": ...}`
    | ServerError(error: string)                         // 500, `{"error": ...}`
    | Extracted(result: Extraction)                      // 200, `{"success": true, ...}`
    | Attachment(downloadName: string, content: Bytes)   // 200, a file sent as an attachment

  function Status(r: Response): int
  {
    match r
    case BadRequest(_) => 400
    case ServerError(_) => 500
    case _ => 200
  }

  const InvalidUrlMessage := "올바른 인스타그램 URL이 아닙니다."
  const MissingFieldsMessage := "필수 정보가 누락되었습니다."
  const ExtractErrorPrefix := "추출 중 오류가 발생했습니다: "
  const DownloadErrorPrefix := "다운로드 오류: "
  const DownloadAllErrorPrefix := "전체 다운로드 오류: "

  /** Python truthiness of a shortcode: `not shortcode` holds for None and for "". */
  predicate IsUsable(shortcode: Option<string>)
  {
    shortcode.Some? && shortcode.value != ""
  }

  /**
   * `/api/extract`: resolve the shortcode of `url` (an absent field reads as ""),
   * answer 400 when it is unusable without fetching anything, otherwise fetch
   * the post and describe its caption, hashtags and media.
   */
  method ExtractMedia(url: Option<string>, fetchPost: string -> Fetch<Post>) returns (response: Response)
    ensures var sc := ExtractShortcode(url.GetOr(""));
      !IsUsable(sc) <==> response == BadRequest(InvalidUrlMessage)
    ensures var sc := ExtractShortcode(url.GetOr(""));
      IsUsable(sc) && fetchPost(sc.value).Failed? ==>
        response == ServerError(ExtractErrorPrefix + fetchPost(sc.value).message)
    ensures var sc := ExtractShortcode(url.GetOr(""));
      IsUsable(sc) && fetchPost(sc.value).Fetched? ==>
        && response.Extracted?
        && var post, e := fetchPost(sc.value).value, response.result;
        && e.postId == sc.value
        && e.caption == StripHashtags(post.caption.GetOr(""), post.hashtags)
        && e.hashtags == post.hashtags
        && DescribesNodes(e.media, Nodes(post))
        && e.mediaCount == |e.media| == |Nodes(post)|
  {
    var shortcode := ExtractShortcode(url.GetOr(""));
    if !IsUsable(shortcode) {
      return BadRequest(InvalidUrlMessage);
    }
    var fetched := fetchPost(shortcode.value);
    if fetched.Failed? {
      return ServerError(ExtractErrorPrefix + fetched.message);
    }
    var post := fetched.value;
    var mainCaption := StripCaptionHashtags(post.caption, post.hashtags);
    var mediaList := BuildMediaList(Nodes(post));
    response := Extracted(Extraction(shortcode.value, mainCaption, post.hashtags, |mediaList|, mediaList));
  }

  /**
   * `/api/download`: answer 400 when `url` or `shortcode` is missing or empty;
   * otherwise fetch the URL, write its bytes to a file named
   * `instagram_{shortcode}_{index+1}{ext}` in a fresh temporary directory
   * (`index` defaults to 0) and send that file. `saveFile` tells, for a file
   * name, whether creating and writing it there succeeds; it fails for a name
   * holding `'/'` or NUL, or one too long for the file system.
   */
  function DownloadMedia(
    url: Option<string>, shortcode: Option<string>, index: Option<int>,
    fetchMedia: string -> Fetch<Bytes>, saveFile: string -> Fetch<()>): (response: Response)
    ensures Status(response) == 400 <==> url.GetOr("") == "" || shortcode.GetOr("") == ""
    ensures Status(response) == 400 ==> response == BadRequest(MissingFieldsMessage)
    ensures response.ServerError? <==>
      && url.GetOr("") != "" && shortcode.GetOr("") != ""
      && (fetchMedia(url.value).Failed?
          || saveFile(MediaFilename(shortcode.value, index.GetOr(0), url.value)).Failed?)
    ensures response.ServerError? && fetchMedia(url.value).Failed? ==>
      response.error == DownloadErrorPrefix + fetchMedia(url.value).message
    ensures response.ServerError? && fetchMedia(url.value).Fetched? ==>
      response.error == DownloadErrorPrefix + saveFile(MediaFilename(shortcode.value, index.GetOr(0), url.value)).message
    ensures response.Attachment? ==>
      && response.content == fetchMedia(url.value).value
      && response.downloadName == MediaFilename(shortcode.value, index.GetOr(0), url.value)
      && (response.downloadName[|response.downloadName| - 4..] == Mp4
          <==> Contains(BeforeFirst(url.value, '?'), Mp4))
    ensures !response.Extracted?
  {
    var mediaUrl := url.GetOr("");
    var code := shortcode.GetOr("");
    if mediaUrl == "" || code == "" then
      BadRequest(MissingFieldsMessage)
    else
      match fetchMedia(mediaUrl)
      case Failed(message) => ServerError(DownloadErrorPrefix + message)
      case Fetched(bytes) =>
        var filename := MediaFilename(code, index.GetOr(0), mediaUrl);
        match saveFile(filename)
        case Failed(message) => ServerError(DownloadErrorPrefix + message)
        case Fetched(_) =>
          MediaFilenameParts(code, index.GetOr(0), mediaUrl);
          Attachment(filename, bytes)
  }

  /**
   * A shortcode holding `'/'` makes the attachment name point into a
   * directory that the fresh temporary directory does not have: when the file
   * system refuses every such name, the answer is 500 although the fetch
   * succeeded.
   */
  lemma SlashedShortcodeNotSaved(
    url: string, code: string, index: Option<int>,
    fetchMedia: string -> Fetch<Bytes>, saveFile: string -> Fetch<()>)
    requires url != "" && '/' in code
    requires fetchMedia(url).Fetched?
    requires forall name :: '/' in name ==> saveFile(name).Failed?
    ensures DownloadMedia(Some(url), Some(code), index, fetchMedia, saveFile).ServerError?
  {
    var name := MediaFilename(code, index.GetOr(0), url);
    var head := NamePrefix + code + "_";
    MediaFilenameParts(code, index.GetOr(0), url);
    var k :| 0 <= k < |code| && code[k] == '/';
    assert name[|NamePrefix| + k] == head[|NamePrefix| + k] == '/';
    assert saveFile(name).Failed?;
  }

  /**
   * `/api/download_all`: resolve the shortcode as `/api/extract` does and
   * answer 400 for an unusable one; otherwise have the library download the
   * whole post and send the archive as `instagram_{shortcode}.zip`.
   * `downloadPost` stands for the whole sequence after the shortcode check:
   * creating the content directory, the library's lookup and download, and
   * packing the archive; any of them raising gives its message.
   */
  function DownloadAll(url: Option<string>, downloadPost: string -> Fetch<Bytes>): (response: Response)
    ensures var sc := ExtractShortcode(url.GetOr(""));
      !IsUsable(sc) <==> response == BadRequest(InvalidUrlMessage)
    ensures var sc := ExtractShortcode(url.GetOr(""));
      IsUsable(sc) && downloadPost(sc.value).Failed? ==>
        response == ServerError(DownloadAllErrorPrefix + downloadPost(sc.value).message)
    ensures var sc := ExtractShortcode(url.GetOr(""));
      IsUsable(sc) && downloadPost(sc.value).Fetched? ==>
        && response.Attachment?
        && response.content == downloadPost(sc.value).value
        && response.downloadName == ZipName(sc.value)
  {
    var shortcode := ExtractShortcode(url.GetOr(""));
    if !IsUsable(shortcode) then
      BadRequest(InvalidUrlMessage)
    else
      match downloadPost(shortcode.value)
      case Failed(message) => ServerError(DownloadAllErrorPrefix + message)
      case Fetched(archive) =>
        Attachment(ZipName(shortcode.value), archive)
  }

  /**
   * A link of the form `host/p/<id>/?<query>` is refused with 400 by
   * `/api/download_all`, whatever the library would have answered.
   */
  lemma SlashedQueryLinkRefused(host: string, kind: string, id: string, query: string, downloadPost: string -> Fetch<Bytes>)
    requires kind == "p" || kind == "reel"
    requires |id| > 0 && '/' !in id
    requires '/' !in query
    ensures DownloadAll(Some(host + "/" + kind + "/" + id + "/?" + query), downloadPost) == BadRequest(InvalidUrlMessage)
  {
    ShortcodeOfLinkWithSlashedQuery(host, kind, id, query);
  }

  /** A plain post link `host/p/<id>` downloads as `instagram_<id>.zip` when the library succeeds. */
  lemma PostLinkArchiveName(host: string, kind: string, id: string, downloadPost: string -> Fetch<Bytes>)
    requires kind == "p" || kind == "reel"
    requires |id| > 0 && '/' !in id && '?' !in id
    requires downloadPost(id).Fetched?
    ensures DownloadAll(Some(host + "/" + kind + "/" + id), downloadPost) == Attachment(ZipName(id), downloadPost(id).value)
  {
    ShortcodeOfPostLink(host, kind, id, "");
    assert host + "/" + kind + "/" + id + "" == host + "/" + kind + "/" + id;
  }
}
