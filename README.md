# INSTA media service: the request logic, in Dafny

The service is a small Flask backend (`app.py`) that takes a link to an
Instagram post or reel, asks the `instaloader` library for the post, and
answers with its caption, hashtags and media list. It can also download one
media item, or the whole post as a ZIP archive. Almost all of it is glue
around a framework, a scraping library and the filesystem. This project
models the deterministic logic inside that glue and proves what it does:

- **Shortcode extraction** (`extract_shortcode`): the guard on `/p/` or
  `/reel/`, then `url.strip('/')`, `split('/')`, the last segment, cut at the
  first `'?'`.
- **Caption clean-up** in `/api/extract`: for each hashtag in list order,
  `caption.replace("#" + tag, "").strip()`.
- **Media list** in `/api/extract`: one item per node (the post itself, or
  the children of a `GraphSidecar` post), with `index`, `url`, `type` and,
  for a video, `video_url`.
- **Download naming and validation**: a 400 answer for a missing `url` or
  `shortcode`, the `.mp4`/`.jpg` extension rule, `instagram_{shortcode}_{index+1}{ext}`,
  and `instagram_{shortcode}.zip`.
- **The three POST handlers**, with every call inside the handler's `try`
  into the library, the network or the file system passed in as a function
  from its argument to its outcome (`Fetch`: a
  value or the exception's message). For `/api/download` these are the fetch
  of the media URL and the write of the attachment file, whose outcome
  depends on its name; for `/api/download_all` it is the whole sequence of
  creating the content directory, the library's download and the packing of
  the archive. The temporary directory and its cleanup, outside the `try`,
  are left out.

The Python string operations these rely on are defined once, in `PyStrings`,
each with an independent characterisation that is proved:
- `in` on substrings;
- `strip` with and without a character set;
- `split` on one character;
- `replace` with an empty replacement;
- `str(int)`.

Files: `wrappers.dfy` (Option), `pystrings.dfy`, `shortcode.dfy`,
`caption.dfy`, `media.dfy`, `download.dfy`, `handlers.dfy`.

## Behaviour a reader might not expect

- `https://instagram.com/p/ABC123/?hl=en` yields the shortcode `""`, not
  `ABC123`: after `strip('/')` the last `'/'`-segment is `?hl=en`, and
  cutting it at `'?'` leaves nothing. Both `/api/extract` and
  `/api/download_all` then answer 400 (`ShortcodeOfLinkWithSlashedQuery`,
  `ShareLinkYieldsEmptyShortcode`, `SlashedQueryLinkRefused`).
- The video extension `.mp4` is chosen when `.mp4` *occurs anywhere* in the
  URL before its first `'?'`, not only when that part ends in `.mp4`
  (`ExtensionLooksInsideThePath`, `Mp4AnywhereInPath`).
- Hashtag removal with `replace` removes every non-overlapping occurrence of
  `#tag`, left to right, not just the first (`RemoveAll`,
  `RemoveAllLeftmost`).
- The whole URL, query included, is split on `'/'`: a `'/'` inside the query
  makes the shortcode the text after that `'/'`. For example,
  `https://instagram.com/p/ABC?next=/x` yields `x`, not `ABC`
  (`SlashInQueryPicksItsTail`, an instance of `ShortcodeOfLastSegment`). The rows below about post
  links therefore speak of a query with no `'/'`.
- A shortcode holding `'/'` passes `/api/download`'s check, but the
  attachment name then points into a directory that does not exist, and
  writing it fails with 500 (`SlashedShortcodeNotSaved`).
- `extract_shortcode` can return `""` for a link that has `/p/` or
  `/reel/`; the handlers reject it only because `""` is falsy (`IsUsable`).

## Model

| member | source | states |
|---|---|---|
| `Shortcode.ExtractShortcodeSpec` | app.py:45-51 | `extract_shortcode` (`Shortcode.ExtractShortcode`) gives Some exactly when the URL contains `/p/` or `/reel/` and `url.strip('/')` still holds a `'/'`. The value is the text after the last `'/'` of the stripped URL, cut before its first `'?'`. It holds no `'/'` and no `'?'`. |
| `Shortcode.SegmentAfterLastSlash` | app.py:48-50 | When the stripped URL holds a `'/'`, the source's two-way choice (last piece whole, or cut at `'?'`) always gives the text after the last `'/'` up to the first `'?'`. |
| `Shortcode.NoSegmentWithoutSlash` | app.py:48-51 | When the stripped URL holds no `'/'`, the split has one piece and the result is None. |
| `Shortcode.ShortcodeOfLastSegment` | app.py:45-51 | For `pre/rest` with a post marker, where `pre` is non-empty and does not end in `'/'` and `rest` is non-empty and holds no `'/'`, the shortcode is `rest` up to its first `'?'`. |
| `Shortcode.MarkerAfterHost` | app.py:47 | A URL that starts with `host + "/p/"` or `host + "/reel/"` passes the guard. |
| `Shortcode.StripKeepsLastSegment` | app.py:48 | If `pre` is non-empty and does not end in `'/'`, and `rest` is non-empty and has no `'/'`, then `strip('/')` of `pre/rest` keeps a `'/'` and its last segment is `rest`. |
| `Shortcode.ShortcodeOfPostLink` | app.py:45-51 | `host/p/<id>` or `host/reel/<id>`, optionally followed directly by `?query` with no `'/'` in the query, yields exactly `<id>`. |
| `Shortcode.ShortcodeOfLinkWithSlashedQuery` | app.py:48-50 | `host/p/<id>/?query`, with no `'/'` in the query, yields the empty shortcode `""`. |
| `Shortcode.ShareLinkYieldsEmptyShortcode` | app.py:48-50 | `https://instagram.com/p/ABC123/?hl=en` yields `""`. |
| `Shortcode.SlashInQueryPicksItsTail` | app.py:48-50 | `https://instagram.com/p/ABC?next=/x` yields `x`: the query is split on `'/'` with the rest of the URL. |
| `Caption.StripTag` | app.py:96 | One loop step. The result has no surrounding whitespace and is no longer than its input. When the input does not contain `#tag`, the step only strips. |
| `Caption.StripHashtags` | app.py:94-96 | With no tags the caption is returned unchanged, whitespace included. With tags the result has no surrounding whitespace. It is never longer than the caption. |
| `Caption.StripCaptionHashtags` | app.py:92-96 | The loop: an absent caption reads as `""`. The result equals `StripHashtags` over the tags in list order, with the same emptiness, stripping and length facts. |
| `Caption.StripHashtagsOfCleanCaption` | app.py:94-96 | A stripped caption that contains no `#tag` of the list is unchanged. |
| `Caption.StripHashtagsIdempotent` | app.py:94-96 | A second pass is a no-op exactly when the first pass left no `#tag` of the list behind; with no tags both passes return the caption unchanged. |
| `Caption.StripTagOfStripped` | app.py:96 | On a stripped caption one turn changes nothing when the `#tag` is absent and makes the caption strictly shorter when it is present. |
| `Caption.StripHashtagsShortensLeftoverTag` | app.py:94-96 | A stripped caption that holds some `#tag` of the list comes out of the loop strictly shorter. |
| `Caption.RemovalCanLeaveATag` | app.py:96 | One pass can create a new occurrence: `"##catcat"` with tag `cat` becomes `"#cat"`, and a second pass gives `""`. This holds for every non-empty tag without `'#'` that does not end in whitespace. |
| `Caption.TagOrderMatters` | app.py:95-96 | For tags `s` and `s+r`, with `r` non-empty, without `'#'` and with no surrounding whitespace, `"#"+s+r` becomes `r` when `s` comes first and `""` when `s+r` comes first. |
| `Caption.CatBeforeCategory` | app.py:95-96 | The case `cat` / `category` on `"#category"`: the result is `"egory"` in one order and `""` in the other. |
| `Media.BuildMediaList` | app.py:98-105 | One item per node, in node order. Item i has `index` i and `url` = `display_url`. Its type is video (JSON text `"video"`, otherwise `"image"`), and it has a `video_url` equal to the node's, exactly when the node is a video. |
| `Media.DescribesNodesUnique` | app.py:100-105 | That description fixes the list: two lists describing the same nodes are equal. |
| `Media.SinglePostHasOneItem` | app.py:99-101 | The node list (`Media.Nodes`) of a post that is not a `GraphSidecar` is the post itself, so it yields exactly one item. It has index 0, the post's display URL and the post's type. |
| `Download.Extension` | app.py:135-136 | `.mp4` exactly when `.mp4` occurs in the URL before its first `'?'`, `.jpg` otherwise. |
| `Download.ExtensionLooksInsideThePath` | app.py:135 | `https://cdn.example/v.mp4/thumb.jpg?x=1` gets `.mp4`: the test is a substring test, not a suffix test. |
| `Download.Mp4AnywhereInPath` | app.py:135 | `dir + ".mp4" + rest + "?" + query` gets `.mp4` whenever neither `dir` nor `rest` holds a `'?'`. |
| `Download.ExtensionIgnoresTheQuery` | app.py:135 | For `path?query` with no `'?'` in `path`, only `path` decides the extension. |
| `Download.MediaFilenameParts` | app.py:140 | The file name splits back into `instagram_{shortcode}_`, the decimal text of `index+1`, and the 4-character extension. |
| `Download.MediaFilenameNumber` | app.py:140 | The number in the file name reads back as `index + 1`. |
| `Download.MediaFilenamesDistinct` | app.py:140 | Two different indexes of one post never get the same file name, whatever their URLs. |
| `Download.ZipNameParts` | app.py:176 | The archive name is `instagram_`, then the shortcode, then `.zip`. |
| `Download.ZipNamesDistinct` | app.py:176 | Different shortcodes give different archive names. |
| `Handlers.ExtractMedia` | app.py:80-117 | 400 exactly when the shortcode is None or `""`, and then without a fetch. A failed fetch gives 500 with the prefixed message. Otherwise the response has the post id, the stripped caption, the hashtags, and a media list that describes the nodes; `media_count` equals its length. |
| `Handlers.DownloadMedia` | app.py:119-148 | 400 exactly when `url` or `shortcode` is missing or empty. Otherwise 500 exactly when the fetch fails or the attachment file cannot be written under its name, with the prefixed message of the first of the two to fail. Otherwise the fetched bytes are sent under `MediaFilename`, whose last four characters are `.mp4` exactly when the URL before `'?'` contains `.mp4`. |
| `Handlers.SlashedShortcodeNotSaved` | app.py:140-148 | When the file system refuses every name holding `'/'`, a shortcode holding `'/'` gets 500 from `/api/download` even after a successful fetch. |
| `Handlers.DownloadAll` | app.py:150-179 | 400 exactly when the shortcode is None or `""`. 500 with the prefixed message when the library fails. Otherwise the archive is sent as `ZipName(shortcode)`. |
| `Handlers.SlashedQueryLinkRefused` | app.py:160-163 | `/api/download_all` refuses `host/p/<id>/?query`, with no `'/'` in the query, with 400, whatever the library would do. |
| `Handlers.PostLinkArchiveName` | app.py:160-176 | `/api/download_all` on `host/p/<id>` sends `instagram_<id>.zip` when the library succeeds. |
| `PyStrings.StripChars` | app.py:48 | `s.strip(chars)` has no character of `chars` at either end. It is the slice of `s` starting after the leading run. Everything after it is in `chars`. It is `s` itself when `s` is already stripped. |
| `PyStrings.Strip` | app.py:96 | `s.strip()` has no whitespace at either end and is no longer than `s`. |
| `PyStrings.SplitCount` | app.py:49 | `s.split(c)` has two or more pieces exactly when `c` occurs in `s`. |
| `PyStrings.SplitPiecesFree` | app.py:48 | No piece of `s.split(c)` contains `c`. |
| `PyStrings.JoinSplit` | app.py:48 | Joining the pieces of `s.split(c)` with `c` gives back `s`. |
| `PyStrings.SplitJoin` | app.py:48 | Splitting a join of `c`-free pieces gives back the pieces. |
| `PyStrings.BeforeFirst` | app.py:50 | A prefix without `c` that is all of `s` or is followed by `c`. |
| `PyStrings.BeforeFirstWhole` | app.py:50 | Without a `c` in `s`, all of `s` comes before the first `c`. |
| `PyStrings.AfterLast` | app.py:48-50 | A suffix without `c` that is all of `s` or is preceded by `c`. |
| `PyStrings.SplitFirst` | app.py:135 | `s.split(c)[0]` is the text before the first `c`. |
| `PyStrings.SplitLast` | app.py:48-50 | `s.split(c)[-1]` is the text after the last `c`. |
| `PyStrings.RemoveAll` | app.py:96 | `s.replace(p, "")` is never longer than `s`. It is strictly shorter when `p` occurs in `s`, and equal to `s` when it does not. |
| `PyStrings.RemoveAllLeftmost` | app.py:96 | Removal is leftmost-first and non-overlapping. If the first occurrence in `a + p + b` starts after `a`, the result is `a` followed by the removal applied to `b`. |
| `PyStrings.NatToDecimal` | app.py:140 | `str(n)` for `n >= 0` is a non-empty string of digits with no leading zero. |
| `PyStrings.IntToStringRoundTrip` | app.py:140 | `str(n)` reads back as `n`, including for negative `n`. |

## Left out

- Login, proxy and framework glue:
  - Session loading and login through `instaloader` (app.py:27-42) need the library and a session file.
  - `/api/proxy` (app.py:59-78) only relays a network stream.
  - Routing, `render_template`, CORS and logging (app.py:7-21, 53-57, 182-183) are framework configuration.
- Library and network calls are not modelled. `Post.from_shortcode`, `download_post`, `requests.get` and `raise_for_status` are parameters of the handlers that return a value or the exception's message (`Fetch`). The post's caption, hashtags, type name and sidecar children (`get_sidecar_nodes`) are fields of `Post`, as the library reports them.
- Filesystem work is modelled only by its outcome. `/api/download`'s file write is the parameter `saveFile`, keyed on the file name; `/api/download_all`'s `os.makedirs` and `shutil.make_archive` are part of its `downloadPost` parameter. The paths, the chunked copy, `send_file` and the `after_this_request` cleanup (app.py:122-126, 141-145, 153-157, 165-166, 173-175) are left out. An `Attachment` carries the download name and the bytes the outside call returned.
- `Handlers.DownloadMedia`: the fetch's outcome includes reading the body. In the source the file is opened before the body is streamed, so when the open fails and the stream would also have failed, the source reports the open's error and the model the fetch's.
- Request parsing is left out. A field is an `Option` read with `data.get`'s default, and the model takes `index` as an int. In the source a missing body raises and answers 500, and so does a JSON `null` `url` sent to `/api/extract` or `/api/download_all`. For `/api/download` (app.py:138-139), a `null`, string, list or object `index` raises only after the fetch succeeds, answering 500. A float `index` yields a name such as `instagram_X_2.5.jpg`, and a boolean acts as 0 or 1. The model covers none of these inputs.
- `PyStrings.Whitespace`: `str.strip()` is modelled with the whitespace characters up to U+00FF. Python also strips U+1680, U+2000–U+200A, U+2028, U+2029, U+202F, U+205F and U+3000; the model does not.
- `Handlers.ExtractMedia`: 500 is modelled only for a failed fetch. In the source, the caption and media steps run inside the same `try`. The model's versions of those steps cannot fail, so no other path leads to 500.
- `Media.MediaItem`: the JSON object's key order is not modelled. The optional `video_url` key is `Option`.
