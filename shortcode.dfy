/**
 * `extract_shortcode`: the post identifier ("shortcode") a post or reel link
 * carries, or None when the link is not one.
 */
module Shortcode {
  import opened Wrappers
  import opened PyStrings

  /** The guard of `extract_shortcode`: `'/p/' in url or '/reel/' in url`. */
  predicate HasPostMarker(url: string)
  {
    Contains(url, "/p/") || Contains(url, "/reel/")
  }

  /**
   * `extract_shortcode(url)`: when the URL has a post marker, the shortcode
   * read from `url.strip('/')`; otherwise None.
   */
  function ExtractShortcode(url: string): (r: Option<string>)
  {
    if HasPostMarker(url) then
      LastSegmentBeforeQuery(StripChars(url, {'/'}))
    else
      None
  }

  /**
   * The rest of `extract_shortcode` on the stripped URL: when it splits into
   * two or more `'/'`-pieces, the last one, cut before its first `'?'`. The
   * result may be "".
   */
  function LastSegmentBeforeQuery(stripped: string): (r: Option<string>)
  {
    var parts := Split(stripped, '/');
    if |parts| >= 2 then
      var last := parts[|parts| - 1];
      Some(if '?' !in last then last else Split(last, '?')[0])
    else
      None
  }

  /**
   * There is a shortcode exactly when the URL has a post marker and
   * `url.strip('/')` still holds a `'/'`. It is then the text after the last
   * `'/'` of the stripped URL up to its first `'?'`, and holds neither
   * character.
   */
  lemma ExtractShortcodeSpec(url: string)
    ensures ExtractShortcode(url).Some? <==> HasPostMarker(url) && '/' in StripChars(url, {'/'})
    ensures ExtractShortcode(url).Some? ==>
      ExtractShortcode(url).value == BeforeFirst(AfterLast(StripChars(url, {'/'}), '/'), '?')
    ensures ExtractShortcode(url).Some? ==> '/' !in ExtractShortcode(url).value && '?' !in ExtractShortcode(url).value
  {
    if HasPostMarker(url) {
      if '/' in StripChars(url, {'/'}) {
        SegmentAfterLastSlash(StripChars(url, {'/'}));
      } else {
        NoSegmentWithoutSlash(StripChars(url, {'/'}));
      }
    }
  }

  /** Without a `'/'` there is no segment to take. */
  lemma NoSegmentWithoutSlash(s: string)
    requires '/' !in s
    ensures LastSegmentBeforeQuery(s) == None
  {
    SplitCount(s, '/');
  }

  /** With a `'/'` the segment is the text after the last `'/'` up to its first `'?'`. */
  lemma SegmentAfterLastSlash(s: string)
    requires '/' in s
    ensures LastSegmentBeforeQuery(s) == Some(BeforeFirst(AfterLast(s, '/'), '?'))
  {
    SplitCount(s, '/');
    if '?' in Split(s, '/')[|Split(s, '/')| - 1] {
      SegmentCut(s);
      LastPieceWithQuery(s, '/', '?');
    } else {
      SegmentWhole(s);
      LastPieceWithoutQuery(s, '/', '?');
    }
  }

  /** A last piece with a `'?'` is cut before it. */
  lemma SegmentCut(s: string)
    requires |Split(s, '/')| >= 2
    requires '?' in Split(s, '/')[|Split(s, '/')| - 1]
    ensures LastSegmentBeforeQuery(s) == Some(Split(Split(s, '/')[|Split(s, '/')| - 1], '?')[0])
  {
  }

  /** A last piece without `'?'` is taken whole. */
  lemma SegmentWhole(s: string)
    requires |Split(s, '/')| >= 2
    requires '?' !in Split(s, '/')[|Split(s, '/')| - 1]
    ensures LastSegmentBeforeQuery(s) == Some(Split(s, '/')[|Split(s, '/')| - 1])
  {
  }

  /** When the last `sep`-piece of `s` holds no `q`, it is kept whole. */
  lemma LastPieceWithoutQuery(s: string, sep: char, q: char)
    requires q !in Split(s, sep)[|Split(s, sep)| - 1]
    ensures Split(s, sep)[|Split(s, sep)| - 1] == BeforeFirst(AfterLast(s, sep), q)
  {
    SplitLast(s, sep);
    BeforeFirstWhole(AfterLast(s, sep), q);
  }

  /** The first `q`-piece of the last `sep`-piece of `s` is the text after the last `sep` up to the next `q`. */
  lemma LastPieceWithQuery(s: string, sep: char, q: char)
    ensures Split(Split(s, sep)[|Split(s, sep)| - 1], q)[0] == BeforeFirst(AfterLast(s, sep), q)
  {
    SplitLast(s, sep);
    SplitFirst(AfterLast(s, sep), q);
  }

  /**
   * After `strip('/')`, the text following the last `'/'` of `pre + "/" + rest`
   * is `rest`, provided `pre` does not end in `'/'` and `rest` holds no `'/'`.
   */
  lemma StripKeepsLastSegment(pre: string, rest: string)
    requires |pre| > 0 && pre[|pre| - 1] != '/'
    requires |rest| > 0 && '/' !in rest
    ensures '/' in StripChars(pre + "/" + rest, {'/'})
    ensures AfterLast(StripChars(pre + "/" + rest, {'/'}), '/') == rest
  {
    var url := pre + "/" + rest;
    var n := |url|;
    var r := StripChars(url, {'/'});
    var a := LeadingCount(url, {'/'});
    assert url[n - 1] == rest[|rest| - 1];
    assert a + |r| == n;
    assert url[|pre| - 1] == pre[|pre| - 1];
    assert a < |pre|;
    assert r == url[a..];
    assert r[|pre| - a] == url[|pre|] == '/';
    assert r[|r| - |rest|..] == url[n - |rest|..] == rest;
    assert r[|r| - |rest| - 1] == url[|pre|];
    AfterLastUnique(r, '/', rest);
  }

  /** `host + "/" + kind + "/"` holds the marker of a post (`kind == "p"`) or a reel. */
  lemma MarkerAfterHost(host: string, kind: string, url: string)
    requires kind == "p" || kind == "reel"
    requires |url| >= |host| + |kind| + 2
    requires url[..|host| + |kind| + 2] == host + "/" + kind + "/"
    ensures HasPostMarker(url)
  {
    var m := "/" + kind + "/";
    assert url[|host|..|host| + |m|] == m;
    if kind == "p" {
      assert m == "/p/";
      assert OccursAt(url, "/p/", |host|);
    } else {
      assert m == "/reel/";
      assert OccursAt(url, "/reel/", |host|);
    }
  }

  /**
   * A link `host/p/<id>` or `host/reel/<id>`, optionally followed directly by a
   * query `?...`, yields exactly `<id>`.
   */
  lemma ShortcodeOfPostLink(host: string, kind: string, id: string, query: string)
    requires kind == "p" || kind == "reel"
    requires |id| > 0 && '/' !in id && '?' !in id
    requires '/' !in query && (query == "" || query[0] == '?')
    ensures ExtractShortcode(host + "/" + kind + "/" + id + query) == Some(id)
  {
    var url := host + "/" + kind + "/" + id + query;
    var pre := host + "/" + kind;
    var rest := id + query;
    assert url == pre + "/" + rest;
    assert url[..|host| + |kind| + 2] == host + "/" + kind + "/";
    MarkerAfterHost(host, kind, url);
    assert pre[|pre| - 1] == kind[|kind| - 1];
    ShortcodeOfLastSegment(pre, rest, url);
    assert rest[..|id|] == id;
    BeforeFirstUnique(rest, '?', id);
  }

  /**
   * A link `pre/rest` with a post marker, where `pre` does not end in `'/'`
   * and `rest` holds no `'/'`, yields `rest` up to its first `'?'`.
   */
  lemma ShortcodeOfLastSegment(pre: string, rest: string, url: string)
    requires url == pre + "/" + rest && HasPostMarker(url)
    requires |pre| > 0 && pre[|pre| - 1] != '/'
    requires |rest| > 0 && '/' !in rest
    ensures ExtractShortcode(url) == Some(BeforeFirst(rest, '?'))
  {
    StripKeepsLastSegment(pre, rest);
    ExtractShortcodeSpec(url);
  }

  /**
   * A link whose id is followed by `/` and then a query, `host/p/<id>/?<q>`,
   * yields the empty shortcode: the last segment is the query.
   */
  lemma ShortcodeOfLinkWithSlashedQuery(host: string, kind: string, id: string, query: string)
    requires kind == "p" || kind == "reel"
    requires |id| > 0 && '/' !in id
    requires '/' !in query
    ensures ExtractShortcode(host + "/" + kind + "/" + id + "/?" + query) == Some("")
  {
    var url := host + "/" + kind + "/" + id + "/?" + query;
    var pre := host + "/" + kind + "/" + id;
    var rest := "?" + query;
    assert url == pre + "/" + rest;
    assert url[..|host| + |kind| + 2] == host + "/" + kind + "/";
    MarkerAfterHost(host, kind, url);
    assert pre[|pre| - 1] == id[|id| - 1];
    ShortcodeOfLastSegment(pre, rest, url);
    BeforeFirstUnique(rest, '?', "");
  }

  /** The link a share button produces, `https://instagram.com/p/ABC123/?hl=en`, yields "". */
  lemma ShareLinkYieldsEmptyShortcode(url: string)
    requires url == "https://instagram.com/p/ABC123/?hl=en"
    ensures ExtractShortcode(url) == Some("")
  {
    assert url == "https://instagram.com" + "/" + "p" + "/" + "ABC123" + "/?" + "hl=en";
    ShortcodeOfLinkWithSlashedQuery("https://instagram.com", "p", "ABC123", "hl=en");
  }

  /**
   * The query is split on `'/'` like the rest of the URL: a `'/'` inside it
   * makes the shortcode the text after that `'/'`.
   */
  lemma SlashInQueryPicksItsTail(url: string)
    requires url == "https://instagram.com/p/ABC?next=/x"
    ensures ExtractShortcode(url) == Some("x")
  {
    var host, pre := "https://instagram.com", "https://instagram.com/p/ABC?next=";
    assert url[..|host| + 3] == host + "/" + "p" + "/";
    MarkerAfterHost(host, "p", url);
    assert url == pre + "/" + "x";
    ShortcodeOfLastSegment(pre, "x", url);
    BeforeFirstWhole("x", '?');
  }
}
