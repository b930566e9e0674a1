/**
 * The naming logic of `/api/download` and `/api/download_all`: which file
 * extension a media URL gets, the attachment name of one item, and the name
 * of the ZIP archive of a whole post.
 */
module Download {
  import opened PyStrings

  const Mp4 := ".mp4"
  const Jpg := ".jpg"
  const NamePrefix := "instagram_"

  /**
   * The extension of a downloaded item: `.mp4` when `.mp4` occurs anywhere in
   * the URL before its first `'?'`, `.jpg` otherwise.
   */
  function Extension(mediaUrl: string): (ext: string)
    ensures ext == Mp4 <==> Contains(BeforeFirst(mediaUrl, '?'), Mp4)
    ensures ext == Mp4 || ext == Jpg
  {
    var path := Split(mediaUrl, '?')[0];
    SplitFirst(mediaUrl, '?');
    if Contains(path, Mp4) then Mp4 else Jpg
  }

  /** The attachment name of item `index` (counted from 0) of post `shortcode`: `instagram_{shortcode}_{index+1}{ext}`. */
  function MediaFilename(shortcode: string, index: int, mediaUrl: string): string
  {
    NamePrefix + shortcode + "_" + IntToString(index + 1) + Extension(mediaUrl)
  }

  /** The attachment name of the archive of post `shortcode`: `instagram_{shortcode}.zip`. */
  function ZipName(shortcode: string): string
  {
    NamePrefix + shortcode + ".zip"
  }

  /**
   * An item's attachment name reads back as its parts: the prefix with the
   * shortcode, the 1-based position in decimal, and the extension.
   */
  lemma MediaFilenameParts(shortcode: string, index: int, mediaUrl: string)
    ensures var name := MediaFilename(shortcode, index, mediaUrl);
      var head := NamePrefix + shortcode + "_";
      var number := IntToString(index + 1);
      && |name| == |head| + |number| + 4
      && name[..|head|] == head
      && name[|head|..|name| - 4] == number
      && name[|name| - 4..] == Extension(mediaUrl)
  {
    var head := NamePrefix + shortcode + "_";
    var number := IntToString(index + 1);
    var name := MediaFilename(shortcode, index, mediaUrl);
    assert name == head + number + Extension(mediaUrl);
  }

  /** Two items of one post never get the same attachment name. */
  lemma MediaFilenamesDistinct(shortcode: string, i: int, j: int, urlI: string, urlJ: string)
    requires i != j
    ensures MediaFilename(shortcode, i, urlI) != MediaFilename(shortcode, j, urlJ)
  {
    MediaFilenameParts(shortcode, i, urlI);
    MediaFilenameParts(shortcode, j, urlJ);
    IntToStringInjective(i + 1, j + 1);
  }

  /** A 0-based index `i` appears in the name as the decimal text of `i + 1`. */
  lemma MediaFilenameNumber(shortcode: string, index: int, mediaUrl: string)
    ensures var name := MediaFilename(shortcode, index, mediaUrl);
      var number := name[|NamePrefix + shortcode + "_"|..|name| - 4];
      && ((|number| > 0 && number[0] == '-') ==> IsDigits(number[1..]))
      && (!(|number| > 0 && number[0] == '-') ==> IsDigits(number))
      && ParseInt(number) == index + 1
  {
    MediaFilenameParts(shortcode, index, mediaUrl);
    IntToStringRoundTrip(index + 1);
  }

  /** The archive name ends in `.zip` and gives back its shortcode. */
  lemma ZipNameParts(shortcode: string)
    ensures var name := ZipName(shortcode);
      && |name| == |NamePrefix| + |shortcode| + 4
      && name[..|NamePrefix|] == NamePrefix
      && name[|NamePrefix|..|name| - 4] == shortcode
      && name[|name| - 4..] == ".zip"
  {
  }

  /** Different posts get different archive names. */
  lemma ZipNamesDistinct(a: string, b: string)
    requires a != b
    ensures ZipName(a) != ZipName(b)
  {
    ZipNameParts(a);
    ZipNameParts(b);
  }

  /** `https://cdn.example/v.mp4/thumb.jpg?x=1` is named as a video although its path ends in `.jpg`. */
  lemma ExtensionLooksInsideThePath(dir: string, rest: string, query: string)
    requires dir == "https://cdn.example/v" && rest == "/thumb.jpg" && query == "x=1"
    ensures Extension(dir + Mp4 + rest + "?" + query) == Mp4
  {
    Mp4AnywhereInPath(dir, rest, query);
  }

  /** `.mp4` anywhere before the query, even inside a directory name, makes the extension `.mp4`. */
  lemma Mp4AnywhereInPath(dir: string, rest: string, query: string)
    requires '?' !in dir && '?' !in rest
    ensures Extension(dir + Mp4 + rest + "?" + query) == Mp4
  {
    var path := dir + Mp4 + rest;
    assert '?' !in path by {
      assert '?' !in Mp4;
    }
    assert path + "?" + query == dir + Mp4 + rest + "?" + query;
    ExtensionIgnoresTheQuery(path, query);
    assert OccursAt(path, Mp4, |dir|) by {
      assert path[|dir|..|dir| + |Mp4|] == Mp4;
    }
  }

  /** Only the part before the first `'?'` decides: whatever the query holds is ignored. */
  lemma ExtensionIgnoresTheQuery(path: string, query: string)
    requires '?' !in path
    ensures Extension(path + "?" + query) == (if Contains(path, Mp4) then Mp4 else Jpg)
  {
    var url := path + "?" + query;
    assert url[..|path|] == path;
    assert url[|path|] == '?';
    BeforeFirstUnique(url, '?', path);
  }
}
