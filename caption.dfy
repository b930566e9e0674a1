/**
 * The caption post-processing of `/api/extract`: every `#tag` of the post's
 * hashtag list is removed from the caption, tag by tag in list order, and the
 * text is stripped of surrounding whitespace after each removal.
 */
module Caption {
  import opened Wrappers
  import opened PyStrings

  /** One turn of the loop: `caption.replace(f"#{tag}", "").strip()`. */
  function StripTag(caption: string, tag: string): (r: string)
    ensures IsStrippedOf(r, Whitespace)
    ensures |r| <= |caption|
    ensures !Contains(caption, "#" + tag) ==> r == Strip(caption)
  {
    Strip(RemoveAll(caption, "#" + tag))
  }

  /**
   * The caption once every tag of `tags` has been removed, in list order. With
   * no tags it is the caption as given, surrounding whitespace included.
   */
  function StripHashtags(caption: string, tags: seq<string>): (r: string)
    ensures tags == [] ==> r == caption
    ensures tags != [] ==> IsStrippedOf(r, Whitespace)
    ensures |r| <= |caption|
    decreases |tags|
  {
    if tags == [] then caption else StripHashtags(StripTag(caption, tags[0]), tags[1..])
  }

  /**
   * The loop of `extract_media`: starting from the caption (`""` when the post
   * has none), remove each hashtag in turn.
   */
  method StripCaptionHashtags(caption: Option<string>, hashtags: seq<string>) returns (mainCaption: string)
    ensures mainCaption == StripHashtags(caption.GetOr(""), hashtags)
    ensures hashtags == [] ==> mainCaption == caption.GetOr("")
    ensures hashtags != [] ==> IsStrippedOf(mainCaption, Whitespace)
    ensures |mainCaption| <= |caption.GetOr("")|
  {
    var captionText := if caption.Some? then caption.value else "";
    mainCaption := captionText;
    for i := 0 to |hashtags|
      invariant StripHashtags(mainCaption, hashtags[i..]) == StripHashtags(captionText, hashtags)
    {
      assert hashtags[i..][1..] == hashtags[i + 1..];
      mainCaption := StripTag(mainCaption, hashtags[i]);
    }
  }

  /**
   * A caption that is already stripped and holds none of the `#tag`s comes
   * through unchanged.
   */
  lemma {:induction false} StripHashtagsOfCleanCaption(caption: string, tags: seq<string>)
    requires IsStrippedOf(caption, Whitespace)
    requires forall k :: 0 <= k < |tags| ==> !Contains(caption, "#" + tags[k])
    ensures StripHashtags(caption, tags) == caption
    decreases |tags|
  {
    if tags != [] {
      assert StripTag(caption, tags[0]) == caption;
      StripHashtagsOfCleanCaption(caption, tags[1..]);
    }
  }

  /**
   * On a stripped caption one turn of the loop either changes nothing or
   * makes the caption strictly shorter, and it does the latter exactly when
   * the caption holds the `#tag`.
   */
  lemma StripTagOfStripped(caption: string, tag: string)
    requires IsStrippedOf(caption, Whitespace)
    ensures Contains(caption, "#" + tag) ==> |StripTag(caption, tag)| < |caption|
    ensures !Contains(caption, "#" + tag) ==> StripTag(caption, tag) == caption
  {
  }

  /**
   * A stripped caption that still holds some `#tag` of the list comes out of
   * the loop strictly shorter: either an earlier turn already shortened it,
   * or the caption reaches that tag's turn unchanged and loses the tag there.
   */
  lemma {:induction false} StripHashtagsShortensLeftoverTag(caption: string, tags: seq<string>, k: int)
    requires IsStrippedOf(caption, Whitespace)
    requires 0 <= k < |tags| && Contains(caption, "#" + tags[k])
    ensures |StripHashtags(caption, tags)| < |caption|
    decreases |tags|
  {
    var next := StripTag(caption, tags[0]);
    StripTagOfStripped(caption, tags[0]);
    if k > 0 && next == caption {
      assert tags[1..][k - 1] == tags[k];
      StripHashtagsShortensLeftoverTag(caption, tags[1..], k - 1);
    }
  }

  /**
   * Stripping again is a no-op exactly when the first pass left no `#tag` of
   * the list behind (with no tags, both passes return the caption unchanged).
   */
  lemma StripHashtagsIdempotent(caption: string, tags: seq<string>)
    ensures StripHashtags(StripHashtags(caption, tags), tags) == StripHashtags(caption, tags)
      <==> forall k :: 0 <= k < |tags| ==> !Contains(StripHashtags(caption, tags), "#" + tags[k])
  {
    var once := StripHashtags(caption, tags);
    if forall k :: 0 <= k < |tags| ==> !Contains(once, "#" + tags[k]) {
      if tags != [] {
        StripHashtagsOfCleanCaption(once, tags);
      }
    } else {
      var k :| 0 <= k < |tags| && Contains(once, "#" + tags[k]);
      StripHashtagsShortensLeftoverTag(once, tags, k);
    }
  }

  /** Without a `'#'` there is no `#tag` to remove. */
  lemma NoHashNoTag(s: string, tag: string)
    requires '#' !in s
    ensures !Contains(s, "#" + tag)
  {
    var p := "#" + tag;
    forall i | 0 <= i <= |s| - |p|
      ensures !OccursAt(s, p, i)
    {
      assert s[i..i + |p|][0] == s[i] != '#' == p[0];
    }
  }

  /** Removing a tag from text that is exactly `before + "#" + tag + after`, with no earlier occurrence. */
  lemma StripTagOnce(caption: string, tag: string, before: string, after: string)
    requires caption == before + ("#" + tag) + after
    requires forall i :: 0 <= i < |before| ==> !OccursAt(caption, "#" + tag, i)
    requires !Contains(after, "#" + tag)
    ensures StripTag(caption, tag) == Strip(before + after)
  {
    RemoveAllLeftmost(before, "#" + tag, after);
  }

  /** A one-tag list is one turn of the loop. */
  lemma StripHashtagsOne(caption: string, tag: string)
    ensures StripHashtags(caption, [tag]) == StripTag(caption, tag)
  {
    assert [tag][1..] == [];
  }

  /** A two-tag list is two turns of the loop, in list order. */
  lemma StripHashtagsTwo(caption: string, first: string, second: string)
    ensures StripHashtags(caption, [first, second]) == StripTag(StripTag(caption, first), second)
  {
    assert [first, second][1..] == [second];
    StripHashtagsOne(StripTag(caption, first), second);
  }

  /** `"##catcat"` (for the tag `cat`) loses the one `#cat` that starts at index 1. */
  lemma RemoveJoinsHalves(tag: string)
    requires |tag| > 0 && '#' !in tag
    ensures RemoveAll("#" + ("#" + tag) + tag, "#" + tag) == "#" + tag
  {
    var p := "#" + tag;
    var caption := "#" + p + tag;
    assert !OccursAt(caption, p, 0) by {
      assert caption[0..|p|][1] == '#' != p[1];
    }
    RemoveAllLeftmost("#", p, tag);
    NoHashNoTag(tag, tag);
  }

  /** The same step with the stripping that follows it. */
  lemma StripTagJoinsHalves(tag: string)
    requires |tag| > 0 && '#' !in tag && tag[|tag| - 1] !in Whitespace
    ensures StripTag("#" + ("#" + tag) + tag, tag) == "#" + tag
  {
    var p := "#" + tag;
    RemoveJoinsHalves(tag);
    assert IsStrippedOf(p, Whitespace) by {
      assert p[0] == '#' && '#' !in Whitespace;
      assert p[|p| - 1] == tag[|tag| - 1];
    }
  }

  /** A caption that is exactly one `#tag` becomes empty. */
  lemma StripTagWhole(tag: string)
    ensures StripTag("#" + tag, tag) == ""
  {
    var p := "#" + tag;
    assert p == "" + p + "";
    NoHashNoTag("", tag);
    StripTagOnce(p, tag, "", "");
  }

  /**
   * Removing every occurrence in one pass can join two halves into a new
   * occurrence: with the tag `cat`, `"##catcat"` becomes `"#cat"`, and a second
   * pass empties it, so stripping is not idempotent in general.
   */
  lemma RemovalCanLeaveATag(tag: string)
    requires |tag| > 0 && '#' !in tag && tag[|tag| - 1] !in Whitespace
    ensures StripHashtags("#" + ("#" + tag) + tag, [tag]) == "#" + tag
    ensures StripHashtags("#" + tag, [tag]) == ""
  {
    StripHashtagsOne("#" + ("#" + tag) + tag, tag);
    StripTagJoinsHalves(tag);
    StripHashtagsOne("#" + tag, tag);
    StripTagWhole(tag);
  }

  /** `"#" + short + rest` loses `#short` and keeps `rest`. */
  lemma StripTagPrefixOfLonger(short: string, rest: string)
    requires '#' !in rest && IsStrippedOf(rest, Whitespace)
    ensures StripTag("#" + short + rest, short) == rest
  {
    var caption := "#" + short + rest;
    assert caption == "" + ("#" + short) + rest;
    NoHashNoTag(rest, short);
    StripTagOnce(caption, short, "", rest);
    assert "" + rest == rest;
  }

  /** Text without `'#'` that is already stripped is left alone by any tag. */
  lemma StripTagWithoutHash(s: string, tag: string)
    requires '#' !in s && IsStrippedOf(s, Whitespace)
    ensures StripTag(s, tag) == s
  {
    NoHashNoTag(s, tag);
  }

  /** With the shorter tag first, `"#" + short + rest` keeps `rest`. */
  lemma ShortTagFirst(short: string, rest: string)
    requires '#' !in rest && IsStrippedOf(rest, Whitespace)
    ensures StripHashtags("#" + short + rest, [short, short + rest]) == rest
  {
    StripHashtagsTwo("#" + short + rest, short, short + rest);
    StripTagPrefixOfLonger(short, rest);
    StripTagWithoutHash(rest, short + rest);
  }

  /** With the longer tag first, `"#" + short + rest` disappears. */
  lemma LongTagFirst(short: string, rest: string)
    ensures StripHashtags("#" + short + rest, [short + rest, short]) == ""
  {
    var tag := short + rest;
    var caption := "#" + tag;
    assert "#" + short + rest == caption;
    StripHashtagsTwo(caption, tag, short);
    StripTagWhole(tag);
    StripTagWithoutHash("", short);
  }

  /**
   * The order of the hashtag list matters when one tag extends another: with
   * the tags `cat` and `category`, `"#category"` loses only `#cat` (leaving
   * `"egory"`) when `cat` comes first, and disappears when `category` does.
   */
  lemma TagOrderMatters(short: string, rest: string)
    requires |rest| > 0 && '#' !in rest && IsStrippedOf(rest, Whitespace)
    ensures StripHashtags("#" + short + rest, [short, short + rest]) == rest
    ensures StripHashtags("#" + short + rest, [short + rest, short]) == ""
  {
    ShortTagFirst(short, rest);
    LongTagFirst(short, rest);
  }

  /** The instance named above: `"#category"` with the tags `cat` and `category`. */
  lemma CatBeforeCategory(cat: string, egory: string)
    requires cat == "cat" && egory == "egory"
    ensures StripHashtags("#" + cat + egory, [cat, cat + egory]) == egory
    ensures StripHashtags("#" + cat + egory, [cat + egory, cat]) == ""
  {
    TagOrderMatters(cat, egory);
  }
}
