/**
 * The media list of `/api/extract`: one item per media node of the post, in
 * the post's own order, each an image or a video.
 */
module Media {
  import opened Wrappers

  /** One media node as the scraping library reports it. */
  datatype Node = Node(isVideo: bool, displayUrl: string, videoUrl: string)

  /**
   * A fetched post: its caption (None when it has none), its hashtags in the
   * library's order, its type name, the post itself seen as a node, and the
   * children the library lists for a carousel ("sidecar") post.
   */
  datatype Post = Post(
    caption: Option<string>,
    hashtags: seq<string>,
    typename: string,
    node: Node,
    sidecarNodes: seq<Node>)

  datatype MediaType = Image | Video

  /**
   * One entry of the response's `media` list: `type`, `url`, `index`, and
   * `video_url`, which is present (Some) only for a video.
   */
  datatype MediaItem = MediaItem(mediaType: MediaType, url: string, index: nat, videoUrl: Option<string>)

  /** The `type` field as it appears in the JSON response. */
  function TypeName(t: MediaType): string
  {
    match t
    case Image => "image"
    case Video => "video"
  }

  const SidecarTypename := "GraphSidecar"

  /** The nodes to list: the children of a sidecar post, otherwise the post alone. */
  function Nodes(post: Post): seq<Node>
  {
    if post.typename != SidecarTypename then [post.node] else post.sidecarNodes
  }

  /** Item `i` describes node `i`: same position, display URL, type (and its JSON text) and video URL. */
  predicate Describes(item: MediaItem, node: Node, i: nat)
  {
    && item.index == i
    && item.url == node.displayUrl
    && (item.mediaType == Video <==> node.isVideo)
    && TypeName(item.mediaType) == (if node.isVideo then "video" else "image")
    && (item.videoUrl.Some? <==> node.isVideo)
    && (node.isVideo ==> item.videoUrl == Some(node.videoUrl))
  }

  /** `media` has one item per node, in node order, each describing its node. */
  predicate DescribesNodes(media: seq<MediaItem>, nodes: seq<Node>)
  {
    |media| == |nodes| && forall i :: 0 <= i < |nodes| ==> Describes(media[i], nodes[i], i)
  }

  /**
   * The `enumerate` loop of `extract_media`: each item starts as an image with
   * the node's display URL, and becomes a video carrying `video_url` when the
   * node is a video.
   */
  method BuildMediaList(nodes: seq<Node>) returns (media: seq<MediaItem>)
    ensures DescribesNodes(media, nodes)
  {
    media := [];
    for i := 0 to |nodes|
      invariant DescribesNodes(media, nodes[..i])
    {
      var node := nodes[i];
      var item := MediaItem(Image, node.displayUrl, i, None);
      if node.isVideo {
        item := item.(mediaType := Video, videoUrl := Some(node.videoUrl));
      }
      media := media + [item];
    }
    assert nodes[..|nodes|] == nodes;
  }

  /** The description determines the list: there is exactly one list for given nodes. */
  lemma DescribesNodesUnique(a: seq<MediaItem>, b: seq<MediaItem>, nodes: seq<Node>)
    requires DescribesNodes(a, nodes) && DescribesNodes(b, nodes)
    ensures a == b
  {
    forall i | 0 <= i < |a|
      ensures a[i] == b[i]
    {
      assert Describes(a[i], nodes[i], i) && Describes(b[i], nodes[i], i);
      if nodes[i].isVideo {
        assert a[i].mediaType == b[i].mediaType == Video;
      } else {
        assert a[i].mediaType == b[i].mediaType == Image;
        assert a[i].videoUrl == b[i].videoUrl == None;
      }
    }
  }

  /** A post that is not a sidecar is listed as exactly one item, at index 0. */
  lemma SinglePostHasOneItem(post: Post, media: seq<MediaItem>)
    requires post.typename != SidecarTypename
    requires DescribesNodes(media, Nodes(post))
    ensures |media| == 1 && media[0].index == 0 && media[0].url == post.node.displayUrl
    ensures media[0].mediaType == (if post.node.isVideo then Video else Image)
  {
    assert Describes(media[0], post.node, 0);
  }
}
