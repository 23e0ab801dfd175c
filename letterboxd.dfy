/** The scrape path of the Letterboxd inline-query bot: turning the `div`
    nodes found under the `results` element of a Letterboxd search page into
    Telegram inline-query articles.

    The HTTP request, the HTML parse and the CSS-style selection are not
    modelled; `Search` receives them as one function `fetchResultDivs` from
    the request URL to the selected nodes (or the error that stopped it). */
module Letterboxd {
  import opened Wrappers

  // ---------------------------------------------------------------------------
  // Data model
  // ---------------------------------------------------------------------------

  /** An `img` element inside a result node: all the model needs is its `src`. */
  datatype Img = Img(src: Option<string>)

  /** A selected result `div`: its attributes, and its `img` descendants in
      document order. */
  datatype Node = Node(attrs: map<string, string>, imgs: seq<Img>)

  /** The error value of the `failure` crate, reduced to its message. */
  datatype Error = Error(message: string)

  /** The Telegram inline-query article the bot answers with (an
      `InlineQueryResultArticle` with an `InputTextMessageContent`). */
  datatype Article = Article(
    id: string,
    title: string,
    messageText: string,
    parseModeHtml: bool,
    disablePreview: bool,
    thumb: Option<string>)

  const LetterboxdUrl: string := "https://letterboxd.com"
  const SearchPath: string := "/search/"

  const TargetLinkAttr: string := "data-target-link"
  const FilmIdAttr: string := "data-film-id"
  const FilmNameAttr: string := "data-film-name"
  const ReleaseYearAttr: string := "data-film-release-year"

  /** The attributes an article needs, in the order they are looked up. */
  const RequiredAttrs: seq<string> := [TargetLinkAttr, FilmIdAttr, FilmNameAttr, ReleaseYearAttr]

  /** At most this many results are turned into articles. */
  const MaxResults: nat := 10

  const MissingPrefix: string := "missing "

  function Min(a: int, b: int): int {
    if a <= b then a else b
  }

  // ---------------------------------------------------------------------------
  // get_node_attr
  // ---------------------------------------------------------------------------

  /** The error reported when attribute `attr` is absent. */
  function MissingAttr(attr: string): (e: Error)
    ensures |e.message| == |MissingPrefix| + |attr|
    ensures e.message[..|MissingPrefix|] == MissingPrefix
    ensures e.message[|MissingPrefix|..] == attr
  {
    Error(MissingPrefix + attr)
  }

  /** The error message names the missing attribute: different attributes
      give different errors. */
  lemma MissingAttrNamesAttr(a: string, b: string)
    requires MissingAttr(a) == MissingAttr(b)
    ensures a == b
  {
  }

  /** Looks up an attribute of a node; an absent attribute is an error naming it. */
  function GetNodeAttr(node: Node, attr: string): (r: Result<string, Error>)
    ensures r.Ok? <==> attr in node.attrs
    ensures r.Ok? ==> r.value == node.attrs[attr]
    ensures r.Err? ==> r.error == MissingAttr(attr)
  {
    if attr in node.attrs then Ok(node.attrs[attr]) else Err(MissingAttr(attr))
  }

  // ---------------------------------------------------------------------------
  // node_to_article
  // ---------------------------------------------------------------------------

  /** The `src` of every `img` that has one, in document order (the
      `filter_map` over the node's `img` descendants). */
  function Posters(imgs: seq<Img>): (p: seq<string>)
    ensures |p| <= |imgs|
    ensures forall s :: s in p ==> Img(Some(s)) in imgs
    ensures forall i :: 0 <= i < |imgs| && imgs[i].src.Some? ==> imgs[i].src.value in p
  {
    if imgs == [] then []
    else match imgs[0].src
      case Some(s) => [s] + Posters(imgs[1..])
      case None => Posters(imgs[1..])
  }

  /** `imgs[i]` is the first image in document order that has a `src`. */
  ghost predicate FirstWithSrc(imgs: seq<Img>, i: int) {
    0 <= i < |imgs| && imgs[i].src.Some? && forall j :: 0 <= j < i ==> imgs[j].src.None?
  }

  /** The poster list is non-empty exactly when some image has a `src`, and
      then it starts with the `src` of the first such image. */
  lemma {:induction false} PostersStartWithFirstSrc(imgs: seq<Img>)
    ensures Posters(imgs) != [] <==> exists i :: 0 <= i < |imgs| && imgs[i].src.Some?
    ensures Posters(imgs) != [] ==>
      exists i :: FirstWithSrc(imgs, i) && imgs[i].src == Some(Posters(imgs)[0])
  {
    if imgs != [] {
      PostersStartWithFirstSrc(imgs[1..]);
      if imgs[0].src.Some? {
        assert FirstWithSrc(imgs, 0);
      } else {
        if exists i :: 0 <= i < |imgs| && imgs[i].src.Some? {
          var i :| 0 <= i < |imgs| && imgs[i].src.Some?;
          assert imgs[1..][i - 1].src.Some?;
        }
        if Posters(imgs) != [] {
          var i :| FirstWithSrc(imgs[1..], i) && imgs[1..][i].src == Some(Posters(imgs)[0]);
          assert FirstWithSrc(imgs, i + 1);
        }
      }
    }
  }

  /** The article thumbnail: the first poster, if there is one. */
  function Thumbnail(imgs: seq<Img>): (t: Option<string>)
    ensures t.Some? <==> exists i :: 0 <= i < |imgs| && imgs[i].src.Some?
    ensures t.Some? ==> exists i :: FirstWithSrc(imgs, i) && imgs[i].src == t
  {
    PostersStartWithFirstSrc(imgs);
    var posters := Posters(imgs);
    if |posters| > 0 then Some(posters[0]) else None
  }

  /** `RequiredAttrs[k]` is the first required attribute, in lookup order,
      that the node lacks. */
  ghost predicate FirstMissing(node: Node, k: int) {
    && 0 <= k < |RequiredAttrs|
    && RequiredAttrs[k] !in node.attrs
    && forall j :: 0 <= j < k ==> RequiredAttrs[j] in node.attrs
  }

  /** Builds the article for one result node. The four required attributes
      are looked up in order and the first one missing is the error. */
  function NodeToArticle(node: Node): (r: Result<Article, Error>)
    ensures r.Ok? <==>
      TargetLinkAttr in node.attrs && FilmIdAttr in node.attrs
      && FilmNameAttr in node.attrs && ReleaseYearAttr in node.attrs
    ensures r.Err? ==> exists k :: FirstMissing(node, k) && r.error == MissingAttr(RequiredAttrs[k])
    ensures r.Ok? ==>
      && r.value.id == node.attrs[FilmIdAttr]
      && r.value.title == node.attrs[FilmNameAttr] + " (" + node.attrs[ReleaseYearAttr] + ")"
      && r.value.messageText == LetterboxdUrl + node.attrs[TargetLinkAttr]
      && r.value.parseModeHtml
      && !r.value.disablePreview
    ensures r.Ok? ==> (r.value.thumb.Some? <==> exists i :: 0 <= i < |node.imgs| && node.imgs[i].src.Some?)
    ensures r.Ok? && r.value.thumb.Some? ==>
      exists i :: FirstWithSrc(node.imgs, i) && node.imgs[i].src == r.value.thumb
  {
    assert TargetLinkAttr !in node.attrs ==> FirstMissing(node, 0);
    assert TargetLinkAttr in node.attrs && FilmIdAttr !in node.attrs ==> FirstMissing(node, 1);
    assert TargetLinkAttr in node.attrs && FilmIdAttr in node.attrs && FilmNameAttr !in node.attrs
      ==> FirstMissing(node, 2);
    assert (TargetLinkAttr in node.attrs && FilmIdAttr in node.attrs && FilmNameAttr in node.attrs
      && ReleaseYearAttr !in node.attrs) ==> FirstMissing(node, 3);
    var targetLink :- GetNodeAttr(node, TargetLinkAttr);
    var filmId :- GetNodeAttr(node, FilmIdAttr);
    var name :- GetNodeAttr(node, FilmNameAttr);
    var year :- GetNodeAttr(node, ReleaseYearAttr);
    Ok(Article(
      id := filmId,
      title := name + " (" + year + ")",
      messageText := LetterboxdUrl + targetLink,
      parseModeHtml := true,
      disablePreview := false,
      thumb := Thumbnail(node.imgs)))
  }

  /** Two nodes agree on whether, and with what value, they carry `attr`. */
  ghost predicate SameAttr(n1: Node, n2: Node, attr: string) {
    (attr in n1.attrs <==> attr in n2.attrs) && (attr in n1.attrs ==> n1.attrs[attr] == n2.attrs[attr])
  }

  /** Only the four required attributes and the images decide the article:
      every other attribute of the node is ignored. */
  lemma NodeToArticleReadsOnlyRequired(n1: Node, n2: Node)
    requires forall k :: 0 <= k < |RequiredAttrs| ==> SameAttr(n1, n2, RequiredAttrs[k])
    requires n1.imgs == n2.imgs
    ensures NodeToArticle(n1) == NodeToArticle(n2)
  {
    assert SameAttr(n1, n2, RequiredAttrs[0]);
    assert SameAttr(n1, n2, RequiredAttrs[1]);
    assert SameAttr(n1, n2, RequiredAttrs[2]);
    assert SameAttr(n1, n2, RequiredAttrs[3]);
  }

  /** The message text of an article links back to the film's page: it is
      the Letterboxd domain followed by the node's relative link, so the link
      can be read back from it. */
  lemma ArticleLinkRoundTrip(node: Node, a: Article)
    requires NodeToArticle(node) == Ok(a)
    ensures a.messageText[..|LetterboxdUrl|] == LetterboxdUrl
    ensures a.messageText[|LetterboxdUrl|..] == node.attrs[TargetLinkAttr]
  {
  }

  // ---------------------------------------------------------------------------
  // The pipeline at the end of search
  // ---------------------------------------------------------------------------

  predicate HasFilmName(node: Node) {
    FilmNameAttr in node.attrs
  }

  /** The nodes that carry `data-film-name`, in document order. */
  function FilmNodes(nodes: seq<Node>): (q: seq<Node>)
    ensures |q| <= |nodes|
    ensures forall n :: n in q ==> n in nodes && HasFilmName(n)
  {
    if nodes == [] then []
    else if HasFilmName(nodes[0]) then [nodes[0]] + FilmNodes(nodes[1..])
    else FilmNodes(nodes[1..])
  }

  lemma {:induction false} FilmNodesAppend(a: seq<Node>, b: seq<Node>)
    ensures FilmNodes(a + b) == FilmNodes(a) + FilmNodes(b)
  {
    if a == [] {
      assert a + b == b;
    } else {
      assert (a + b)[1..] == a[1..] + b;
      FilmNodesAppend(a[1..], b);
    }
  }

  /** A node that carries `data-film-name` lands at the position given by
      the number of such nodes before it. */
  lemma FilmNodeRank(nodes: seq<Node>, i: int)
    requires 0 <= i < |nodes| && HasFilmName(nodes[i])
    ensures |FilmNodes(nodes[..i])| < |FilmNodes(nodes)|
    ensures FilmNodes(nodes)[|FilmNodes(nodes[..i])|] == nodes[i]
  {
    var rest := [nodes[i]] + nodes[i + 1..];
    assert nodes == nodes[..i] + rest;
    FilmNodesAppend(nodes[..i], rest);
    assert rest[1..] == nodes[i + 1..];
  }

  /** Filtering keeps relative order: of two qualifying nodes, the earlier
      one comes first in the filtered sequence. */
  lemma FilmNodeRankOrdered(nodes: seq<Node>, i: int, j: int)
    requires 0 <= i < j <= |nodes| && HasFilmName(nodes[i])
    ensures |FilmNodes(nodes[..i])| < |FilmNodes(nodes[..j])|
  {
    assert nodes[..j][..i] == nodes[..i];
    FilmNodeRank(nodes[..j], i);
  }

  /** Every filtered node is some qualifying input node, at that node's rank. */
  lemma {:induction false} FilmNodeOrigin(nodes: seq<Node>, k: int)
    requires 0 <= k < |FilmNodes(nodes)|
    ensures exists i :: (0 <= i < |nodes| && HasFilmName(nodes[i])
      && |FilmNodes(nodes[..i])| == k && FilmNodes(nodes)[k] == nodes[i])
  {
    if HasFilmName(nodes[0]) && k == 0 {
      assert nodes[..0] == [];
      assert FilmNodes(nodes)[0] == nodes[0];
    } else {
      var tail := nodes[1..];
      var k' := if HasFilmName(nodes[0]) then k - 1 else k;
      assert FilmNodes(nodes)[k] == FilmNodes(tail)[k'];
      FilmNodeOrigin(tail, k');
      var i :| 0 <= i < |tail| && HasFilmName(tail[i])
        && |FilmNodes(tail[..i])| == k' && FilmNodes(tail)[k'] == tail[i];
      assert |FilmNodes(nodes[..i + 1])| == k by {
        assert nodes[..i + 1][1..] == tail[..i];
      }
    }
  }

  /** `.map(node_to_article).collect()` into a `Result`: every node must
      map to an article; the first node that fails decides the error. */
  function CollectArticles(nodes: seq<Node>): (r: Result<seq<Article>, Error>)
    ensures r.Ok? <==> forall k :: 0 <= k < |nodes| ==> NodeToArticle(nodes[k]).Ok?
    ensures r.Ok? ==> |r.value| == |nodes|
    ensures r.Ok? ==> forall k :: 0 <= k < |nodes| ==> NodeToArticle(nodes[k]) == Ok(r.value[k])
    ensures r.Err? ==> exists k :: (0 <= k < |nodes| && NodeToArticle(nodes[k]) == Err(r.error)
      && forall j :: 0 <= j < k ==> NodeToArticle(nodes[j]).Ok?)
  {
    if nodes == [] then Ok([])
    else
      var article :- NodeToArticle(nodes[0]);
      var rest :- CollectArticles(nodes[1..]);
      Ok([article] + rest)
  }

  /** The filter / take(10) / map / collect pipeline over the selected nodes. */
  function ArticlesFromResults(nodes: seq<Node>): (r: Result<seq<Article>, Error>)
    ensures r.Ok? ==> |r.value| == Min(MaxResults, |FilmNodes(nodes)|) <= MaxResults
    ensures r.Ok? ==> forall k :: 0 <= k < |r.value| ==> NodeToArticle(FilmNodes(nodes)[k]) == Ok(r.value[k])
    ensures r.Err? ==> exists k :: (0 <= k < Min(MaxResults, |FilmNodes(nodes)|)
      && NodeToArticle(FilmNodes(nodes)[k]) == Err(r.error)
      && forall j :: 0 <= j < k ==> NodeToArticle(FilmNodes(nodes)[j]).Ok?)
  {
    var films := FilmNodes(nodes);
    var top := films[..Min(MaxResults, |films|)];
    assert forall k :: 0 <= k < |top| ==> top[k] == films[k];
    CollectArticles(top)
  }

  /** Article number `rank` comes from the qualifying node with `rank`
      qualifying nodes before it; if that node cannot be mapped, the whole
      search fails. */
  lemma ArticleOfNode(nodes: seq<Node>, i: int)
    requires 0 <= i < |nodes| && HasFilmName(nodes[i])
    requires |FilmNodes(nodes[..i])| < MaxResults
    ensures var rank := |FilmNodes(nodes[..i])|;
      ArticlesFromResults(nodes).Ok? ==>
        rank < |ArticlesFromResults(nodes).value|
        && NodeToArticle(nodes[i]) == Ok(ArticlesFromResults(nodes).value[rank])
    ensures NodeToArticle(nodes[i]).Err? ==> ArticlesFromResults(nodes).Err?
  {
    FilmNodeRank(nodes, i);
  }

  /** All or nothing: when the `k`-th of the first ten qualifying nodes is
      the first one that cannot be mapped, the whole pipeline fails with
      that node's error and yields no articles at all. */
  lemma FirstFailureDecides(nodes: seq<Node>, k: int)
    requires 0 <= k < Min(MaxResults, |FilmNodes(nodes)|)
    requires NodeToArticle(FilmNodes(nodes)[k]).Err?
    requires forall j :: 0 <= j < k ==> NodeToArticle(FilmNodes(nodes)[j]).Ok?
    ensures ArticlesFromResults(nodes) == Err(NodeToArticle(FilmNodes(nodes)[k]).error)
  {
  }

  /** Nodes without `data-film-name` never affect the outcome. */
  lemma NodeWithoutFilmNameIgnored(before: seq<Node>, n: Node, after: seq<Node>)
    requires !HasFilmName(n)
    ensures ArticlesFromResults(before + [n] + after) == ArticlesFromResults(before + after)
  {
    FilmNodesAppend(before + [n], after);
    FilmNodesAppend(before, [n]);
    FilmNodesAppend(before, after);
    assert [n][1..] == [];
    assert FilmNodes([n]) == [];
    assert FilmNodes(before + [n] + after) == FilmNodes(before + after);
  }

  /** Once ten qualifying nodes have been seen, nothing after them is
      inspected: appending any nodes leaves the outcome unchanged. */
  lemma LaterNodesNeverInspected(nodes: seq<Node>, later: seq<Node>)
    requires |FilmNodes(nodes)| >= MaxResults
    ensures ArticlesFromResults(nodes + later) == ArticlesFromResults(nodes)
  {
    FilmNodesAppend(nodes, later);
    var films := FilmNodes(nodes);
    assert (films + FilmNodes(later))[..MaxResults] == films[..MaxResults];
  }

  // ---------------------------------------------------------------------------
  // search
  // ---------------------------------------------------------------------------

  /** The search page URL: `https://letterboxd.com/search/<encoded query>/`. */
  function SearchUrl(query: string, encode: string -> string): (url: string)
    ensures |url| == |LetterboxdUrl + SearchPath| + |encode(query)| + 1
    ensures url[..|LetterboxdUrl + SearchPath|] == LetterboxdUrl + SearchPath
    ensures url[|LetterboxdUrl + SearchPath|..|url| - 1] == encode(query)
    ensures url[|url| - 1] == '/'
  {
    LetterboxdUrl + SearchPath + encode(query) + "/"
  }

  /** Different encoded queries are requested at different URLs. */
  lemma SearchUrlDeterminesEncoding(q1: string, q2: string, encode: string -> string)
    requires SearchUrl(q1, encode) == SearchUrl(q2, encode)
    ensures encode(q1) == encode(q2)
  {
  }

  /** `search`: fetch the search page for `query`, then run the pipeline
      over its result nodes. `encode` stands for URL percent-encoding and
      `fetchResultDivs` for the HTTPS request, the HTML parse and the
      selection of the `div`s under `.results`, in document order. */
  function Search(query: string, encode: string -> string,
                  fetchResultDivs: string -> Result<seq<Node>, Error>): (r: Result<seq<Article>, Error>)
    ensures fetchResultDivs(SearchUrl(query, encode)).Err? ==>
      r == Err(fetchResultDivs(SearchUrl(query, encode)).error)
    ensures r.Ok? ==> fetchResultDivs(SearchUrl(query, encode)).Ok? && |r.value| <= MaxResults
    ensures r.Ok? ==>
      var films := FilmNodes(fetchResultDivs(SearchUrl(query, encode)).value);
      |r.value| == Min(MaxResults, |films|)
      && forall k :: 0 <= k < |r.value| ==> NodeToArticle(films[k]) == Ok(r.value[k])
    ensures fetchResultDivs(SearchUrl(query, encode)).Ok? ==>
      r == ArticlesFromResults(fetchResultDivs(SearchUrl(query, encode)).value)
  {
    var nodes :- fetchResultDivs(SearchUrl(query, encode));
    ArticlesFromResults(nodes)
  }
}
