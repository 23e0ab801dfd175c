# Letterboxd inline-query search: the scrape-result mapping

This project models, in Dafny, the search path of a Telegram inline bot that looks
films up on Letterboxd (`src/letterboxd.rs`). A user types a film title and the bot
fetches the Letterboxd search page `https://letterboxd.com/search/<encoded title>/`.
It then takes the `div` nodes under the `results` element and answers with up to ten
inline-query articles.

The model covers everything that happens after the page has been fetched and parsed:

- `GetNodeAttr` (`get_node_attr`): an attribute lookup that fails with `missing <attr>`.
- `NodeToArticle` (`node_to_article`): it needs `data-target-link`, `data-film-id`,
  `data-film-name` and `data-film-release-year`, looked up in that order.
  It builds the article id, the title `name (year)`, and the message text
  `https://letterboxd.com` + link (HTML parse mode, page preview on).
  The thumbnail is the first `src` among the node's `img` descendants.
- The pipeline at the end of `search`: keep the nodes that carry `data-film-name`,
  take at most ten in document order, map each through `node_to_article`, and
  collect into a `Result`. The collect is all or nothing: the first node that fails
  makes the whole search fail with its error.
- `search` itself: it builds the request URL and runs the pipeline on whatever the
  fetch returns. The fetch is passed in as a function.

A result node is a value: a map from attribute names to values, plus the sequence
of its `img` descendants, each with an optional `src`. The Telegram article is a
plain datatype. The source is written as iterator pipelines and `?` early returns,
so the model is datatypes, functions and lemmas. `?` becomes Dafny's `:-`.

### Records with a missing attribute

A record that lacks a required attribute is not skipped: `.map(node_to_article).collect()`
into `Result<Vec<_>, _>` (src/letterboxd.rs:29-30) turns the first such record into an
error for the whole search (`CollectArticles`, `FirstFailureDecides`). Only records
without `data-film-name` are dropped without error, because the filter at
src/letterboxd.rs:27 removes them before mapping (`NodeWithoutFilmNameIgnored`).

## Model

| member | source | states |
|---|---|---|
| `Letterboxd.GetNodeAttr` | src/letterboxd.rs:57-60 | succeeds exactly when the attribute is present, then with its value; otherwise fails with the "missing" error for that attribute |
| `Letterboxd.MissingAttr` | src/letterboxd.rs:59 | the error message is `missing ` followed by the attribute name, so the name can be read back from it |
| `Letterboxd.MissingAttrNamesAttr` | src/letterboxd.rs:59 | two attributes that give the same error are the same attribute |
| `Letterboxd.Posters` | src/letterboxd.rs:47-50 | the poster list has no more entries than there are images, every entry is the `src` of one of the node's images, and every image `src` appears in it |
| `Letterboxd.PostersStartWithFirstSrc` | src/letterboxd.rs:47-51 | the poster list is non-empty if and only if some image has a `src`; it then starts with the `src` of the first such image in document order, skipping images without one |
| `Letterboxd.Thumbnail` | src/letterboxd.rs:47-53 | a thumbnail is set if and only if some image has a `src`; when set it is the `src` of the first such image |
| `Letterboxd.NodeToArticle` | src/letterboxd.rs:33-55 | succeeds if and only if all four required attributes are present; on failure the error names the first missing one in lookup order (link, id, name, year); on success the id is `data-film-id`, the title is name + " (" + year + ")", the message text is the Letterboxd domain + link, HTML parse mode, preview not disabled, and the thumbnail is the first image `src` |
| `Letterboxd.NodeToArticleReadsOnlyRequired` | src/letterboxd.rs:34-37 | two nodes that agree on the four required attributes and on their images give the same outcome: other attributes are ignored |
| `Letterboxd.ArticleLinkRoundTrip` | src/letterboxd.rs:39-43 | the message text of an article starts with `https://letterboxd.com`, and the node's relative link is what follows |
| `Letterboxd.FilmNodes` | src/letterboxd.rs:27 | the filtered nodes are input nodes that carry `data-film-name`, and there are no more of them than input nodes |
| `Letterboxd.FilmNodesAppend` | src/letterboxd.rs:27 | filtering a concatenation is the concatenation of the filtered parts |
| `Letterboxd.FilmNodeRank` | src/letterboxd.rs:27 | a node carrying `data-film-name` sits in the filtered sequence at the position equal to the number of such nodes before it |
| `Letterboxd.FilmNodeRankOrdered` | src/letterboxd.rs:27 | of two qualifying nodes, the earlier one in the document gets the earlier position: the filter keeps relative order |
| `Letterboxd.FilmNodeOrigin` | src/letterboxd.rs:27 | every filtered node is a qualifying input node, at the position given by its rank, so the filter neither invents nor reorders nodes |
| `Letterboxd.CollectArticles` | src/letterboxd.rs:29-30 | succeeds if and only if every node maps to an article; the k-th article is then the k-th node's article; on failure the error is that of the first node that fails |
| `Letterboxd.ArticlesFromResults` | src/letterboxd.rs:25-30 | on success the number of articles is min(10, number of nodes with `data-film-name`), never more than 10, and article k is the mapping of the k-th such node; on failure the error is that of the first failing node among the first ten |
| `Letterboxd.ArticleOfNode` | src/letterboxd.rs:27-30 | a qualifying node with fewer than ten qualifying nodes before it yields the article at that position; if it cannot be mapped, the whole search fails |
| `Letterboxd.FirstFailureDecides` | src/letterboxd.rs:28-30 | when the k-th of the first ten qualifying nodes is the first that fails, the search result is exactly that node's error and no partial list |
| `Letterboxd.NodeWithoutFilmNameIgnored` | src/letterboxd.rs:27 | inserting a node without `data-film-name` anywhere does not change the outcome |
| `Letterboxd.LaterNodesNeverInspected` | src/letterboxd.rs:28 | once ten qualifying nodes have been seen, appending any further nodes does not change the outcome |
| `Letterboxd.SearchUrl` | src/letterboxd.rs:16 | the URL is `https://letterboxd.com/search/`, then the encoded query, then `/` |
| `Letterboxd.SearchUrlDeterminesEncoding` | src/letterboxd.rs:16 | two queries requested at the same URL have the same encoding |
| `Letterboxd.Search` | src/letterboxd.rs:12-31 | a failed fetch of the search URL is returned unchanged as the error; after a successful fetch the outcome is exactly the pipeline's: at most 10 articles, as many as min(10, qualifying nodes), article k coming from the k-th qualifying node, or the error of the first failing node among the first ten |

## Left out

- The HTTPS client, the GET request and the body concatenation (src/letterboxd.rs:13-21) are network I/O. `Search` takes their combined outcome, with the HTML parse, as the parameter `fetchResultDivs`.
- The HTML parse (`Document::from_read`) and the selection of the `div` nodes under `.results` (src/letterboxd.rs:23-26) belong to the `select` library. `fetchResultDivs` returns the selected nodes in document order.
- `urlencoding::encode` is a library call. It is the uninterpreted parameter `encode`.
- The `.parse::<hyper::Uri>().unwrap()` at src/letterboxd.rs:17-18 would panic on a URL that does not parse. The model assumes it parses.
- The `failure::Error` values keep only their message. Errors from the fetch and parse are opaque values returned unchanged.
- The Telegram `InlineQueryResult` and `InlineQueryResultArticle` types are replaced by the `Article` datatype. The wrapping `From::from(article)` (src/letterboxd.rs:54) adds no content.
- All of `src/main.rs` is left out: the async update loop, the 5-second timeout race, replies, logging and environment loading. It is concurrency, timing and I/O.
- `src/main.rs` calls `LetterboxdApi::new` and a `search` method of an API type. Neither is defined in `src/letterboxd.rs`, so no signed-API lookup or request signing is modelled.
- The source keeps article ids from repeating only if Letterboxd does. No contract promises unique ids.
