# discourse-scraper, modelled in Dafny

discourse-scraper turns a Discourse forum thread into one Obsidian-ready
markdown document. It takes the thread's posts and writes YAML frontmatter,
the lead post (post #1) and its external links. The comments follow as
nested blockquotes. This project models the pure core of that pipeline as
immutable datatypes and functions, and proves what each step produces:

- `Types`: the forum records (`Post`, `Link`, `TopicData`) and the
  conversation tree.
- `JsText`: JavaScript strings as sequences of UTF-16 code units, with
  `trim`, `split`, `join`, `repeat` and number formatting.
- `ConversationTree`: `buildConversationTree`, which gives a post-number
  lookup, the replies under each number and the sorted top-level comments.
- `Galleries`: `processImageGalleries`, the line state machine that joins
  runs of sized images into gallery lines.
- `ExternalLinks`: `renderExternalLinks`, the block of non-internal,
  non-image links.
- `Frontmatter`: `escapeYamlString` and `generateYamlFrontmatter`.
- `PostTree`: `renderPostTree`, the comments quoted one level deeper per
  reply. The levels are bounded by fuel, and the lemmas say when that
  fuel suffices and when no fuel does.
- `Document`: `generateMarkdownContent`, which assembles the whole document
  or fails without a post #1.
- `ImageRules`: the filters and replacements of the three custom Turndown
  rules, plus `isAvatarUrl`.
- `Emoji`: `convertEmojiImage`, over an abstract name-to-emoji table.
- `DiscourseUrl`: the path scan of `parseDiscourseUrl`.
- `OutputPath`: the slug cleaning and file name of `getSafeOutputPath`.
- `FetchPlan`: the id bookkeeping and request chunking of `fetchAllPosts`.

The code outside the model appears as parameters:

- `Services.convert` stands for DOMPurify's `sanitize` followed by Turndown.
- `Services.formatDate` stands for `formatDateISO`.
- `created` is today's date.
- `lookup` is node-emoji's `get`.
- `parseInt` is a partial parse, where `None` stands for NaN.
- `fetch` is one HTTP request for a chunk of post ids.

## Model

| member | source | states |
|---|---|---|
| ConversationTree.BuildConversationTree | src/index.ts:311-334 | `postMap` has exactly the post numbers present. `childrenMap` has one key per truthy reply target, including targets no post carries. Every list under a key, and `topLevelPosts`, is sorted by post number and is a permutation of the posts routed there |
| ConversationTree.PostMap | src/index.ts:312 | Keys are the post numbers present; the entry for `n` is the last post numbered `n`, later posts overwriting earlier ones as `new Map(entries)` does |
| ConversationTree.PlacedOnce | src/index.ts:316-325 | Each occurrence of a post goes where its route says. A truthy reply target puts it under that number and nowhere else. Otherwise a number other than 1 makes it top-level. Post #1 without a reply target goes to neither |
| ConversationTree.RoutedTo | src/index.ts:316-325 | The posts routed to one place keep their input multiplicity and nothing else enters |
| ConversationTree.SortByNumber | src/index.ts:328-331 | The comparator sort gives an ascending permutation of its input |
| ConversationTree.InsertSorted | src/index.ts:328-331 | Inserting into a sorted list keeps it sorted |
| ConversationTree.Insert | src/index.ts:328-331 | Insertion adds exactly the one post to the multiset |
| ConversationTree.SortByNumberStable | src/index.ts:328-331 | The sort is stable: posts sharing a number keep their input order, as `Array.prototype.sort` guarantees |
| ConversationTree.InsertStable | src/index.ts:328-331 | Insertion after equal numbers keeps the arrival order of posts sharing a number |
| Galleries.ScanIsGalleries | src/index.ts:270-306 | The loop with its `flushImages` state computes exactly the reference grouping `Galleries`. Each maximal run of image lines becomes its trimmed lines joined by single spaces, and every other line is kept as it is |
| Galleries.ProcessImageGalleriesSpec | src/index.ts:270-306 | The output's lines are the grouping of the input's lines: never more lines, and the non-image lines unchanged and in order |
| Galleries.ProcessImageGalleriesIdempotent | src/index.ts:270-306 | Running the pass on its own output changes nothing |
| Galleries.GalleriesIdempotent | src/index.ts:275-303 | Grouping the grouped lines again gives the same lines |
| Galleries.GalleriesKeepText | src/index.ts:296-299 | The lines that are not image lines come out unchanged, in order, and no others |
| Galleries.GalleriesNoLonger | src/index.ts:275-303 | The grouping never has more lines than its input, and has at least one when the input has one |
| Galleries.GalleriesNoNewLine | src/index.ts:275-287 | A gallery line never contains a newline when the input lines contain none |
| Galleries.JoinedImagesAreSizedImage | src/index.ts:283-293 | Sized images joined by spaces still form one sized image, so the gallery line is again a line the pass collects |
| Galleries.GroupLine | src/index.ts:275-287 | A run of one or more image lines flushes to a single gallery line that is itself an image line |
| Galleries.SizedImageIsImageLine | src/index.ts:290-293 | A sized image is its own trim and so counts as an image line |
| Galleries.GalleriesSplitRun | src/index.ts:290-303 | The grouping is the flushed leading run followed by the grouping of the rest |
| Galleries.ScanSpec | src/index.ts:288-303 | From any state, the loop's output is the lines so far, then the flushed run extended by the leading image lines, then the grouping of the rest |
| ExternalLinks.RenderExternalLinks | src/index.ts:339-370 | Empty exactly when `link_counts` is missing or no link is both non-internal and not an image URL. Otherwise it is a newline, `**External Links:**`, a newline and the `- [title](url)` lines of the listed links, in input order, joined by newlines |
| ExternalLinks.ListedLinks | src/index.ts:345-358 | The links kept are exactly the non-internal, non-image links of the input |
| ExternalLinks.FilterComposition | src/index.ts:345-358 | Filtering out internal links and then image URLs gives one bullet per listed link, in order |
| ExternalLinks.NonInternalEmpty | src/index.ts:347-349 | When every link is internal, nothing is listed |
| ExternalLinks.BlockLayout | src/index.ts:362-366 | Joining `""`, the heading and the bullets gives the block text |
| ExternalLinks.LowerAll | src/index.ts:356 | The `i` flag folds only ASCII letters, position by position |
| Frontmatter.GenerateYamlFrontmatter | src/index.ts:414-443 | There are 10 + max(1, number of tags) lines, opening and closing with `---`. The lines are title, source, author, published, created, description and tags, in that order. Title, description and each tag decode back to their values, and an empty tag list gives the default tag |
| Frontmatter.HeaderLines | src/index.ts:422-432 | The nine lines before the tags, each with its key and value |
| Frontmatter.TagLines | src/index.ts:434-438 | One quoted, escaped line per tag in input order, or the single default-tag line |
| Frontmatter.DescriptionLine | src/index.ts:429-431 | The description line quotes the escaped description with `...` appended inside the quotes |
| Frontmatter.QuotedLine | src/index.ts:423 | A `key "escaped"` line whose quoted text decodes back to the value |
| Frontmatter.DescriptionShape | src/index.ts:430 | The description has at most 150 units. Its only whitespace is single spaces. It keeps the visible units of the markdown cut at 150, because the cut happens before the collapse |
| Frontmatter.CollapseWhitespace | src/index.ts:430 | `/\s+/g` to one space: never longer, and no two whitespace units in a row, each one a space |
| Frontmatter.CollapseKeepsVisible | src/index.ts:430 | Collapsing keeps every non-whitespace unit, in order |
| Frontmatter.CollapseIdempotent | src/index.ts:430 | Collapsing twice is collapsing once |
| Frontmatter.EscapeYamlString | src/index.ts:128-130 | Never shorter, never starts with a quote, and every quote in the result follows a backslash |
| Frontmatter.UnescapeEscape | src/index.ts:128-130 | Dropping the backslash before each quote inverts the escaping |
| Frontmatter.EscapeInjective | src/index.ts:128-130 | Different texts never escape to the same text |
| Frontmatter.EscapeWithoutQuotes | src/index.ts:128-130 | A text without quotes is left unchanged |
| Frontmatter.UnescapeAppend | src/index.ts:128-130 | Unescaping an escaped text followed by a text that does not start with a quote gives back the original, then the unescaped rest |
| PostTree.PostLinesReadBack | src/index.ts:462-477 | Taking the prefix off each body line and joining with newlines gives back the post's gallery-grouped markdown. The link lines are written exactly when the links block is non-empty, and they read back to it |
| PostTree.PostLinesQuoted | src/index.ts:458-477 | Every line a post writes at depth d begins with `"> "` repeated d times, except the closing empty line |
| PostTree.QuotedSplitReadBack | src/index.ts:469-474 | Splitting at newlines, prefixing, unprefixing and joining gives back the text |
| PostTree.QuotedSplit | src/index.ts:469-474 | One prefixed line per piece of the split, in order |
| PostTree.OwnThenReplies | src/index.ts:462-482 | A post's lines followed by replies quoted deeper start with its header and are quoted at its depth |
| PostTree.RenderPostShape | src/index.ts:457-483 | A finished rendering starts with the post's header, and every line is empty or quoted at least at the post's depth |
| PostTree.RenderPostsShape | src/index.ts:481-485 | A list's renderings start with the first post's header and are quoted at least at the list's depth |
| PostTree.RenderPostUnfold | src/index.ts:457-483 | A finished rendering is the post's own lines followed by its replies' renderings one level deeper |
| PostTree.RenderPostStep | src/index.ts:479-482 | A post finishes exactly when its replies finish one level deeper |
| PostTree.RenderPostFuel | src/index.ts:457-483 | More fuel never changes a rendering that finished, so the bound does not change any output |
| PostTree.RenderPostsFuel | src/index.ts:481-485 | The same for a list of posts |
| PostTree.RenderPostsStuck | src/index.ts:481 | If one post of a list does not finish, the list does not finish |
| PostTree.SelfNestedNeverEnds | src/index.ts:479-482 | A post listed among the replies to its own number recurses forever: no fuel finishes it |
| PostTree.StuckBelow | src/index.ts:479-482 | A post with a reply that does not finish does not finish |
| PostTree.SelfReplyNested | src/index.ts:316-321 | In a built tree, a post replying to its own number is listed under itself |
| PostTree.TreeRenders | src/index.ts:448-487 | With unique post numbers, the tree built from n posts renders completely within n levels, so the recursion ends |
| PostTree.ChainRenders | src/index.ts:479-482 | The last post of a chain of distinct replies renders when the fuel covers the posts not yet on the chain |
| PostTree.TopLevelRender | src/index.ts:485 | Top-level posts of unique-numbered posts all render |
| PostTree.TreeRepliesListed | src/index.ts:317-321 | A built tree lists under each number only replies to that number |
| PostTree.ChildIsReply | src/index.ts:317-321 | A post under number n is a post of the input whose reply target is n |
| PostTree.ExtendChain | src/index.ts:317-321 | With unique numbers, a reply to the last post of a chain is not yet on it |
| PostTree.DistinctFits | src/index.ts:448-487 | A list of distinct posts drawn from the input is no longer than the input |
| PostTree.PrefixExtends | src/index.ts:458 | A deeper quote prefix begins with every shallower one |
| Document.GenerateMarkdownContent | src/index.ts:520-564 | Fails with `MissingOriginalPost` exactly when no post is numbered 1. Fails with `CommentsDoNotEnd` exactly when post 1 exists and the comment recursion does not end, which never happens with unique post numbers. Otherwise its value is the joined sections for the last post numbered 1 |
| Document.DocumentLayout | src/index.ts:549-563 | The document starts with `---` and a newline. Then come the frontmatter, a blank line, the markdown, the links, the rule, `## Comments` and the comment lines, separated exactly as `join("\n")` puts them |
| Document.JoinedSections | src/index.ts:549-563 | The same layout for any frontmatter of more than one line that opens with `---` |
| Document.CommentsEnd | src/index.ts:545 | With unique post numbers the comment rendering finishes |
| Document.LeadPostFound | src/index.ts:531 | `postMap.get(1)` is the last post numbered 1 |
| Document.LeadPostPresent | src/index.ts:531-534 | `postMap` has an entry for 1 exactly when some post is numbered 1 |
| ImageRules.CustomRule | src/index.ts:191-227 | Each rule claims an element exactly when its filter holds: onebox ASIDE, lightbox A, any IMG |
| ImageRules.FiltersDisjoint | src/index.ts:191-227 | No element is claimed by two rules, so rule precedence never matters |
| ImageRules.LightboxReplacement | src/index.ts:208-222 | Empty exactly for an avatar link or a link inside a onebox; otherwise `![\|320](href)` |
| ImageRules.OneboxReplacement | src/index.ts:199-202 | A onebox embed is replaced by nothing |
| ImageRules.RegularImageReplacement | src/index.ts:228-260 | The checks run in the source's order: lightbox parent, onebox, emoji, avatar, small size. Each outcome is written exactly: nothing, the emoji conversion, `![alt](src)` or `![\|320](src)` |
| ImageRules.RegularImageShape | src/index.ts:228-260 | Every image is dropped, converted to emoji text, or written as a markdown image of its source. A sized one with a single-line source is a gallery line |
| ImageRules.EmojiBeforeAvatar | src/index.ts:244-251 | An avatar URL that mentions "emoji" is converted, not dropped |
| ImageRules.EmojiDirMentionsEmoji | src/index.ts:244 | The test for `/emoji/` is implied by the test for `emoji` |
| ImageRules.SizedImageRefIsImageLine | src/index.ts:221-293 | A sized lightbox image is a line the gallery pass collects |
| ImageRules.AvatarUrlExtends | src/index.ts:98-100 | A URL stays an avatar URL whatever is put around it |
| ImageRules.ShortUrlNotAvatar | src/index.ts:98-100 | A text shorter than both markers, the empty text included, is not an avatar URL |
| Emoji.ConvertEmojiImage | src/index.ts:135-153 | An emoji code point in the alt text decides first: the result is the leftmost one. Without one, a non-empty table entry for the name is the result. When the entry is missing or empty, the alt text is the result |
| Emoji.UrlNameLookedUp | src/index.ts:145-152 | Without an emoji in the alt text, the name of the URL's leftmost match, wherever it starts, is looked up. A non-empty entry replaces the image; otherwise the alt text stays |
| Emoji.NoMatchLookedUp | src/index.ts:145-152 | Without an emoji in the alt text and without a match in the URL, the alt text without its colons is looked up, with the same fallback |
| Emoji.PrefixedEmojiUrlConverted | src/index.ts:145-152 | A URL such as `https://host/images/emoji/<set>/<name>.png`, whose first `/emoji/` follows any prefix, converts to the non-empty entry for `<name>` or keeps the alt text |
| Emoji.SetlessEmojiUrl | src/index.ts:146-147 | A URL whose only `/emoji/` is followed by a slash-free rest, such as `https://host/emoji/smile.png`, has no match, so the alt text names the emoji |
| Emoji.AltNameLookedUp | src/index.ts:145-152 | Without `/emoji/` in the URL, the alt text without its colons is looked up, with the same fallback to the alt text |
| Emoji.EmojiUrlConverted | src/index.ts:145-152 | An image at `/emoji/<set>/<name>` with emoji-free alt text becomes the non-empty entry for `<name>`, or keeps its alt text. With `twitter`, `heart` and `.png`, a non-empty entry for `heart` is the result |
| Emoji.AltEmojiDecides | src/index.ts:139-143 | With an emoji in the alt text, neither the URL nor the table matters |
| Emoji.FirstEmojiFrom | src/index.ts:137-143 | The scan finds the leftmost index that starts an emoji code point, surrogate pairs decoded, or reports that there is none |
| Emoji.EmojiNameFrom | src/index.ts:146 | The name of a match at some position with no match before it, that is the leftmost match of `/\/emoji\/[^/]+\/([^/.]+)/`; none exactly when no position matches |
| Emoji.LeftmostMatch | src/index.ts:146 | A match with no match before it is the one the search returns |
| Emoji.EmojiUrlName | src/index.ts:146 | `/emoji/<set>/<name><rest>` yields `<name>` when the rest does not continue it |
| Emoji.EmojiUrlNameAt | src/index.ts:146 | The same after any prefix, at the offset where `/emoji/` starts |
| Emoji.NameFromAlt | src/index.ts:147 | Without `/emoji/` in the URL the name is the alt text without surrounding colons |
| Emoji.HeartUrlName | src/index.ts:145-146 | `/emoji/twitter/heart.png` yields `heart` |
| Emoji.NameRun | src/index.ts:146 | The greedy group `([^/.]+)`: the longest prefix without `/` or `.` |
| DiscourseUrl.ParseTopicPath | src/index.ts:161-170 | A result exists exactly when some `t` segment is followed by an all-digit segment. The base URL is the origin, and the id is the first all-digit segment after the first `t` |
| DiscourseUrl.TopicIdIndex | src/index.ts:162-169 | A result exists exactly when an all-digit segment follows some `t`. It is the first all-digit segment after the first `t` |
| DiscourseUrl.PathParts | src/index.ts:161 | The segments are non-empty and slash-free |
| DiscourseUrl.NonEmpty | src/index.ts:161 | `.filter((p) => p)` keeps exactly the non-empty texts |
| DiscourseUrl.TopicPathOf | src/index.ts:161-169 | `/t/<slug>/<id>` gives `<id>` for a slash-free slug that is not all digits |
| DiscourseUrl.TopicPathExample | src/index.ts:161-169 | `/t/topic-name/12345` gives `12345` |
| OutputPath.SanitizeSlug | src/index.ts:77-81 | At most 200 units, all ASCII letters, digits, `-` or `_`. Each unit is the slug's own when safe and `_` otherwise. The two dot steps never change anything |
| OutputPath.DotStepsNoop | src/index.ts:79-80 | The dot steps leave a text without dots unchanged |
| OutputPath.SanitizeSlugIdempotent | src/index.ts:77-81 | A cleaned slug is its own cleaning |
| OutputPath.DotRunReplaced | src/index.ts:79-79 | For any dot-free texts `a` and `b` and any run of two or more dots, `a`, run, `b` becomes `a`, one underscore, `b` |
| OutputPath.OuterDotsStripped | src/index.ts:80-80 | Any number of leading and trailing dots around a text that neither starts nor ends with a dot are removed, and only they |
| OutputPath.SingleDotKept | src/index.ts:79-80 | For any non-empty dot-free texts `a` and `b`, one dot between them is kept by both dot steps |
| OutputPath.NoDotPairLeft | src/index.ts:79-79 | After the run replacement no two dots are adjacent, and the text is no longer |
| OutputPath.StripDotsEnds | src/index.ts:80-80 | The result neither starts nor ends with a dot, and it is a slice of the input with only dots around it |
| OutputPath.OutputFileName | src/index.ts:83 | `topicId-slug.md`: the topic id, a hyphen, only safe units, then `.md` |
| OutputPath.FileNameStaysInDirectory | src/index.ts:83-90 | With an all-digit topic id, the file name has no `/`, no `\` and no dot except the extension's |
| FetchPlan.RemainingIds | src/index.ts:377-378 | Every kept id is a stream id that no initial post carries, and every such stream id is kept. The result is no longer than the stream |
| FetchPlan.RemainingIdsCount | src/index.ts:377-378 | Each id occurs as often as in the stream, or not at all when an initial post carries it |
| FetchPlan.RemainingIdsAppend | src/index.ts:378-378 | Filtering two consecutive parts of the stream gives the filtered parts one after the other, so stream order is kept |
| FetchPlan.PlanChunks | src/index.ts:384-388 | Consecutive pieces that concatenate to the ids. Each has at most 50 ids and all but the last exactly 50. There are ceil(n / 50) of them |
| FetchPlan.QueryListsChunk | src/index.ts:389 | Splitting the query at `&` gives one `post_ids[]=<id>` item per id, in order |
| FetchPlan.FetchAllPosts | src/index.ts:375-409 | The initial posts, then the answer to each chunk's request URL `${baseUrl}/t/${topicId}/posts.json?<query>` in request order, with nothing for a failed request |
| FetchPlan.AppendAnswers | src/index.ts:387-406 | The request loop pushes each chunk's answer onto the posts, in order |
| FetchPlan.CompleteFetch | src/index.ts:387-398 | When every request returns the posts it asked for, the answers carry the requested ids in order |
| FetchPlan.StreamCovered | src/index.ts:376-409 | In that case the result's ids are the initial ids followed by the remaining ids, so every stream id is present |
| JsText.JoinSplit | src/index.ts:271-305 | `join` after `split` at one separator restores the text |
| JsText.SplitJoin | src/index.ts:271-305 | `split` after `join` of separator-free pieces gives the pieces |
| JsText.JoinAppend | src/index.ts:366-366 | Joining two non-empty lists puts one separator between their joins |
| JsText.TrimFixed | src/index.ts:290 | A text that already starts and ends with non-whitespace is its own trim |
| JsText.TrimIsSlice | src/index.ts:290 | `trim` removes exactly the outer whitespace: the result is a slice of the text with only whitespace before and after it |
| JsText.TrimIdempotent | src/index.ts:290 | Trimming twice is trimming once |
| JsText.Trim | src/index.ts:290 | The result starts and ends with non-whitespace and is no longer than the text |

## Left out

- `sanitize` and the Turndown engine are foreign HTML libraries. They are the
  parameter `Services.convert`. Only the decisions of the three custom rules
  are modelled (`ImageRules`), not Turndown's HTML parsing or its built-in
  rules.
- `isInsideOnebox` is a DOM `closest` query, so it is a boolean field of
  `ImageRules.Element`.
- `formatDateISO` and the clock behind `new Date()` are JavaScript `Date`
  behaviour. They are the parameters `formatDate` and `created`.
- The checks of `getSafeOutputPath` that use `path.resolve`, `path.relative`,
  `path.isAbsolute` and `process.cwd()` are left out, and so are its two
  throws. `OutputPath.FileNameStaysInDirectory` shows the file name cannot
  leave the directory.
- The `URL` constructor and its `TypeError` path in `parseDiscourseUrl` are
  left out. The scan starts from the origin and pathname, already parsed.
- The network side of `fetchAllPosts` is a parameter `fetch` from request
  URL to answer: the ky client, the spinner and the 500 ms delay. `saveMarkdownFile`, `main`
  and the command line are I/O and are left out.
- The contents of the node-emoji table are left out. The table is the
  parameter `lookup`.
- `parseInt` is kept abstract. `ImageRules.IsSmall` only relies on NaN
  never being below 100.
- `JsText.NumberToString` writes the decimal digits of an integer. It agrees
  with JavaScript's number formatting for integers below 1e21, which covers
  post numbers and ids.
- PostTree.RenderPost: the source recurses without a bound, so the model
  counts levels with fuel. `Document.Comments` gives it one level per post.
  - With unique post numbers that is always enough (`PostTree.TreeRenders`).
  - Otherwise the model may report `CommentsDoNotEnd`, which stands for
    the stack overflow the source would hit.
  - Endless recursion is proved only for a post listed among the replies
    to its own number (`PostTree.SelfNestedNeverEnds`), not for every
    tree in which the fuel runs out.
- Frontmatter.EscapeYamlString: it escapes quotes and not backslashes,
  exactly as the source does. So its output is not a faithful YAML 1.2
  double-quoted scalar (section 7.3.1 of YAML 1.2). The model proves only
  that it is injective and that removing the backslash before each quote
  inverts it.
- Frontmatter.GenerateYamlFrontmatter: the source URL and the user name are
  written between quotes without escaping, as in the source. The contract
  states them literally instead of as decodable fields.
- Rendering functions such as `PostTree.RenderPost`, `PostTree.RenderPosts`,
  `Galleries.Scan` and `Galleries.ProcessImageGalleries` carry no `ensures`
  of their own. What they compute is stated by the lemmas named in the
  table.
