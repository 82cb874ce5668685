# The Batch question answering: a Dafny model

The system answers questions about the articles of *The Batch* newsletter.
It has four steps:

- It cuts each issue page into articles at its headings.
- It chunks the articles and stores them in a vector database.
- For a question, it retrieves the seven nearest chunks and builds a prompt
  from them.
- It asks a language model and shows the model's JSON reply as numbered
  answers.

This project models the logic of those steps and proves properties about it.
Four Dafny modules follow one source file each. Two more, `Text` and
`Wrappers`, hold the Python building blocks those four share.

- `ArticleParser` (`article_parser.dfy`) models `extract_articles_with_images`.
  - The page is the ordered list of elements that the parser walks through:
    each element's tag name, its markup, its stripped text and the `src` of
    its first image.
  - Dafny's `==` on elements compares all four fields. In the source the
    text and the image source are read off the markup, so on a real page two
    elements with the same name and markup agree on them as well. Equality
    of elements is therefore Beautiful Soup's structural equality, which the
    source uses for `!=` on tags.
  - The heading loop, the backward search for a lead image and the forward
    scan for body paragraphs are methods. Each one is proved equal to a
    specification function: `Articles`, `LeadImage` and `BodyParts`.
- `Chunker` (`chunker.dfy`) models `auto_chunk_articles`.
  - The nested loops and the running `chunk_id` counter are methods.
  - Their result is specified by `Numbered`: the k-th chunk has id `chunk_k`
    and carries the content and metadata of the k-th piece of `IssuesPieces`.
  - The text splitter is a function parameter.
- `ResponseJson` (`app.dfy`) models `extract_json_from_response` and the
  display choice in `app.py`. The JSON parser is a parameter. It returns the
  parsed value, or None where `json.loads` raises.
- `RagChain` (`rag_chain.dfy`) models three things:
  - the chunking parameters of `vector_db`;
  - the context and prompt text of `answer_query_with_rag`;
  - the request sent to the model.

  The similarity search and the model are parameters.
- `Text` (`text.dfy`) holds the Python string operations the source uses:
  - `strip` with the `str.isspace` character set, and `strip("`")`;
  - `lower`, `in`, `startswith`, `find`, `join` and `split()`;
  - rendering an `int` in an f-string.
- `Wrappers` (`wrappers.dfy`) holds `Option`, `Result` and `Somes`, which
  keeps the present values of a sequence of options.

Three behaviours of the code are easy to miss, and the model keeps them:

- **Heading order.** The heading list is all `h1`s, then all `h2`s, then all
  `h3`s, not document order (`rag/article_parser.py:24`). Each heading's
  forward scan stops at the next heading in that list. So it can pass other
  headings, and the same paragraph can land in two articles.
  `ArticleParser.CrossLevelArticles` proves this on a four-element page.
- **Extraction errors.** When extraction fails, the app does not fall back to
  the raw message text. The error propagates (`app.py:67`). A JSON value
  that is not an object, such as the reply `[1]`, has no `get`, and that
  error propagates too (`app.py:68`). The raw reply is shown only when an
  object was extracted and its `answers` field is falsy.
- **Empty paragraphs.** An article whose only body paragraphs are empty still
  counts, because its list of parts is not empty. Its content is then blank,
  and the chunker later skips it.

## Model

| member | source | states |
|---|---|---|
| ArticleParser.Positions | rag/article_parser.py:24 | `find_all(tag)` over the sibling list (no own contract; `PositionsShape` states it) |
| ArticleParser.PositionsShape | rag/article_parser.py:24 | `find_all(tag)`'s positions are exactly the nodes with that tag, strictly increasing (document order), none missing |
| ArticleParser.HeadingList | rag/article_parser.py:24 | every entry of the heading list is the position of an `h1`, `h2` or `h3` node |
| ArticleParser.HeadingListComplete | rag/article_parser.py:24 | every heading node of the page is in the heading list |
| ArticleParser.HeadingListOrder | rag/article_parser.py:24 | the heading list holds no position twice and is ordered by level first, then by position within a level |
| ArticleParser.Excluded | rag/article_parser.py:27-30 | the title filter: an empty title, or one whose lowercase form contains "news", "issue", "message" or "subscribe" (no own contract; `ArticlesFromHeadings` and `HeadingYieldsArticle` state its role) |
| ArticleParser.LeadImage | rag/article_parser.py:31-39 | the `src` of the nearest preceding figure's image, None without such a figure or `src` (no own contract; `FindLeadImage` is proved equal to it) |
| ArticleParser.NearestFigure | rag/article_parser.py:33-36 | the result is the last `figure` before the heading, with no figure between; None exactly when no figure precedes it |
| ArticleParser.FindLeadImage | rag/article_parser.py:31-39 | the backward loop returns `LeadImage`; an image is found exactly when a nearest preceding figure exists and has an image source |
| ArticleParser.ScanEnd | rag/article_parser.py:43-48 | the forward scan ends at the first node equal to the stop node, or at the end of the page, and passes no node equal to it |
| ArticleParser.ScanWithoutStopReachesEnd | rag/article_parser.py:42-45 | for the last heading of the list (no next heading) the scan runs to the end of the page |
| ArticleParser.ScanStopsAtStopNode | rag/article_parser.py:45 | the scan never goes past a node equal to the stop node |
| ArticleParser.BodyTexts | rag/article_parser.py:46-47 | the `p`/`ul` filter over a stretch of nodes (no own contract; `BodyTextsEmpty` and `BodyTextsAppend` state it) |
| ArticleParser.BodyTextsEmpty | rag/article_parser.py:46-47 | no body parts exactly when no node in the range is a `p` or `ul` |
| ArticleParser.BodyTextsAppend | rag/article_parser.py:46-47 | the parts of two adjacent ranges are the parts of the first followed by those of the second |
| ArticleParser.NextStop | rag/article_parser.py:42 | `next_h1`: the next entry of the heading list, None for the last (no own contract; `ScanWithoutStopReachesEnd` and `ScanStopsAtStopNode` state what the scan does with it) |
| ArticleParser.BodyParts | rag/article_parser.py:41-48 | the texts of the `p` and `ul` nodes after the heading up to the end of its scan (no own contract; `CollectBodyParts`, `BodyTextsEmpty` and `BodyTextsAppend` state it) |
| ArticleParser.CollectBodyParts | rag/article_parser.py:41-48 | the forward loop collects exactly `BodyParts`: the texts of the `p` and `ul` nodes between the heading and the scan end, in order |
| ArticleParser.HeadingArticle | rag/article_parser.py:27-57 | one heading's outcome: nothing, or its title, lead image and joined parts (no own contract; `ExtractHeading` is proved equal to it, `HeadingYieldsArticle` says when it is present) |
| ArticleParser.Articles | rag/article_parser.py:15-59 | the present outcomes of the headings in heading-list order (no own contract; `ExtractArticlesWithImages`, `ArticlesFromHeadings`, `QualifyingHeadingEmitted` and `ArticlesInHeadingOrder` state it) |
| ArticleParser.ExtractHeading | rag/article_parser.py:27-57 | one turn of the heading loop yields exactly `HeadingArticle` for that heading |
| ArticleParser.ExtractArticlesWithImages | rag/article_parser.py:15-59 | the imperative loop returns exactly `Articles`: the present outcomes of the headings in heading-list order |
| ArticleParser.HeadingYieldsArticle | rag/article_parser.py:29-51 | a heading yields an article exactly when its title passes the filter and a `p` or `ul` node lies between it and the end of its scan |
| ArticleParser.NoBodyNoArticle | rag/article_parser.py:50-51 | a heading with no `p`/`ul` before its scan end yields nothing |
| ArticleParser.ArticlesInHeadingOrder | rag/article_parser.py:26-59 | at most one article per heading, and the articles of an earlier part of the heading list come first |
| ArticleParser.ArticlesFromHeadings | rag/article_parser.py:27-57 | every article comes from an entry of the heading list: its title is that heading's text, non-empty and not filtered out; its image is the heading's lead image; its content is the newline join of the heading's body parts, of which there is at least one |
| ArticleParser.QualifyingHeadingEmitted | rag/article_parser.py:26-57 | the converse: the article any heading of the list yields is in the result |
| ArticleParser.CrossLevelHeadings | rag/article_parser.py:24 | on the sample page [h1 A, h2 B, p y, h1 C] the heading list is [0, 3, 1] |
| ArticleParser.CrossLevelBodies | rag/article_parser.py:41-48 | on the sample page, A's scan takes in B's paragraph, C's scan finds nothing, B's scan runs to the end |
| ArticleParser.CrossLevelArticles | rag/article_parser.py:15-59 | on the sample page the result is [A: "y", B: "y"]: the same paragraph appears under two headings |
| Chunker.ChunkId | rag/chunker.py:46 | the id `chunk_` followed by the counter in decimal (no own contract; `ChunkIdsDistinct` states it is injective) |
| Chunker.ArticlesOf | rag/chunker.py:34 | `issue.get("articles", [])` (no own contract; `IssuesPiecesOrigin` uses it) |
| Chunker.ArticleContent | rag/chunker.py:36 | `article.get("content", "").strip()` (no own contract; `ArticlePiecesCases` states it) |
| Chunker.ArticleMetadata | rag/chunker.py:47-53 | the four metadata fields of a chunk, also at lines 64-68 (no own contract; `ArticlePiecesCases` and `IssuesPiecesOrigin` state it) |
| Chunker.ArticlePieces | rag/chunker.py:35-70 | what one article yields (no own contract; `ArticlePiecesCases` states the three cases) |
| Chunker.ArticlesPieces | rag/chunker.py:34-70 | the pieces of an issue's articles in article order (no own contract; `ArticlesPiecesAppend`, `ArticlesPiecesCount` and `ArticlesPiecesOrigin` state it) |
| Chunker.IssuesPieces | rag/chunker.py:30-70 | the pieces of all issues in issue order (no own contract; `IssuesPiecesAppend`, `IssuesPiecesCount` and `IssuesPiecesOrigin` state it) |
| Chunker.ChunkIdsDistinct | rag/chunker.py:46 | ids `chunk_k` of different counters differ |
| Chunker.NumberedAt | rag/chunker.py:45-70 | in numbered output the k-th chunk has id `chunk_k` and the k-th piece's content and metadata |
| Chunker.NumberedIdsDistinct | rag/chunker.py:46 | numbered chunks have pairwise different ids |
| Chunker.NumberedSnoc | rag/chunker.py:45-55 | appending a chunk with the next id keeps the chunks numbered |
| Chunker.EmitChunk | rag/chunker.py:45-55 | one append with the current counter, then the increment: the output is the input plus that chunk, still numbered |
| Chunker.EmitSplitChunks | rag/chunker.py:58-70 | the loop over split texts emits one numbered chunk per text, in order |
| Chunker.EmitArticleChunks | rag/chunker.py:35-70 | one article's turn emits exactly `ArticlePieces` for it, numbered on from the counter |
| Chunker.AutoChunkArticles | rag/chunker.py:7-72 | the output is numbered against `IssuesPieces`: chunk k is piece k of the issues' articles in order, with id `chunk_k` |
| Chunker.ArticlePiecesCases | rag/chunker.py:36-70 | an article with blank content gives no piece; one with at most `threshold` words gives its stripped content as one piece; otherwise one piece per split text; all carry the article's metadata |
| Chunker.NonBlankHasWords | rag/chunker.py:39-42 | non-blank content has at least one word |
| Chunker.ArticlesPiecesAppend | rag/chunker.py:34 | pieces of consecutive runs of articles concatenate |
| Chunker.IssuesPiecesAppend | rag/chunker.py:30 | pieces of consecutive runs of issues concatenate: output order is issue order |
| Chunker.ArticlesPiecesCount | rag/chunker.py:34-70 | an issue yields as many pieces as the sum of its articles' counts (0, 1 or the number of split texts) |
| Chunker.IssuesPiecesCount | rag/chunker.py:30-72 | the number of chunks is the sum of the per-article counts over all issues |
| Chunker.ArticlesPiecesOrigin | rag/chunker.py:34-69 | every piece of an issue comes from one of its articles and carries exactly that article's metadata |
| Chunker.IssuesPiecesOrigin | rag/chunker.py:30-69 | every chunk's metadata is that of one article of one issue: article title and image, issue title and URL |
| RagChain.VectorDb | rag/rag_chain.py:15 | the store's chunks are `auto_chunk_articles` with size 640, overlap 100, threshold 500, and their number is the per-article count sum |
| RagChain.Show | rag/rag_chain.py:59-61 | how the f-string shows a `.get` result: the value, or "None" when it is missing (no own contract) |
| RagChain.RenderDoc | rag/rag_chain.py:59-62 | one document's block: title, URL and image URL as the f-string shows them, then the stripped content (no own contract; `RenderDocEnds` states its ends) |
| RagChain.Context | rag/rag_chain.py:58-64 | the blocks joined by blank lines (no own contract; `ContextEmpty`, `ContextSingle` and `ContextSnoc` state it) |
| RagChain.ContextEmpty | rag/rag_chain.py:58 | no documents give an empty context |
| RagChain.ContextSingle | rag/rag_chain.py:58-63 | one document's context is its block |
| RagChain.ContextSnoc | rag/rag_chain.py:58-64 | each further document adds a blank line and its block at the end |
| RagChain.RenderDocEnds | rag/rag_chain.py:59-62 | a block starts with the title field and ends with the stripped content |
| RagChain.Prompt | rag/rag_chain.py:70-73 | the combined prompt (no own contract; `PromptLayout` and `PromptInjective` state it) |
| RagChain.ComposeLayout | rag/rag_chain.py:70-73 | each field of the prompt sits verbatim at a fixed offset |
| RagChain.PromptLayout | rag/rag_chain.py:70-73 | the prompt is instructions, context and question at fixed offsets, so each can be read back |
| RagChain.PromptInjective | rag/rag_chain.py:70-73 | under the same instructions, equal prompts with same-length contexts have equal contexts and questions |
| RagChain.RequestFor | rag/rag_chain.py:68-75 | the model name and the one-message, one-part user request (no own contract; `AnswerUses` states it) |
| RagChain.Answer | rag/rag_chain.py:56-79 | retrieval, prompt and reply under given instructions (no own contract; `AnswerUses` states it) |
| RagChain.AnswerQuery | rag/rag_chain.py:22-79 | `answer_query_with_rag` with the instructions of lines 31-55 as `SystemPrompt`, kept verbatim one source line per entry (no own contract; `AnswerUses` states what it does for any instructions) |
| RagChain.AnswerUses | rag/rag_chain.py:56-79 | the answer is the model's reply to one user message whose only part is the prompt for this question and its `TopK` (7) retrieved documents; it depends on the store only through them |
| ResponseJson.ExtractJson | app.py:17-35 | `extract_json_from_response` (no own contract; `ExtractJsonOrder`, `ExtractJsonMeaning`, `FencedReply` and `ProseReply` state it) |
| ResponseJson.CutLanguageTag | app.py:25-26 | the cut after a leading "json" tag (no own contract; `CutLanguageTagCases` states it) |
| ResponseJson.Candidate | app.py:25-27 | the text that is parsed first: the cut text stripped of whitespace, then of backticks (no own contract; `FencedCandidate` states it on fenced replies) |
| ResponseJson.SliceFrom | app.py:26 | `text[i:]` is a suffix of the text: all but the first `i` characters, or the last `-i` when `i` is negative, clamped to the empty string and the whole |
| ResponseJson.CutLanguageTagCases | app.py:25-26 | a reply starting with "json" (any case, after whitespace) is cut at its first "{", or reduced to its last character when it has none; any other reply is unchanged |
| ResponseJson.FindBraceIgnoresCase | app.py:26 | the first "{" of the lowercase reply is the first "{" of the reply |
| ResponseJson.BraceSpan | app.py:32 | `\{.*\}` with DOTALL: a match is a "{" followed later by a "}"; the span returned is the leftmost start with its longest match; None exactly when there is no match |
| ResponseJson.ExtractJsonOrder | app.py:29-34 | a whole candidate that parses is returned; otherwise the result is the parse of the leftmost-longest `\{.*\}` match, or the decode error when that fails |
| ResponseJson.ExtractJsonMeaning | app.py:29-35 | a value is the parse of the whole candidate or of a "{" ... "}" stretch of it; the `ValueError` comes exactly when the whole does not parse and no such stretch exists; a decode error only when the whole does not parse and a stretch that does not parse exists |
| ResponseJson.FencedCandidate | app.py:25-27 | stripping a reply fenced in triple backticks leaves what is between the fences, tag included, whenever that does not itself start or end with a backtick |
| ResponseJson.WrappedSpan | app.py:32-34 | an object with no "{" before it and no "}" after it is the brace span |
| ResponseJson.FencedSpan | app.py:32-34 | in "json" + whitespace + object + whitespace the span is the object |
| ResponseJson.FencedReply | app.py:25-34 | a "```json" fenced object, whose tagged text does not parse, is extracted through the span as the parse of the object |
| ResponseJson.ProseReply | app.py:25-35 | a reply with no "{" that does not parse whole raises the `ValueError` |
| ResponseJson.ChooseDisplay | app.py:67-75 | structured answers exactly when extraction gives an object with a truthy `answers`; the raw message exactly when it gives an object without one; the `AttributeError` exactly when it gives a value that is not an object; the extraction error exactly when extraction fails |
| ResponseJson.ProseReplyRaises | app.py:67-75 | a prose reply without "{" is not shown as raw text: its error propagates |
| Text.Trim | app.py:27 | `strip(chars)` (no own contract; `TrimShape`, `TrimEnds`, `TrimEmpty` and the lemmas after them state it) |
| Text.Strip | rag/chunker.py:36 | `strip()` with the `str.isspace` characters (no own contract; the `Trim` lemmas state it) |
| Text.TrimLeftSkips | app.py:27 | trimming from the front skips a prefix of dropped characters |
| Text.TrimRightSkips | app.py:27 | trimming from the back skips a suffix of dropped characters |
| Text.TrimEnds | app.py:27 | a trimmed string is empty or neither starts nor ends with a dropped character |
| Text.TrimShape | rag/chunker.py:36 | a trimmed string is a contiguous slice of the input with only dropped characters cut on either side |
| Text.TrimEmpty | rag/chunker.py:36-39 | the stripped content is empty exactly when the content is all whitespace |
| Text.TrimLength | app.py:25 | trimming never lengthens |
| Text.TrimAvoids | app.py:27 | trimming introduces no character that was absent |
| Text.TrimIdempotent | app.py:27 | stripping twice is stripping once |
| Text.Contains | rag/article_parser.py:29 | `sub in s` (no own contract; `ContainsIsOccurrence` states it) |
| Text.StartsWith | app.py:25 | `s.startswith(prefix)` (no own contract; `CutLanguageTagCases` uses it) |
| Text.ContainsIsOccurrence | rag/article_parser.py:29 | `sub in s` holds exactly when `sub` occurs at some position of `s` |
| Text.Find | app.py:26 | `find` gives the first position of the character, or -1 exactly when it is absent |
| Text.FindLast | app.py:32 | the last position of the character, or -1 exactly when it is absent |
| Text.Join | rag/article_parser.py:56 | `sep.join(parts)` (no own contract; `JoinSnoc` and `JoinLength` state it) |
| Text.JoinSnoc | rag/article_parser.py:56 | joining one more part appends the separator and the part |
| Text.JoinLength | rag/rag_chain.py:58 | a join is as long as its parts plus one separator between each pair |
| Text.Words | rag/chunker.py:42 | `split()` with no argument (no own contract; `WordsShape`, `WordsCount` and `WordsEmptyIffBlank` state it) |
| Text.WordsShape | rag/chunker.py:42 | every word of `split()` is non-empty and holds no whitespace |
| Text.WordsCount | rag/chunker.py:42 | `len(split())` is the number of positions where a non-whitespace character starts the text or follows whitespace, that is, the number of maximal non-whitespace runs, which is the count line 42 compares |
| Text.WordsEmptyIffBlank | rag/chunker.py:42 | `split()` is empty exactly when the text is all whitespace |
| Text.NatToString | rag/chunker.py:46 | a counter renders as decimal digits without leading zeros |
| Text.DecimalRoundTrip | rag/chunker.py:46 | reading the rendered digits back gives the counter |
| Text.NatToStringInjective | rag/chunker.py:46 | different counters render differently |
| Wrappers.SomesLength | rag/article_parser.py:50-57 | keeping the present outcomes never gives more than there were |
| Wrappers.SomesTrace | rag/article_parser.py:53-57 | every kept value is the outcome at some position |
| Wrappers.SomesPrefix | rag/article_parser.py:53-57 | the kept values of a prefix are a prefix of the kept values |
| Wrappers.SomesKeeps | rag/article_parser.py:53-57 | every present outcome is kept |

## Left out

- Fetching issue pages over HTTP, `extract_articles` and the list of issues
  it builds are not modelled. The page is an input. The HTML parsing itself
  is not modelled either: `get_text(strip=True)`, tag names, the `src` of the
  first `img`, and the sibling navigation are given per element.
- Sibling navigation is over elements only. Text between elements is not
  represented.
- `find_all` searches every descendant of the page, but the model takes the
  headings from the one sibling list it walks. A heading at another depth
  would be in the source's heading list; a scan that should stop at it meets
  no sibling equal to it (the stop test compares nodes by value), so the scan
  runs to the end of its sibling list. Such pages are not represented.
- Markup is an opaque string that stands for the attributes and children
  together. That the text and the image source follow from it is not
  checked by the model: it is how the input is read.
- `rag/embedder.py`, the embedding model and the Chroma store are not part of
  this model. `VectorDb` returns the chunks that would be embedded, and
  retrieval is a parameter of `AnswerQuery`.
- The internals of the text splitter are not modelled: its separators, chunk
  size and overlap. The splitter is a parameter that gets the size and the
  overlap.
- The JSON parser is a parameter. So are the test for a JSON object and the
  truthiness of the `answers` field. The markdown rendering of each answer
  is not modelled.
- ResponseJson.ChooseDisplay: a truthy `answers` value that is not a list of
  objects with `number`, `text`, `title` and `url` makes the rendering loop
  raise in the source; the model gives `Structured` there, because the
  rendering is not modelled.
- Calling the language model (`genai.configure`, `generate_content`) is a
  parameter of `AnswerQuery`. The API key is not modelled.
- The Streamlit page, its session state and chat history, and the
  `query.lower().strip()` applied by the caller are not modelled.
- `Text.Lower` lowercases ASCII letters only. Python also lowers other
  letters, and a few of those change length. That would shift the `find`
  position that is used on the original reply.
- Chunker.ArticlesOf treats an `articles` field that holds null the same as a
  missing field. The source raises an error on that input.
- Chunker.ArticleContent treats a `content` field that holds null as a
  missing field. The source raises an error on that input.
- Present-but-null metadata values render as `None` in the context, as the
  f-string does. The model does not say whether the store accepts them.
