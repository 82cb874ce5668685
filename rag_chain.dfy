/** Building the vector store's chunks and answering a question from
    retrieved chunks. The similarity search and the language model are
    parameters; the embedding and the store itself are not modelled. */
module RagChain {
  import opened Wrappers
  import opened Text
  import Chunker

  /** The chunking parameters the store is built with. */
  const ChunkSize := 640
  const ChunkOverlap := 100
  const LengthThreshold := 500

  /** The number of chunks retrieved per question. */
  const TopK := 7

  const ModelName := "models/gemini-1.5-flash"

  /** A retrieved chunk: its text and the metadata stored with it. */
  datatype Document = Document(pageContent: string, metadata: Chunker.Metadata)

  /** The request sent to the model: one user message with one part. */
  datatype Request = Request(model: string, role: string, parts: seq<string>)

  /** `vector_db` up to the embedding: the issues' articles chunked with the
      fixed parameters. */
  method VectorDb(issues: seq<Chunker.IssueRecord>, split: Chunker.Splitter) returns (chunks: seq<Chunker.Chunk>)
    ensures Chunker.Numbered(chunks, Chunker.IssuesPieces(issues, ChunkSize, ChunkOverlap, LengthThreshold, split))
    ensures |chunks| == Chunker.TotalCount(issues, ChunkSize, ChunkOverlap, LengthThreshold, split)
  {
    chunks := Chunker.AutoChunkArticles(issues, ChunkSize, ChunkOverlap, LengthThreshold, split);
    Chunker.IssuesPiecesCount(issues, ChunkSize, ChunkOverlap, LengthThreshold, split);
  }

  /** How an f-string shows a metadata value that `.get` may not find. */
  function Show(v: Option<string>): string {
    match v
    case None => "None"
    case Some(s) => s
  }

  const TitleLabel := "- Title: "
  const UrlLabel := "\n  URL: "
  const ImageLabel := "\n  Image URL: "
  const ContentLabel := "\n  Content: "

  /** One document's block of the context: its article title, issue URL
      and image URL as they are, then its content stripped. */
  function RenderDoc(d: Document): string {
    TitleLabel + Show(d.metadata.articleTitle) + UrlLabel + Show(d.metadata.issueUrl)
    + ImageLabel + Show(d.metadata.imageUrl) + ContentLabel + Strip(d.pageContent)
  }

  function RenderDocs(docs: seq<Document>): (r: seq<string>)
    ensures |r| == |docs|
    ensures forall k :: 0 <= k < |docs| ==> r[k] == RenderDoc(docs[k])
  {
    seq(|docs|, k requires 0 <= k < |docs| => RenderDoc(docs[k]))
  }

  /** The context: the documents' blocks, in retrieval order, separated by
      blank lines. */
  function Context(docs: seq<Document>): string {
    Join(RenderDocs(docs), "\n\n")
  }

  lemma ContextEmpty()
    ensures Context([]) == ""
  {
  }

  /** Each further document adds a blank line and its block at the end. */
  lemma ContextSnoc(docs: seq<Document>, d: Document)
    requires docs != []
    ensures Context(docs + [d]) == Context(docs) + "\n\n" + RenderDoc(d)
  {
    assert RenderDocs(docs + [d]) == RenderDocs(docs) + [RenderDoc(d)];
    JoinSnoc(RenderDocs(docs), RenderDoc(d), "\n\n");
  }

  /** A single document's context is its block. */
  lemma ContextSingle(d: Document)
    ensures Context([d]) == RenderDoc(d)
  {
  }

  /** The block starts with the title field and ends with the stripped
      content, so surrounding whitespace of a chunk never reaches the
      prompt. */
  lemma RenderDocEnds(d: Document)
    ensures TitleLabel <= RenderDoc(d)
    ensures var r := RenderDoc(d); var c := Strip(d.pageContent);
      |c| <= |r| && r[|r| - |c|..] == c
  {
    var c := Strip(d.pageContent);
    var r := RenderDoc(d);
    var head := TitleLabel + Show(d.metadata.articleTitle) + UrlLabel + Show(d.metadata.issueUrl)
                + ImageLabel + Show(d.metadata.imageUrl) + ContentLabel;
    assert r == head + c;
    assert r[|head|..] == c;
  }

  /** The instructions put before the context (`rag/rag_chain.py` lines 31-55), one source
      line per entry. */
  const SystemPromptLines: seq<string> := [
    "You are an assistant that answers user questions using factual information extracted ",
    "from articles in The Batch newsletter.\n\n",
    "If you see that titles are the same and urls as well, it means that the same article ",
    "is repeated in the same issue. You should return only one answer combined of them. ",
    "If you see different titles, you can return them separately.\n\n",
    "Return your answer in **strict JSON format** using the following schema:\n",
    "{",
    "  \"answers\": [",
    "    {",
    "      \"number\": <int>,",
    "      \"text\": <string>,",
    "      \"title\": <string>,",
    "      \"url\": <string>,",
    "      \"image_url\": <string>",
    "    }, ",
    "    ...",
    "  ]",
    "}",
    "Make sure to:\n",
    "- Only use info from the provided context\n",
    "- Enumerate answers clearly using the \"number\" field\n",
    "- Always include the article \"title\" and \"urls\"\n",
    "- If the answer isn't available, return: { \"answers\": [\"text\":\"Sorry, try again\"] }"
  ]

  const SystemPrompt: string := Join(SystemPromptLines, "")

  /** The instructions and the context heading, ahead of the context. */
  function PromptHead(system: string): string {
    "System: " + system + "\n\n" + "Use the following context to answer:\n\n"
  }

  const QuestionLabel := "\n\nUser's question: "

  /** Three fields and a sep between the last two, laid end to end. */
  function Compose(head: string, context: string, sep: string, query: string): string {
    head + context + sep + query
  }

  /** The combined prompt: instructions, context, then the question. */
  function Prompt(system: string, context: string, query: string): string {
    Compose(PromptHead(system), context, QuestionLabel, query)
  }

  /** Each field of a composed string sits verbatim at a fixed offset. */
  lemma ComposeLayout(head: string, context: string, sep: string, query: string)
    ensures var p := Compose(head, context, sep, query);
      && |p| == |head| + |context| + |sep| + |query|
      && p[..|head|] == head
      && p[|head|..|head| + |context|] == context
      && p[|head| + |context|..|head| + |context| + |sep|] == sep
      && p[|p| - |query|..] == query
  {
    var p := Compose(head, context, sep, query);
    var a := head + context;
    var b := a + sep;
    assert p == b + query;
    assert p[..|b|] == b;
    assert b[..|a|] == a;
    assert p[..|head|] == a[..|head|];
    assert p[|head|..|a|] == a[|head|..];
    assert p[|a|..|b|] == b[|a|..];
  }

  /** The prompt holds the context and the question verbatim at fixed
      offsets, so both can be read back from it. */
  lemma PromptLayout(system: string, context: string, query: string)
    ensures var p := Prompt(system, context, query); var h := |PromptHead(system)|;
      && |p| == h + |context| + |QuestionLabel| + |query|
      && p[..h] == PromptHead(system)
      && p[h..h + |context|] == context
      && p[h + |context|..h + |context| + |QuestionLabel|] == QuestionLabel
      && p[|p| - |query|..] == query
  {
    ComposeLayout(PromptHead(system), context, QuestionLabel, query);
  }

  /** Under the same instructions, different questions, or different
      contexts of the same length, give different prompts. */
  lemma PromptInjective(system: string, c1: string, q1: string, c2: string, q2: string)
    requires |c1| == |c2|
    requires Prompt(system, c1, q1) == Prompt(system, c2, q2)
    ensures c1 == c2 && q1 == q2
  {
    PromptLayout(system, c1, q1);
    PromptLayout(system, c2, q2);
  }

  /** The request for a question and its retrieved documents, under the
      given instructions. */
  function RequestFor(system: string, docs: seq<Document>, query: string): Request {
    Request(ModelName, "user", [Prompt(system, Context(docs), query)])
  }

  /** The steps of `answer_query_with_rag` under any instructions: retrieve
      `TopK` documents for the question, build the prompt from them and
      return the model's reply text. */
  function Answer(system: string, query: string, search: (string, nat) -> seq<Document>,
                  generate: Request -> string): string {
    generate(RequestFor(system, search(query, TopK), query))
  }

  /** `answer_query_with_rag`, with its own instructions. */
  function AnswerQuery(query: string, search: (string, nat) -> seq<Document>,
                       generate: Request -> string): string {
    Answer(SystemPrompt, query, search, generate)
  }

  /** The answer is the model's reply to one user message whose only part
      is the prompt built from the `TopK` documents retrieved for this
      very question; it depends on the store only through them. */
  lemma AnswerUses(system: string, query: string, search1: (string, nat) -> seq<Document>,
                   search2: (string, nat) -> seq<Document>, generate: Request -> string)
    requires search1(query, TopK) == search2(query, TopK)
    ensures Answer(system, query, search1, generate) == Answer(system, query, search2, generate)
    ensures var docs := search1(query, TopK); var req := RequestFor(system, docs, query);
      && Answer(system, query, search1, generate) == generate(req)
      && req.model == ModelName && req.role == "user" && |req.parts| == 1
      && req.parts[0][..|PromptHead(system)|] == PromptHead(system)
      && req.parts[0][|PromptHead(system)|..|PromptHead(system)| + |Context(docs)|] == Context(docs)
      && req.parts[0][|req.parts[0]| - |query|..] == query
  {
    PromptLayout(system, Context(search1(query, TopK)), query);
  }
}
