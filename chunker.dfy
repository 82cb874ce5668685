/** Chunk emission (`auto_chunk_articles`): every article of every issue
    becomes zero, one or several chunks, each with a running id and the
    article's and issue's metadata. The text splitter is library code and
    is a parameter here, about which nothing is assumed. */
module Chunker {
  import opened Wrappers
  import opened Text

  /** An article as the chunker reads it; every key may be missing. */
  datatype ArticleRecord = ArticleRecord(title: Option<string>, content: Option<string>, image: Option<string>)

  /** An issue as the chunker reads it; every key may be missing. */
  datatype IssueRecord = IssueRecord(title: Option<string>, url: Option<string>, articles: Option<seq<ArticleRecord>>)

  /** The metadata every chunk carries. */
  datatype Metadata = Metadata(articleTitle: Option<string>, issueTitle: Option<string>,
                               issueUrl: Option<string>, imageUrl: Option<string>)

  /** A chunk's content and metadata, before it is given an id. */
  datatype Piece = Piece(content: string, metadata: Metadata)

  datatype Chunk = Chunk(id: string, content: string, metadata: Metadata)

  /** `split_text` of a splitter built with the given chunk size and chunk
      overlap. */
  type Splitter = (int, int, string) -> seq<string>

  /** The id of the `k`-th chunk emitted. */
  function ChunkId(k: nat): string {
    "chunk_" + NatToString(k)
  }

  /** Different positions get different ids. */
  lemma ChunkIdsDistinct(k: nat, m: nat)
    requires k != m
    ensures ChunkId(k) != ChunkId(m)
  {
    if ChunkId(k) == ChunkId(m) {
      assert ChunkId(k)[6..] == NatToString(k);
      assert ChunkId(m)[6..] == NatToString(m);
      NatToStringInjective(k, m);
    }
  }

  /** `issue.get("articles", [])`. */
  function ArticlesOf(issue: IssueRecord): seq<ArticleRecord> {
    issue.articles.GetOr([])
  }

  /** `article.get("content", "").strip()`. */
  function ArticleContent(article: ArticleRecord): string {
    Strip(article.content.GetOr(""))
  }

  function ArticleMetadata(issue: IssueRecord, article: ArticleRecord): Metadata {
    Metadata(article.title, issue.title, issue.url, article.image)
  }

  /** The pieces for a list of texts, all with the same metadata. */
  function Stamp(texts: seq<string>, meta: Metadata): (r: seq<Piece>)
    ensures |r| == |texts| && forall k :: 0 <= k < |texts| ==> r[k] == Piece(texts[k], meta)
  {
    seq(|texts|, k requires 0 <= k < |texts| => Piece(texts[k], meta))
  }

  lemma StampSnoc(texts: seq<string>, m: nat, meta: Metadata)
    requires m < |texts|
    ensures Stamp(texts[..m + 1], meta) == Stamp(texts[..m], meta) + [Piece(texts[m], meta)]
  {
    var a, b := Stamp(texts[..m + 1], meta), Stamp(texts[..m], meta) + [Piece(texts[m], meta)];
    assert |a| == |b|;
    forall k | 0 <= k < |a| ensures a[k] == b[k] {
      assert texts[..m + 1][k] == texts[k];
      if k < m { assert texts[..m][k] == texts[k]; }
    }
  }

  /** What one article contributes: nothing when its stripped content is
      empty, the stripped content as one piece when it has at most
      `threshold` words, otherwise one piece per text the splitter returns. */
  function ArticlePieces(issue: IssueRecord, article: ArticleRecord, chunkSize: int, chunkOverlap: int,
                         threshold: int, split: Splitter): seq<Piece>
  {
    var content := ArticleContent(article);
    var meta := ArticleMetadata(issue, article);
    if content == [] then []
    else if |Words(content)| <= threshold then [Piece(content, meta)]
    else Stamp(split(chunkSize, chunkOverlap, content), meta)
  }

  /** The pieces of a list of articles of one issue, in article order. */
  function ArticlesPieces(issue: IssueRecord, articles: seq<ArticleRecord>, chunkSize: int, chunkOverlap: int,
                          threshold: int, split: Splitter): seq<Piece>
    decreases |articles|
  {
    if |articles| == 0 then []
    else ArticlesPieces(issue, articles[..|articles| - 1], chunkSize, chunkOverlap, threshold, split)
         + ArticlePieces(issue, articles[|articles| - 1], chunkSize, chunkOverlap, threshold, split)
  }

  /** The pieces of a list of issues, in issue order. */
  function IssuesPieces(issues: seq<IssueRecord>, chunkSize: int, chunkOverlap: int,
                        threshold: int, split: Splitter): seq<Piece>
    decreases |issues|
  {
    if |issues| == 0 then []
    else
      var last := issues[|issues| - 1];
      IssuesPieces(issues[..|issues| - 1], chunkSize, chunkOverlap, threshold, split)
      + ArticlesPieces(last, ArticlesOf(last), chunkSize, chunkOverlap, threshold, split)
  }

  /** `chunks` are `pieces` in the same order, the `k`-th with id `chunk_k`
      (stated position by position by `NumberedAt`). */
  predicate Numbered(chunks: seq<Chunk>, pieces: seq<Piece>)
    decreases |chunks|
  {
    && |chunks| == |pieces|
    && (|chunks| > 0 ==>
          var n := |chunks| - 1;
          && chunks[n] == Chunk(ChunkId(n), pieces[n].content, pieces[n].metadata)
          && Numbered(chunks[..n], pieces[..n]))
  }

  /** Position by position: the `k`-th chunk has id `chunk_k` and the content
      and metadata of the `k`-th piece. */
  lemma {:induction false} NumberedAt(chunks: seq<Chunk>, pieces: seq<Piece>, k: nat)
    requires Numbered(chunks, pieces) && k < |chunks|
    ensures |chunks| == |pieces|
    ensures chunks[k] == Chunk(ChunkId(k), pieces[k].content, pieces[k].metadata)
    decreases |chunks|
  {
    var n := |chunks| - 1;
    if k < n {
      NumberedAt(chunks[..n], pieces[..n], k);
    }
  }

  /** Numbered chunks carry pairwise different ids. */
  lemma NumberedIdsDistinct(chunks: seq<Chunk>, pieces: seq<Piece>, k: nat, m: nat)
    requires Numbered(chunks, pieces) && k < m < |chunks|
    ensures chunks[k].id != chunks[m].id
  {
    NumberedAt(chunks, pieces, k);
    NumberedAt(chunks, pieces, m);
    ChunkIdsDistinct(k, m);
  }

  lemma ConcatAssoc<T>(a: seq<T>, b: seq<T>, c: seq<T>)
    ensures a + (b + c) == a + b + c
  {
  }

  /** Emitting one more chunk with the next id keeps the chunks numbered. */
  lemma NumberedSnoc(chunks: seq<Chunk>, pieces: seq<Piece>, p: Piece)
    requires Numbered(chunks, pieces)
    ensures Numbered(chunks + [Chunk(ChunkId(|chunks|), p.content, p.metadata)], pieces + [p])
  {
    var c := chunks + [Chunk(ChunkId(|chunks|), p.content, p.metadata)];
    assert c[..|chunks|] == chunks;
    assert (pieces + [p])[..|pieces|] == pieces;
  }

  lemma ArticlesPiecesSnoc(issue: IssueRecord, articles: seq<ArticleRecord>, j: nat,
                           chunkSize: int, chunkOverlap: int, threshold: int, split: Splitter)
    requires j < |articles|
    ensures ArticlesPieces(issue, articles[..j + 1], chunkSize, chunkOverlap, threshold, split)
            == ArticlesPieces(issue, articles[..j], chunkSize, chunkOverlap, threshold, split)
               + ArticlePieces(issue, articles[j], chunkSize, chunkOverlap, threshold, split)
  {
    assert articles[..j + 1][..j] == articles[..j];
  }

  lemma IssuesPiecesSnoc(issues: seq<IssueRecord>, i: nat,
                         chunkSize: int, chunkOverlap: int, threshold: int, split: Splitter)
    requires i < |issues|
    ensures IssuesPieces(issues[..i + 1], chunkSize, chunkOverlap, threshold, split)
            == IssuesPieces(issues[..i], chunkSize, chunkOverlap, threshold, split)
               + ArticlesPieces(issues[i], ArticlesOf(issues[i]), chunkSize, chunkOverlap, threshold, split)
  {
    assert issues[..i + 1][..i] == issues[..i];
  }

  /** Appending one chunk with the next id and incrementing the counter. */
  method EmitChunk(chunks: seq<Chunk>, chunkId: nat, ghost done: seq<Piece>, p: Piece)
    returns (out: seq<Chunk>, nextId: nat)
    requires chunkId == |chunks| && Numbered(chunks, done)
    ensures out == chunks + [Chunk(ChunkId(chunkId), p.content, p.metadata)]
    ensures nextId == chunkId + 1 == |out|
    ensures Numbered(out, done + [p])
  {
    NumberedSnoc(chunks, done, p);
    out := chunks + [Chunk(ChunkId(chunkId), p.content, p.metadata)];
    nextId := chunkId + 1;
  }

  /** The inner loop of `rag/chunker.py` lines 57-70: one chunk per split text, numbered on
      from `chunkId`. */
  method EmitSplitChunks(chunks: seq<Chunk>, chunkId: nat, ghost done: seq<Piece>,
                         splitChunks: seq<string>, meta: Metadata)
    returns (out: seq<Chunk>, nextId: nat)
    requires chunkId == |chunks| && Numbered(chunks, done)
    ensures nextId == |out|
    ensures Numbered(out, done + Stamp(splitChunks, meta))
  {
    out, nextId := chunks, chunkId;
    assert Stamp(splitChunks[..0], meta) == [];
    assert done + [] == done;
    for m := 0 to |splitChunks|
      invariant nextId == |out|
      invariant Numbered(out, done + Stamp(splitChunks[..m], meta))
    {
      ghost var prev := done + Stamp(splitChunks[..m], meta);
      StampSnoc(splitChunks, m, meta);
      ConcatAssoc(done, Stamp(splitChunks[..m], meta), [Piece(splitChunks[m], meta)]);
      out, nextId := EmitChunk(out, nextId, prev, Piece(splitChunks[m], meta));
    }
    assert splitChunks[..|splitChunks|] == splitChunks;
  }

  /** The body of the article loop (`rag/chunker.py` lines 34-70): strips the content, skips
      a blank article, and otherwise appends one chunk or one chunk per split
      text, numbering them on from `chunkId`. `done` is what the chunks
      emitted so far stand for. */
  method EmitArticleChunks(chunks: seq<Chunk>, chunkId: nat, ghost done: seq<Piece>,
                           issue: IssueRecord, article: ArticleRecord, chunkSize: int, chunkOverlap: int,
                           lengthThreshold: int, split: Splitter)
    returns (out: seq<Chunk>, nextId: nat)
    requires chunkId == |chunks| && Numbered(chunks, done)
    ensures nextId == |out|
    ensures Numbered(out, done + ArticlePieces(issue, article, chunkSize, chunkOverlap, lengthThreshold, split))
  {
    out, nextId := chunks, chunkId;
    var content := Strip(article.content.GetOr(""));
    var meta := Metadata(article.title, issue.title, issue.url, article.image);
    ghost var mine := ArticlePieces(issue, article, chunkSize, chunkOverlap, lengthThreshold, split);
    if content != [] {
      var wordCount := |Words(content)|;
      if wordCount <= lengthThreshold {
        assert mine == [Piece(content, meta)];
        out, nextId := EmitChunk(out, nextId, done, Piece(content, meta));
      } else {
        var splitChunks := split(chunkSize, chunkOverlap, content);
        assert mine == Stamp(splitChunks, meta);
        out, nextId := EmitSplitChunks(out, nextId, done, splitChunks, meta);
      }
    } else {
      assert mine == [];
      assert done + mine == done;
    }
  }

  /** `auto_chunk_articles`: the loops over issues and their articles, with
      the running counter. */
  method AutoChunkArticles(issues: seq<IssueRecord>, chunkSize: int, chunkOverlap: int,
                           lengthThreshold: int, split: Splitter) returns (chunks: seq<Chunk>)
    ensures Numbered(chunks, IssuesPieces(issues, chunkSize, chunkOverlap, lengthThreshold, split))
  {
    chunks := [];
    var chunkId: nat := 0;
    for i := 0 to |issues|
      invariant chunkId == |chunks|
      invariant Numbered(chunks, IssuesPieces(issues[..i], chunkSize, chunkOverlap, lengthThreshold, split))
    {
      var issue := issues[i];
      var articles := ArticlesOf(issue);
      ghost var before := IssuesPieces(issues[..i], chunkSize, chunkOverlap, lengthThreshold, split);
      assert articles[..0] == [];
      assert before + [] == before;
      for j := 0 to |articles|
        invariant chunkId == |chunks|
        invariant Numbered(chunks, before + ArticlesPieces(issue, articles[..j], chunkSize, chunkOverlap, lengthThreshold, split))
      {
        ghost var sofar := ArticlesPieces(issue, articles[..j], chunkSize, chunkOverlap, lengthThreshold, split);
        chunks, chunkId := EmitArticleChunks(chunks, chunkId, before + sofar, issue, articles[j],
                                             chunkSize, chunkOverlap, lengthThreshold, split);
        ArticlesPiecesSnoc(issue, articles, j, chunkSize, chunkOverlap, lengthThreshold, split);
        ConcatAssoc(before, sofar, ArticlePieces(issue, articles[j], chunkSize, chunkOverlap, lengthThreshold, split));
      }
      assert articles[..|articles|] == articles;
      IssuesPiecesSnoc(issues, i, chunkSize, chunkOverlap, lengthThreshold, split);
    }
    assert issues[..|issues|] == issues;
  }

  /** What a single article yields, case by case. */
  lemma ArticlePiecesCases(issue: IssueRecord, article: ArticleRecord, chunkSize: int, chunkOverlap: int,
                           threshold: int, split: Splitter)
    ensures var content, meta := ArticleContent(article), ArticleMetadata(issue, article);
      var ps := ArticlePieces(issue, article, chunkSize, chunkOverlap, threshold, split);
      && (content == [] <==> AllDropped(article.content.GetOr(""), IsSpace))
      && (content == [] ==> ps == [])
      && (content != [] && |Words(content)| <= threshold ==> ps == [Piece(content, meta)])
      && (content != [] && |Words(content)| > threshold ==>
            |ps| == |split(chunkSize, chunkOverlap, content)|
            && forall k :: 0 <= k < |ps| ==> ps[k].content == split(chunkSize, chunkOverlap, content)[k])
      && (forall k :: 0 <= k < |ps| ==> ps[k].metadata == meta)
  {
    TrimEmpty(article.content.GetOr(""), IsSpace);
  }

  /** A non-blank article has at least one word, so with a threshold below
      one it always goes through the splitter. */
  lemma NonBlankHasWords(article: ArticleRecord)
    requires ArticleContent(article) != []
    ensures |Words(ArticleContent(article))| >= 1
  {
    var c := ArticleContent(article);
    WordsEmptyIffBlank(c);
    TrimEnds(article.content.GetOr(""), IsSpace);
    assert !IsSpace(c[0]);
  }

  /** The pieces of two consecutive runs of articles are those of the first
      followed by those of the second. */
  lemma {:induction false} ArticlesPiecesAppend(issue: IssueRecord, a: seq<ArticleRecord>, b: seq<ArticleRecord>,
                                                chunkSize: int, chunkOverlap: int, threshold: int, split: Splitter)
    ensures ArticlesPieces(issue, a + b, chunkSize, chunkOverlap, threshold, split)
            == ArticlesPieces(issue, a, chunkSize, chunkOverlap, threshold, split)
               + ArticlesPieces(issue, b, chunkSize, chunkOverlap, threshold, split)
    decreases |b|
  {
    if |b| == 0 {
      assert a + b == a;
    } else {
      var b' := b[..|b| - 1];
      assert (a + b)[..|a + b| - 1] == a + b';
      assert (a + b)[|a + b| - 1] == b[|b| - 1];
      var tail := ArticlePieces(issue, b[|b| - 1], chunkSize, chunkOverlap, threshold, split);
      assert ArticlesPieces(issue, a + b, chunkSize, chunkOverlap, threshold, split)
             == ArticlesPieces(issue, a + b', chunkSize, chunkOverlap, threshold, split) + tail;
      assert ArticlesPieces(issue, b, chunkSize, chunkOverlap, threshold, split)
             == ArticlesPieces(issue, b', chunkSize, chunkOverlap, threshold, split) + tail;
      ArticlesPiecesAppend(issue, a, b', chunkSize, chunkOverlap, threshold, split);
      ConcatAssoc(ArticlesPieces(issue, a, chunkSize, chunkOverlap, threshold, split),
                  ArticlesPieces(issue, b', chunkSize, chunkOverlap, threshold, split), tail);
    }
  }

  /** The pieces of two consecutive runs of issues are those of the first
      followed by those of the second: output order is issue order. */
  lemma {:induction false} IssuesPiecesAppend(a: seq<IssueRecord>, b: seq<IssueRecord>,
                                              chunkSize: int, chunkOverlap: int, threshold: int, split: Splitter)
    ensures IssuesPieces(a + b, chunkSize, chunkOverlap, threshold, split)
            == IssuesPieces(a, chunkSize, chunkOverlap, threshold, split)
               + IssuesPieces(b, chunkSize, chunkOverlap, threshold, split)
    decreases |b|
  {
    if |b| == 0 {
      assert a + b == a;
    } else {
      var b' := b[..|b| - 1];
      var last := b[|b| - 1];
      assert (a + b)[..|a + b| - 1] == a + b';
      assert (a + b)[|a + b| - 1] == last;
      var tail := ArticlesPieces(last, ArticlesOf(last), chunkSize, chunkOverlap, threshold, split);
      assert IssuesPieces(a + b, chunkSize, chunkOverlap, threshold, split)
             == IssuesPieces(a + b', chunkSize, chunkOverlap, threshold, split) + tail;
      assert IssuesPieces(b, chunkSize, chunkOverlap, threshold, split)
             == IssuesPieces(b', chunkSize, chunkOverlap, threshold, split) + tail;
      IssuesPiecesAppend(a, b', chunkSize, chunkOverlap, threshold, split);
      ConcatAssoc(IssuesPieces(a, chunkSize, chunkOverlap, threshold, split),
                  IssuesPieces(b', chunkSize, chunkOverlap, threshold, split), tail);
    }
  }

  /** How many chunks one article yields: 0, 1, or the number of split
      texts. */
  function PieceCount(article: ArticleRecord, chunkSize: int, chunkOverlap: int,
                      threshold: int, split: Splitter): nat
  {
    var content := ArticleContent(article);
    if content == [] then 0
    else if |Words(content)| <= threshold then 1
    else |split(chunkSize, chunkOverlap, content)|
  }

  /** The sum of `PieceCount` over the articles of the issues. */
  function TotalCount(issues: seq<IssueRecord>, chunkSize: int, chunkOverlap: int,
                      threshold: int, split: Splitter): nat
    decreases |issues|
  {
    if |issues| == 0 then 0
    else TotalCount(issues[1..], chunkSize, chunkOverlap, threshold, split)
         + ArticlesCount(ArticlesOf(issues[0]), chunkSize, chunkOverlap, threshold, split)
  }

  function ArticlesCount(articles: seq<ArticleRecord>, chunkSize: int, chunkOverlap: int,
                         threshold: int, split: Splitter): nat
    decreases |articles|
  {
    if |articles| == 0 then 0
    else PieceCount(articles[0], chunkSize, chunkOverlap, threshold, split)
         + ArticlesCount(articles[1..], chunkSize, chunkOverlap, threshold, split)
  }

  lemma {:induction false} ArticlesPiecesCount(issue: IssueRecord, articles: seq<ArticleRecord>,
                                               chunkSize: int, chunkOverlap: int, threshold: int, split: Splitter)
    ensures |ArticlesPieces(issue, articles, chunkSize, chunkOverlap, threshold, split)|
            == ArticlesCount(articles, chunkSize, chunkOverlap, threshold, split)
    decreases |articles|
  {
    if |articles| > 0 {
      assert articles == [articles[0]] + articles[1..];
      ArticlesPiecesAppend(issue, [articles[0]], articles[1..], chunkSize, chunkOverlap, threshold, split);
      assert [articles[0]][..0] == [];
      ArticlesPiecesCount(issue, articles[1..], chunkSize, chunkOverlap, threshold, split);
    }
  }

  /** The number of chunks is the sum over all articles of 0, 1 or the
      number of split texts. */
  lemma {:induction false} IssuesPiecesCount(issues: seq<IssueRecord>, chunkSize: int, chunkOverlap: int,
                                             threshold: int, split: Splitter)
    ensures |IssuesPieces(issues, chunkSize, chunkOverlap, threshold, split)|
            == TotalCount(issues, chunkSize, chunkOverlap, threshold, split)
    decreases |issues|
  {
    if |issues| > 0 {
      assert issues == [issues[0]] + issues[1..];
      IssuesPiecesAppend([issues[0]], issues[1..], chunkSize, chunkOverlap, threshold, split);
      assert [issues[0]][..0] == [];
      ArticlesPiecesCount(issues[0], ArticlesOf(issues[0]), chunkSize, chunkOverlap, threshold, split);
      IssuesPiecesCount(issues[1..], chunkSize, chunkOverlap, threshold, split);
    }
  }

  /** Every piece of one issue comes from one of its articles and carries
      exactly that article's metadata. */
  lemma {:induction false} ArticlesPiecesOrigin(issue: IssueRecord, articles: seq<ArticleRecord>, k: nat,
                                                chunkSize: int, chunkOverlap: int, threshold: int, split: Splitter)
    requires k < |ArticlesPieces(issue, articles, chunkSize, chunkOverlap, threshold, split)|
    ensures exists j :: 0 <= j < |articles|
              && ArticlesPieces(issue, articles, chunkSize, chunkOverlap, threshold, split)[k]
                 in ArticlePieces(issue, articles[j], chunkSize, chunkOverlap, threshold, split)
              && ArticlesPieces(issue, articles, chunkSize, chunkOverlap, threshold, split)[k].metadata
                 == ArticleMetadata(issue, articles[j])
    decreases |articles|
  {
    var n := |articles|;
    var init := ArticlesPieces(issue, articles[..n - 1], chunkSize, chunkOverlap, threshold, split);
    var last := ArticlePieces(issue, articles[n - 1], chunkSize, chunkOverlap, threshold, split);
    ArticlePiecesCases(issue, articles[n - 1], chunkSize, chunkOverlap, threshold, split);
    if k < |init| {
      ArticlesPiecesOrigin(issue, articles[..n - 1], k, chunkSize, chunkOverlap, threshold, split);
      var j :| 0 <= j < n - 1 && init[k] in ArticlePieces(issue, articles[..n - 1][j], chunkSize, chunkOverlap, threshold, split)
               && init[k].metadata == ArticleMetadata(issue, articles[..n - 1][j]);
      assert articles[..n - 1][j] == articles[j];
    } else {
      assert last[k - |init|] in last;
    }
  }

  /** Every chunk's metadata is exactly that of one article of one issue:
      its title and image, and the issue's title and url. */
  lemma {:induction false} IssuesPiecesOrigin(issues: seq<IssueRecord>, k: nat,
                                              chunkSize: int, chunkOverlap: int, threshold: int, split: Splitter)
    requires k < |IssuesPieces(issues, chunkSize, chunkOverlap, threshold, split)|
    ensures exists i, j :: 0 <= i < |issues| && 0 <= j < |ArticlesOf(issues[i])|
              && IssuesPieces(issues, chunkSize, chunkOverlap, threshold, split)[k].metadata
                 == ArticleMetadata(issues[i], ArticlesOf(issues[i])[j])
    decreases |issues|
  {
    var n := |issues|;
    var init := IssuesPieces(issues[..n - 1], chunkSize, chunkOverlap, threshold, split);
    var issue := issues[n - 1];
    if k < |init| {
      IssuesPiecesOrigin(issues[..n - 1], k, chunkSize, chunkOverlap, threshold, split);
      var i, j :| 0 <= i < n - 1 && 0 <= j < |ArticlesOf(issues[..n - 1][i])|
                  && init[k].metadata == ArticleMetadata(issues[..n - 1][i], ArticlesOf(issues[..n - 1][i])[j]);
      assert issues[..n - 1][i] == issues[i];
    } else {
      ArticlesPiecesOrigin(issue, ArticlesOf(issue), k - |init|, chunkSize, chunkOverlap, threshold, split);
    }
  }
}
