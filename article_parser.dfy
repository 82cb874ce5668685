/** Heading-based article extraction from one newsletter issue page
    (`extract_articles_with_images`). The page is modelled as the ordered
    list of sibling elements under one parent, and the headings are taken
    from that list. The source's `find_all` searches the whole tree, so
    this is the case of a page whose headings, figures and paragraphs are
    all siblings. */
module ArticleParser {
  import opened Wrappers
  import opened Text

  /** One element of the sibling list: its tag name; its markup (attributes
      and children), which together with the name is what Beautiful Soup
      compares when two tags are tested with `==` or `!=`; its text as
      `get_text(strip=True)` returns it; and the `src` of the first `img`
      inside it, None when it has no `img` or that `img` has no `src`. The
      text and the image source are read off the markup, so on a real page
      two nodes with the same name and markup agree on them too, and `==`
      on nodes is Beautiful Soup's equality. */
  datatype Node = Node(name: string, markup: string, text: string, imgSrc: Option<string>)

  /** An extracted article: the heading text, the lead image and the body
      parts joined by newlines. */
  datatype Article = Article(title: string, image: Option<string>, content: string)

  predicate IsHeading(name: string) {
    name == "h1" || name == "h2" || name == "h3"
  }

  /** The heading level of a heading tag name. */
  function Level(name: string): nat {
    if name == "h1" then 1 else if name == "h2" then 2 else 3
  }

  /** The positions, in document order, of the nodes named `tag` among the
      first `n` nodes (what `find_all(tag)` yields). */
  function Positions(nodes: seq<Node>, tag: string, n: nat): seq<nat>
    requires n <= |nodes|
    decreases n
  {
    if n == 0 then []
    else if nodes[n - 1].name == tag then Positions(nodes, tag, n - 1) + [n - 1]
    else Positions(nodes, tag, n - 1)
  }

  /** The positions are those of nodes named `tag`, they increase, and none
      is missing. */
  lemma {:induction false} PositionsShape(nodes: seq<Node>, tag: string, n: nat)
    requires n <= |nodes|
    ensures var r := Positions(nodes, tag, n);
      && (forall k :: 0 <= k < |r| ==> r[k] < n && nodes[r[k]].name == tag)
      && (forall k, m :: 0 <= k < m < |r| ==> r[k] < r[m])
      && (forall j :: 0 <= j < n && nodes[j].name == tag ==> j in r)
    decreases n
  {
    if n > 0 {
      PositionsShape(nodes, tag, n - 1);
      var r := Positions(nodes, tag, n);
      var q := Positions(nodes, tag, n - 1);
      if nodes[n - 1].name == tag {
        assert r == q + [n - 1];
        assert r[|q|] == n - 1;
        assert forall k :: 0 <= k < |q| ==> r[k] == q[k];
        forall j | 0 <= j < n && nodes[j].name == tag ensures j in r {
          if j < n - 1 {
            var i :| 0 <= i < |q| && q[i] == j;
            assert r[i] == j;
          }
        }
      }
    }
  }

  /** `find_all('h1') + find_all('h2') + find_all('h3')`: grouped by level,
      not in document order. Every entry is the position of a heading. */
  function HeadingList(nodes: seq<Node>): (hs: seq<nat>)
    ensures forall k :: 0 <= k < |hs| ==> hs[k] < |nodes| && IsHeading(nodes[hs[k]].name)
  {
    var p1 := Positions(nodes, "h1", |nodes|);
    var p2 := Positions(nodes, "h2", |nodes|);
    var p3 := Positions(nodes, "h3", |nodes|);
    PositionsShape(nodes, "h1", |nodes|);
    PositionsShape(nodes, "h2", |nodes|);
    PositionsShape(nodes, "h3", |nodes|);
    var hs := p1 + p2 + p3;
    assert forall k :: 0 <= k < |hs| ==>
      || (k < |p1| && hs[k] == p1[k])
      || (|p1| <= k < |p1| + |p2| && hs[k] == p2[k - |p1|])
      || (|p1| + |p2| <= k && hs[k] == p3[k - |p1| - |p2|]);
    hs
  }

  /** Every heading of the page is in the heading list. */
  lemma HeadingListComplete(nodes: seq<Node>, j: nat)
    requires j < |nodes| && IsHeading(nodes[j].name)
    ensures j in HeadingList(nodes)
  {
    var p1 := Positions(nodes, "h1", |nodes|);
    var p2 := Positions(nodes, "h2", |nodes|);
    var p3 := Positions(nodes, "h3", |nodes|);
    PositionsShape(nodes, "h1", |nodes|);
    PositionsShape(nodes, "h2", |nodes|);
    PositionsShape(nodes, "h3", |nodes|);
    assert HeadingList(nodes) == p1 + p2 + p3;
    if nodes[j].name == "h1" {
      assert j in p1;
    } else if nodes[j].name == "h2" {
      assert j in p2;
    } else {
      assert j in p3;
    }
  }

  /** The heading list holds no heading twice: the `h1`s come first, then
      the `h2`s, then the `h3`s, each group in document order. */
  lemma HeadingListOrder(nodes: seq<Node>, k: nat, m: nat)
    requires k < m < |HeadingList(nodes)|
    ensures var hs := HeadingList(nodes);
      hs[k] != hs[m]
      && (Level(nodes[hs[k]].name) < Level(nodes[hs[m]].name)
          || (Level(nodes[hs[k]].name) == Level(nodes[hs[m]].name) && hs[k] < hs[m]))
  {
    var p1 := Positions(nodes, "h1", |nodes|);
    var p2 := Positions(nodes, "h2", |nodes|);
    var p3 := Positions(nodes, "h3", |nodes|);
    PositionsShape(nodes, "h1", |nodes|);
    PositionsShape(nodes, "h2", |nodes|);
    PositionsShape(nodes, "h3", |nodes|);
    var hs := HeadingList(nodes);
    assert hs == p1 + p2 + p3;
    var n1, n2 := |p1|, |p1| + |p2|;
    if m < n1 {
      assert hs[k] == p1[k] && hs[m] == p1[m];
    } else if m < n2 {
      assert hs[m] == p2[m - n1];
      if k < n1 {
        assert hs[k] == p1[k];
      } else {
        assert hs[k] == p2[k - n1];
      }
    } else {
      assert hs[m] == p3[m - n2];
      if k < n1 {
        assert hs[k] == p1[k];
      } else if k < n2 {
        assert hs[k] == p2[k - n1];
      } else {
        assert hs[k] == p3[k - n2];
      }
    }
  }

  /** The title filter: an empty heading text, or one whose lowercase form
      contains "news", "issue", "message" or "subscribe". */
  predicate Excluded(title: string) {
    var lower := Lower(title);
    || title == []
    || Contains(lower, "news") || Contains(lower, "issue")
    || Contains(lower, "message") || Contains(lower, "subscribe")
  }

  /** The nearest node before position `h` named `figure`, whatever lies in
      between (other headings included). */
  function NearestFigure(nodes: seq<Node>, h: nat): (r: Option<nat>)
    requires h <= |nodes|
    ensures r.Some? ==> r.value < h && nodes[r.value].name == "figure"
                        && forall m :: r.value < m < h ==> nodes[m].name != "figure"
    ensures r.None? ==> forall m :: 0 <= m < h ==> nodes[m].name != "figure"
    decreases h
  {
    if h == 0 then None
    else if nodes[h - 1].name == "figure" then Some(h - 1)
    else NearestFigure(nodes, h - 1)
  }

  /** The lead image of the heading at `h`: the image source of its nearest
      preceding figure, None when there is no such figure or it has no
      image source. */
  function LeadImage(nodes: seq<Node>, h: nat): Option<string>
    requires h < |nodes|
  {
    match NearestFigure(nodes, h)
    case None => None
    case Some(j) => nodes[j].imgSrc
  }

  /** The backward search of `rag/article_parser.py` lines 33-39: step to the previous sibling
      until a figure is met or the list runs out. */
  method FindLeadImage(nodes: seq<Node>, h: nat) returns (image: Option<string>)
    requires h < |nodes|
    ensures image == LeadImage(nodes, h)
    ensures image.Some? <==> exists j :: 0 <= j < h && nodes[j].name == "figure"
                                         && (forall m :: j < m < h ==> nodes[m].name != "figure")
                                         && nodes[j].imgSrc.Some?
  {
    var prev: int := h - 1;
    while prev >= 0 && nodes[prev].name != "figure"
      invariant -1 <= prev < h
      invariant NearestFigure(nodes, h) == NearestFigure(nodes, prev + 1)
      decreases prev + 1
    {
      prev := prev - 1;
    }
    image := None;
    if prev >= 0 && nodes[prev].name == "figure" {
      var src := nodes[prev].imgSrc;
      if src.Some? {
        image := src;
      }
    }
  }

  /** The first position at or after `from` holding a node equal to `stop`
      (structural equality, as `!=` on tags is), or the end of the list. */
  function ScanEnd(nodes: seq<Node>, from: nat, stop: Option<Node>): (e: nat)
    requires from <= |nodes|
    ensures from <= e <= |nodes|
    ensures e < |nodes| ==> stop == Some(nodes[e])
    ensures forall k :: from <= k < e ==> stop != Some(nodes[k])
    decreases |nodes| - from
  {
    if from == |nodes| || stop == Some(nodes[from]) then from
    else ScanEnd(nodes, from + 1, stop)
  }

  /** With nothing to stop at, the forward scan runs to the end. */
  lemma {:induction false} ScanWithoutStopReachesEnd(nodes: seq<Node>, from: nat)
    requires from <= |nodes|
    ensures ScanEnd(nodes, from, None) == |nodes|
    decreases |nodes| - from
  {
    if from < |nodes| {
      ScanWithoutStopReachesEnd(nodes, from + 1);
    }
  }

  /** The scan never passes a node equal to the stop node. */
  lemma ScanStopsAtStopNode(nodes: seq<Node>, from: nat, k: nat)
    requires from <= k < |nodes|
    ensures ScanEnd(nodes, from, Some(nodes[k])) <= k
  {
  }

  predicate IsBodyTag(name: string) {
    name == "p" || name == "ul"
  }

  /** The texts of the `p` and `ul` nodes of `s`, in order; every other node
      is skipped. */
  function BodyTexts(s: seq<Node>): seq<string>
    decreases |s|
  {
    if |s| == 0 then []
    else BodyTexts(s[..|s| - 1]) + (if IsBodyTag(s[|s| - 1].name) then [s[|s| - 1].text] else [])
  }

  /** Nothing is collected exactly when no node is a `p` or a `ul`. */
  lemma {:induction false} BodyTextsEmpty(s: seq<Node>)
    ensures BodyTexts(s) == [] <==> forall k :: 0 <= k < |s| ==> !IsBodyTag(s[k].name)
    decreases |s|
  {
    if |s| > 0 {
      BodyTextsEmpty(s[..|s| - 1]);
      assert forall k :: 0 <= k < |s| - 1 ==> s[..|s| - 1][k] == s[k];
    }
  }

  /** Collecting over two consecutive stretches collects over each in turn. */
  lemma {:induction false} BodyTextsAppend(a: seq<Node>, b: seq<Node>)
    ensures BodyTexts(a + b) == BodyTexts(a) + BodyTexts(b)
    decreases |b|
  {
    if |b| > 0 {
      assert (a + b)[..|a + b| - 1] == a + b[..|b| - 1];
      assert (a + b)[|a + b| - 1] == b[|b| - 1];
      BodyTextsAppend(a, b[..|b| - 1]);
    } else {
      assert a + b == a;
    }
  }

  /** The body parts of the heading at `h`: the `p`/`ul` texts after it, up
      to the first node equal to `stop` or the end. */
  function BodyParts(nodes: seq<Node>, h: nat, stop: Option<Node>): seq<string>
    requires h < |nodes|
  {
    BodyTexts(nodes[h + 1..ScanEnd(nodes, h + 1, stop)])
  }

  /** The forward scan of `rag/article_parser.py` lines 41-48. */
  method CollectBodyParts(nodes: seq<Node>, h: nat, stop: Option<Node>) returns (parts: seq<string>)
    requires h < |nodes|
    ensures parts == BodyParts(nodes, h, stop)
  {
    var current := h + 1;
    parts := [];
    ghost var e := ScanEnd(nodes, h + 1, stop);
    while current < |nodes| && Some(nodes[current]) != stop
      invariant h + 1 <= current <= e
      invariant parts == BodyTexts(nodes[h + 1..current])
      decreases |nodes| - current
    {
      ghost var seg := nodes[h + 1..current + 1];
      assert seg[..|seg| - 1] == nodes[h + 1..current];
      if IsBodyTag(nodes[current].name) {
        parts := parts + [nodes[current].text];
      }
      current := current + 1;
    }
  }

  /** The node the scan of the `i`-th heading stops at: the next entry of
      the heading list, or nothing for the last one. */
  function NextStop(nodes: seq<Node>, hs: seq<nat>, i: nat): Option<Node>
    requires forall k :: 0 <= k < |hs| ==> hs[k] < |nodes|
  {
    if i + 1 < |hs| then Some(nodes[hs[i + 1]]) else None
  }

  /** What the `i`-th entry of the heading list contributes: nothing when its
      title is filtered out or no body part follows it, otherwise one
      article. */
  function HeadingArticle(nodes: seq<Node>, hs: seq<nat>, i: nat): Option<Article>
    requires forall k :: 0 <= k < |hs| ==> hs[k] < |nodes|
    requires i < |hs|
  {
    var title := nodes[hs[i]].text;
    if Excluded(title) then None
    else
      var parts := BodyParts(nodes, hs[i], NextStop(nodes, hs, i));
      if parts == [] then None
      else Some(Article(title, LeadImage(nodes, hs[i]), Join(parts, "\n")))
  }

  /** What each entry of the heading list contributes, in list order. */
  function HeadingResults(nodes: seq<Node>, hs: seq<nat>): (r: seq<Option<Article>>)
    requires forall k :: 0 <= k < |hs| ==> hs[k] < |nodes|
    ensures |r| == |hs| && forall i :: 0 <= i < |hs| ==> r[i] == HeadingArticle(nodes, hs, i)
  {
    seq(|hs|, i requires 0 <= i < |hs| => HeadingArticle(nodes, hs, i))
  }

  /** The whole result of `extract_articles_with_images`. */
  function Articles(nodes: seq<Node>): seq<Article> {
    Somes(HeadingResults(nodes, HeadingList(nodes)))
  }

  /** One turn of the heading loop (`rag/article_parser.py` lines 27-57): the title filter, the
      backward image search, the forward body scan and the empty-body
      check. */
  method ExtractHeading(nodes: seq<Node>, hs: seq<nat>, i: nat) returns (r: Option<Article>)
    requires forall k :: 0 <= k < |hs| ==> hs[k] < |nodes|
    requires i < |hs|
    ensures r == HeadingArticle(nodes, hs, i)
  {
    var h := hs[i];
    var title := nodes[h].text;
    r := None;
    if !Excluded(title) {
      var image := FindLeadImage(nodes, h);
      var next := if i + 1 < |hs| then Some(nodes[hs[i + 1]]) else None;
      var parts := CollectBodyParts(nodes, h, next);
      if parts != [] {
        r := Some(Article(title, image, Join(parts, "\n")));
      }
    }
  }

  /** `extract_articles_with_images`, step by step as the source runs it. */
  method ExtractArticlesWithImages(nodes: seq<Node>) returns (articles: seq<Article>)
    ensures articles == Articles(nodes)
  {
    var hs := HeadingList(nodes);
    ghost var results := HeadingResults(nodes, hs);
    articles := [];
    assert results[..0] == [];
    for i := 0 to |hs|
      invariant articles == Somes(results[..i])
    {
      assert results[..i + 1][..i] == results[..i];
      var r := ExtractHeading(nodes, hs, i);
      if r.Some? {
        articles := articles + [r.value];
      }
    }
    assert results[..|hs|] == results;
  }

  /** A heading yields an article exactly when its title passes the filter
      and some `p` or `ul` node lies between it and the end of its scan. */
  lemma HeadingYieldsArticle(nodes: seq<Node>, hs: seq<nat>, i: nat)
    requires forall k :: 0 <= k < |hs| ==> hs[k] < |nodes|
    requires i < |hs|
    ensures HeadingArticle(nodes, hs, i).Some?
            <==> !Excluded(nodes[hs[i]].text)
                 && exists k :: hs[i] < k < ScanEnd(nodes, hs[i] + 1, NextStop(nodes, hs, i))
                                && IsBodyTag(nodes[k].name)
  {
    var h := hs[i];
    var e := ScanEnd(nodes, h + 1, NextStop(nodes, hs, i));
    var s := nodes[h + 1..e];
    assert forall k :: 0 <= k < |s| ==> s[k] == nodes[h + 1 + k];
    BodyTextsEmpty(s);
    if exists k :: h < k < e && IsBodyTag(nodes[k].name) {
      var k :| h < k < e && IsBodyTag(nodes[k].name);
      assert IsBodyTag(s[k - h - 1].name);
    }
  }

  /** A heading after which no `p` or `ul` comes before the scan stops
      yields nothing; in particular one directly followed by the node it
      stops at. */
  lemma NoBodyNoArticle(nodes: seq<Node>, hs: seq<nat>, i: nat)
    requires forall k :: 0 <= k < |hs| ==> hs[k] < |nodes|
    requires i < |hs|
    requires forall k :: hs[i] < k < ScanEnd(nodes, hs[i] + 1, NextStop(nodes, hs, i)) ==> !IsBodyTag(nodes[k].name)
    ensures HeadingArticle(nodes, hs, i) == None
  {
    var h := hs[i];
    var s := nodes[h + 1..ScanEnd(nodes, h + 1, NextStop(nodes, hs, i))];
    assert forall k :: 0 <= k < |s| ==> s[k] == nodes[h + 1 + k];
    BodyTextsEmpty(s);
  }

  /** At most one article per heading, and the articles of an earlier part
      of the heading list come before those of the rest. */
  lemma ArticlesInHeadingOrder(nodes: seq<Node>, m: nat)
    requires m <= |HeadingList(nodes)|
    ensures |Articles(nodes)| <= |HeadingList(nodes)|
    ensures Somes(HeadingResults(nodes, HeadingList(nodes))[..m]) <= Articles(nodes)
  {
    var rs := HeadingResults(nodes, HeadingList(nodes));
    SomesLength(rs);
    SomesPrefix(rs, m);
  }

  /** Every extracted article comes from an entry of the heading list: its
      title is that heading's text, which is non-empty and passes the title
      filter; its image is that heading's lead image; and its content is
      the newline join of that heading's body parts, of which there is at
      least one. */
  lemma ArticlesFromHeadings(nodes: seq<Node>, a: Article)
    requires a in Articles(nodes)
    ensures var hs := HeadingList(nodes);
      exists i :: 0 <= i < |hs| && IsHeading(nodes[hs[i]].name)
                  && a.title == nodes[hs[i]].text && a.title != [] && !Excluded(a.title)
                  && a.image == LeadImage(nodes, hs[i])
                  && BodyParts(nodes, hs[i], NextStop(nodes, hs, i)) != []
                  && a.content == Join(BodyParts(nodes, hs[i], NextStop(nodes, hs, i)), "\n")
  {
    var hs := HeadingList(nodes);
    var rs := HeadingResults(nodes, hs);
    SomesTrace(rs, a);
    var i :| 0 <= i < |hs| && rs[i] == Some(a);
    assert IsHeading(nodes[hs[i]].name) && a.title == nodes[hs[i]].text;
  }

  /** Conversely, every article a heading of the list yields is in the
      result. */
  lemma QualifyingHeadingEmitted(nodes: seq<Node>, i: nat)
    requires i < |HeadingList(nodes)|
    requires HeadingArticle(nodes, HeadingList(nodes), i).Some?
    ensures HeadingArticle(nodes, HeadingList(nodes), i).value in Articles(nodes)
  {
    var hs := HeadingList(nodes);
    SomesKeeps(HeadingResults(nodes, hs), i);
  }

  /** A page of three headings: an h1 "A", an h2 "B" with paragraph "y",
      then an h1 "C" with no paragraph of its own. */
  function CrossLevelPage(): seq<Node> {
    [Node("h1", "a", "A", None), Node("h2", "b", "B", None),
     Node("p", "y", "y", None), Node("h1", "c", "C", None)]
  }

  lemma CrossLevelHeadings()
    ensures HeadingList(CrossLevelPage()) == [0, 3, 1]
  {
    var nodes := CrossLevelPage();
    CrossLevelH1();
    CrossLevelOthers();
    assert |nodes| == 4;
  }

  lemma CrossLevelH1()
    ensures Positions(CrossLevelPage(), "h1", 4) == [0, 3]
  {
    var nodes := CrossLevelPage();
    CrossLevelFirstH1();
    assert nodes[3].name == "h1";
    assert Positions(nodes, "h1", 4) == Positions(nodes, "h1", 3) + [3];
  }

  lemma CrossLevelFirstH1()
    ensures Positions(CrossLevelPage(), "h1", 3) == [0]
  {
    var nodes := CrossLevelPage();
    assert Positions(nodes, "h1", 1) == [0];
    assert nodes[1].name[1] != "h1"[1];
    assert Positions(nodes, "h1", 2) == [0];
    assert |nodes[2].name| != |"h1"|;
  }

  lemma CrossLevelOthers()
    ensures Positions(CrossLevelPage(), "h2", 4) == [1]
    ensures Positions(CrossLevelPage(), "h3", 4) == []
  {
    var nodes := CrossLevelPage();
    assert nodes[0].name[1] != "h2"[1] && nodes[3].name[1] != "h2"[1];
    assert Positions(nodes, "h2", 1) == [];
    assert Positions(nodes, "h2", 2) == [1];
    assert Positions(nodes, "h2", 3) == [1];
    assert Positions(nodes, "h3", 1) == [];
    assert Positions(nodes, "h3", 2) == [];
    assert Positions(nodes, "h3", 3) == [];
  }

  lemma CrossLevelTitlesKept()
    ensures !Excluded("A") && !Excluded("B")
  {
    assert Lower("A") == "a" && Lower("B") == "b";
  }

  lemma BodyTextsOfTwo(a: Node, b: Node)
    ensures BodyTexts([a, b]) == (if IsBodyTag(a.name) then [a.text] else [])
                                 + (if IsBodyTag(b.name) then [b.text] else [])
  {
    var ta := if IsBodyTag(a.name) then [a.text] else [];
    assert [a, b][..1] == [a];
    assert [a][..0] == [];
    assert BodyTexts([a]) == [] + ta;
  }

  lemma CrossLevelBodies()
    ensures BodyParts(CrossLevelPage(), 0, Some(CrossLevelPage()[3])) == ["y"]
    ensures BodyParts(CrossLevelPage(), 3, Some(CrossLevelPage()[1])) == []
    ensures BodyParts(CrossLevelPage(), 1, None) == ["y"]
  {
    var nodes := CrossLevelPage();
    assert ScanEnd(nodes, 1, Some(nodes[3])) == 3;
    assert nodes[1..3] == [nodes[1], nodes[2]];
    BodyTextsOfTwo(nodes[1], nodes[2]);
    assert ScanEnd(nodes, 4, Some(nodes[1])) == 4;
    assert nodes[4..4] == [];
    ScanWithoutStopReachesEnd(nodes, 2);
    assert nodes[2..4] == [nodes[2], nodes[3]];
    BodyTextsOfTwo(nodes[2], nodes[3]);
  }

  lemma CrossLevelResults()
    ensures HeadingResults(CrossLevelPage(), [0, 3, 1])
            == [Some(Article("A", None, "y")), None, Some(Article("B", None, "y"))]
  {
    CrossLevelFirst();
    CrossLevelRest();
  }

  lemma CrossLevelFirst()
    ensures HeadingArticle(CrossLevelPage(), [0, 3, 1], 0) == Some(Article("A", None, "y"))
  {
    var nodes := CrossLevelPage();
    CrossLevelTitlesKept();
    CrossLevelBodies();
    assert LeadImage(nodes, 0) == None;
    assert NextStop(nodes, [0, 3, 1], 0) == Some(nodes[3]);
  }

  lemma CrossLevelRest()
    ensures HeadingArticle(CrossLevelPage(), [0, 3, 1], 1) == None
    ensures HeadingArticle(CrossLevelPage(), [0, 3, 1], 2) == Some(Article("B", None, "y"))
  {
    var nodes := CrossLevelPage();
    CrossLevelTitlesKept();
    CrossLevelBodies();
    assert LeadImage(nodes, 1) == None;
    assert NextStop(nodes, [0, 3, 1], 1) == Some(nodes[1]);
    assert NextStop(nodes, [0, 3, 1], 2) == None;
  }

  /** Because the heading list is grouped by level, the h1 "A" scans on to
      the next h1 and takes in the h2 section's paragraph, the h1 "C" scans
      from its own position towards the h2 "B" it never meets and finds
      nothing, and the h2 "B", coming last in the list, takes the same
      paragraph again. */
  lemma CrossLevelArticles()
    ensures Articles(CrossLevelPage()) == [Article("A", None, "y"), Article("B", None, "y")]
  {
    CrossLevelHeadings();
    CrossLevelResults();
    var a, b := Article("A", None, "y"), Article("B", None, "y");
    var xs: seq<Option<Article>> := [Some(a), None, Some(b)];
    assert Articles(CrossLevelPage()) == Somes(xs);
    assert xs[..2] == [Some(a), None];
    assert xs[..2][..1] == [Some(a)];
    assert [Some(a)][..0] == [];
    assert Somes([Some(a)]) == [a];
    assert Somes(xs[..2]) == [a];
  }
}
