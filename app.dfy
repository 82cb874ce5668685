/** The caller-side handling of the language model's reply
    (`extract_json_from_response` and the choice between structured answers
    and raw text). The JSON parser is a parameter: it gives the parsed value,
    or None where `json.loads` raises `JSONDecodeError`. */
module ResponseJson {
  import opened Wrappers
  import opened Text

  type Parser<J> = string -> Option<J>

  /** How extraction fails: the `JSONDecodeError` of parsing the brace span,
      or the `ValueError` raised when there is no span to parse. */
  datatype ExtractError = DecodeError | NoJsonSpan

  /** Python's `s[i:]` for any integer `i`: the suffix of `s` that drops
      the first `i` characters, or keeps the last `-i` characters when `i`
      is negative, clamped to the whole string and to the empty one. */
  function SliceFrom(s: string, i: int): (r: string)
    ensures |r| <= |s| && r == s[|s| - |r|..]
    ensures 0 <= i <= |s| ==> |r| == |s| - i
    ensures i > |s| ==> r == []
    ensures i < 0 ==> |r| == if -i <= |s| then -i else |s|
  {
    if i >= 0 then (if i <= |s| then s[i..] else [])
    else s[if |s| + i < 0 then 0 else |s| + i..]
  }

  /** `app.py` lines 25-26: when the lowercase, stripped reply starts with
      "json", keep the reply from the position of the first "{" of its
      lowercase form; `find` gives -1 when there is none. */
  function CutLanguageTag(text: string): string {
    if StartsWith(Strip(Lower(text)), "json") then SliceFrom(text, Find(Lower(text), '{'))
    else text
  }

  /** `app.py` line 27: strip whitespace, then strip backticks. */
  function Candidate(text: string): string {
    Trim(Strip(CutLanguageTag(text)), IsBacktick)
  }

  /** A match of the regular expression `\{.*\}` with DOTALL: a "{" at `i`
      and a "}" at a later position `j`. */
  predicate IsBraceMatch(s: string, i: int, j: int) {
    0 <= i < j < |s| && s[i] == '{' && s[j] == '}'
  }

  /** The match `re.search` reports for `\{.*\}`: no match starts further
      left, and none with the same start ends further right. */
  ghost predicate IsLeftmostLongest(s: string, i: int, j: int) {
    && IsBraceMatch(s, i, j)
    && forall i2, j2 :: IsBraceMatch(s, i2, j2) ==> i <= i2 && (i2 == i ==> j2 <= j)
  }

  /** What `re.search(r'\{.*\}', s, re.DOTALL)` finds, as start and end
      positions: the leftmost possible start and, for it, the longest
      match, which is the first "{" to the last "}"; None when no "}"
      follows a "{". */
  function BraceSpan(s: string): (r: Option<(nat, nat)>)
    ensures r.Some? ==> IsBraceMatch(s, r.value.0, r.value.1)
                        && forall i, j :: IsBraceMatch(s, i, j) ==>
                             r.value.0 <= i && (i == r.value.0 ==> j <= r.value.1)
    ensures r.None? <==> forall i, j :: !IsBraceMatch(s, i, j)
  {
    var i, j := Find(s, '{'), FindLast(s, '}');
    if i >= 0 && j > i then Some((i, j)) else None
  }

  /** `extract_json_from_response`: the whole candidate if it parses, else
      the brace span if there is one (its parse failure propagates), else
      the `ValueError`. */
  function ExtractJson<J>(text: string, parse: Parser<J>): Result<J, ExtractError> {
    var c := Candidate(text);
    match parse(c)
    case Some(v) => Ok(v)
    case None =>
      match BraceSpan(c)
      case None => Err(NoJsonSpan)
      case Some((i, j)) =>
        match parse(c[i..j + 1])
        case Some(v) => Ok(v)
        case None => Err(DecodeError)
  }

  /** What an extraction result means in terms of the candidate text: a
      value is the parse of the whole candidate or of a "{" ... "}" stretch
      of it; the `ValueError` comes exactly when neither the whole parses
      nor any such stretch exists; a `DecodeError` only when the whole does
      not parse and a "{" ... "}" stretch that does not parse exists.
      `ExtractJsonOrder` says which of them is taken. */
  lemma ExtractJsonMeaning<J>(text: string, parse: Parser<J>)
    ensures var c, r := Candidate(text), ExtractJson(text, parse);
      && (r.Ok? ==> parse(c) == Some(r.value)
                    || exists i, j :: IsBraceMatch(c, i, j) && parse(c[i..j + 1]) == Some(r.value))
      && (r == Err(NoJsonSpan) <==> parse(c).None? && forall i, j :: !IsBraceMatch(c, i, j))
      && (r == Err(DecodeError) ==>
            parse(c).None? && exists i, j :: IsBraceMatch(c, i, j) && parse(c[i..j + 1]).None?)
  {
    var c := Candidate(text);
    if parse(c).None? && BraceSpan(c).Some? {
      var (i, j) := BraceSpan(c).value;
      assert IsBraceMatch(c, i, j);
    }
  }

  /** A whole candidate that parses wins; otherwise the result is that of
      parsing the greedy stretch, from the leftmost "{" to the last "}". */
  lemma ExtractJsonOrder<J>(text: string, parse: Parser<J>)
    ensures var c, r := Candidate(text), ExtractJson(text, parse);
      && (parse(c).Some? ==> r == Ok(parse(c).value))
      && (forall i, j :: IsLeftmostLongest(c, i, j) && parse(c).None? ==>
            r == if parse(c[i..j + 1]).Some? then Ok(parse(c[i..j + 1]).value) else Err(DecodeError))
  {
    var c := Candidate(text);
    forall i, j | IsLeftmostLongest(c, i, j) && parse(c).None?
      ensures ExtractJson(text, parse)
              == if parse(c[i..j + 1]).Some? then Ok(parse(c[i..j + 1]).value) else Err(DecodeError)
    {
      var (i0, j0) := BraceSpan(c).value;
      assert i0 == i && j0 == j;
    }
  }

  /** Lowercasing leaves every "{" where it is. */
  lemma FindBraceIgnoresCase(text: string)
    ensures Find(Lower(text), '{') == Find(text, '{')
  {
    var l := Lower(text);
    assert forall k :: 0 <= k < |text| ==> (l[k] == '{' <==> text[k] == '{');
  }

  /** A reply that starts with the language tag "json" (in any case, after
      whitespace) is cut at its first "{"; if it has none, only its last
      character is kept. Any other reply is left as it is. */
  lemma CutLanguageTagCases(text: string)
    ensures var i := Find(text, '{');
      && (!StartsWith(Strip(Lower(text)), "json") ==> CutLanguageTag(text) == text)
      && (StartsWith(Strip(Lower(text)), "json") && i >= 0 ==>
            CutLanguageTag(text) == text[i..] && CutLanguageTag(text)[0] == '{')
      && (StartsWith(Strip(Lower(text)), "json") && i < 0 ==>
            |text| >= 4 && CutLanguageTag(text) == [text[|text| - 1]])
  {
    FindBraceIgnoresCase(text);
    TrimLength(Lower(text), IsSpace);
  }

  /** Stripping a reply fenced in backticks leaves what is inside the
      fences, tag included. */
  lemma FencedCandidate(inner: string)
    requires |inner| >= 1 && inner[0] != '`' && inner[|inner| - 1] != '`'
    ensures Candidate("```" + inner + "```") == inner
  {
    var text := "```" + inner + "```";
    assert !StartsWith(Strip(Lower(text)), "json") by {
      assert TrimLeft(Lower(text), IsSpace) == Lower(text);
      TrimRightShape(Lower(text), IsSpace);
      var r := Strip(Lower(text));
      if |r| >= 4 {
        assert r[0] == Lower(text)[0] == '`';
      }
    }
    assert Strip(text) == text by {
      assert TrimLeft(text, IsSpace) == text;
      assert TrimRight(text, IsSpace) == text;
    }
    TrimLeftSkips("```", inner + "```", IsBacktick);
    assert text == "```" + (inner + "```");
    assert TrimLeft(inner + "```", IsBacktick) == inner + "```";
    TrimRightSkips(inner, "```", IsBacktick);
    assert TrimRight(inner, IsBacktick) == inner;
  }

  /** Around an object, text without "{" before it and without "}" after
      it leaves the object as the brace span. */
  lemma WrappedSpan(pre: string, body: string, post: string)
    requires forall k :: 0 <= k < |pre| ==> pre[k] != '{'
    requires forall k :: 0 <= k < |post| ==> post[k] != '}'
    requires |body| >= 2 && body[0] == '{' && body[|body| - 1] == '}'
    ensures var c := pre + body + post;
      BraceSpan(c) == Some((|pre|, |pre| + |body| - 1)) && c[|pre|..|pre| + |body|] == body
  {
    var c := pre + body + post;
    var i0, j0 := |pre|, |pre| + |body| - 1;
    assert c[i0] == '{' && c[j0] == '}';
    forall k | 0 <= k < i0 ensures c[k] != '{' {
      assert c[k] == pre[k];
    }
    forall k | j0 < k < |c| ensures c[k] != '}' {
      assert c[k] == post[k - j0 - 1];
    }
    assert Find(c, '{') == i0;
    assert FindLast(c, '}') == j0;
    assert c[i0..j0 + 1] == body;
  }

  /** In "json" + whitespace + object + whitespace the brace span is the
      object. */
  lemma FencedSpan(ws1: string, body: string, ws2: string)
    requires AllDropped(ws1, IsSpace) && AllDropped(ws2, IsSpace)
    requires |body| >= 2 && body[0] == '{' && body[|body| - 1] == '}'
    ensures var c := "json" + ws1 + body + ws2;
      BraceSpan(c) == Some((4 + |ws1|, 4 + |ws1| + |body| - 1))
      && c[4 + |ws1|..4 + |ws1| + |body|] == body
  {
    var pre := "json" + ws1;
    forall k | 0 <= k < |pre| ensures pre[k] != '{' {
      if k >= 4 { assert pre[k] == ws1[k - 4]; }
    }
    WrappedSpan(pre, body, ws2);
  }

  /** A fenced reply "```json" + object + "```" (whitespace allowed around
      the object) fails the whole-text parse when the parser rejects the
      leftover "json" tag, and then yields the parse of the object itself
      through the brace span. */
  lemma FencedReply<J>(ws1: string, body: string, ws2: string, parse: Parser<J>)
    requires AllDropped(ws1, IsSpace) && AllDropped(ws2, IsSpace)
    requires |body| >= 2 && body[0] == '{' && body[|body| - 1] == '}'
    requires parse("json" + ws1 + body + ws2) == None
    ensures Candidate("```json" + ws1 + body + ws2 + "```") == "json" + ws1 + body + ws2
    ensures ExtractJson("```json" + ws1 + body + ws2 + "```", parse)
            == if parse(body).Some? then Ok(parse(body).value) else Err(DecodeError)
  {
    var inner := "json" + ws1 + body + ws2;
    assert "```json" + ws1 + body + ws2 + "```" == "```" + inner + "```";
    assert inner[|inner| - 1] != '`' by {
      if |ws2| > 0 {
        assert inner[|inner| - 1] == ws2[|ws2| - 1];
      } else {
        assert inner[|inner| - 1] == body[|body| - 1];
      }
    }
    FencedCandidate(inner);
    FencedSpan(ws1, body, ws2);
  }

  /** A reply with no "{" at all that does not parse as a whole raises the
      `ValueError`. */
  lemma ProseReply<J>(text: string, parse: Parser<J>)
    requires forall k :: 0 <= k < |text| ==> text[k] != '{'
    requires parse(Candidate(text)) == None
    ensures ExtractJson(text, parse) == Err(NoJsonSpan)
  {
    CutLanguageTagCases(text);
    var cut := CutLanguageTag(text);
    assert forall k :: 0 <= k < |cut| ==> cut[k] != '{';
    TrimAvoids(cut, IsSpace, '{');
    TrimAvoids(Strip(cut), IsBacktick, '{');
    assert Find(Candidate(text), '{') == -1;
  }

  /** What the chat history shows for an assistant message. */
  datatype Display<J> =
    | Structured(reply: J)
    | RawText(text: string)
    | Raised(error: ExtractError)
    | NotAnObject(value: J)

  /** `app.py` lines 67-75: the structured answers when the extracted value
      is an object with a truthy `answers` field, the raw message when it is
      an object without one. An extraction error is not caught there and
      propagates, and an extracted value that is not an object (a list, a
      number, a string, `null`) has no `get`, so the `AttributeError`
      propagates too. */
  function ChooseDisplay<J>(content: string, parse: Parser<J>, isObject: J -> bool, hasAnswers: J -> bool)
    : (d: Display<J>)
    ensures var x := ExtractJson(content, parse);
      && (d.Structured? <==> x.Ok? && isObject(x.value) && hasAnswers(x.value))
      && (d.RawText? <==> x.Ok? && isObject(x.value) && !hasAnswers(x.value))
      && (d.NotAnObject? <==> x.Ok? && !isObject(x.value))
      && (d.Raised? <==> x.Err?)
      && (d.Structured? ==> d.reply == x.value)
      && (d.NotAnObject? ==> d.value == x.value)
      && (d.RawText? ==> d.text == content)
      && (d.Raised? ==> d.error == x.error)
  {
    match ExtractJson(content, parse)
    case Ok(js) =>
      if !isObject(js) then NotAnObject(js)
      else if hasAnswers(js) then Structured(js) else RawText(content)
    case Err(e) => Raised(e)
  }

  /** A prose reply without "{" that does not parse is not shown as raw
      text: its extraction error propagates. */
  lemma ProseReplyRaises<J>(content: string, parse: Parser<J>, isObject: J -> bool, hasAnswers: J -> bool)
    requires forall k :: 0 <= k < |content| ==> content[k] != '{'
    requires parse(Candidate(content)) == None
    ensures ChooseDisplay(content, parse, isObject, hasAnswers) == Raised(NoJsonSpan)
  {
    ProseReply(content, parse);
  }
}
