/** String primitives with the meaning Python gives them: `str.isspace`,
    `str.strip`, `str.lower` (ASCII letters), the `in` operator on strings,
    `str.find`, `str.join`, `str.split()` and the decimal rendering of an
    `int` in an f-string. */
module Text {

  /** Python's `str.isspace()` for one character: the characters that
      `strip()` and `split()` without arguments treat as whitespace. */
  predicate IsSpace(c: char) {
    || c == ' ' || c == '\t' || c == '\n' || c == '\r'
    || c == '\U{000B}' || c == '\U{000C}'
    || ('\U{001C}' <= c <= '\U{001F}')
    || c == '\U{0085}' || c == '\U{00A0}' || c == '\U{1680}'
    || ('\U{2000}' <= c <= '\U{200A}')
    || c == '\U{2028}' || c == '\U{2029}' || c == '\U{202F}'
    || c == '\U{205F}' || c == '\U{3000}'
  }

  predicate IsBacktick(c: char) {
    c == '`'
  }

  /** All characters of `s` satisfy `drop`. */
  predicate AllDropped(s: string, drop: char -> bool) {
    forall k :: 0 <= k < |s| ==> drop(s[k])
  }

  /** Removes the leading characters that satisfy `drop`. */
  function TrimLeft(s: string, drop: char -> bool): string
    decreases |s|
  {
    if |s| > 0 && drop(s[0]) then TrimLeft(s[1..], drop) else s
  }

  /** Removes the trailing characters that satisfy `drop`. */
  function TrimRight(s: string, drop: char -> bool): string
    decreases |s|
  {
    if |s| > 0 && drop(s[|s| - 1]) then TrimRight(s[..|s| - 1], drop) else s
  }

  lemma {:induction false} TrimLeftShape(s: string, drop: char -> bool)
    ensures var r := TrimLeft(s, drop);
      && |r| <= |s| && r == s[|s| - |r|..]
      && (forall k :: 0 <= k < |s| - |r| ==> drop(s[k]))
      && (r == [] || !drop(r[0]))
    decreases |s|
  {
    if |s| > 0 && drop(s[0]) {
      TrimLeftShape(s[1..], drop);
    }
  }

  lemma {:induction false} TrimRightShape(s: string, drop: char -> bool)
    ensures var r := TrimRight(s, drop);
      && |r| <= |s| && r == s[..|r|]
      && (forall k :: |r| <= k < |s| ==> drop(s[k]))
      && (r == [] || !drop(r[|r| - 1]))
    decreases |s|
  {
    if |s| > 0 && drop(s[|s| - 1]) {
      TrimRightShape(s[..|s| - 1], drop);
    }
  }

  /** Python's `s.strip(chars)`: removes the characters that satisfy `drop`
      from both ends. Its meaning is stated by `TrimShape`. */
  function Trim(s: string, drop: char -> bool): string {
    TrimRight(TrimLeft(s, drop), drop)
  }

  /** The number of characters `Trim` removes at the front. */
  function LeadLength(s: string, drop: char -> bool): int {
    |s| - |TrimLeft(s, drop)|
  }

  /** What `Trim` keeps neither starts nor ends with a dropped character. */
  lemma TrimEnds(s: string, drop: char -> bool)
    ensures var r := Trim(s, drop);
      r == [] || (!drop(r[0]) && !drop(r[|r| - 1]))
  {
    var l := TrimLeft(s, drop);
    TrimLeftShape(s, drop);
    var r := TrimRight(l, drop);
    TrimRightShape(l, drop);
    if r != [] {
      assert r[0] == l[0];
    }
  }

  lemma DroppedPrefix(s: string, drop: char -> bool)
    ensures 0 <= LeadLength(s, drop) <= |s| && AllDropped(s[..LeadLength(s, drop)], drop)
  {
    TrimLeftShape(s, drop);
    var i := LeadLength(s, drop);
    forall k | 0 <= k < i ensures drop(s[..i][k]) {
      assert s[..i][k] == s[k];
    }
  }

  lemma DroppedSuffix(s: string, drop: char -> bool)
    ensures var i, r := LeadLength(s, drop), Trim(s, drop);
      && 0 <= i && i + |r| <= |s| && r == s[i..i + |r|]
      && AllDropped(s[i + |r|..], drop)
  {
    var l := TrimLeft(s, drop);
    TrimLeftShape(s, drop);
    var r := TrimRight(l, drop);
    TrimRightShape(l, drop);
    var i := |s| - |l|;
    assert r == s[i..i + |r|];
    var tail := s[i + |r|..];
    assert tail == l[|r|..];
    forall k | 0 <= k < |tail| ensures drop(tail[k]) {
      assert tail[k] == l[|r| + k];
    }
  }

  /** `Trim` keeps the contiguous piece of `s` after the dropped prefix and
      removes only dropped characters around it. */
  lemma TrimShape(s: string, drop: char -> bool)
    ensures var i, r := LeadLength(s, drop), Trim(s, drop);
      && 0 <= i && i + |r| <= |s| && r == s[i..i + |r|]
      && AllDropped(s[..i], drop) && AllDropped(s[i + |r|..], drop)
  {
    DroppedPrefix(s, drop);
    DroppedSuffix(s, drop);
  }

  /** `Trim` gives the empty string exactly when every character is
      dropped. */
  lemma TrimEmpty(s: string, drop: char -> bool)
    ensures Trim(s, drop) == [] <==> AllDropped(s, drop)
  {
    TrimShape(s, drop);
    TrimEnds(s, drop);
    var i, r := LeadLength(s, drop), Trim(s, drop);
    if r == [] {
      forall k | 0 <= k < |s| ensures drop(s[k]) {
        if k < i { assert s[k] == s[..i][k]; } else { assert s[k] == s[i..][k - i]; }
      }
    } else {
      assert s[i] == r[0];
    }
  }

  /** Trimming at the front skips a dropped prefix. */
  lemma {:induction false} TrimLeftSkips(p: string, s: string, drop: char -> bool)
    requires AllDropped(p, drop)
    ensures TrimLeft(p + s, drop) == TrimLeft(s, drop)
    decreases |p|
  {
    if |p| > 0 {
      assert (p + s)[1..] == p[1..] + s;
      TrimLeftSkips(p[1..], s, drop);
    } else {
      assert p + s == s;
    }
  }

  /** Trimming at the back skips a dropped suffix. */
  lemma {:induction false} TrimRightSkips(s: string, p: string, drop: char -> bool)
    requires AllDropped(p, drop)
    ensures TrimRight(s + p, drop) == TrimRight(s, drop)
    decreases |p|
  {
    if |p| > 0 {
      assert (s + p)[..|s + p| - 1] == s + p[..|p| - 1];
      TrimRightSkips(s, p[..|p| - 1], drop);
    } else {
      assert s + p == s;
    }
  }

  /** Trimming never lengthens. */
  lemma TrimLength(s: string, drop: char -> bool)
    ensures |Trim(s, drop)| <= |s|
  {
    TrimShape(s, drop);
  }

  /** Trimming keeps out any character the string did not have. */
  lemma TrimAvoids(s: string, drop: char -> bool, c: char)
    requires forall k :: 0 <= k < |s| ==> s[k] != c
    ensures forall k :: 0 <= k < |Trim(s, drop)| ==> Trim(s, drop)[k] != c
  {
    TrimShape(s, drop);
    var i, r := LeadLength(s, drop), Trim(s, drop);
    forall k | 0 <= k < |r| ensures r[k] != c {
      assert r[k] == s[i + k];
    }
  }

  /** Python's `s.strip()` with no argument. */
  function Strip(s: string): string {
    Trim(s, IsSpace)
  }

  /** Stripping twice is stripping once. */
  lemma TrimIdempotent(s: string, drop: char -> bool)
    ensures Trim(Trim(s, drop), drop) == Trim(s, drop)
  {
    var r := Trim(s, drop);
    TrimEnds(s, drop);
    if r != [] {
      assert TrimLeft(r, drop) == r;
      assert TrimRight(r, drop) == r;
    }
  }

  /** `str.lower()` on one character, for the ASCII letters. */
  function LowerChar(c: char): char {
    if 'A' <= c <= 'Z' then (c as int + 32) as char else c
  }

  /** `str.lower()`: maps each character on its own, so positions are kept. */
  function Lower(s: string): (r: string)
    ensures |r| == |s|
    ensures forall k :: 0 <= k < |s| ==> r[k] == LowerChar(s[k])
  {
    seq(|s|, k requires 0 <= k < |s| => LowerChar(s[k]))
  }

  /** Python's `s.startswith(prefix)`. */
  predicate StartsWith(s: string, prefix: string) {
    prefix <= s
  }

  /** Python's `sub in s`. */
  predicate Contains(s: string, sub: string)
    decreases |s|
  {
    sub <= s || (|s| > 0 && Contains(s[1..], sub))
  }

  /** `sub in s` holds exactly when `sub` occurs at some position of `s`. */
  lemma {:induction false} ContainsIsOccurrence(s: string, sub: string)
    ensures Contains(s, sub) <==> exists i :: 0 <= i <= |s| && sub <= s[i..]
    decreases |s|
  {
    if sub <= s {
      assert sub <= s[0..];
    } else if |s| > 0 {
      ContainsIsOccurrence(s[1..], sub);
      if exists i :: 0 <= i <= |s| && sub <= s[i..] {
        var i :| 0 <= i <= |s| && sub <= s[i..];
        assert s[0..] == s;
        assert s[1..][i - 1..] == s[i..];
      }
      if Contains(s[1..], sub) {
        var i :| 0 <= i <= |s| - 1 && sub <= s[1..][i..];
        assert s[1..][i..] == s[i + 1..];
      }
    } else {
      assert forall i :: 0 <= i <= |s| ==> s[i..] == s;
    }
  }

  /** Python's `s.find(c)` for a one-character needle: the first position
      holding `c`, or -1 when there is none. */
  function Find(s: string, c: char): (r: int)
    ensures -1 <= r < |s|
    ensures r >= 0 ==> s[r] == c && forall k :: 0 <= k < r ==> s[k] != c
    ensures r == -1 <==> forall k :: 0 <= k < |s| ==> s[k] != c
    decreases |s|
  {
    if |s| == 0 then -1
    else if s[0] == c then 0
    else
      var r := Find(s[1..], c);
      if r == -1 then -1 else r + 1
  }

  /** The last position holding `c`, or -1 when there is none. */
  function FindLast(s: string, c: char): (r: int)
    ensures -1 <= r < |s|
    ensures r >= 0 ==> s[r] == c && forall k :: r < k < |s| ==> s[k] != c
    ensures r == -1 <==> forall k :: 0 <= k < |s| ==> s[k] != c
    decreases |s|
  {
    if |s| == 0 then -1
    else if s[|s| - 1] == c then |s| - 1
    else FindLast(s[..|s| - 1], c)
  }

  /** Python's `sep.join(parts)`. */
  function Join(parts: seq<string>, sep: string): string
    decreases |parts|
  {
    if |parts| == 0 then []
    else if |parts| == 1 then parts[0]
    else parts[0] + sep + Join(parts[1..], sep)
  }

  /** Joining one more part appends the separator and that part. */
  lemma {:induction false} JoinSnoc(parts: seq<string>, x: string, sep: string)
    requires parts != []
    ensures Join(parts + [x], sep) == Join(parts, sep) + sep + x
    decreases |parts|
  {
    if |parts| == 1 {
      assert (parts + [x])[1..] == [x];
    } else {
      assert (parts + [x])[1..] == parts[1..] + [x];
      JoinSnoc(parts[1..], x, sep);
    }
  }

  /** The length of a join: every part once, a separator between each two. */
  lemma {:induction false} JoinLength(parts: seq<string>, sep: string)
    requires parts != []
    ensures |Join(parts, sep)| == TotalLength(parts) + (|parts| - 1) * |sep|
    decreases |parts|
  {
    if |parts| > 1 {
      JoinLength(parts[1..], sep);
    }
  }

  function TotalLength(parts: seq<string>): nat
    decreases |parts|
  {
    if |parts| == 0 then 0 else |parts[0]| + TotalLength(parts[1..])
  }

  /** The longest prefix of `s` without whitespace. */
  function LeadingWord(s: string): (w: string)
    ensures w <= s
    ensures forall k :: 0 <= k < |w| ==> !IsSpace(w[k])
    ensures |w| == |s| || IsSpace(s[|w|])
    decreases |s|
  {
    if |s| == 0 || IsSpace(s[0]) then [] else [s[0]] + LeadingWord(s[1..])
  }

  /** Python's `s.split()` with no argument: the maximal runs of
      non-whitespace characters, in order. */
  function Words(s: string): seq<string>
    decreases |s|
  {
    if |s| == 0 then []
    else if IsSpace(s[0]) then Words(s[1..])
    else
      var w := LeadingWord(s);
      [w] + Words(s[|w|..])
  }

  /** Every word is non-empty and holds no whitespace. */
  lemma {:induction false} WordsShape(s: string)
    ensures forall k :: 0 <= k < |Words(s)| ==> Words(s)[k] != []
    ensures forall k, m :: 0 <= k < |Words(s)| && 0 <= m < |Words(s)[k]| ==> !IsSpace(Words(s)[k][m])
    decreases |s|
  {
    if |s| > 0 {
      if IsSpace(s[0]) {
        WordsShape(s[1..]);
      } else {
        var w := LeadingWord(s);
        WordsShape(s[|w|..]);
        var r := Words(s);
        assert r == [w] + Words(s[|w|..]);
        forall k | 0 < k < |r| ensures r[k] == Words(s[|w|..])[k - 1] {
        }
      }
    }
  }

  /** `s.split()` is empty exactly when `s` is all whitespace. */
  lemma {:induction false} WordsEmptyIffBlank(s: string)
    ensures Words(s) == [] <==> AllDropped(s, IsSpace)
    decreases |s|
  {
    if |s| > 0 && IsSpace(s[0]) {
      WordsEmptyIffBlank(s[1..]);
      assert AllDropped(s, IsSpace) <==> AllDropped(s[1..], IsSpace) by {
        if AllDropped(s[1..], IsSpace) {
          forall k | 0 <= k < |s| ensures IsSpace(s[k]) {
            if k > 0 { assert s[k] == s[1..][k - 1]; }
          }
        }
      }
    }
  }

  /** The number of positions of `s` where a word begins: a non-whitespace
      character that is the first of the text or follows whitespace.
      `afterSpace` tells whether what comes before `s` ends a word (the
      start of the text or a whitespace character). */
  function WordStarts(s: string, afterSpace: bool): nat
    decreases |s|
  {
    if |s| == 0 then 0
    else (if afterSpace && !IsSpace(s[0]) then 1 else 0) + WordStarts(s[1..], IsSpace(s[0]))
  }

  /** Inside the leading word no further word begins. */
  lemma {:induction false} WordStartsInWord(s: string, j: nat)
    requires 1 <= j <= |LeadingWord(s)|
    ensures WordStarts(s[j..], false) == WordStarts(s[|LeadingWord(s)|..], true)
    decreases |LeadingWord(s)| - j
  {
    var w := LeadingWord(s);
    if j < |w| {
      assert s[j] == w[j];
      assert s[j..][1..] == s[j + 1..];
      WordStartsInWord(s, j + 1);
    } else if j < |s| {
      assert IsSpace(s[j]);
      assert s[j..][1..] == s[j + 1..];
    }
  }

  /** `s.split()` has one word per position where a word begins: the
      number of words is the number of maximal runs of non-whitespace
      characters. */
  lemma {:induction false} WordsCount(s: string)
    ensures |Words(s)| == WordStarts(s, true)
    decreases |s|
  {
    if |s| > 0 {
      if IsSpace(s[0]) {
        WordsCount(s[1..]);
      } else {
        var w := LeadingWord(s);
        assert |w| >= 1;
        WordsCount(s[|w|..]);
        WordStartsInWord(s, 1);
      }
    }
  }

  /** The character of a decimal digit. */
  function DigitChar(d: nat): (c: char)
    requires d < 10
    ensures '0' <= c <= '9'
  {
    (48 + d) as char
  }

  predicate IsDigits(s: string) {
    forall k :: 0 <= k < |s| ==> '0' <= s[k] <= '9'
  }

  /** The value of a string of decimal digits. */
  function DecimalValue(s: string): nat
    requires IsDigits(s)
    decreases |s|
  {
    if |s| == 0 then 0 else DecimalValue(s[..|s| - 1]) * 10 + (s[|s| - 1] as int - 48)
  }

  /** How an f-string renders a non-negative `int`: decimal digits without
      leading zeros. */
  function NatToString(n: nat): (r: string)
    ensures |r| >= 1 && IsDigits(r)
    ensures |r| > 1 ==> r[0] != '0'
    decreases n
  {
    if n < 10 then [DigitChar(n)] else NatToString(n / 10) + [DigitChar(n % 10)]
  }

  /** Reading the rendered digits back gives the number. */
  lemma {:induction false} DecimalRoundTrip(n: nat)
    ensures DecimalValue(NatToString(n)) == n
    decreases n
  {
    if n >= 10 {
      var r := NatToString(n);
      assert r[..|r| - 1] == NatToString(n / 10);
      DecimalRoundTrip(n / 10);
    }
  }

  /** Distinct numbers render as distinct strings. */
  lemma NatToStringInjective(a: nat, b: nat)
    ensures NatToString(a) == NatToString(b) ==> a == b
  {
    DecimalRoundTrip(a);
    DecimalRoundTrip(b);
  }
}
