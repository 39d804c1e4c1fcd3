// Search highlighting in the report pages: matches of a search term are wrapped in
// numbered span tags, split where a match crosses a tag of the page, and a regular
// expression takes the spans out again.

module Regex {
  /** A case-insensitive pattern: what to read next and the pattern that follows. */
  datatype Pattern =
    | Done
    | One(c: char, next: Pattern)
    | Star(w: string, next: Pattern)     // w, any number of times
    | Digits(next: Pattern)              // any number of digits

  /** Case folding of a pattern without the unicode flag: only ASCII letters fold to ASCII. */
  function Fold(c: char): char {
    if 'A' <= c <= 'Z' then (c as int + 32) as char else c
  }

  predicate Spells(v: string, w: string) {
    |v| == |w| && forall k :: 0 <= k < |w| ==> Fold(v[k]) == w[k]
  }

  predicate IsDigit(c: char) { '0' <= c <= '9' }

  /** Some beginning of s is in the language of the pattern. */
  predicate Matches(p: Pattern, s: string)
    decreases |s|, p
  {
    match p
    case Done => true
    case One(c, next) => s != [] && Fold(s[0]) == c && Matches(next, s[1..])
    case Star(w, next) =>
      || Matches(next, s)
      || (0 < |w| <= |s| && Spells(s[..|w|], w) && Matches(p, s[|w|..]))
    case Digits(next) =>
      || Matches(next, s)
      || (s != [] && IsDigit(s[0]) && Matches(p, s[1..]))
  }

  function Literal(w: string, next: Pattern): Pattern {
    if w == [] then next else One(w[0], Literal(w[1..], next))
  }

  /** The first place at or after k where the pattern matches, or -1. */
  function Find(p: Pattern, s: string, k: nat): (r: int)
    requires k <= |s|
    ensures r == -1 ==> forall j :: k <= j <= |s| ==> !Matches(p, s[j..])
    ensures r != -1 ==> k <= r <= |s| && Matches(p, s[r..]) && forall j :: k <= j < r ==> !Matches(p, s[j..])
    decreases |s| - k
  {
    if Matches(p, s[k..]) then k else if k == |s| then -1 else Find(p, s, k + 1)
  }

  predicate OccursAt(s: string, w: string, k: int) {
    0 <= k && k + |w| <= |s| && s[k..k + |w|] == w
  }

  /** The first occurrence of w at or after k, or -1. */
  function IndexOf(s: string, w: string, k: nat): (r: int)
    requires w != []
    ensures r == -1 ==> forall j :: k <= j ==> !OccursAt(s, w, j)
    ensures r != -1 ==> k <= r && OccursAt(s, w, r) && forall j :: k <= j < r ==> !OccursAt(s, w, j)
    decreases |s| - k
  {
    if |s| < k + |w| then -1 else if OccursAt(s, w, k) then k else IndexOf(s, w, k + 1)
  }

  /** The pattern reads no opening angle bracket. */
  predicate NoAngle(p: Pattern) {
    match p
    case Done => true
    case One(c, next) => c != '<' && NoAngle(next)
    case Star(w, next) => '<' !in w && NoAngle(next)
    case Digits(next) => NoAngle(next)
  }

  /** Such a pattern does not look past an opening angle bracket. */
  lemma {:induction false} StopsAtAngle(p: Pattern, s: string, t: string)
    requires NoAngle(p) && t != [] && t[0] == '<'
    ensures Matches(p, s + t) <==> Matches(p, s)
    decreases |s|, p
  {
    match p
    case Done =>
    case One(c, next) =>
      if s != [] {
        assert (s + t)[1..] == s[1..] + t;
        StopsAtAngle(next, s[1..], t);
      }
    case Star(w, next) =>
      StopsAtAngle(next, s, t);
      if 0 < |w| <= |s| {
        assert (s + t)[..|w|] == s[..|w|] && (s + t)[|w|..] == s[|w|..] + t;
        StopsAtAngle(p, s[|w|..], t);
      } else if 0 < |w| <= |s + t| {
        assert (s + t)[..|w|][|s|] == '<' && w[|s|] in w;
      }
    case Digits(next) =>
      StopsAtAngle(next, s, t);
      if s != [] {
        assert (s + t)[1..] == s[1..] + t;
        StopsAtAngle(p, s[1..], t);
      }
  }

  lemma {:induction false} LiteralMatches(w: string, next: Pattern, v: string, s: string)
    requires Spells(v, w) && Matches(next, s)
    ensures Matches(Literal(w, next), v + s)
    decreases |w|
  {
    if w == [] {
      assert v + s == s;
    } else {
      assert (v + s)[1..] == v[1..] + s;
      LiteralMatches(w[1..], next, v[1..], s);
    }
  }

  lemma {:induction false} DigitsMatch(next: Pattern, d: string, s: string)
    requires Matches(next, s) && forall c <- d :: IsDigit(c)
    ensures Matches(Digits(next), d + s)
    decreases |d|
  {
    if d == [] {
      assert d + s == s;
    } else {
      assert (d + s)[1..] == d[1..] + s;
      DigitsMatch(next, d[1..], s);
    }
  }

  lemma OnceMatches(w: string, next: Pattern, s: string)
    requires w != [] && Spells(w, w) && Matches(next, s)
    ensures Matches(Star(w, next), w + s)
  {
    assert (w + s)[..|w|] == w && (w + s)[|w|..] == s;
  }

  /** Every match reads the character c. */
  predicate Reads(p: Pattern, c: char) {
    match p
    case Done => false
    case One(d, next) => d == c || Reads(next, c)
    case Star(_, next) => Reads(next, c)
    case Digits(next) => Reads(next, c)
  }

  lemma {:induction false} ReadsIsThere(p: Pattern, s: string, c: char) returns (k: nat)
    requires Reads(p, c) && Matches(p, s) && c == '>'
    ensures k < |s| && s[k] == c
    decreases |s|, p
  {
    match p
    case One(d, next) =>
      if d == c {
        k := 0;
      } else {
        k := ReadsIsThere(next, s[1..], c);
        k := k + 1;
      }
    case Star(w, next) =>
      if Matches(next, s) {
        k := ReadsIsThere(next, s, c);
      } else {
        k := ReadsIsThere(p, s[|w|..], c);
        k := k + |w|;
      }
    case Digits(next) =>
      if Matches(next, s) {
        k := ReadsIsThere(next, s, c);
      } else {
        k := ReadsIsThere(p, s[1..], c);
        k := k + 1;
      }
  }
}

module Spans {
  import opened Regex

  const END_TAG := "</span>"
  const TAG_HEAD := "<span class=\"highlighted\" name=\"highlight"
  const TAG_TAIL := "\">"

  function Decimal(n: nat): (d: string)
    ensures d != [] && forall c <- d :: IsDigit(c)
  {
    var last := [(n % 10 + 48) as char];
    if n < 10 then last else Decimal(n / 10) + last
  }

  function StartTag(num: nat): string { TAG_HEAD + Decimal(num) + TAG_TAIL }

  const QUOTE := "\""

  function AfterNumber(): Pattern { Star(QUOTE, One('>', Done)) }
  function NamePattern(): Pattern { Literal(" name=", Star(QUOTE, Literal("highlight", Digits(AfterNumber())))) }
  function InsideStartTag(): Pattern {
    Literal("span class=", Star(QUOTE, Literal("highlighted", Star("current", Star(QUOTE, NamePattern())))))
  }

  /** The expression that recognises a start tag, however a browser has rewritten it. */
  function StartPattern(): Pattern { One('<', InsideStartTag()) }

  function EndPattern(): Pattern { Literal(END_TAG, Done) }

  /** No highlight tag anywhere. */
  ghost predicate Unmarked(s: string) {
    forall k :: 0 <= k <= |s| ==> !Matches(StartPattern(), s[k..])
  }

  // ---------- Removing ----------

  /** Where the first highlight tag of s ends: after the next closing bracket. */
  function TagEnd(s: string, k: nat): (r: nat)
    requires k <= |s| && Matches(StartPattern(), s[k..])
    ensures k < r <= |s|
  {
    PatternEnds(s, k);
    IndexOf(s, ">", k + 1) + 1
  }

  lemma PatternReadsEnd()
    ensures Reads(InsideStartTag(), '>')
  {
    hide Literal;
    assert Reads(AfterNumber(), '>');
    LiteralReads("highlight", Digits(AfterNumber()), '>');
    LiteralReads(" name=", Star(QUOTE, Literal("highlight", Digits(AfterNumber()))), '>');
    LiteralReads("highlighted", Star("current", Star(QUOTE, NamePattern())), '>');
    LiteralReads("span class=", Star(QUOTE, Literal("highlighted", Star("current", Star(QUOTE, NamePattern())))), '>');
  }

  lemma PatternEnds(s: string, k: nat)
    requires k <= |s| && Matches(StartPattern(), s[k..])
    ensures k < IndexOf(s, ">", k + 1) < |s|
  {
    hide InsideStartTag;
    PatternReadsEnd();
    var j := ReadsIsThere(InsideStartTag(), s[k..][1..], '>');
    assert OccursAt(s, ">", k + 1 + j);
  }

  lemma {:induction false} LiteralReads(w: string, next: Pattern, c: char)
    requires Reads(next, c)
    ensures Reads(Literal(w, next), c)
    decreases |w|
  {
    if w != [] {
      LiteralReads(w[1..], next, c);
    }
  }

  /** What comes after an end tag found at e; a missing one (-1) costs six characters. */
  function AfterEnd(t: string, e: int): (r: string)
    requires -1 <= e
    ensures |r| <= |t|
  {
    if e + 7 <= |t| then t[e + 7..] else ""
  }

  /** The text without its highlight tags. */
  function Removed(s: string): string
    decreases |s|
  {
    var k := Find(StartPattern(), s, 0);
    if k < 0 then s
    else
      var t := s[TagEnd(s, k)..];
      var e := Find(EndPattern(), t, 0);
      s[..k] + (if e < 0 then "" else t[..e]) + Removed(AfterEnd(t, e))
  }

  lemma RemovedStep(s: string)
    ensures var k := Find(StartPattern(), s, 0);
      if k < 0 then Removed(s) == s
      else
        var t := s[TagEnd(s, k)..];
        var e := Find(EndPattern(), t, 0);
        Removed(s) == s[..k] + (if e < 0 then "" else t[..e]) + Removed(AfterEnd(t, e))
  {
    hide StartPattern, EndPattern;
  }

  method RemoveHighlight(text: string) returns (r: string)
    ensures r == Removed(text)
  {
    hide *;
    var bodyText, newText, start := text, "", -1;
    while Find(StartPattern(), bodyText, 0) >= 0
      invariant newText + Removed(bodyText) == Removed(text)
      invariant start < 0 ==> newText == ""
      decreases |bodyText|
    {
      start := Find(StartPattern(), bodyText, 0);
      ghost var before, was := newText, bodyText;
      newText := newText + bodyText[..start];
      bodyText := bodyText[TagEnd(bodyText, start)..];
      var end := Find(EndPattern(), bodyText, 0);
      var kept := if end < 0 then "" else bodyText[..end];
      newText := newText + kept;
      bodyText := AfterEnd(bodyText, end);
      RemovedStep(was);
      assert newText + Removed(bodyText) == before + (was[..start] + kept + Removed(bodyText));
    }
    RemovedStep(bodyText);
    r := if start < 0 then bodyText else newText + bodyText;
  }

  // ---------- Marking ----------

  /** The stretch [start, end) of the text is wrapped in the span numbered num. */
  datatype Mark = Mark(num: nat, start: nat, end: nat)

  predicate Ordered(marks: seq<Mark>, prev: nat, n: nat) {
    if marks == [] then prev <= n
    else prev <= marks[0].start <= marks[0].end <= n && Ordered(marks[1..], marks[0].end, n)
  }

  function LastEnd(marks: seq<Mark>, prev: nat): nat {
    if marks == [] then prev else marks[|marks| - 1].end
  }

  /** The text from prev up to the end of the last mark, with the spans written in. */
  function Text(s: string, marks: seq<Mark>, prev: nat): string
    requires Ordered(marks, prev, |s|)
    decreases |marks|
  {
    if marks == [] then ""
    else
      var m := marks[0];
      s[prev..m.start] + (StartTag(m.num) + (s[m.start..m.end] + (END_TAG + Text(s, marks[1..], m.end))))
  }

  lemma {:induction false} OrderedEnd(marks: seq<Mark>, prev: nat, n: nat)
    requires Ordered(marks, prev, n)
    ensures prev <= LastEnd(marks, prev) <= n
    decreases |marks|
  {
    if marks != [] {
      OrderedEnd(marks[1..], marks[0].end, n);
    }
  }

  /** The whole text with the spans written in. */
  function Marked(s: string, marks: seq<Mark>): string
    requires Ordered(marks, 0, |s|)
  {
    OrderedEnd(marks, 0, |s|);
    Text(s, marks, 0) + s[LastEnd(marks, 0)..]
  }

  lemma {:induction false} TextAppend(s: string, a: seq<Mark>, b: seq<Mark>, prev: nat)
    requires Ordered(a, prev, |s|) && Ordered(b, LastEnd(a, prev), |s|)
    ensures Ordered(a + b, prev, |s|) && LastEnd(a + b, prev) == LastEnd(b, LastEnd(a, prev))
    ensures Text(s, a + b, prev) == Text(s, a, prev) + Text(s, b, LastEnd(a, prev))
    decreases |a|
  {
    hide StartTag, END_TAG;
    if a == [] {
      assert a + b == b;
    } else {
      var m := a[0];
      assert (a + b)[1..] == a[1..] + b;
      TextAppend(s, a[1..], b, m.end);
      Reassociate(s[prev..m.start], StartTag(m.num), s[m.start..m.end], END_TAG,
                  Text(s, a[1..], m.end), Text(s, b, LastEnd(a, prev)));
    }
  }

  // ---------- Marking and removing ----------

  lemma {:induction false} MoreText(p: Pattern, s: string, t: string)
    requires Matches(p, s)
    ensures Matches(p, s + t)
    decreases |s|, p
  {
    match p
    case Done =>
    case One(c, next) =>
      assert (s + t)[1..] == s[1..] + t;
      MoreText(next, s[1..], t);
    case Star(w, next) =>
      if Matches(next, s) {
        MoreText(next, s, t);
      } else {
        assert (s + t)[..|w|] == s[..|w|] && (s + t)[|w|..] == s[|w|..] + t;
        MoreText(p, s[|w|..], t);
      }
    case Digits(next) =>
      if Matches(next, s) {
        MoreText(next, s, t);
      } else {
        assert (s + t)[1..] == s[1..] + t;
        MoreText(p, s[1..], t);
      }
  }

  lemma MatchInSlice(p: Pattern, s: string, a: nat, b: nat, k: nat)
    requires a <= a + k <= b <= |s|
    ensures Matches(p, s[a..b][k..]) ==> Matches(p, s[a + k..])
  {
    if Matches(p, s[a..b][k..]) {
      MoreText(p, s[a..b][k..], s[b..]);
      assert s[a..b][k..] + s[b..] == s[a + k..];
    }
  }

  lemma UnmarkedSlice(s: string, a: nat, b: nat)
    requires a <= b <= |s| && Unmarked(s)
    ensures Unmarked(s[a..b])
  {
    hide StartPattern;
    forall k | 0 <= k <= b - a ensures !Matches(StartPattern(), s[a..b][k..]) {
      MatchInSlice(StartPattern(), s, a, b, k);
    }
  }

  lemma NoAngleLiteral(w: string, next: Pattern)
    requires '<' !in w && NoAngle(next)
    ensures NoAngle(Literal(w, next))
    decreases |w|
  {
    if w != [] {
      NoAngleLiteral(w[1..], next);
    }
  }

  lemma InsideHasNoAngle()
    ensures NoAngle(InsideStartTag())
  {
    hide Literal;
    assert NoAngle(Digits(AfterNumber()));
    NoAngleLiteral("highlight", Digits(AfterNumber()));
    NoAngleLiteral(" name=", Star(QUOTE, Literal("highlight", Digits(AfterNumber()))));
    NoAngleLiteral("highlighted", Star("current", Star(QUOTE, NamePattern())));
    NoAngleLiteral("span class=", Star(QUOTE, Literal("highlighted", Star("current", Star(QUOTE, NamePattern())))));
  }

  lemma NumberMatches(num: nat, t: string)
    ensures Matches(Digits(AfterNumber()), Decimal(num) + (TAG_TAIL + t))
  {
    hide Decimal;
    assert Matches(One('>', Done), ">" + t);
    OnceMatches(QUOTE, One('>', Done), ">" + t);
    assert QUOTE + (">" + t) == TAG_TAIL + t;
    DigitsMatch(AfterNumber(), Decimal(num), TAG_TAIL + t);
  }

  lemma NameMatches(u: string)
    requires Matches(Digits(AfterNumber()), u)
    ensures Matches(NamePattern(), " name=" + (QUOTE + ("highlight" + u)))
  {
    hide Literal, AfterNumber;
    LiteralMatches("highlight", Digits(AfterNumber()), "highlight", u);
    var v := "highlight" + u;
    OnceMatches(QUOTE, Literal("highlight", Digits(AfterNumber())), v);
    LiteralMatches(" name=", Star(QUOTE, Literal("highlight", Digits(AfterNumber()))), " name=", QUOTE + v);
  }

  lemma InsideMatches(u: string)
    requires Matches(NamePattern(), u)
    ensures Matches(InsideStartTag(), "span class=" + (QUOTE + ("highlighted" + (QUOTE + u))))
  {
    hide Literal, NamePattern;
    OnceMatches(QUOTE, NamePattern(), u);
    var after := Star("current", Star(QUOTE, NamePattern()));
    assert Matches(after, QUOTE + u);
    LiteralMatches("highlighted", after, "highlighted", QUOTE + u);
    var v := "highlighted" + (QUOTE + u);
    OnceMatches(QUOTE, Literal("highlighted", after), v);
    LiteralMatches("span class=", Star(QUOTE, Literal("highlighted", after)), "span class=", QUOTE + v);
  }

  lemma StartTagMatches(num: nat, t: string)
    ensures Matches(StartPattern(), StartTag(num) + t)
  {
    hide Literal, NamePattern, AfterNumber, InsideStartTag, Decimal;
    var u := Decimal(num) + (TAG_TAIL + t);
    NumberMatches(num, t);
    NameMatches(u);
    InsideMatches(" name=" + (QUOTE + ("highlight" + u)));
    TagSpelling(num, t);
  }

  lemma TagSpelling(num: nat, t: string)
    ensures var u := Decimal(num) + (TAG_TAIL + t);
      StartTag(num) + t ==
      "<" + ("span class=" + (QUOTE + ("highlighted" + (QUOTE + (" name=" + (QUOTE + ("highlight" + u)))))))
  {
    hide *;
    var u := Decimal(num) + (TAG_TAIL + t);
    assert StartTag(num) + t == TAG_HEAD + u by { TagParts(num); }
    HeadSpelling();
    Nest("<", "span class=", QUOTE, "highlighted", " name=", "highlight", u);
  }

  lemma TagParts(num: nat)
    ensures StartTag(num) == TAG_HEAD + Decimal(num) + TAG_TAIL
  {
    hide Decimal, TAG_HEAD, TAG_TAIL;
  }

  lemma HeadSpelling()
    ensures TAG_HEAD == "<" + "span class=" + QUOTE + "highlighted" + QUOTE + " name=" + QUOTE + "highlight"
  {
  }

  lemma Nest(a: string, b: string, q: string, c: string, d: string, e: string, u: string)
    ensures a + b + q + c + q + d + q + e + u == a + (b + (q + (c + (q + (d + (q + (e + u)))))))
  {
  }

  lemma NeedsAngle(s: string, t: string)
    requires Matches(StartPattern(), s + t) && s != [] && t != [] && t[0] == '<'
    ensures Matches(StartPattern(), s)
  {
    hide InsideStartTag;
    InsideHasNoAngle();
    assert (s + t)[1..] == s[1..] + t;
    StopsAtAngle(InsideStartTag(), s[1..], t);
  }

  /** A start tag after text without one is where the pattern first matches. */
  lemma FirstStart(x: string, tail: string)
    requires Unmarked(x) && Matches(StartPattern(), tail) && tail != [] && tail[0] == '<'
    ensures Find(StartPattern(), x + tail, 0) == |x|
  {
    hide StartPattern, Matches;
    var whole := x + tail;
    assert whole[|x|..] == tail;
    forall k | 0 <= k < |x| ensures !Matches(StartPattern(), whole[k..]) {
      assert whole[k..] == x[k..] + tail;
      if Matches(StartPattern(), x[k..] + tail) {
        NeedsAngle(x[k..], tail);
      }
    }
  }

  lemma HeadHasNoBracket(j: nat)
    requires 1 <= j < |TAG_HEAD|
    ensures TAG_HEAD[j] != '>'
  {
  }

  lemma StartTagShape(num: nat)
    ensures var tag := StartTag(num);
      && |tag| > 1 && tag[0] == '<' && tag[|tag| - 1] == '>'
      && forall j :: 1 <= j < |tag| - 1 ==> tag[j] != '>'
  {
    hide Decimal;
    var d, h := Decimal(num), |TAG_HEAD|;
    forall j | 1 <= j < |StartTag(num)| - 1 ensures StartTag(num)[j] != '>' {
      if j < h {
        HeadHasNoBracket(j);
        assert StartTag(num)[j] == TAG_HEAD[j];
      } else if j < h + |d| {
        assert StartTag(num)[j] == d[j - h] && d[j - h] in d;
      } else {
        assert StartTag(num)[j] == TAG_TAIL[j - h - |d|];
      }
    }
  }

  /** A start tag ends at its last character. */
  lemma StartTagEnds(x: string, tag: string, t: string)
    requires |tag| > 1 && tag[|tag| - 1] == '>' && forall j :: 1 <= j < |tag| - 1 ==> tag[j] != '>'
    ensures IndexOf(x + (tag + t), ">", |x| + 1) == |x| + |tag| - 1
  {
    hide IndexOf;
    var whole, last := x + (tag + t), |tag| - 1;
    assert OccursAt(whole, ">", |x| + last);
    forall j | |x| + 1 <= j < |x| + last ensures !OccursAt(whole, ">", j) {
      assert whole[j] == tag[j - |x|];
    }
  }

  lemma EndTagFacts(s: string)
    ensures |END_TAG| == 7
    ensures Matches(EndPattern(), s) ==> s != [] && s[0] == '<'
    ensures Matches(EndPattern(), END_TAG + s)
  {
    LiteralMatches(END_TAG, Done, END_TAG, s);
  }

  /** The first end tag after a stretch without angle brackets. */
  lemma FirstEnd(piece: string, rest: string)
    requires '<' !in piece
    ensures Find(EndPattern(), piece + (END_TAG + rest), 0) == |piece|
  {
    hide EndPattern, Matches;
    var whole := piece + (END_TAG + rest);
    EndTagFacts(rest);
    assert whole[|piece|..] == END_TAG + rest;
    forall k | 0 <= k < |piece| ensures !Matches(EndPattern(), whole[k..]) {
      EndTagFacts(whole[k..]);
      assert whole[k..][0] == piece[k];
    }
  }

  lemma Parts(a: string, b: string, c: string)
    ensures (a + (b + c))[..|a|] == a && (a + (b + c))[|a| + |b|..] == c
  {
  }

  lemma EndPart(piece: string, rest: string)
    requires '<' !in piece
    ensures var t := piece + (END_TAG + rest);
      && Find(EndPattern(), t, 0) == |piece|
      && t[..|piece|] == piece
      && AfterEnd(t, |piece|) == rest
  {
    hide *;
    FirstEnd(piece, rest);
    EndTagFacts(rest);
    Parts(piece, END_TAG, rest);
    AfterEndIs(piece + (END_TAG + rest), |piece|);
  }

  lemma StartPart(x: string, num: nat, t: string)
    requires Unmarked(x)
    ensures var s := x + (StartTag(num) + t);
      && Find(StartPattern(), s, 0) == |x|
      && s[..|x|] == x
      && s[TagEnd(s, |x|)..] == t
  {
    hide *;
    StartTagMatches(num, t);
    StartTagShape(num);
    FirstStart(x, StartTag(num) + t);
    StartTagEnds(x, StartTag(num), t);
    Parts(x, StartTag(num), t);
    TagEndIs(x + (StartTag(num) + t), |x|);
  }

  lemma OneSpan(x: string, num: nat, piece: string, rest: string)
    requires Unmarked(x) && '<' !in piece
    ensures Removed(x + (StartTag(num) + (piece + (END_TAG + rest)))) == x + (piece + Removed(rest))
  {
    hide *;
    var t := piece + (END_TAG + rest);
    StartPart(x, num, t);
    EndPart(piece, rest);
    RemovedHere(x + (StartTag(num) + t), x, t, piece, rest);
  }

  lemma RemovedHere(s: string, x: string, t: string, piece: string, rest: string)
    requires Find(StartPattern(), s, 0) == |x| && s[..|x|] == x && s[TagEnd(s, |x|)..] == t
    requires Find(EndPattern(), t, 0) == |piece| && t[..|piece|] == piece && AfterEnd(t, |piece|) == rest
    ensures Removed(s) == x + (piece + Removed(rest))
  {
    hide StartPattern, EndPattern, TagEnd, AfterEnd, Find;
  }

  lemma TagEndIs(s: string, k: nat)
    requires k <= |s| && Matches(StartPattern(), s[k..])
    ensures TagEnd(s, k) == IndexOf(s, ">", k + 1) + 1
  {
    hide StartPattern;
  }

  lemma AfterEndIs(t: string, e: nat)
    requires e + 7 <= |t|
    ensures AfterEnd(t, e) == t[e + 7..]
  {
  }

  /** What is marked holds no opening bracket. */
  ghost predicate Plain(s: string, marks: seq<Mark>) {
    forall m <- marks :: m.start <= m.end <= |s| && '<' !in s[m.start..m.end]
  }

  /** Main theorem: taking the highlights out of a highlighted text gives the text back. */
  lemma {:induction false} RemovesMarks(s: string, marks: seq<Mark>, prev: nat)
    requires Ordered(marks, prev, |s|) && Plain(s, marks) && Unmarked(s)
    ensures prev <= LastEnd(marks, prev) <= |s|
    ensures Removed(Text(s, marks, prev) + s[LastEnd(marks, prev)..]) == s[prev..]
    decreases |marks|
  {
    hide *;
    OrderedStep(marks, prev, |s|);
    OrderedEnd(marks, prev, |s|);
    TextStep(s, marks, prev);
    var end := LastEnd(marks, prev);
    if marks == [] {
      UnmarkedSlice(s, prev, |s|);
      assert s[prev..|s|] == s[prev..];
      NothingToRemove(s[prev..]);
      assert "" + s[prev..] == s[prev..];
    } else {
      var m := marks[0];
      PlainStep(s, marks);
      RemovesMarks(s, marks[1..], m.end);
      UnmarkedSlice(s, prev, m.start);
      var x, piece, rest := s[prev..m.start], s[m.start..m.end], Text(s, marks[1..], m.end) + s[end..];
      OneSpan(x, m.num, piece, rest);
      Reassociate(x, StartTag(m.num), piece, END_TAG, Text(s, marks[1..], m.end), s[end..]);
      assert x + (piece + s[m.end..]) == s[prev..];
    }
  }

  lemma Reassociate(a: string, b: string, c: string, d: string, e: string, f: string)
    ensures (a + (b + (c + (d + e)))) + f == a + (b + (c + (d + (e + f))))
  {
    assert (d + e) + f == d + (e + f);
    assert (c + (d + e)) + f == c + ((d + e) + f);
    assert (b + (c + (d + e))) + f == b + ((c + (d + e)) + f);
  }

  lemma OrderedStep(marks: seq<Mark>, prev: nat, n: nat)
    requires Ordered(marks, prev, n)
    ensures marks == [] ==> LastEnd(marks, prev) == prev
    ensures marks != [] ==>
      && prev <= marks[0].start <= marks[0].end <= n && Ordered(marks[1..], marks[0].end, n)
      && LastEnd(marks[1..], marks[0].end) == LastEnd(marks, prev)
  {
  }

  lemma TextStep(s: string, marks: seq<Mark>, prev: nat)
    requires Ordered(marks, prev, |s|)
    ensures marks == [] ==> Text(s, marks, prev) == ""
    ensures marks != [] ==> var m := marks[0];
      Text(s, marks, prev) ==
      s[prev..m.start] + (StartTag(m.num) + (s[m.start..m.end] + (END_TAG + Text(s, marks[1..], m.end))))
  {
  }

  lemma PlainStep(s: string, marks: seq<Mark>)
    requires Plain(s, marks) && marks != []
    ensures Plain(s, marks[1..])
    ensures var m := marks[0]; m.start <= m.end <= |s| && '<' !in s[m.start..m.end]
  {
    assert marks[0] in marks && forall n <- marks[1..] :: n in marks;
  }

  lemma NothingToRemove(s: string)
    requires Unmarked(s)
    ensures Removed(s) == s
  {
    hide StartPattern;
    assert s[0..] == s;
  }

  /** Removing never lengthens the text, and shortens it as soon as there is a tag. */
  lemma {:induction false} RemovedLength(s: string)
    ensures |Removed(s)| <= |s|
    ensures Find(StartPattern(), s, 0) >= 0 ==> |Removed(s)| < |s|
    decreases |s|
  {
    hide StartPattern, EndPattern;
    var k := Find(StartPattern(), s, 0);
    if k >= 0 {
      var t := s[TagEnd(s, k)..];
      RemovedLength(AfterEnd(t, Find(EndPattern(), t, 0)));
    }
  }

  /** A text is its own removal exactly when it holds no highlight tag. */
  lemma UnchangedIffUnmarked(s: string)
    ensures Removed(s) == s <==> Unmarked(s)
  {
    hide StartPattern;
    assert s[0..] == s;
    RemovedLength(s);
  }
}
