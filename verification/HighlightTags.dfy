// The highlight tags themselves: how they are numbered, where they stand in the text, and
// every form in which a browser may hand them back.

module HighlightTags {
  import opened Regex
  import opened Spans

  // ---------- Numbers ----------

  /** The number that decimal digits spell. */
  function ValueOf(d: string): nat
    requires forall c <- d :: IsDigit(c)
  {
    if d == "" then 0
    else
      var n := |d| - 1;
      assert d[n] in d && IsDigit(d[n]) && forall c <- d[..n] :: c in d;
      10 * ValueOf(d[..n]) + (d[n] as int - 48)
  }

  /** The number of a match is written in decimal, without leading zeros. */
  lemma {:induction false} DecimalSpellsNumber(n: nat)
    ensures ValueOf(Decimal(n)) == n && (n > 0 ==> Decimal(n)[0] != '0')
    decreases n
  {
    var d := Decimal(n);
    assert d[|d| - 1] == (n % 10 + 48) as char;
    if n >= 10 {
      DecimalSpellsNumber(n / 10);
      assert d[..|d| - 1] == Decimal(n / 10);
    } else {
      assert d[..0] == "";
    }
  }

  /** Different matches get different names. */
  lemma NamesDiffer(m: nat, n: nat)
    requires StartTag(m) == StartTag(n)
    ensures m == n
  {
    hide Decimal, TAG_HEAD, TAG_TAIL;
    Middle(TAG_HEAD, Decimal(m), TAG_TAIL);
    Middle(TAG_HEAD, Decimal(n), TAG_TAIL);
    DecimalSpellsNumber(m);
    DecimalSpellsNumber(n);
  }

  lemma Middle(a: string, b: string, c: string)
    ensures |a + b + c| == |a| + |b| + |c| && (a + b + c)[|a|..|a| + |b|] == b
  {
  }

  // ---------- Where the tags stand ----------

  lemma {:induction false} TextOfBeginning(s: string, marks: seq<Mark>, prev: nat, n: nat)
    requires n <= |s| && Ordered(marks, prev, n)
    ensures Ordered(marks, prev, |s|) && Text(s[..n], marks, prev) == Text(s, marks, prev)
    decreases |marks|
  {
    hide StartTag;
    if marks != [] {
      var m := marks[0];
      TextOfBeginning(s, marks[1..], m.end, n);
      assert s[..n][prev..m.start] == s[prev..m.start] && s[..n][m.start..m.end] == s[m.start..m.end];
    }
  }

  lemma PlainParts(s: string, a: seq<Mark>, m: Mark, b: seq<Mark>, n: nat)
    requires Plain(s, a + [m] + b) && n <= |s| && Ordered(a, 0, n)
    ensures Plain(s[..n], a) && Plain(s, b) && Plain(s, [m])
  {
    var all := a + [m] + b;
    assert (forall x <- a :: x in all) && (forall x <- b :: x in all) && m in all;
    forall x | x in a ensures x.start <= x.end <= n && '<' !in s[..n][x.start..x.end] {
      MarkInRange(a, x, 0, n);
      assert s[..n][x.start..x.end] == s[x.start..x.end];
    }
  }

  lemma MarkInRange(marks: seq<Mark>, m: Mark, prev: nat, n: nat)
    requires Ordered(marks, prev, n) && m in marks
    ensures prev <= m.start <= m.end <= n
    decreases |marks|
  {
    if m != marks[0] {
      MarkInRange(marks[1..], m, marks[0].end, n);
    }
  }

  /** Each mark stands in the text as one numbered span, tag for tag, between a part that
      comes from what was before it and a part that comes from what was after it. */
  lemma SpanStands(s: string, a: seq<Mark>, m: Mark, b: seq<Mark>) returns (before: string, after: string)
    requires Ordered(a, 0, |s|) && LastEnd(a, 0) <= m.start <= m.end <= |s| && Ordered(b, m.end, |s|)
    requires Ordered(a, 0, m.start) && Plain(s, a + [m] + b) && Unmarked(s)
    ensures Ordered(a + ([m] + b), 0, |s|)
    ensures Marked(s, a + ([m] + b)) ==
      before + ("<span class=\"highlighted\" name=\"highlight" + Decimal(m.num) + "\">"
                + (s[m.start..m.end] + ("</span>" + after)))
    ensures Removed(before) == s[..m.start] && Removed(after) == s[m.end..]
  {
    hide Removed, Unmarked, Plain, Decimal, Text, Ordered, LastEnd;
    PlainParts(s, a, m, b, m.start);
    OrderedEnd(a, 0, |s|);
    OrderedEnd(a, 0, m.start);
    OrderedEnd(b, m.end, |s|);
    TextOfBeginning(s, a, 0, m.start);
    UnmarkedSlice(s, 0, m.start);
    assert s[0..m.start] == s[..m.start] && s[..m.start][0..] == s[..m.start];
    RemovesMarks(s[..m.start], a, 0);
    RemovesMarks(s, b, m.end);
    var e := LastEnd(a, 0);
    before := Text(s, a, 0) + s[e..m.start];
    assert s[..m.start][e..] == s[e..m.start];
    after := Text(s, b, m.end) + s[LastEnd(b, m.end)..];
    OneThenRest(s, m, b, e);
    TextAppend(s, a, [m] + b, 0);
    OrderedEnd(a + ([m] + b), 0, |s|);
    TagParts(m.num);
    MarkedIs(s, a + ([m] + b));
    Regrouped(Text(s, a, 0), s[e..m.start], StartTag(m.num), s[m.start..m.end], END_TAG, Text(s, b, m.end),
              s[LastEnd(b, m.end)..]);
  }

  lemma MarkedIs(s: string, marks: seq<Mark>)
    requires Ordered(marks, 0, |s|) && LastEnd(marks, 0) <= |s|
    ensures Marked(s, marks) == Text(s, marks, 0) + s[LastEnd(marks, 0)..]
  {
  }

  lemma OneThenRest(s: string, m: Mark, b: seq<Mark>, prev: nat)
    requires prev <= m.start <= m.end <= |s| && Ordered(b, m.end, |s|)
    ensures Ordered([m] + b, prev, |s|) && LastEnd([m] + b, prev) == LastEnd(b, m.end)
    ensures Text(s, [m] + b, prev) ==
      s[prev..m.start] + (StartTag(m.num) + (s[m.start..m.end] + (END_TAG + Text(s, b, m.end))))
  {
    hide StartTag;
    assert ([m] + b)[1..] == b;
  }

  lemma Regrouped(t: string, x: string, g: string, p: string, e: string, u: string, r: string)
    ensures t + (x + (g + (p + (e + u)))) + r == (t + x) + (g + (p + (e + (u + r))))
  {
    Reassociate(x, g, p, e, u, r);
    assert t + (x + (g + (p + (e + u)))) + r == t + ((x + (g + (p + (e + u)))) + r);
  }

  // ---------- Tags as browsers rewrite them ----------

  function Times(w: string, n: nat): string { if n == 0 then "" else w + Times(w, n - 1) }

  /** The start tag with any number of quotes, of the word that marks the current match,
      and any digits: up to the name, the name, and both. */
  function ClassForm(a: nat, b: nat, c: nat): string {
    "span class=" + (Times(QUOTE, a) + ("highlighted" + (Times("current", b) + Times(QUOTE, c))))
  }

  function NameForm(d: nat, digits: string, e: nat): string {
    " name=" + (Times(QUOTE, d) + ("highlight" + (digits + (Times(QUOTE, e) + ">"))))
  }

  function TagForm(a: nat, b: nat, c: nat, d: nat, digits: string, e: nat): string {
    "<" + (ClassForm(a, b, c) + NameForm(d, digits, e))
  }

  /** v is such a tag, in any letter case. */
  ghost predicate OpensHighlight(v: string) {
    exists a, b, c, d, e: nat, digits: string ::
      (forall x <- digits :: IsDigit(x)) && Spells(v, TagForm(a, b, c, d, digits, e))
  }

  lemma SpellsParts(v: string, a: string, b: string)
    requires Spells(v, a + b)
    ensures |a| <= |v| && Spells(v[..|a|], a) && Spells(v[|a|..], b) && v == v[..|a|] + v[|a|..]
  {
    assert forall k :: 0 <= k < |a| ==> (a + b)[k] == a[k];
    assert forall k :: 0 <= k < |b| ==> (a + b)[|a| + k] == b[k];
  }

  lemma LiteralThen(w: string, next: Pattern, v: string, rest: string, t: string)
    requires Spells(v, w + rest) && Matches(next, v[|w|..] + t)
    ensures Matches(Literal(w, next), v + t)
  {
    hide Matches, Literal;
    SpellsParts(v, w, rest);
    LiteralMatches(w, next, v[..|w|], v[|w|..] + t);
    assert v + t == v[..|w|] + (v[|w|..] + t);
  }

  lemma {:induction false} StarThen(w: string, n: nat, next: Pattern, v: string, rest: string, t: string)
    requires w != [] && Spells(v, Times(w, n) + rest) && |Times(w, n)| <= |v|
    requires Matches(next, v[|Times(w, n)|..] + t)
    ensures Matches(Star(w, next), v + t)
    decreases n
  {
    if n > 0 {
      var more := Times(w, n - 1);
      assert w + more + rest == w + (more + rest);
      SpellsParts(v, w, more + rest);
      var u := v[|w|..];
      assert v[|Times(w, n)|..] == u[|more|..];
      StarThen(w, n - 1, next, u, rest, t);
      assert (v + t)[..|w|] == v[..|w|] && (v + t)[|w|..] == u + t;
    } else {
      assert v[0..] == v;
    }
  }

  lemma DigitsThen(d: string, next: Pattern, v: string, rest: string, t: string)
    requires (forall c <- d :: IsDigit(c)) && Spells(v, d + rest) && Matches(next, v[|d|..] + t)
    ensures Matches(Digits(next), v + t)
  {
    hide Matches;
    SpellsParts(v, d, rest);
    var u := v[..|d|];
    forall c | c in u ensures IsDigit(c) {
      var k :| 0 <= k < |u| && u[k] == c;
      assert d[k] in d && Fold(c) == d[k];
    }
    DigitsMatch(next, u, v[|d|..] + t);
    assert v + t == u + (v[|d|..] + t);
  }

  lemma TailMatches(v: string, digits: string, e: nat, t: string)
    requires forall x <- digits :: IsDigit(x)
    requires Spells(v, digits + (Times(QUOTE, e) + ">"))
    ensures Matches(Digits(AfterNumber()), v + t)
  {
    SpellsParts(v, digits, Times(QUOTE, e) + ">");
    var u := v[|digits|..];
    SpellsParts(u, Times(QUOTE, e), ">");
    var last := u[|Times(QUOTE, e)|..];
    assert Matches(One('>', Done), last + t);
    StarThen(QUOTE, e, One('>', Done), u, ">", t);
    DigitsThen(digits, AfterNumber(), v, Times(QUOTE, e) + ">", t);
  }

  lemma NameMatchesForm(v: string, d: nat, digits: string, e: nat, t: string)
    requires forall x <- digits :: IsDigit(x)
    requires Spells(v, NameForm(d, digits, e))
    ensures Matches(NamePattern(), v + t)
  {
    hide Matches, Literal, AfterNumber, Times;
    var tail := digits + (Times(QUOTE, e) + ">");
    SpellsParts(v, " name=", Times(QUOTE, d) + ("highlight" + tail));
    var v1 := v[|" name="|..];
    SpellsParts(v1, Times(QUOTE, d), "highlight" + tail);
    var v2 := v1[|Times(QUOTE, d)|..];
    SpellsParts(v2, "highlight", tail);
    TailMatches(v2[|"highlight"|..], digits, e, t);
    LiteralThen("highlight", Digits(AfterNumber()), v2, tail, t);
    StarThen(QUOTE, d, Literal("highlight", Digits(AfterNumber())), v1, "highlight" + tail, t);
    LiteralThen(" name=", Star(QUOTE, Literal("highlight", Digits(AfterNumber()))), v,
                Times(QUOTE, d) + ("highlight" + tail), t);
  }

  lemma ClassMatchesForm(v: string, a: nat, b: nat, c: nat, t: string)
    requires Spells(v, ClassForm(a, b, c)) && Matches(NamePattern(), t)
    ensures Matches(InsideStartTag(), v + t)
  {
    hide Matches, Literal, NamePattern, Times;
    var r2 := Times("current", b) + Times(QUOTE, c);
    var r1 := "highlighted" + r2;
    SpellsParts(v, "span class=", Times(QUOTE, a) + r1);
    var v1 := v[|"span class="|..];
    SpellsParts(v1, Times(QUOTE, a), r1);
    var v2 := v1[|Times(QUOTE, a)|..];
    SpellsParts(v2, "highlighted", r2);
    var v3 := v2[|"highlighted"|..];
    SpellsParts(v3, Times("current", b), Times(QUOTE, c));
    var v4 := v3[|Times("current", b)|..];
    assert Times(QUOTE, c) + "" == Times(QUOTE, c) && v4[|Times(QUOTE, c)|..] + t == t;
    StarThen(QUOTE, c, NamePattern(), v4, "", t);
    StarThen("current", b, Star(QUOTE, NamePattern()), v3, Times(QUOTE, c), t);
    LiteralThen("highlighted", Star("current", Star(QUOTE, NamePattern())), v2, r2, t);
    StarThen(QUOTE, a, Literal("highlighted", Star("current", Star(QUOTE, NamePattern()))), v1, r1, t);
    LiteralThen("span class=", Star(QUOTE, Literal("highlighted", Star("current", Star(QUOTE, NamePattern())))), v,
                Times(QUOTE, a) + r1, t);
  }

  /** Every form of the tag is recognised, whatever follows it. */
  lemma RewrittenTagMatches(v: string, t: string)
    requires OpensHighlight(v)
    ensures Matches(StartPattern(), v + t)
  {
    hide InsideStartTag, NamePattern, ClassForm, NameForm;
    var a, b, c, d, e: nat, digits: string :|
      (forall x <- digits :: IsDigit(x)) && Spells(v, TagForm(a, b, c, d, digits, e));
    var front, name := ClassForm(a, b, c), NameForm(d, digits, e);
    SpellsParts(v, "<", front + name);
    var u := v[1..];
    SpellsParts(u, front, name);
    NameMatchesForm(u[|front|..], d, digits, e, t);
    ClassMatchesForm(u[..|front|], a, b, c, u[|front|..] + t);
    assert u[..|front|] + (u[|front|..] + t) == u + t;
    assert Fold(v[..1][0]) == '<' && (v + t)[1..] == u + t;
  }

  // ---------- Nothing else is recognised ----------

  lemma {:induction false} LiteralReads(w: string, next: Pattern, s: string)
    requires Matches(Literal(w, next), s)
    ensures |w| <= |s| && Spells(s[..|w|], w) && Matches(next, s[|w|..])
    decreases |w|
  {
    if w == [] {
      assert s[0..] == s;
    } else {
      LiteralReads(w[1..], next, s[1..]);
      JoinSpelled(s[..1], w[..1], s[1..][..|w| - 1], w[1..]);
      assert s[..1] + s[1..][..|w| - 1] == s[..|w|] && w[..1] + w[1..] == w;
      assert s[1..][|w| - 1..] == s[|w|..];
    }
  }

  lemma JoinSpelled(u: string, a: string, v: string, b: string)
    requires Spells(u, a) && Spells(v, b)
    ensures Spells(u + v, a + b)
  {
  }

  lemma {:induction false} StarReads(w: string, next: Pattern, s: string) returns (n: nat, k: nat)
    requires w != [] && Matches(Star(w, next), s)
    ensures k <= |s| && Spells(s[..k], Times(w, n)) && Matches(next, s[k..])
    decreases |s|
  {
    if Matches(next, s) {
      n, k := 0, 0;
      assert s[0..] == s;
    } else {
      var m, j := StarReads(w, next, s[|w|..]);
      n, k := m + 1, j + |w|;
      JoinSpelled(s[..|w|], w, s[|w|..][..j], Times(w, m));
      assert s[..|w|] + s[|w|..][..j] == s[..k] && s[|w|..][j..] == s[k..];
    }
  }

  lemma {:induction false} DigitsRead(next: Pattern, s: string) returns (k: nat)
    requires Matches(Digits(next), s)
    ensures k <= |s| && (forall c <- s[..k] :: IsDigit(c)) && Matches(next, s[k..])
    decreases |s|
  {
    if Matches(next, s) {
      k := 0;
      assert s[0..] == s;
    } else {
      var j := DigitsRead(next, s[1..]);
      k := j + 1;
      assert s[..k] == [s[0]] + s[1..][..j] && s[1..][j..] == s[k..];
    }
  }

  lemma DigitsSpellThemselves(d: string)
    requires forall c <- d :: IsDigit(c)
    ensures Spells(d, d)
  {
    forall k | 0 <= k < |d| ensures Fold(d[k]) == d[k] {
      assert d[k] in d;
    }
  }

  lemma NumberReads(s: string) returns (digits: string, e: nat, k: nat)
    requires Matches(Digits(AfterNumber()), s)
    ensures (forall c <- digits :: IsDigit(c)) && k <= |s|
    ensures Spells(s[..k], digits + (Times(QUOTE, e) + ">"))
  {
    var i := DigitsRead(AfterNumber(), s);
    digits := s[..i];
    var n, j := StarReads(QUOTE, One('>', Done), s[i..]);
    e, k := n, i + j + 1;
    var u := s[i..];
    assert Spells(u[j..j + 1], ">");
    JoinSpelled(u[..j], Times(QUOTE, n), u[j..j + 1], ">");
    DigitsSpellThemselves(digits);
    JoinSpelled(s[..i], digits, u[..j] + u[j..j + 1], Times(QUOTE, n) + ">");
    assert s[..i] + (u[..j] + u[j..j + 1]) == s[..k];
  }

  lemma NameReads(s: string) returns (d: nat, digits: string, e: nat, k: nat)
    requires Matches(NamePattern(), s)
    ensures (forall c <- digits :: IsDigit(c)) && k <= |s| && Spells(s[..k], NameForm(d, digits, e))
  {
    hide Matches, Literal, AfterNumber, Times;
    LiteralReads(" name=", Star(QUOTE, Literal("highlight", Digits(AfterNumber()))), s);
    var s1 := s[|" name="|..];
    var n, i := StarReads(QUOTE, Literal("highlight", Digits(AfterNumber())), s1);
    var s2 := s1[i..];
    LiteralReads("highlight", Digits(AfterNumber()), s2);
    var s3 := s2[|"highlight"|..];
    var j: nat;
    digits, e, j := NumberReads(s3);
    d, k := n, |" name="| + i + |"highlight"| + j;
    var rest := digits + (Times(QUOTE, e) + ">");
    JoinSpelled(s2[..|"highlight"|], "highlight", s3[..j], rest);
    var t2 := s2[..|"highlight"|] + s3[..j];
    JoinSpelled(s1[..i], Times(QUOTE, n), t2, "highlight" + rest);
    JoinSpelled(s[..|" name="|], " name=", s1[..i] + t2, Times(QUOTE, n) + ("highlight" + rest));
    Prefixes(s, |" name="|, i, |"highlight"|, j);
  }

  lemma Prefixes(s: string, a: nat, b: nat, c: nat, d: nat)
    requires a + b + c + d <= |s|
    ensures s[..a] + (s[a..][..b] + (s[a..][b..][..c] + s[a..][b..][c..][..d])) == s[..a + b + c + d]
  {
    Adjacent(s[a..][b..], c, d);
    Adjacent(s[a..], b, c + d);
    Adjacent(s, a, b + (c + d));
  }

  lemma CurrentReads(s: string) returns (b: nat, c: nat, k: nat)
    requires Matches(Star("current", Star(QUOTE, NamePattern())), s)
    ensures k <= |s| && Spells(s[..k], Times("current", b) + Times(QUOTE, c)) && Matches(NamePattern(), s[k..])
  {
    hide Matches, Literal, NamePattern, Times;
    var m, j := StarReads("current", Star(QUOTE, NamePattern()), s);
    var l, h := StarReads(QUOTE, NamePattern(), s[j..]);
    b, c, k := m, l, j + h;
    JoinSpelled(s[..j], Times("current", m), s[j..][..h], Times(QUOTE, l));
    Adjacent(s, j, h);
  }

  lemma Adjacent(s: string, j: nat, h: nat)
    requires j + h <= |s|
    ensures s[..j] + s[j..][..h] == s[..j + h] && s[j..][h..] == s[j + h..]
  {
  }

  lemma ClassReads(s: string) returns (a: nat, b: nat, c: nat, k: nat)
    requires Matches(InsideStartTag(), s)
    ensures k <= |s| && Spells(s[..k], ClassForm(a, b, c)) && Matches(NamePattern(), s[k..])
  {
    hide Matches, Literal, NamePattern, Times, Spells;
    var after := Star("current", Star(QUOTE, NamePattern()));
    LiteralReads("span class=", Star(QUOTE, Literal("highlighted", after)), s);
    var s1 := s[|"span class="|..];
    var n, i := StarReads(QUOTE, Literal("highlighted", after), s1);
    var s2 := s1[i..];
    LiteralReads("highlighted", after, s2);
    var s3 := s2[|"highlighted"|..];
    var j: nat;
    b, c, j := CurrentReads(s3);
    a, k := n, |"span class="| + i + |"highlighted"| + j;
    var r3 := Times("current", b) + Times(QUOTE, c);
    JoinSpelled(s2[..|"highlighted"|], "highlighted", s3[..j], r3);
    var t2 := s2[..|"highlighted"|] + s3[..j];
    JoinSpelled(s1[..i], Times(QUOTE, n), t2, "highlighted" + r3);
    JoinSpelled(s[..|"span class="|], "span class=", s1[..i] + t2, Times(QUOTE, n) + ("highlighted" + r3));
    Prefixes(s, |"span class="|, i, |"highlighted"|, j);
    Drops(s, |"span class="|, i, |"highlighted"|, j);
  }

  lemma Drops(s: string, a: nat, b: nat, c: nat, d: nat)
    requires a + b + c + d <= |s|
    ensures s[a..][b..][c..][d..] == s[a + b + c + d..]
  {
  }

  lemma RecognisedIsTag(s: string) returns (n: nat)
    requires Matches(StartPattern(), s)
    ensures n <= |s| && OpensHighlight(s[..n])
  {
    hide InsideStartTag, NamePattern, ClassForm, NameForm;
    var u := s[1..];
    var a, b, c, k := ClassReads(u);
    var d, digits, e, j := NameReads(u[k..]);
    n := 1 + k + j;
    JoinSpelled(u[..k], ClassForm(a, b, c), u[k..][..j], NameForm(d, digits, e));
    assert Spells(s[..1], "<");
    JoinSpelled(s[..1], "<", u[..k] + u[k..][..j], ClassForm(a, b, c) + NameForm(d, digits, e));
    assert s[..1] + (u[..k] + u[k..][..j]) == s[..n];
    assert Spells(s[..n], TagForm(a, b, c, d, digits, e));
  }

  /** The expression matches exactly where a tag of one of these forms begins. */
  lemma RecognisedIffTag(s: string)
    ensures Matches(StartPattern(), s) <==> exists n: nat :: n <= |s| && OpensHighlight(s[..n])
  {
    hide StartPattern, OpensHighlight;
    if Matches(StartPattern(), s) {
      var n := RecognisedIsTag(s);
    }
    forall n: nat | n <= |s| && OpensHighlight(s[..n]) ensures Matches(StartPattern(), s) {
      RewrittenTagMatches(s[..n], s[n..]);
      assert s[..n] + s[n..] == s;
    }
  }

  /** Where a rewritten tag begins and ends. */
  lemma RewrittenTagShape(v: string)
    requires OpensHighlight(v)
    ensures |v| > 1 && v[0] == '<' && v[|v| - 1] == '>'
    ensures forall j :: 1 <= j < |v| - 1 ==> v[j] != '>'
  {
    hide Times, Spells;
    var a, b, c, d, e: nat, digits: string :|
      (forall x <- digits :: IsDigit(x)) && Spells(v, TagForm(a, b, c, d, digits, e));
    FormShape(a, b, c, d, digits, e);
    SpelledShape(v, TagForm(a, b, c, d, digits, e));
  }

  lemma SpelledShape(v: string, w: string)
    requires Spells(v, w) && |w| > 1 && w[0] == '<' && w[|w| - 1] == '>' && '>' !in w[1..|w| - 1]
    ensures |v| > 1 && v[0] == '<' && v[|v| - 1] == '>'
    ensures forall j :: 1 <= j < |v| - 1 ==> v[j] != '>'
  {
    forall j | 1 <= j < |v| - 1 ensures v[j] != '>' {
      assert w[j] in w[1..|w| - 1] && Fold(v[j]) == w[j];
    }
  }

  lemma {:induction false} NoBracketTimes(w: string, n: nat)
    requires '>' !in w
    ensures '>' !in Times(w, n)
    decreases n
  {
    if n > 0 {
      NoBracketTimes(w, n - 1);
    }
  }

  lemma FormShape(a: nat, b: nat, c: nat, d: nat, digits: string, e: nat)
    requires forall x <- digits :: IsDigit(x)
    ensures var w := TagForm(a, b, c, d, digits, e);
      |w| > 1 && w[0] == '<' && w[|w| - 1] == '>' && '>' !in w[1..|w| - 1]
  {
    hide Times, ClassForm;
    var front := ClassForm(a, b, c);
    ClassHasNoBracket(a, b, c);
    NoBracketTimes(QUOTE, d);
    NoBracketTimes(QUOTE, e);
    var name := " name=" + (Times(QUOTE, d) + ("highlight" + (digits + Times(QUOTE, e))));
    assert NameForm(d, digits, e) == name + ">" by {
      NameEnds(" name=", Times(QUOTE, d), "highlight", digits, Times(QUOTE, e));
    }
    NoBracketIn(" name=", Times(QUOTE, d), "highlight", digits, Times(QUOTE, e));
    var w := TagForm(a, b, c, d, digits, e);
    assert w == "<" + (front + name) + ">";
    assert w[1..|w| - 1] == front + name;
  }

  lemma NameEnds(p: string, q: string, r: string, s: string, t: string)
    ensures p + (q + (r + (s + (t + ">")))) == p + (q + (r + (s + t))) + ">"
  {
  }

  lemma NoBracketIn(p: string, q: string, r: string, s: string, t: string)
    requires '>' !in p && '>' !in q && '>' !in r && '>' !in t && forall x <- s :: IsDigit(x)
    ensures '>' !in p + (q + (r + (s + t)))
  {
  }

  lemma ClassHasNoBracket(a: nat, b: nat, c: nat)
    ensures '>' !in ClassForm(a, b, c)
  {
    hide Times;
    NoBracketTimes(QUOTE, a);
    NoBracketTimes("current", b);
    NoBracketTimes(QUOTE, c);
    NoBracketIn("span class=", Times(QUOTE, a), "highlighted", "", Times("current", b) + Times(QUOTE, c));
    assert "" + (Times("current", b) + Times(QUOTE, c)) == Times("current", b) + Times(QUOTE, c);
  }

  // ---------- Removing rewritten tags ----------

  /** One marked stretch as a browser hands it back: the two tags in some form. */
  datatype Span = Span(start: nat, end: nat, opening: string, closing: string)

  ghost predicate Genuine(x: Span) { OpensHighlight(x.opening) && Spells(x.closing, "</span>") }

  predicate InOrder(spans: seq<Span>, prev: nat, n: nat) {
    if spans == [] then prev <= n
    else prev <= spans[0].start <= spans[0].end <= n && InOrder(spans[1..], spans[0].end, n)
  }

  /** The text from prev on with the spans written in. */
  function Rewritten(s: string, spans: seq<Span>, prev: nat): string
    requires InOrder(spans, prev, |s|)
    decreases |spans|
  {
    if spans == [] then s[prev..]
    else
      var x := spans[0];
      s[prev..x.start] + (x.opening + (s[x.start..x.end] + (x.closing + Rewritten(s, spans[1..], x.end))))
  }

  lemma ClosingFacts(v: string, t: string)
    requires Spells(v, "</span>")
    ensures |v| == 7 && Matches(EndPattern(), v + t)
  {
    LiteralMatches(END_TAG, Done, v, t);
  }

  lemma FirstClosing(piece: string, v: string, rest: string)
    requires '<' !in piece && Spells(v, "</span>")
    ensures var t := piece + (v + rest);
      && Find(EndPattern(), t, 0) == |piece| && t[..|piece|] == piece && AfterEnd(t, |piece|) == rest
  {
    hide EndPattern, Matches;
    var t := piece + (v + rest);
    ClosingFacts(v, rest);
    assert t[|piece|..] == v + rest && t[|piece| + 7..] == rest;
    forall k | 0 <= k < |piece| ensures !Matches(EndPattern(), t[k..]) {
      EndTagFacts(t[k..]);
      assert t[k..][0] == piece[k];
    }
  }

  lemma FirstOpening(x: string, v: string, t: string)
    requires Unmarked(x) && OpensHighlight(v)
    ensures var s := x + (v + t);
      Find(StartPattern(), s, 0) == |x| && s[..|x|] == x && s[TagEnd(s, |x|)..] == t
  {
    hide *;
    RewrittenTagMatches(v, t);
    RewrittenTagShape(v);
    FirstStart(x, v + t);
    StartTagEnds(x, v, t);
    Parts(x, v, t);
    TagEndIs(x + (v + t), |x|);
  }

  /** Main theorem, in full: whatever a browser does to the tags, quotes dropped or doubled,
      letters in any case, the current match marked, taking the highlights out gives the
      text back. */
  lemma {:induction false} RemovesRewrittenTags(s: string, spans: seq<Span>, prev: nat)
    requires InOrder(spans, prev, |s|) && Unmarked(s)
    requires forall x <- spans :: Genuine(x) && x.start <= x.end <= |s| && '<' !in s[x.start..x.end]
    ensures prev <= |s| && Removed(Rewritten(s, spans, prev)) == s[prev..]
    decreases |spans|
  {
    hide *;
    RewrittenStep(s, spans, prev);
    if spans == [] {
      UnmarkedSlice(s, prev, |s|);
      assert s[prev..|s|] == s[prev..];
      NothingToRemove(s[prev..]);
    } else {
      var x := spans[0];
      assert x in spans && forall y <- spans[1..] :: y in spans;
      GenuineParts(x);
      RemovesRewrittenTags(s, spans[1..], x.end);
      UnmarkedSlice(s, prev, x.start);
      var rest, piece := Rewritten(s, spans[1..], x.end), s[x.start..x.end];
      FirstOpening(s[prev..x.start], x.opening, piece + (x.closing + rest));
      FirstClosing(piece, x.closing, rest);
      RemovedHere(Rewritten(s, spans, prev), s[prev..x.start], piece + (x.closing + rest), piece, rest);
      assert s[prev..x.start] + (piece + s[x.end..]) == s[prev..];
    }
  }

  lemma GenuineParts(x: Span)
    requires Genuine(x)
    ensures OpensHighlight(x.opening) && Spells(x.closing, "</span>")
  {
  }

  lemma RewrittenStep(s: string, spans: seq<Span>, prev: nat)
    requires InOrder(spans, prev, |s|)
    ensures spans == [] ==> prev <= |s| && Rewritten(s, spans, prev) == s[prev..]
    ensures spans != [] ==>
      var x := spans[0];
      && prev <= x.start <= x.end <= |s| && InOrder(spans[1..], x.end, |s|)
      && Rewritten(s, spans, prev) ==
         s[prev..x.start] + (x.opening + (s[x.start..x.end] + (x.closing + Rewritten(s, spans[1..], x.end))))
  {
  }
}
