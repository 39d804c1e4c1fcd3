// Finding the matches of a search term in a page and writing the highlights in.

module Stripping {

  /** The characters at the given positions. */
  function Chars(s: string, ps: seq<nat>): string
    requires forall p <- ps :: p < |s|
  {
    seq(|ps|, k requires 0 <= k < |ps| => assert ps[k] in ps; s[ps[k]])
  }

  /** The part of s from a to b, empty when the bounds are reversed. */
  function Slice(s: string, a: nat, b: nat): string {
    if a < b && a < |s| then s[a..if b < |s| then b else |s|] else ""
  }

  predicate ScriptStarts(s: string, pos: nat) { Slice(s, pos, pos + 7) == "<script" }

  /** The script that a closing tag at pos would end. */
  predicate ScriptEnds(s: string, pos: nat) { pos > 8 && Slice(s, pos, pos - 8) == "/script>" }

  /** The positions from pos on that are shown: outside tags, and before any script. */
  function Scan(s: string, pos: nat, inTag: bool, inScript: bool): (ps: seq<nat>)
    ensures forall k :: 0 <= k < |ps| ==> pos <= ps[k] < |s|
    ensures forall j, k :: 0 <= j < k < |ps| ==> ps[j] < ps[k]
    decreases |s| - pos
  {
    if pos >= |s| then []
    else if inTag && s[pos] == '>' then Scan(s, pos + 1, false, inScript && !ScriptEnds(s, pos))
    else if !inTag && s[pos] == '<' then
      if !inScript && ScriptStarts(s, pos) then Scan(s, pos + 8, true, true)
      else Scan(s, pos + 1, true, inScript)
    else (if !inTag && !inScript then [pos] else []) + Scan(s, pos + 1, inTag, inScript)
  }

  function Shown(s: string): (ps: seq<nat>)
    ensures forall p <- ps :: p < |s|
    ensures forall j, k :: 0 <= j < k < |ps| ==> ps[j] < ps[k]
  {
    Scan(s, 0, false, false)
  }

  /** A tag is open at k: a bracket before it opens one that is not closed before it. */
  ghost predicate InTag(s: string, k: nat) {
    exists a :: 0 <= a < k && a < |s| && s[a] == '<' && forall b :: a < b < k && b < |s| ==> s[b] != '>'
  }

  /** A script has started before k. */
  ghost predicate AfterScript(s: string, k: nat) {
    exists a :: 0 <= a < k && a < |s| && !InTag(s, a) && ScriptStarts(s, a)
  }

  lemma NextInTag(s: string, k: nat)
    requires k < |s|
    ensures InTag(s, k + 1) <==> s[k] == '<' || (InTag(s, k) && s[k] != '>')
  {
    if InTag(s, k) && s[k] != '>' {
      var a :| 0 <= a < k && s[a] == '<' && forall b :: a < b < k && b < |s| ==> s[b] != '>';
      assert 0 <= a < k + 1;
    }
  }

  lemma NextAfterScript(s: string, k: nat)
    requires k < |s|
    ensures AfterScript(s, k + 1) <==> AfterScript(s, k) || (!InTag(s, k) && ScriptStarts(s, k))
  {
  }

  /** Once a script has started nothing is shown any more: its end is looked for between
      reversed bounds and never found. */
  lemma {:induction false} NothingAfterScript(s: string, pos: nat, inTag: bool)
    ensures Scan(s, pos, inTag, true) == []
    decreases |s| - pos
  {
    if pos < |s| {
      assert !ScriptEnds(s, pos);
      NothingAfterScript(s, pos + 1, true);
      NothingAfterScript(s, pos + 1, false);
    }
  }

  lemma {:induction false} ScanShows(s: string, pos: nat, inTag: bool, inScript: bool, k: nat)
    requires inScript == AfterScript(s, pos) && (!inScript ==> inTag == InTag(s, pos))
    ensures k in Scan(s, pos, inTag, inScript) <==>
      pos <= k < |s| && !InTag(s, k) && s[k] != '<' && !AfterScript(s, k)
    decreases |s| - pos
  {
    hide InTag, AfterScript, ScriptStarts, ScriptEnds;
    if pos < |s| {
      NextInTag(s, pos);
      NextAfterScript(s, pos);
      if inScript {
        NothingAfterScript(s, pos, inTag);
        if pos <= k {
          ScriptLasts(s, pos, k);
        }
      } else if !inTag && s[pos] == '<' && ScriptStarts(s, pos) {
        NothingAfterScript(s, pos + 8, true);
        if pos < k {
          ScriptLasts(s, pos + 1, k);
        }
      } else {
        ScriptIsTag(s, pos);
        ScanShows(s, pos + 1, InTag(s, pos + 1), false, k);
      }
    }
  }

  lemma ScriptIsTag(s: string, pos: nat)
    requires pos < |s|
    ensures ScriptStarts(s, pos) ==> s[pos] == '<'
  {
    if ScriptStarts(s, pos) {
      assert Slice(s, pos, pos + 7)[0] == s[pos];
    }
  }

  lemma ScriptLasts(s: string, j: nat, k: nat)
    requires AfterScript(s, j) && j <= k
    ensures AfterScript(s, k)
  {
    var a :| 0 <= a < j && a < |s| && !InTag(s, a) && ScriptStarts(s, a);
    assert 0 <= a < k;
  }

  /** Shown is exactly what lies outside tags and before any script. */
  lemma ShownExactly(s: string, k: nat)
    ensures k in Shown(s) <==> k < |s| && !InTag(s, k) && s[k] != '<' && !AfterScript(s, k)
  {
    ScanShows(s, 0, false, false, k);
  }
}

module Highlighting {
  import opened Regex
  import opened Spans
  import opened Stripping

  // ---------- Escape sequences ----------

  function Escape(name: string): Pattern { Literal(name, Done) }

  /** Some escape sequence occurs in s. */
  predicate HasEscape(s: string) {
    || Find(Escape("&nbsp;"), s, 0) >= 0
    || Find(Escape("&lt;"), s, 0) >= 0
    || Find(Escape("&gt;"), s, 0) >= 0
    || Find(Escape("&amp;"), s, 0) >= 0
  }

  /** One of the four escape sequences, in any letter case, stands at p. */
  ghost predicate EscapeAt(s: string, p: nat, e: string) {
    e in {"&nbsp;", "&lt;", "&gt;", "&amp;"} && p + |e| <= |s| && Spells(s[p..p + |e|], e)
  }

  lemma {:induction false} LiteralIsPrefix(w: string, s: string)
    ensures Matches(Literal(w, Done), s) <==> |w| <= |s| && Spells(s[..|w|], w)
    decreases |w|
  {
    if w != [] {
      LiteralIsPrefix(w[1..], if s == [] then [] else s[1..]);
      if |w| <= |s| {
        assert s[..|w|][1..] == s[1..][..|w| - 1];
        var rest := s[1..][..|w| - 1];
        assert forall k :: 0 < k < |w| ==> s[..|w|][k] == rest[k - 1] && w[k] == w[1..][k - 1];
      }
    }
  }

  lemma FindsEscape(s: string, e: string)
    requires e in {"&nbsp;", "&lt;", "&gt;", "&amp;"}
    ensures Find(Escape(e), s, 0) >= 0 <==> exists p :: EscapeAt(s, p, e)
  {
    hide Literal, Matches;
    var k := Find(Escape(e), s, 0);
    if k >= 0 {
      LiteralIsPrefix(e, s[k..]);
      assert s[k..][..|e|] == s[k..k + |e|];
      assert EscapeAt(s, k, e);
    } else {
      forall p: nat ensures !EscapeAt(s, p, e) {
        if p <= |s| {
          LiteralIsPrefix(e, s[p..]);
          if p + |e| <= |s| {
            assert s[p..][..|e|] == s[p..p + |e|];
          }
        }
      }
    }
  }

  /** What the four searches together find. */
  lemma HasEscapeMeans(s: string)
    ensures HasEscape(s) <==> exists p, e :: EscapeAt(s, p, e)
  {
    hide EscapeAt, Find;
    FindsEscape(s, "&nbsp;");
    FindsEscape(s, "&lt;");
    FindsEscape(s, "&gt;");
    FindsEscape(s, "&amp;");
    forall p, e | EscapeAt(s, p, e) ensures HasEscape(s) {
      EscapeIsKnown(s, p, e);
    }
  }

  lemma EscapeIsKnown(s: string, p: nat, e: string)
    requires EscapeAt(s, p, e)
    ensures e == "&nbsp;" || e == "&lt;" || e == "&gt;" || e == "&amp;"
    ensures 4 <= |e| <= 6 && p + |e| <= |s| && s[p] == '&'
    ensures forall q :: p < q < p + |e| ==> s[q] != '&' && (q < p + |e| - 1 ==> s[q] != ';')
  {
    forall q | p <= q < p + |e| ensures Fold(s[q]) == e[q - p] {
      assert s[p..p + |e|][q - p] == s[q];
    }
    PunctuationIsItself('&');
    PunctuationIsItself(';');
  }

  lemma PunctuationIsItself(c: char)
    requires c < 'A'
    ensures forall d :: Fold(d) == c <==> d == c
  {
  }

  const LONGEST_ESCAPE := 6

  /** The ampersand at p may open a sequence that reaches i: it is the last one up to i, at
      most five characters back, with no semicolon between. */
  predicate Opens(s: string, p: int, i: nat) {
    && i - LONGEST_ESCAPE < p <= i < |s| && 0 <= p && s[p] == '&'
    && (forall q :: p < q <= i ==> s[q] != '&')
    && (forall q :: p < q < i ==> s[q] != ';')
  }

  /** Position i lies in an escape sequence, and the term does not spell one itself. */
  ghost predicate InsideEscape(i: nat, tagless: string, term: string) {
    && !HasEscape(term)
    && exists p :: Opens(tagless, p, i) && HasEscape(Slice(tagless, p, p + LONGEST_ESCAPE))
  }

  /** Every place in an escape sequence of the text is inside one, unless the term spells
      one itself. */
  lemma InEscapeIsInside(i: nat, tagless: string, term: string, p: nat, e: string)
    requires EscapeAt(tagless, p, e) && forall q, f :: !EscapeAt(term, q, f)
    ensures p <= i < p + |e| ==> InsideEscape(i, tagless, term)
  {
    hide HasEscape;
    EscapeIsKnown(tagless, p, e);
    HasEscapeMeans(term);
    var s := Slice(tagless, p, p + LONGEST_ESCAPE);
    assert s[0..|e|] == tagless[p..p + |e|];
    assert EscapeAt(s, 0, e);
    HasEscapeMeans(s);
    if p <= i < p + |e| {
      assert Opens(tagless, p, i);
    }
  }

  lemma SliceOfSlice(s: string, p: nat, k: nat, n: nat)
    requires k + n <= |Slice(s, p, p + LONGEST_ESCAPE)| && n > 0
    ensures k + n <= LONGEST_ESCAPE && p + k + n <= |s|
    ensures Slice(s, p, p + LONGEST_ESCAPE)[k..k + n] == s[p + k..p + k + n]
  {
  }

  /** A place is only taken for inside when an escape sequence starts within five
      characters after an ampersand that is at most five characters back. */
  lemma InsideIsNearEscape(i: nat, tagless: string, term: string) returns (p: nat, q: nat, e: string)
    requires InsideEscape(i, tagless, term)
    ensures i - 6 < p <= i < |tagless| && tagless[p] == '&'
    ensures p <= q && q + |e| <= p + 6 && EscapeAt(tagless, q, e)
    ensures forall q, f :: !EscapeAt(term, q, f)
  {
    hide HasEscape, Slice;
    HasEscapeMeans(term);
    p :| Opens(tagless, p, i) && HasEscape(Slice(tagless, p, p + LONGEST_ESCAPE));
    var s := Slice(tagless, p, p + LONGEST_ESCAPE);
    HasEscapeMeans(s);
    var k: nat;
    k, e :| EscapeAt(s, k, e);
    EscapeIsKnown(s, k, e);
    q := p + k;
    SliceOfSlice(tagless, p, k, |e|);
    assert EscapeAt(tagless, p + k, e);
  }

  method IsInEscapedSequence(i: nat, tagless: string, term: string) returns (inside: bool)
    requires i < |tagless|
    ensures inside <==> InsideEscape(i, tagless, term)
  {
    hide HasEscape, Slice;
    if HasEscape(term) {
      return false;
    }
    var k: int := i;
    var found := false;
    while k >= 0 && k > i - LONGEST_ESCAPE && !found
      invariant i - LONGEST_ESCAPE <= k <= i && -1 <= k
      invariant forall q :: k < q <= i ==> tagless[q] != '&'
      invariant forall q :: k <= q < i && 0 <= q ==> tagless[q] != ';'
      invariant found ==> Opens(tagless, k, i)
      decreases k + 1, !found
    {
      if tagless[k] == '&' {
        found := true;
      } else {
        k := k - 1;
        if k >= 0 && tagless[k] == ';' {
          assert forall p :: Opens(tagless, p, i) ==> p > k;
          return false;
        }
      }
    }
    if !found {
      return false;
    }
    assert forall p :: Opens(tagless, p, i) ==> p == k;
    inside := HasEscape(Slice(tagless, k, k + LONGEST_ESCAPE));
  }

  // ---------- Where the matches are ----------

  /** A match to highlight at j: the term occurs there and does not start inside an escape
      sequence. */
  ghost predicate IsHit(tagless: string, word: string, term: string, j: int) {
    OccursAt(tagless, word, j) && !InsideEscape(j, tagless, term)
  }

  /** The matches that begin before upTo, leftmost first, without overlap. */
  ghost predicate Hits(hits: seq<nat>, upTo: nat, tagless: string, word: string, term: string) {
    && (forall k :: 0 <= k < |hits| ==> IsHit(tagless, word, term, hits[k]) && hits[k] + |word| <= upTo)
    && (forall k :: 0 < k < |hits| ==> hits[k - 1] + |word| <= hits[k])
    && (forall j :: 0 <= j < upTo && IsHit(tagless, word, term, j) ==>
          exists k :: 0 <= k < |hits| && hits[k] <= j < hits[k] + |word|)
  }

  // ---------- The stretches to mark ----------

  /** The maximal stretches of neighbouring positions, all marked with num. */
  function Stretches(ps: seq<nat>, num: nat): seq<Mark> {
    if ps == [] then []
    else
      var n := |ps| - 1;
      var before := Stretches(ps[..n], num);
      if n > 0 && ps[n] == ps[n - 1] + 1 && before != [] then
        before[..|before| - 1] + [before[|before| - 1].(end := ps[n] + 1)]
      else before + [Mark(num, ps[n], ps[n] + 1)]
  }

  predicate Increasing(ps: seq<nat>, n: nat) {
    && (forall k :: 0 <= k < |ps| ==> ps[k] < n)
    && (forall j, k :: 0 <= j < k < |ps| ==> ps[j] < ps[k])
  }

  /** Position p is inside a mark numbered num. */
  ghost predicate Covers(marks: seq<Mark>, p: nat, num: nat) {
    exists m <- marks :: m.num == num && m.start <= p < m.end
  }

  /** The marks of all matches: the k-th match carries the number num + k. */
  function MarksOf(shown: seq<nat>, hits: seq<nat>, len: nat, num: nat): seq<Mark>
    requires forall k :: 0 <= k < |hits| ==> hits[k] + len <= |shown|
  {
    if hits == [] then []
    else
      var n := |hits| - 1;
      MarksOf(shown, hits[..n], len, num) + Stretches(shown[hits[n]..hits[n] + len], num + n)
  }

  lemma {:induction false} OrderedSplit(a: seq<Mark>, m: Mark, prev: nat, n: nat)
    requires Ordered(a + [m], prev, n)
    ensures Ordered(a, prev, n) && LastEnd(a, prev) <= m.start <= m.end <= n
    decreases |a|
  {
    if a == [] {
      assert a + [m] == [m];
    } else {
      assert (a + [m])[1..] == a[1..] + [m];
      OrderedSplit(a[1..], m, a[0].end, n);
    }
  }

  lemma OneMark(m: Mark, prev: nat, n: nat)
    requires prev <= m.start <= m.end <= n
    ensures Ordered([m], prev, n) && LastEnd([m], prev) == m.end
  {
    assert [m][1..] == [];
  }

  lemma {:induction false} OrderedSnoc(a: seq<Mark>, m: Mark, prev: nat, n: nat)
    requires Ordered(a, prev, n) && LastEnd(a, prev) <= m.start <= m.end <= n
    ensures Ordered(a + [m], prev, n) && LastEnd(a + [m], prev) == m.end
    decreases |a|
  {
    if a == [] {
      assert a + [m] == [m];
      OneMark(m, prev, n);
    } else {
      assert (a + [m])[1..] == a[1..] + [m];
      OrderedSnoc(a[1..], m, a[0].end, n);
    }
  }

  lemma StretchesStep(ps: seq<nat>, num: nat) returns (init: seq<Mark>, m: Mark)
    requires |ps| > 1 && ps[|ps| - 1] == ps[|ps| - 2] + 1
    ensures Stretches(ps[..|ps| - 1], num) == init + [m]
    ensures Stretches(ps, num) == init + [m.(end := ps[|ps| - 1] + 1)]
    ensures m.num == num && m.start < m.end == ps[|ps| - 1]
  {
    var k := |ps| - 1;
    LastStretch(ps[..k], num);
    var before := Stretches(ps[..k], num);
    init, m := before[..|before| - 1], before[|before| - 1];
  }

  lemma StretchesNew(ps: seq<nat>, num: nat)
    requires ps != [] && (|ps| > 1 ==> ps[|ps| - 1] != ps[|ps| - 2] + 1)
    ensures var k := |ps| - 1;
      Stretches(ps, num) == Stretches(ps[..k], num) + [Mark(num, ps[k], ps[k] + 1)]
  {
  }

  lemma InSnoc(ps: seq<nat>, p: nat)
    requires ps != []
    ensures p in ps <==> p in ps[..|ps| - 1] || p == ps[|ps| - 1]
  {
    assert ps == ps[..|ps| - 1] + [ps[|ps| - 1]];
  }

  /** A stretch covers the given positions and no others. */
  lemma {:induction false} StretchesCover(ps: seq<nat>, num: nat, p: nat, c: nat)
    ensures Covers(Stretches(ps, num), p, c) <==> c == num && p in ps
    decreases |ps|
  {
    hide *;
    if ps == [] {
      NoStretches(num);
      NotCovered(p, c);
    } else {
      var k := |ps| - 1;
      StretchesCover(ps[..k], num, p, c);
      InSnoc(ps, p);
      if k > 0 && ps[k] == ps[k - 1] + 1 {
        var init, m := StretchesStep(ps, num);
        var m' := m.(end := ps[k] + 1);
        CoversAppend(init, [m], p, c);
        CoversAppend(init, [m'], p, c);
        CoversOne(m, p, c);
        CoversOne(m', p, c);
      } else {
        StretchesNew(ps, num);
        CoversAppend(Stretches(ps[..k], num), [Mark(num, ps[k], ps[k] + 1)], p, c);
        CoversOne(Mark(num, ps[k], ps[k] + 1), p, c);
      }
    }
  }

  lemma NoStretches(num: nat)
    ensures Stretches([], num) == []
  {
  }

  lemma LastStretch(ps: seq<nat>, num: nat)
    requires ps != []
    ensures var marks := Stretches(ps, num);
      marks != [] && var m := marks[|marks| - 1]; m.num == num && m.start <= ps[|ps| - 1] && m.end == ps[|ps| - 1] + 1
  {
    var k := |ps| - 1;
    if k > 0 {
      LastStretch(ps[..k], num);
    }
  }

  lemma CoversAppend(a: seq<Mark>, b: seq<Mark>, p: nat, c: nat)
    ensures Covers(a + b, p, c) <==> Covers(a, p, c) || Covers(b, p, c)
  {
    assert forall m :: m in a + b <==> m in a || m in b;
  }

  lemma CoversOne(m: Mark, p: nat, c: nat)
    ensures Covers([m], p, c) <==> m.num == c && m.start <= p < m.end
  {
    assert m in [m];
  }

  /** No mark begins where the one before it ends. */
  predicate Separate(marks: seq<Mark>) {
    forall k :: 0 < k < |marks| ==> marks[k - 1].end < marks[k].start
  }

  lemma IncreasingPrefix(ps: seq<nat>, n: nat)
    requires Increasing(ps, n) && ps != []
    ensures Increasing(ps[..|ps| - 1], n) && ps[|ps| - 1] < n
    ensures |ps| > 1 ==> ps[|ps| - 2] < ps[|ps| - 1]
  {
  }

  lemma SeparateLast(init: seq<Mark>, m: Mark, m': Mark)
    requires Separate(init + [m]) && m.start == m'.start
    ensures Separate(init + [m'])
  {
    assert forall k :: 0 <= k < |init| ==> (init + [m])[k] == init[k];
    assert (init + [m])[|init|] == m;
  }

  lemma SeparateSnoc(marks: seq<Mark>, m: Mark, prev: nat)
    requires Separate(marks) && (marks != [] ==> LastEnd(marks, prev) < m.start)
    ensures Separate(marks + [m])
  {
  }

  /** Stretches lie in order, end after the last position, and never touch: each of them
      is as long as it can be. */
  lemma {:induction false} StretchesInOrder(ps: seq<nat>, num: nat, prev: nat, n: nat)
    requires ps != [] && Increasing(ps, n) && prev <= ps[0]
    ensures var marks := Stretches(ps, num);
      && marks != [] && Ordered(marks, prev, n) && LastEnd(marks, prev) == ps[|ps| - 1] + 1
      && Separate(marks)
    decreases |ps|
  {
    hide *;
    var k := |ps| - 1;
    var p := ps[k];
    IncreasingPrefix(ps, n);
    if k == 0 {
      StretchesNew(ps, num);
      NoStretches(num);
      assert ps[..0] == [];
      assert Stretches(ps, num) == [Mark(num, p, p + 1)];
      OneMark(Mark(num, p, p + 1), prev, n);
      SeparateNone();
      SeparateSnoc([], Mark(num, p, p + 1), prev);
      assert [] + [Mark(num, p, p + 1)] == [Mark(num, p, p + 1)];
    } else {
      StretchesInOrder(ps[..k], num, prev, n);
      if p == ps[k - 1] + 1 {
        var init, m := StretchesStep(ps, num);
        OrderedSplit(init, m, prev, n);
        OrderedSnoc(init, m.(end := p + 1), prev, n);
        SeparateLast(init, m, m.(end := p + 1));
      } else {
        StretchesNew(ps, num);
        OrderedSnoc(Stretches(ps[..k], num), Mark(num, p, p + 1), prev, n);
        SeparateSnoc(Stretches(ps[..k], num), Mark(num, p, p + 1), prev);
      }
    }
  }

  lemma SeparateNone()
    ensures Separate([])
  {
  }

  /** The matches fit in the list of shown positions and do not overlap. */
  predicate Apart(hits: seq<nat>, len: nat, n: nat) {
    && (forall k :: 0 <= k < |hits| ==> hits[k] + len <= n)
    && (forall k :: 0 < k < |hits| ==> hits[k - 1] + len <= hits[k])
  }

  /** Where the next mark may begin. */
  function MarkedUpTo(shown: seq<nat>, hits: seq<nat>, len: nat): nat
    requires len > 0 && Apart(hits, len, |shown|)
  {
    if hits == [] then 0 else shown[hits[|hits| - 1] + len - 1] + 1
  }

  lemma ApartPrefix(hits: seq<nat>, len: nat, n: nat)
    requires Apart(hits, len, n) && hits != []
    ensures Apart(hits[..|hits| - 1], len, n) && hits[|hits| - 1] + len <= n
    ensures |hits| > 1 ==> hits[|hits| - 2] + len <= hits[|hits| - 1]
  {
  }

  lemma IncreasingSlice(shown: seq<nat>, n: nat, a: nat, b: nat)
    requires Increasing(shown, n) && a <= b <= |shown|
    ensures Increasing(shown[a..b], n)
  {
  }

  lemma MarkedUpToBefore(shown: seq<nat>, hits: seq<nat>, len: nat, n: nat)
    requires len > 0 && Apart(hits, len, |shown|) && Increasing(shown, n) && hits != []
    requires Apart(hits[..|hits| - 1], len, |shown|)
    ensures var h := hits[|hits| - 1];
      && MarkedUpTo(shown, hits[..|hits| - 1], len) <= shown[h]
      && MarkedUpTo(shown, hits, len) == shown[h + len - 1] + 1
  {
    hide Apart;
    ApartPrefix(hits, len, |shown|);
  }

  lemma MarksStep(shown: seq<nat>, hits: seq<nat>, len: nat, num: nat)
    requires Apart(hits, len, |shown|)
    ensures hits == [] ==> MarksOf(shown, hits, len, num) == []
    ensures hits != [] ==>
      var k, h := |hits| - 1, hits[|hits| - 1];
      MarksOf(shown, hits, len, num) ==
      MarksOf(shown, hits[..k], len, num) + Stretches(shown[h..h + len], num + k)
  {
    hide Stretches;
  }

  lemma {:induction false} MarksInOrder(shown: seq<nat>, hits: seq<nat>, len: nat, num: nat, n: nat)
    requires len > 0 && Apart(hits, len, |shown|) && Increasing(shown, n)
    requires forall k :: 0 <= k < |hits| ==> hits[k] + len <= |shown|
    ensures Ordered(MarksOf(shown, hits, len, num), 0, n)
    ensures LastEnd(MarksOf(shown, hits, len, num), 0) == MarkedUpTo(shown, hits, len)
    decreases |hits|
  {
    hide *;
    MarksStep(shown, hits, len, num);
    if hits == [] {
      NoMarks(shown, len, n);
    } else {
      ApartPrefix(hits, len, |shown|);
      var before, k, h := hits[..|hits| - 1], |hits| - 1, hits[|hits| - 1];
      var ps := shown[h..h + len];
      MarkedUpToBefore(shown, hits, len, n);
      IncreasingSlice(shown, n, h, h + len);
      MarksInOrder(shown, before, len, num, n);
      StretchesInOrder(ps, num + k, MarkedUpTo(shown, before, len), n);
      OrderedAppend(MarksOf(shown, before, len, num), Stretches(ps, num + k), 0, n);
      LastEndAny(Stretches(ps, num + k), LastEnd(MarksOf(shown, before, len, num), 0), MarkedUpTo(shown, before, len));
    }
  }

  lemma NoMarks(shown: seq<nat>, len: nat, n: nat)
    requires len > 0
    ensures Apart([], len, |shown|)
    ensures Ordered([], 0, n) && LastEnd([], 0) == MarkedUpTo(shown, [], len)
  {
  }

  lemma LastEndAny(marks: seq<Mark>, a: nat, b: nat)
    requires marks != []
    ensures LastEnd(marks, a) == LastEnd(marks, b)
  {
  }

  lemma {:induction false} OrderedAppend(a: seq<Mark>, b: seq<Mark>, prev: nat, n: nat)
    requires Ordered(a, prev, n) && Ordered(b, LastEnd(a, prev), n)
    ensures Ordered(a + b, prev, n) && LastEnd(a + b, prev) == LastEnd(b, LastEnd(a, prev))
    decreases |a|
  {
    if a == [] {
      assert a + b == b;
    } else {
      assert (a + b)[1..] == a[1..] + b;
      OrderedAppend(a[1..], b, a[0].end, n);
    }
  }

  /** What is marked: the span numbered c covers exactly the characters of match c - num. */
  lemma {:induction false} MarksCover(shown: seq<nat>, hits: seq<nat>, len: nat, num: nat, p: nat, c: nat)
    requires forall k :: 0 <= k < |hits| ==> hits[k] + len <= |shown|
    ensures Covers(MarksOf(shown, hits, len, num), p, c) <==>
      num <= c < num + |hits| && p in shown[hits[c - num]..hits[c - num] + len]
    decreases |hits|
  {
    hide Covers, Stretches;
    if hits == [] {
      NotCovered(p, c);
    } else {
      var k := |hits| - 1;
      MarksCover(shown, hits[..k], len, num, p, c);
      var last := shown[hits[k]..hits[k] + len];
      StretchesCover(last, num + k, p, c);
      CoversAppend(MarksOf(shown, hits[..k], len, num), Stretches(last, num + k), p, c);
    }
  }

  lemma NotCovered(p: nat, c: nat)
    ensures !Covers([], p, c)
  {
  }

  lemma MarksArePlain(body: string, shown: seq<nat>, hits: seq<nat>, len: nat, num: nat)
    requires len > 0 && Apart(hits, len, |shown|) && Increasing(shown, |body|)
    requires forall p <- shown :: body[p] != '<'
    ensures Plain(body, MarksOf(shown, hits, len, num))
  {
    var marks := MarksOf(shown, hits, len, num);
    MarksInOrder(shown, hits, len, num, |body|);
    forall m | m in marks ensures m.start <= m.end <= |body| && '<' !in body[m.start..m.end] {
      InRange(marks, m, 0, |body|);
      forall p: nat | m.start <= p < m.end ensures body[p] != '<' {
        MarksCover(shown, hits, len, num, p, m.num);
      }
    }
  }

  lemma InRange(marks: seq<Mark>, m: Mark, prev: nat, n: nat)
    requires Ordered(marks, prev, n) && m in marks
    ensures prev <= m.start <= m.end <= n
    decreases |marks|
  {
    if m != marks[0] {
      InRange(marks[1..], m, marks[0].end, n);
    }
  }
}

module HighlighterObject {
  import opened Regex
  import opened Spans
  import opened Stripping
  import opened Highlighting

  /** The text so far with the last span still open. */
  function Opened(s: string, init: seq<Mark>, m: Mark, prev: nat): string
    requires Ordered(init, prev, |s|) && LastEnd(init, prev) <= m.start <= m.end <= |s|
  {
    Text(s, init, prev) + (s[LastEnd(init, prev)..m.start] + (StartTag(m.num) + s[m.start..m.end]))
  }

  lemma OpenedCloses(s: string, init: seq<Mark>, m: Mark, prev: nat)
    requires Ordered(init, prev, |s|) && LastEnd(init, prev) <= m.start <= m.end <= |s|
    ensures Ordered(init + [m], prev, |s|) && LastEnd(init + [m], prev) == m.end
    ensures Text(s, init + [m], prev) == Opened(s, init, m, prev) + END_TAG
  {
    hide *;
    OneMark(m, LastEnd(init, prev), |s|);
    TextAppend(s, init, [m], prev);
    LastOfOne(init, m, prev);
    TextOfOne(s, m, LastEnd(init, prev));
    OpenedIs(s, init, m, prev);
    Nested(Text(s, init, prev), s[LastEnd(init, prev)..m.start], StartTag(m.num), s[m.start..m.end], END_TAG);
  }

  lemma LastOfOne(init: seq<Mark>, m: Mark, prev: nat)
    ensures LastEnd(init + [m], prev) == m.end
  {
  }

  lemma OpenedIs(s: string, init: seq<Mark>, m: Mark, prev: nat)
    requires Ordered(init, prev, |s|) && LastEnd(init, prev) <= m.start <= m.end <= |s|
    ensures Opened(s, init, m, prev) ==
            Text(s, init, prev) + (s[LastEnd(init, prev)..m.start] + (StartTag(m.num) + s[m.start..m.end]))
  {
  }

  lemma TextOfOne(s: string, m: Mark, prev: nat)
    requires Ordered([m], prev, |s|) && prev <= m.start <= m.end <= |s|
    ensures Text(s, [m], prev) == s[prev..m.start] + (StartTag(m.num) + (s[m.start..m.end] + END_TAG))
  {
    hide StartTag, END_TAG;
    assert [m][1..] == [];
    assert Text(s, [], m.end) == "";
    assert END_TAG + "" == END_TAG;
  }

  lemma Nested(t: string, a: string, b: string, c: string, d: string)
    ensures t + (a + (b + (c + d))) == t + (a + (b + c)) + d
  {
  }

  /** Reading on inside the open span. */
  lemma OpenedGrows(s: string, init: seq<Mark>, m: Mark, prev: nat)
    requires Ordered(init, prev, |s|) && LastEnd(init, prev) <= m.start <= m.end < |s|
    ensures Opened(s, init, m.(end := m.end + 1), prev) == Opened(s, init, m, prev) + [s[m.end]]
  {
    hide *;
    OpenedIs(s, init, m, prev);
    OpenedIs(s, init, m.(end := m.end + 1), prev);
    assert s[m.start..m.end + 1] == s[m.start..m.end] + [s[m.end]];
    Nested(Text(s, init, prev), s[LastEnd(init, prev)..m.start], StartTag(m.num), s[m.start..m.end], [s[m.end]]);
  }

  /** The text after the stretches of ps, before the last span is closed. */
  ghost predicate WrittenUpTo(newText: string, s: string, ps: seq<nat>, num: nat, prev: nat)
    requires ps != [] && Increasing(ps, |s|) && prev <= ps[0]
  {
    StretchesInOrder(ps, num, prev, |s|);
    var marks := Stretches(ps, num);
    var init, m := marks[..|marks| - 1], marks[|marks| - 1];
    assert marks == init + [m];
    OrderedSplit(init, m, prev, |s|);
    newText == Opened(s, init, m, prev)
  }

  lemma WrittenIs(newText: string, s: string, ps: seq<nat>, num: nat, prev: nat, init: seq<Mark>, m: Mark)
    requires ps != [] && Increasing(ps, |s|) && prev <= ps[0]
    requires Stretches(ps, num) == init + [m]
    requires Ordered(init, prev, |s|) && LastEnd(init, prev) <= m.start <= m.end <= |s|
    ensures WrittenUpTo(newText, s, ps, num, prev) <==> newText == Opened(s, init, m, prev)
  {
    hide Opened, Ordered, Stretches;
    var marks := Stretches(ps, num);
    assert marks[..|marks| - 1] == init && marks[|marks| - 1] == m;
  }

  lemma FirstWritten(s: string, ps: seq<nat>, num: nat, prev: nat)
    requires |ps| == 1 && Increasing(ps, |s|) && prev <= ps[0]
    ensures WrittenUpTo(s[prev..ps[0]] + StartTag(num) + [s[ps[0]]], s, ps, num, prev)
  {
    hide *;
    var p := ps[0];
    var m := Mark(num, p, p + 1);
    IncreasingPrefix(ps, |s|);
    StretchesNew(ps, num);
    NoStretches(num);
    assert ps[..0] == [];
    NoneOrdered(prev, |s|);
    var newText := s[prev..p] + StartTag(num) + [s[p]];
    WrittenIs(newText, s, ps, num, prev, [], m);
    OpenedIs(s, [], m, prev);
    NoneText(s, prev);
    assert s[p..p + 1] == [s[p]];
    assert newText == "" + (s[prev..p] + (StartTag(num) + [s[p]]));
  }

  lemma NoneOrdered(prev: nat, n: nat)
    requires prev <= n
    ensures Ordered([], prev, n) && LastEnd([], prev) == prev
  {
  }

  lemma NoneText(s: string, prev: nat)
    requires Ordered([], prev, |s|)
    ensures Text(s, [], prev) == ""
  {
  }

  /** One more position: inside the open span, or in a new one after the text between. */
  lemma MoreWritten(newText: string, s: string, ps: seq<nat>, num: nat, prev: nat)
    requires |ps| > 1 && Increasing(ps, |s|) && prev <= ps[0]
    requires Increasing(ps[..|ps| - 1], |s|) && WrittenUpTo(newText, s, ps[..|ps| - 1], num, prev)
    ensures var p, q := ps[|ps| - 1], ps[|ps| - 2];
      && q < p < |s|
      && WrittenUpTo(newText + (if p > q + 1 then END_TAG + s[q + 1..p] + StartTag(num) else "") + [s[p]],
                     s, ps, num, prev)
  {
    hide *;
    var k := |ps| - 1;
    var p, q, before := ps[k], ps[k - 1], ps[..k];
    IncreasingPrefix(ps, |s|);
    StretchesInOrder(before, num, prev, |s|);
    if p == q + 1 {
      var init, m := StretchesStep(ps, num);
      OrderedSplit(init, m, prev, |s|);
      WrittenIs(newText, s, before, num, prev, init, m);
      OpenedGrows(s, init, m, prev);
      WrittenIs(newText + [s[p]], s, ps, num, prev, init, m.(end := p + 1));
      assert newText + "" + [s[p]] == newText + [s[p]];
    } else {
      var marks, m := Stretches(before, num), Mark(num, p, p + 1);
      StretchesNew(ps, num);
      Closed(newText, s, before, num, prev);
      var more := newText + (END_TAG + s[q + 1..p] + StartTag(num)) + [s[p]];
      OpenedIs(s, marks, m, prev);
      assert s[p..p + 1] == [s[p]];
      WrittenIs(more, s, ps, num, prev, marks, m);
      assert more == newText + END_TAG + (s[q + 1..p] + (StartTag(num) + [s[p]]));
    }
  }

  lemma Closed(newText: string, s: string, ps: seq<nat>, num: nat, prev: nat)
    requires ps != [] && Increasing(ps, |s|) && prev <= ps[0] && WrittenUpTo(newText, s, ps, num, prev)
    ensures Ordered(Stretches(ps, num), prev, |s|)
    ensures newText + END_TAG == Text(s, Stretches(ps, num), prev)
  {
    hide *;
    StretchesInOrder(ps, num, prev, |s|);
    var marks := Stretches(ps, num);
    var init, m := marks[..|marks| - 1], marks[|marks| - 1];
    assert marks == init + [m];
    OrderedSplit(init, m, prev, |s|);
    WrittenIs(newText, s, ps, num, prev, init, m);
    OpenedCloses(s, init, m, prev);
  }

  function Upper(s: string, upper: char -> char): (r: string) { seq(|s|, k requires 0 <= k < |s| => upper(s[k])) }

  function Folded(s: string, caseSensitive: bool, upper: char -> char): (r: string)
    ensures |r| == |s|
  {
    if caseSensitive then s else Upper(s, upper)
  }

  class Highlighter {
    var str2pos: seq<nat>   // where the characters of the stripped text came from

    constructor () { str2pos := []; }

    method GetTagStrippedStringAndMap(aString: string) returns (tagless: string)
      modifies this
      ensures str2pos == Shown(aString) && tagless == Chars(aString, str2pos)
    {
      hide ScriptStarts, ScriptEnds;
      tagless, str2pos := "", [];
      var inTag, inScript, pos := false, false, 0;
      while pos < |aString|
        invariant str2pos + Scan(aString, pos, inTag, inScript) == Shown(aString)
        invariant forall p <- str2pos :: p < |aString|
        invariant tagless == Chars(aString, str2pos)
        decreases |aString| - pos
      {
        if inTag && aString[pos] == '>' {
          inTag := false;
          if inScript && ScriptEnds(aString, pos) {
            inScript := false;
          }
        } else if !inTag && aString[pos] == '<' {
          inTag := true;
          if !inScript && ScriptStarts(aString, pos) {
            inScript := true;
            pos := pos + 7;
          }
        } else if !inTag && !inScript {
          tagless := tagless + [aString[pos]];
          str2pos := str2pos + [pos];
        }
        pos := pos + 1;
      }
    }

    /** Writes one match, split into as many spans as the page needs. */
    method InsertHighlighting(body: string, previ: nat, i: nat, length: nat, startTag: string, ghost num: nat)
      returns (newText: string)
      requires Increasing(str2pos, |body|) && length > 0 && i + length <= |str2pos|
      requires previ <= str2pos[i] && startTag == StartTag(num)
      ensures Ordered(Stretches(str2pos[i..i + length], num), previ, |body|)
      ensures newText == Text(body, Stretches(str2pos[i..i + length], num), previ)
    {
      hide *;
      InOrder(str2pos, |body|);
      newText := body[previ..str2pos[i]];
      newText := newText + startTag;
      var last := str2pos[i];
      var cnt := i;
      while cnt < i + length
        invariant i <= cnt <= i + length
        invariant cnt == i ==> newText == body[previ..str2pos[i]] + StartTag(num) && last == str2pos[i]
        invariant cnt > i ==> last == str2pos[cnt - 1]
        invariant cnt > i ==> Increasing(str2pos[i..cnt], |body|)
        invariant cnt > i ==> WrittenUpTo(newText, body, str2pos[i..cnt], num, previ)
      {
        IncreasingSlice(str2pos, |body|, i, cnt + 1);
        ghost var ps, was := str2pos[i..cnt + 1], newText;
        assert ps[..|ps| - 1] == str2pos[i..cnt];
        if str2pos[cnt] > last + 1 {
          newText := newText + END_TAG;
          newText := newText + body[last + 1..str2pos[cnt]];
          newText := newText + startTag;
          assert newText == was + (END_TAG + body[last + 1..str2pos[cnt]] + startTag);
        }
        newText := newText + [body[str2pos[cnt]]];
        if cnt == i {
          FirstWritten(body, ps, num, previ);
        } else {
          MoreWritten(was, body, ps, num, previ);
          assert was + "" == was;
        }
        last := str2pos[cnt];
        cnt := cnt + 1;
      }
      Closed(newText, body, str2pos[i..i + length], num, previ);
      newText := newText + END_TAG;
    }

    /** Highlights every match of a nonempty (escaped) term and numbers them from hitCount. */
    method AddHighlight(bodyText: string, searchTerm: string, caseSensitive: bool, hitCount: nat, upper: char -> char)
      returns (newText: string, count: nat, ghost hits: seq<nat>)
      requires searchTerm != [] && upper('<') == '<'
      modifies this
      ensures str2pos == Shown(Folded(bodyText, caseSensitive, upper))
      ensures var tagless := Chars(Folded(bodyText, caseSensitive, upper), str2pos);
        Hits(hits, |tagless|, tagless, Folded(searchTerm, caseSensitive, upper), searchTerm)
      ensures Apart(hits, |searchTerm|, |str2pos|) && count == hitCount + |hits|
      ensures Ordered(MarksOf(str2pos, hits, |searchTerm|, hitCount), 0, |bodyText|)
      ensures newText == Marked(bodyText, MarksOf(str2pos, hits, |searchTerm|, hitCount))
      ensures Unmarked(bodyText) ==> Removed(newText) == bodyText
      ensures var tagless := Chars(Folded(bodyText, caseSensitive, upper), str2pos);
        NoneInEscape(hits, tagless, searchTerm)
    {
      hide *;
      var text, word := Folded(bodyText, caseSensitive, upper), Folded(searchTerm, caseSensitive, upper);
      var tagless := GetTagStrippedStringAndMap(text);
      ShownInOrder(text);
      var i, previ, len := 0, 0, |searchTerm|;
      newText, count, hits := "", hitCount, [];
      Nothing(bodyText, tagless, word, searchTerm, str2pos, hitCount);
      while true
        invariant str2pos == Shown(text) && |str2pos| == |tagless| && tagless == Chars(text, str2pos)
        invariant i <= |tagless|
        invariant Hits(hits, i, tagless, word, searchTerm) && Apart(hits, len, |str2pos|)
        invariant Written(newText, bodyText, str2pos, hits, len, hitCount)
        invariant previ == MarkedUpTo(str2pos, hits, len) && count == hitCount + |hits|
        decreases |tagless| - i
      {
        var found := IndexOf(tagless, word, i);
        HitsSkip(hits, i, tagless, word, searchTerm);
        if found < 0 {
          break;
        }
        OccursInside(tagless, word, found);
        i := found;
        var inside := IsInEscapedSequence(i, tagless, searchTerm);
        if inside {
          HitsEscape(hits, i, tagless, word, searchTerm);
          i := i + 1;
          continue;
        }
        HitsAdd(hits, i, tagless, word, searchTerm);
        ghost var was := newText;
        var startTag := StartTag(count);
        WrittenNext(newText, bodyText, str2pos, hits, i, len, hitCount);
        var piece := InsertHighlighting(bodyText, previ, i, len, startTag, count);
        newText := newText + piece;
        count := count + 1;
        previ := str2pos[i + len - 1] + 1;
        hits := hits + [i];
        i := i + len;
      }
      WrittenEnds(newText, bodyText, str2pos, hits, len, hitCount);
      newText := newText + bodyText[previ..];
      NoHitInEscape(hits, tagless, word, searchTerm);
      MarksInOrder(str2pos, hits, len, hitCount, |bodyText|);
      ShownIsPlain(bodyText, caseSensitive, upper);
      MarksArePlain(bodyText, str2pos, hits, len, hitCount);
      RoundTrip(bodyText, MarksOf(str2pos, hits, len, hitCount));
    }
  }

  lemma InOrder(ps: seq<nat>, n: nat)
    requires Increasing(ps, n)
    ensures forall k :: 0 <= k < |ps| ==> ps[k] < n
    ensures forall j, k :: 0 <= j < k < |ps| ==> ps[j] < ps[k]
  {
  }

  lemma ShownInOrder(s: string)
    ensures Increasing(Shown(s), |s|) && |Chars(s, Shown(s))| == |Shown(s)|
  {
    hide Shown;
    forall k | 0 <= k < |Shown(s)| ensures Shown(s)[k] < |s| {
      assert Shown(s)[k] in Shown(s);
    }
  }

  /** The characters that the k-th match marks spell the term. */
  lemma MatchSpellsTerm(text: string, word: string, h: nat)
    requires OccursAt(Chars(text, Shown(text)), word, h)
    ensures h + |word| <= |Shown(text)|
    ensures forall j :: h <= j < h + |word| ==> Shown(text)[j] < |text| && text[Shown(text)[j]] == word[j - h]
  {
    hide Shown;
    var shown, stripped := Shown(text), Chars(text, Shown(text));
    forall j | h <= j < h + |word| ensures shown[j] < |text| && text[shown[j]] == word[j - h] {
      assert shown[j] in shown;
      assert stripped[h..h + |word|][j - h] == stripped[j];
    }
  }

  /** No shown character opens a tag, whichever case the text was searched in. */
  lemma ShownIsPlain(body: string, caseSensitive: bool, upper: char -> char)
    requires upper('<') == '<'
    ensures forall p <- Shown(Folded(body, caseSensitive, upper)) :: p < |body| && body[p] != '<'
  {
    hide InTag, AfterScript, Shown;
    var text := Folded(body, caseSensitive, upper);
    forall p | p in Shown(text) ensures p < |body| && body[p] != '<' {
      ShownExactly(text, p);
    }
  }

  lemma Nothing(body: string, tagless: string, word: string, term: string, shown: seq<nat>, num: nat)
    requires term != []
    ensures Hits([], 0, tagless, word, term) && Apart([], |term|, |shown|)
    ensures Written("", body, shown, [], |term|, num) && MarkedUpTo(shown, [], |term|) == 0
  {
    hide IsHit;
  }

  lemma OccursInside(s: string, w: string, k: int)
    requires OccursAt(s, w, k)
    ensures 0 <= k && k + |w| <= |s|
  {
  }

  /** No match starts in an escape sequence of the text, unless the term spells one. */
  ghost predicate NoneInEscape(hits: seq<nat>, tagless: string, term: string) {
    (forall q, f :: !EscapeAt(term, q, f)) ==>
      forall p: nat, e, k :: EscapeAt(tagless, p, e) && 0 <= k < |hits| ==> !(p <= hits[k] < p + |e|)
  }

  lemma NoHitInEscape(hits: seq<nat>, tagless: string, word: string, term: string)
    requires Hits(hits, |tagless|, tagless, word, term)
    ensures NoneInEscape(hits, tagless, term)
  {
    hide EscapeAt, InsideEscape;
    if forall q, f :: !EscapeAt(term, q, f) {
      forall p: nat, e, k | EscapeAt(tagless, p, e) && 0 <= k < |hits| ensures !(p <= hits[k] < p + |e|) {
        assert IsHit(tagless, word, term, hits[k]);
        InEscapeIsInside(hits[k], tagless, term, p, e);
      }
    }
  }

  lemma HitsSkip(hits: seq<nat>, i: nat, tagless: string, word: string, term: string)
    requires word != [] && i <= |tagless| && Hits(hits, i, tagless, word, term)
    ensures var found := IndexOf(tagless, word, i);
      Hits(hits, if found < 0 then |tagless| else found, tagless, word, term)
  {
    hide InsideEscape, IndexOf;
    var found := IndexOf(tagless, word, i);
  }

  lemma HitsEscape(hits: seq<nat>, i: nat, tagless: string, word: string, term: string)
    requires Hits(hits, i, tagless, word, term) && InsideEscape(i, tagless, term)
    ensures Hits(hits, i + 1, tagless, word, term)
  {
    hide InsideEscape;
  }

  lemma HitsAdd(hits: seq<nat>, i: nat, tagless: string, word: string, term: string)
    requires Hits(hits, i, tagless, word, term) && |word| == |term| > 0
    requires OccursAt(tagless, word, i) && !InsideEscape(i, tagless, term)
    ensures Hits(hits + [i], i + |word|, tagless, word, term)
    ensures Apart(hits + [i], |term|, |tagless|)
  {
    hide InsideEscape;
    var more := hits + [i];
    forall j | 0 <= j < i + |word| && IsHit(tagless, word, term, j)
      ensures exists k :: 0 <= k < |more| && more[k] <= j < more[k] + |word|
    {
      if j < i {
        var k :| 0 <= k < |hits| && hits[k] <= j < hits[k] + |word|;
        assert more[k] == hits[k];
      } else {
        assert more[|hits|] == i;
      }
    }
  }

  lemma HitsApart(hits: seq<nat>, upTo: nat, tagless: string, word: string, term: string, j: nat, k: nat)
    requires Hits(hits, upTo, tagless, word, term) && j < k < |hits|
    ensures hits[j] + |word| <= hits[k]
  {
    hide IsHit;
    if j + 1 < k {
      HitsApart(hits, upTo, tagless, word, term, j, k - 1);
    }
  }

  lemma NotBefore(a: seq<nat>, b: seq<nat>, tagless: string, word: string, term: string, k: nat)
    requires word != []
    requires Hits(a, |tagless|, tagless, word, term) && Hits(b, |tagless|, tagless, word, term)
    requires k < |a| && k <= |b| && a[..k] == b[..k]
    ensures k < |b| && b[k] <= a[k]
  {
    hide IsHit;
    assert OccursAt(tagless, word, a[k]) by { HitOccurs(tagless, word, term, a[k]); }
    var j :| 0 <= j < |b| && b[j] <= a[k] < b[j] + |word|;
    if j < k {
      assert a[j] == a[..k][j] == b[..k][j] == b[j];
      HitsApart(a, |tagless|, tagless, word, term, j, k);
    } else if k < j {
      HitsApart(b, |tagless|, tagless, word, term, k, j);
    }
  }

  lemma HitOccurs(tagless: string, word: string, term: string, j: int)
    requires IsHit(tagless, word, term, j)
    ensures OccursAt(tagless, word, j)
  {
    hide InsideEscape;
  }

  /** There is one way to choose the matches: leftmost first, without overlap. */
  lemma {:induction false} HitsAreUnique(a: seq<nat>, b: seq<nat>, tagless: string, word: string, term: string, k: nat)
    requires word != [] && k <= |a| && k <= |b| && a[..k] == b[..k]
    requires Hits(a, |tagless|, tagless, word, term) && Hits(b, |tagless|, tagless, word, term)
    ensures a == b
    decreases |a| - k
  {
    hide *;
    if k < |a| {
      NotBefore(a, b, tagless, word, term, k);
      NotBefore(b, a, tagless, word, term, k);
      assert a[..k + 1] == a[..k] + [a[k]] && b[..k + 1] == b[..k] + [b[k]];
      HitsAreUnique(a, b, tagless, word, term, k + 1);
    } else if k < |b| {
      NotBefore(b, a, tagless, word, term, k);
    } else {
      assert a == a[..k] && b == b[..k];
    }
  }

  /** The text written for the matches found so far. */
  ghost predicate Written(newText: string, body: string, shown: seq<nat>, hits: seq<nat>, len: nat, num: nat) {
    && (forall k :: 0 <= k < |hits| ==> hits[k] + len <= |shown|)
    && Ordered(MarksOf(shown, hits, len, num), 0, |body|)
    && newText == Text(body, MarksOf(shown, hits, len, num), 0)
  }

  lemma ApartSnoc(hits: seq<nat>, i: nat, len: nat, n: nat)
    requires Apart(hits + [i], len, n)
    ensures Apart(hits, len, n) && i + len <= n
    ensures (hits + [i])[..|hits + [i]| - 1] == hits
  {
    assert (hits + [i])[..|hits|] == hits;
    ApartPrefix(hits + [i], len, n);
  }

  /** What the next match adds to the text. */
  lemma WrittenNext(newText: string, body: string, shown: seq<nat>, hits: seq<nat>, i: nat, len: nat, num: nat)
    requires len > 0 && Apart(hits, len, |shown|) && Apart(hits + [i], len, |shown|) && Increasing(shown, |body|)
    requires Written(newText, body, shown, hits, len, num)
    ensures i + len <= |shown|
    ensures MarkedUpTo(shown, hits, len) <= shown[i]
    ensures MarkedUpTo(shown, hits + [i], len) == shown[i + len - 1] + 1
    ensures Ordered(Stretches(shown[i..i + len], num + |hits|), MarkedUpTo(shown, hits, len), |body|)
    ensures var piece := Text(body, Stretches(shown[i..i + len], num + |hits|), MarkedUpTo(shown, hits, len));
      Written(newText + piece, body, shown, hits + [i], len, num)
  {
    hide *;
    ApartSnoc(hits, i, len, |shown|);
    MarkedUpToBefore(shown, hits + [i], len, |body|);
    IncreasingSlice(shown, |body|, i, i + len);
    InOrder(shown, |body|);
    StretchesInOrder(shown[i..i + len], num + |hits|, MarkedUpTo(shown, hits, len), |body|);
    MarksInOrder(shown, hits, len, num, |body|) by { ApartBounds(hits, len, |shown|); }
    var marks, last := MarksOf(shown, hits, len, num), Stretches(shown[i..i + len], num + |hits|);
    MarksStep(shown, hits + [i], len, num);
    TextAppend(body, marks, last, 0);
    WrittenMeans(newText, body, shown, hits, len, num);
    ApartBounds(hits + [i], len, |shown|);
    WrittenMeans(newText + Text(body, last, MarkedUpTo(shown, hits, len)), body, shown, hits + [i], len, num);
  }

  lemma ApartBounds(hits: seq<nat>, len: nat, n: nat)
    requires Apart(hits, len, n)
    ensures forall k :: 0 <= k < |hits| ==> hits[k] + len <= n
  {
  }

  lemma WrittenMeans(newText: string, body: string, shown: seq<nat>, hits: seq<nat>, len: nat, num: nat)
    requires forall k :: 0 <= k < |hits| ==> hits[k] + len <= |shown|
    requires Ordered(MarksOf(shown, hits, len, num), 0, |body|)
    ensures Written(newText, body, shown, hits, len, num) <==> newText == Text(body, MarksOf(shown, hits, len, num), 0)
  {
    hide Ordered, Text, MarksOf;
  }

  lemma WrittenEnds(newText: string, body: string, shown: seq<nat>, hits: seq<nat>, len: nat, num: nat)
    requires len > 0 && Apart(hits, len, |shown|) && Increasing(shown, |body|)
    requires Written(newText, body, shown, hits, len, num)
    ensures forall k :: 0 <= k < |hits| ==> hits[k] + len <= |shown|
    ensures Ordered(MarksOf(shown, hits, len, num), 0, |body|)
    ensures MarkedUpTo(shown, hits, len) <= |body|
    ensures newText + body[MarkedUpTo(shown, hits, len)..] == Marked(body, MarksOf(shown, hits, len, num))
  {
    hide Ordered, Text, MarksOf, MarkedUpTo, LastEnd;
    MarksInOrder(shown, hits, len, num, |body|);
    OrderedEnd(MarksOf(shown, hits, len, num), 0, |body|);
  }

  /** Adding highlights and removing them again gives the page back. */
  lemma RoundTrip(body: string, marks: seq<Mark>)
    requires Ordered(marks, 0, |body|) && Plain(body, marks)
    ensures Unmarked(body) ==> Removed(Marked(body, marks)) == body
  {
    hide Ordered, Plain, Unmarked, Removed, Text;
    if Unmarked(body) {
      RemovesMarks(body, marks, 0);
      assert body[0..] == body;
    }
  }
}
