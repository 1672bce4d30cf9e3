/**
 The presubmit check for multi-line `if` statements without braces: a scanner that works
 on a text with comments and literals blanked out and reports lines of the original.
 */
module BraceCheck {

  /** A half-open range of positions: a match of a regular expression. */
  datatype Span = Span(start: nat, end: nat)

  /** What matching from left to right gives: spans inside the text, in order, not overlapping. */
  ghost predicate InOrder(spans: seq<Span>, length: nat) {
    && (forall k :: 0 <= k < |spans| ==> spans[k].start <= spans[k].end <= length)
    && (forall k, l :: 0 <= k < l < |spans| ==> spans[k].end <= spans[l].start)
  }

  // ---------------------------------------------------------------- blanking

  function BlankChar(c: char): char {
    if c == '\n' then '\n' else ' '
  }

  function Blank(s: string): (r: string)
    ensures |r| == |s|
  {
    seq(|s|, i requires 0 <= i < |s| => BlankChar(s[i]))
  }

  ghost predicate Covered(spans: seq<Span>, i: nat) {
    exists k :: 0 <= k < |spans| && spans[k].start <= i < spans[k].end
  }

  /** Exactly the covered characters change, to a space or, where they are one, a newline. */
  ghost predicate BlankedTo(original: string, spans: seq<Span>, text: string) {
    && |text| <= |original|
    && forall i :: 0 <= i < |text| ==>
       text[i] == if !Covered(spans, i) then original[i] else if original[i] == '\n' then '\n' else ' '
  }

  /** The text with the spans blanked. */
  ghost predicate Blanked(original: string, spans: seq<Span>, text: string) {
    |text| == |original| && BlankedTo(original, spans, text)
  }

  method Clean(original: string, spans: seq<Span>) returns (text: string)
    requires InOrder(spans, |original|)
    ensures Blanked(original, spans, text)
  {
    text := "";
    for n := 0 to |spans|
      invariant BlankedTo(original, spans, text)
      invariant |text| == if n > 0 then spans[n - 1].end else 0
    {
      var span := spans[n];
      assert n > 0 ==> spans[n - 1].end <= span.start;
      BlankedGap(original, spans, n, text);
      text := text + original[|text|..span.start];
      BlankedSpan(original, spans, n, text);
      text := text + Blank(original[span.start..span.end]);
    }
    BlankedGap(original, spans, |spans|, text);
    text := text + original[|text|..];
  }

  /** Between two spans nothing changes. */
  lemma BlankedGap(original: string, spans: seq<Span>, n: nat, text: string)
    requires InOrder(spans, |original|) && n <= |spans| && BlankedTo(original, spans, text)
    requires |text| == if n > 0 then spans[n - 1].end else 0
    ensures var next := if n < |spans| then spans[n].start else |original|;
            |text| <= next && BlankedTo(original, spans, text + original[|text|..next])
  {
    var next := if n < |spans| then spans[n].start else |original|;
    assert 0 < n < |spans| ==> spans[n - 1].end <= spans[n].start;
    forall i | |text| <= i < next ensures !Covered(spans, i) {
      forall k | 0 <= k < |spans| ensures spans[k].end <= i || i < spans[k].start {
        assert k < n - 1 ==> spans[k].end <= spans[n - 1].start;
        assert n < k ==> spans[n].end <= spans[k].start;
      }
    }
  }

  lemma BlankedSpan(original: string, spans: seq<Span>, n: nat, text: string)
    requires InOrder(spans, |original|) && n < |spans| && BlankedTo(original, spans, text)
    requires |text| == spans[n].start
    ensures BlankedTo(original, spans, text + Blank(original[spans[n].start..spans[n].end]))
  {
    forall i | spans[n].start <= i < spans[n].end ensures Covered(spans, i) {}
  }

  // ---------------------------------------------------------------- lines

  function Newlines(s: string): nat {
    if s == "" then 0 else Newlines(s[..|s| - 1]) + (if s[|s| - 1] == '\n' then 1 else 0)
  }

  /** The line that position `i` is on. */
  function LineOf(text: string, i: nat): nat
    requires i <= |text|
  {
    Newlines(text[..i]) + 1
  }

  /** It is one more than the number of newlines before the position. */
  lemma {:induction false} LineCountsNewlines(text: string, i: nat)
    requires i <= |text|
    ensures LineOf(text, i) == 1 + |set k | 0 <= k < i && text[k] == '\n'|
  {
    var before := set k | 0 <= k < i && text[k] == '\n';
    if i == 0 {
      assert before == {};
    } else {
      LineCountsNewlines(text, i - 1);
      var rest := set k | 0 <= k < i - 1 && text[k] == '\n';
      assert text[..i][..i - 1] == text[..i - 1];
      assert before == if text[i - 1] == '\n' then rest + {i - 1} else rest;
    }
  }

  /** Blanking keeps the line of every position. */
  lemma {:induction false} BlankedKeepsLines(original: string, spans: seq<Span>, text: string, i: nat)
    requires Blanked(original, spans, text) && i <= |text|
    ensures LineOf(text, i) == LineOf(original, i)
  {
    if i == 0 {
    } else {
      BlankedKeepsLines(original, spans, text, i - 1);
      assert text[..i][..i - 1] == text[..i - 1];
      assert original[..i][..i - 1] == original[..i - 1];
    }
  }

  /** The end of the line that starts at or before `j`. */
  function LineEnd(text: string, j: nat): (r: nat)
    requires j <= |text|
    ensures j <= r <= |text| && '\n' !in text[j..r] && (r < |text| ==> text[r] == '\n')
    decreases |text| - j
  {
    if j == |text| || text[j] == '\n' then j else LineEnd(text, j + 1)
  }

  lemma {:induction false} SameLine(text: string, j: nat, k: nat)
    requires j <= k <= |text| && '\n' !in text[j..k]
    ensures LineOf(text, k) == LineOf(text, j)
    decreases k
  {
    if j < k {
      assert '\n' !in text[j..k - 1] by {
        assert text[j..k - 1] == text[j..k][..k - 1 - j];
      }
      SameLine(text, j, k - 1);
      assert text[..k][..k - 1] == text[..k - 1];
      assert text[k - 1] == text[j..k][k - 1 - j];
    }
  }

  lemma Slice(s: string, a: nat, b: nat, c: nat, d: nat)
    requires c <= d <= b - a && a <= b <= |s|
    ensures s[a..b][c..d] == s[a + c..a + d]
  {
    var inner, outer := s[a..b][c..d], s[a + c..a + d];
    assert |inner| == |outer|;
    assert forall i :: 0 <= i < |inner| ==> inner[i] == outer[i];
  }

  predicate IsStripped(c: char) {
    c == ' ' || '\t' <= c <= '\r' || '\U{1C}' <= c <= '\U{1F}'
  }

  function Strip(s: string): string {
    if s == "" then ""
    else if IsStripped(s[0]) then Strip(s[1..])
    else if IsStripped(s[|s| - 1]) then Strip(s[..|s| - 1])
    else s
  }

  /** The stripped text is a part of the text; around it is only white space, and it neither
      starts nor ends with any. */
  lemma {:induction false} StripIsPart(s: string) returns (a: nat, b: nat)
    ensures a <= b <= |s| && Strip(s) == s[a..b]
    ensures forall k :: 0 <= k < a || b <= k < |s| ==> IsStripped(s[k])
    ensures a < b ==> !IsStripped(s[a]) && !IsStripped(s[b - 1])
    decreases |s|
  {
    if s == "" {
      a, b := 0, 0;
    } else if IsStripped(s[0]) {
      var tail := s[1..];
      a, b := StripIsPart(tail);
      assert forall k :: 0 < k < |s| ==> s[k] == tail[k - 1];
      a, b := a + 1, b + 1;
    } else if IsStripped(s[|s| - 1]) {
      a, b := StripIsPart(s[..|s| - 1]);
    } else {
      a, b := 0, |s|;
    }
  }

  // ---------------------------------------------------------------- parentheses

  function Weight(c: char): int {
    if c == '(' then 1 else if c == ')' then -1 else 0
  }

  function Balance(s: string): int {
    if s == "" then 0 else Balance(s[..|s| - 1]) + Weight(s[|s| - 1])
  }

  lemma {:induction false} BalanceConcat(s: string, t: string)
    ensures Balance(s + t) == Balance(s) + Balance(t)
    decreases |t|
  {
    if t == "" {
      assert s + t == s;
    } else {
      assert (s + t)[..|s + t| - 1] == s + t[..|t| - 1];
      BalanceConcat(s, t[..|t| - 1]);
    }
  }

  lemma BalanceSplit(s: string, k: nat)
    requires k <= |s|
    ensures Balance(s) == Balance(s[..k]) + Balance(s[k..])
  {
    assert s == s[..k] + s[k..];
    BalanceConcat(s[..k], s[k..]);
  }

  /** Well-nested text: other characters anywhere, and every opening parenthesis closed
      around well-nested text. */
  ghost predicate Nested(s: string)
    decreases |s|
  {
    || s == ""
    || (Weight(s[0]) == 0 && Nested(s[1..]))
    || (s[0] == '(' && exists k :: 0 < k < |s| && Pair(s, k))
  }

  /** The first parenthesis is closed at `k`. */
  ghost predicate Pair(s: string, k: nat)
    requires 0 < k < |s|
    decreases |s|, 0
  {
    s[k] == ')' && Nested(s[1..k]) && Nested(s[k + 1..])
  }

  ghost predicate NeverBelow(s: string) {
    forall k :: 0 <= k <= |s| ==> Balance(s[..k]) >= 0
  }

  lemma BalanceFirst(s: string)
    requires s != ""
    ensures Balance(s[..1]) == Weight(s[0])
  {
    assert s[..1] == [s[0]];
    assert Balance(s[..1][..0]) == 0;
  }

  /** Balance of a prefix, one character dropped in front. */
  lemma BalanceTail(s: string, k: nat)
    requires 0 < k <= |s|
    ensures Balance(s[..k]) == Weight(s[0]) + Balance(s[1..][..k - 1])
  {
    BalanceSplit(s[..k], 1);
    assert s[..k][..1] == s[..1] && s[..k][1..] == s[1..][..k - 1];
    BalanceFirst(s);
  }

  lemma BalanceFrom(s: string, m: nat, k: nat)
    requires m <= k <= |s|
    ensures Balance(s[..k]) == Balance(s[..m]) + Balance(s[m..][..k - m])
  {
    BalanceSplit(s[..k], m);
    assert s[..k][..m] == s[..m] && s[..k][m..] == s[m..][..k - m];
  }

  lemma {:induction false} NestedIsBalanced(s: string)
    requires Nested(s)
    ensures Balance(s) == 0 && NeverBelow(s)
    decreases |s|
  {
    if s == "" {
    } else if Weight(s[0]) == 0 {
      NestedIsBalanced(s[1..]);
      forall k | 0 <= k <= |s| ensures Balance(s[..k]) >= 0 {
        if k > 0 {
          BalanceTail(s, k);
        }
      }
      BalanceTail(s, |s|);
      assert s[..|s|] == s && s[1..][..|s| - 1] == s[1..];
    } else {
      var k :| 0 < k < |s| && Pair(s, k);
      NestedIsBalanced(s[1..k]);
      NestedIsBalanced(s[k + 1..]);
      PairIsBalanced(s, k);
    }
  }

  /** Inside a pair the balance is positive, and it is zero behind it. */
  lemma PairBalance(s: string, k: nat)
    requires 0 < k < |s| && s[0] == '(' && s[k] == ')'
    requires Balance(s[1..k]) == 0 && NeverBelow(s[1..k])
    ensures Balance(s[..k + 1]) == 0 && forall m :: 0 < m <= k ==> Balance(s[..m]) > 0
  {
    forall m | 0 < m <= k ensures Balance(s[..m]) > 0 {
      BalanceTail(s, m);
      assert s[1..][..m - 1] == s[1..k][..m - 1];
      assert Balance(s[1..k][..m - 1]) >= 0;
    }
    BalanceTail(s, k);
    assert s[1..][..k - 1] == s[1..k];
    assert s[..k + 1][..k] == s[..k];
  }

  lemma PairIsBalanced(s: string, k: nat)
    requires 0 < k < |s| && s[0] == '(' && s[k] == ')'
    requires Balance(s[1..k]) == 0 && NeverBelow(s[1..k]) && Balance(s[k + 1..]) == 0 && NeverBelow(s[k + 1..])
    ensures Balance(s) == 0 && NeverBelow(s)
  {
    PairBalance(s, k);
    BalanceSplit(s, k + 1);
    forall m | 0 <= m <= |s| ensures Balance(s[..m]) >= 0 {
      if m > k {
        BalanceFrom(s, k + 1, m);
        assert Balance(s[k + 1..][..m - k - 1]) >= 0;
      } else if m == 0 {
        assert s[..0] == "";
      }
    }
  }

  lemma {:induction false} BalancedIsNested(s: string)
    requires Balance(s) == 0 && NeverBelow(s)
    ensures Nested(s)
    decreases |s|
  {
    if s == "" {
    } else {
      BalanceFirst(s);
      assert Balance(s[..1]) >= 0;
      if Weight(s[0]) == 0 {
        TailBalanced(s, 1);
        BalancedIsNested(s[1..]);
      } else {
        var k := FirstZero(s);
        InnerBalanced(s, k);
        BalancedIsNested(s[1..k]);
        TailBalanced(s, k + 1);
        BalancedIsNested(s[k + 1..]);
        assert Pair(s, k);
      }
    }
  }

  lemma TailBalanced(s: string, m: nat)
    requires m <= |s| && Balance(s) == 0 && NeverBelow(s) && Balance(s[..m]) == 0
    ensures Balance(s[m..]) == 0 && NeverBelow(s[m..])
  {
    BalanceSplit(s, m);
    forall k | 0 <= k <= |s| - m ensures Balance(s[m..][..k]) >= 0 {
      BalanceFrom(s, m, m + k);
      assert Balance(s[..m + k]) >= 0;
    }
  }

  /** Where the balance first returns to zero. */
  lemma FirstZero(s: string) returns (k: nat)
    requires s != "" && s[0] == '(' && Balance(s) == 0
    ensures 0 < k < |s| && s[k] == ')' && Balance(s[..k + 1]) == 0
    ensures forall m :: 0 < m <= k ==> Balance(s[..m]) > 0
  {
    k := 0;
    BalanceFirst(s);
    assert s[..|s|] == s;
    while Balance(s[..k + 1]) != 0
      invariant k < |s|
      invariant forall m :: 0 < m <= k ==> Balance(s[..m]) > 0
      invariant k > 0 || Balance(s[..1]) == 1
      invariant Balance(s[..k + 1]) >= 0
      decreases |s| - k
    {
      assert Balance(s[..k + 1]) > 0 && k + 1 < |s|;
      k := k + 1;
      assert s[..k + 1][..k] == s[..k];
    }
    assert s[..k + 1][..k] == s[..k];
  }

  lemma InnerBalanced(s: string, k: nat)
    requires 0 < k < |s| && s[0] == '(' && s[k] == ')' && Balance(s[..k + 1]) == 0
    requires forall m :: 0 < m <= k ==> Balance(s[..m]) > 0
    ensures Balance(s[1..k]) == 0 && NeverBelow(s[1..k])
  {
    assert s[..k + 1][..k] == s[..k];
    BalanceTail(s, k);
    assert s[1..][..k - 1] == s[1..k];
    forall m | 0 <= m <= k - 1 ensures Balance(s[1..k][..m]) >= 0 {
      BalanceTail(s, m + 1);
      assert s[1..][..m] == s[1..k][..m];
    }
  }

  /** The parenthesis at `open` is closed at `close`. */
  ghost predicate Closes(text: string, open: nat, close: nat)
    requires open < |text| && text[open] == '('
  {
    open < close < |text| && text[close] == ')' && Nested(text[open + 1..close])
  }

  /** Seen from `open`, the closing parenthesis is where the balance first returns to zero. */
  lemma ClosesIsFirstZero(text: string, open: nat, close: nat)
    requires open < |text| && text[open] == '(' && open < close < |text|
    ensures Closes(text, open, close) <==>
      && Balance(text[open..close + 1]) == 0
      && forall m :: open < m <= close ==> Balance(text[open..m]) > 0
  {
    var s := text[open..close + 1];
    var k := close - open;
    Slice(text, open, close + 1, 1, k);
    assert forall m :: open < m <= close + 1 ==> s[..m - open] == text[open..m];
    if Closes(text, open, close) {
      NestedIsBalanced(s[1..k]);
      PairBalance(s, k);
    }
    if Balance(text[open..close + 1]) == 0 && forall m :: open < m <= close ==> Balance(text[open..m]) > 0 {
      forall m | 0 < m <= k ensures Balance(s[..m]) > 0 {
        assert s[..m] == text[open..open + m];
      }
      assert s[..k + 1] == s && s[..k + 1][..k] == s[..k];
      InnerBalanced(s, k);
      BalancedIsNested(s[1..k]);
    }
  }

  /** The scanning loop: the one position that closes the parenthesis, or -1 if and only if
      there is none. */
  method MatchParenthesis(text: string, open: nat) returns (end: int)
    requires open < |text| && text[open] == '('
    ensures end == -1 || (0 <= end < |text| && Closes(text, open, end))
    ensures forall k :: open < k < |text| && Closes(text, open, k) ==> k == end
  {
    var count := 0;
    end := -1;
    assert text[open..open] == "";
    for i := open to |text|
      invariant count == Balance(text[open..i]) && end == -1
      invariant forall m :: open < m <= i ==> Balance(text[open..m]) > 0
      invariant i == open || count > 0
    {
      BalanceNext(text, open, i);
      if text[i] == '(' {
        count := count + 1;
      } else if text[i] == ')' {
        count := count - 1;
        if count == 0 {
          end := i;
          break;
        }
      }
    }
    forall k | open < k < |text| && Closes(text, open, k) ensures k == end {
      ClosesIsFirstZero(text, open, k);
    }
    if end != -1 {
      ClosesIsFirstZero(text, open, end);
    }
  }

  lemma BalanceNext(text: string, open: nat, i: nat)
    requires open <= i < |text|
    ensures Balance(text[open..i + 1]) == Balance(text[open..i]) + Weight(text[i])
  {
    Slice(text, open, i + 1, 0, i - open);
  }

  // ---------------------------------------------------------------- between condition and body

  predicate IsGapChar(c: char) {
    c == ' ' || c == '\t' || c == '\r' || c == '\n'
  }

  predicate TwiceAt(text: string, i: nat, c: char) {
    i + 1 < |text| && text[i] == c && text[i + 1] == c
  }

  /** Where the next `]]` is, or the end of the text. */
  function NextClose(text: string, i: nat): (p: nat)
    requires i <= |text|
    ensures i <= p <= |text| && (p < |text| ==> TwiceAt(text, p, ']'))
    ensures forall q :: i <= q < p ==> !TwiceAt(text, q, ']')
    decreases |text| - i
  {
    if i == |text| || TwiceAt(text, i, ']') then i else NextClose(text, i + 1)
  }

  /** Whether an attribute `[[...]]` starts at `i`. */
  predicate AttributeAt(text: string, i: nat) {
    TwiceAt(text, i, '[') && NextClose(text, i + 2) < |text|
  }

  /** After white space and attributes: what the gap expression matches. */
  function GapEnd(text: string, i: nat): (j: nat)
    requires i <= |text|
    ensures i <= j <= |text|
    ensures j < |text| ==> !IsGapChar(text[j]) && !AttributeAt(text, j)
    decreases |text| - i
  {
    if i < |text| && IsGapChar(text[i]) then GapEnd(text, i + 1)
    else if AttributeAt(text, i) then GapEnd(text, NextClose(text, i + 2) + 2)
    else i
  }

  /** The text starts with `[[` and the first `]]` behind that ends at `n`. */
  predicate Attribute(s: string, n: nat) {
    && 4 <= n <= |s| && s[0] == '[' && s[1] == '[' && s[n - 2] == ']' && s[n - 1] == ']'
    && forall q :: 2 <= q < n - 2 ==> !(s[q] == ']' && s[q + 1] == ']')
  }

  /** Nothing but spaces, tabs, line ends and whole attributes. */
  ghost predicate Gap(s: string)
    decreases |s|
  {
    || s == ""
    || ((s[0] == ' ' || s[0] == '\t' || s[0] == '\r' || s[0] == '\n') && Gap(s[1..]))
    || exists n: nat :: Attribute(s, n) && Gap(s[n..])
  }

  /** Neither a space, tab or line end nor a whole attribute follows at `j`. */
  ghost predicate Stops(text: string, j: nat)
    requires j <= |text|
  {
    j < |text| ==>
      && text[j] != ' ' && text[j] != '\t' && text[j] != '\r' && text[j] != '\n'
      && forall n: nat :: !Attribute(text[j..], n)
  }

  /** The gap that starts at `i` ends at `j`: it is one, and cannot be longer. */
  ghost predicate GapBetween(text: string, i: nat, j: nat) {
    i <= j <= |text| && Gap(text[i..j]) && Stops(text, j)
  }

  lemma AttributeIsAt(text: string, i: nat, n: nat)
    requires i <= |text|
    ensures Attribute(text[i..], n) <==> AttributeAt(text, i) && i + n == NextClose(text, i + 2) + 2
  {
    var s := text[i..];
    assert forall q :: 0 <= q < |s| ==> s[q] == text[i + q];
    if Attribute(s, n) {
      assert TwiceAt(text, i + n - 2, ']');
      forall q | i + 2 <= q < i + n - 2 ensures !TwiceAt(text, q, ']') {
        assert !(s[q - i] == ']' && s[q - i + 1] == ']');
      }
    }
    if AttributeAt(text, i) && i + n == NextClose(text, i + 2) + 2 {
      forall q | 2 <= q < n - 2 ensures !(s[q] == ']' && s[q + 1] == ']') {
        assert !TwiceAt(text, i + q, ']');
      }
    }
  }

  /** A prefix with an attribute in front has the same attribute in front. */
  lemma AttributeOfPrefix(s: string, k: nat, n: nat)
    requires k <= |s|
    ensures Attribute(s[..k], n) <==> Attribute(s, n) && n <= k
  {}

  /** The same for a part of the text. */
  lemma AttributeOfSlice(text: string, i: nat, j: nat, n: nat)
    requires i <= j <= |text|
    ensures Attribute(text[i..j], n) <==> AttributeAt(text, i) && i + n == NextClose(text, i + 2) + 2 && i + n <= j
  {
    assert text[i..j] == text[i..][..j - i];
    AttributeOfPrefix(text[i..], j - i, n);
    AttributeIsAt(text, i, n);
  }

  lemma Rest(text: string, i: nat, j: nat, n: nat)
    requires i + n <= j <= |text|
    ensures text[i..j][n..] == text[i + n..j]
  {}

  lemma AttributeInFront(text: string, i: nat, j: nat)
    requires i <= j <= |text| && AttributeAt(text, i)
    requires NextClose(text, i + 2) + 2 <= j && Gap(text[NextClose(text, i + 2) + 2..j])
    ensures Gap(text[i..j])
  {
    var n := NextClose(text, i + 2) + 2 - i;
    AttributeOfSlice(text, i, j, n);
    Rest(text, i, j, n);
  }

  lemma {:induction false} GapEndIsGap(text: string, i: nat)
    requires i <= |text|
    ensures GapBetween(text, i, GapEnd(text, i))
    decreases |text| - i
  {
    var j := GapEnd(text, i);
    var s := text[i..j];
    if i < |text| && IsGapChar(text[i]) {
      GapEndIsGap(text, i + 1);
      assert s[1..] == text[i + 1..j];
    } else if AttributeAt(text, i) {
      var end := NextClose(text, i + 2) + 2;
      GapEndIsGap(text, end);
      AttributeInFront(text, i, j);
    } else {
      assert s == "";
      forall n: nat ensures !Attribute(text[j..], n) {
        AttributeIsAt(text, j, n);
      }
    }
  }

  lemma StopsIsEnd(text: string, i: nat)
    requires i <= |text| && Stops(text, i)
    ensures GapEnd(text, i) == i
  {
    if AttributeAt(text, i) {
      AttributeIsAt(text, i, NextClose(text, i + 2) + 2 - i);
    }
  }

  /** A gap that does not start with white space starts with an attribute. */
  lemma GapAttribute(text: string, i: nat, j: nat)
    requires i < j <= |text| && Gap(text[i..j]) && !IsGapChar(text[i])
    ensures AttributeAt(text, i) && NextClose(text, i + 2) + 2 <= j && Gap(text[NextClose(text, i + 2) + 2..j])
  {
    var n: nat :| Attribute(text[i..j], n) && Gap(text[i..j][n..]);
    AttributeOfSlice(text, i, j, n);
    Rest(text, i, j, n);
  }

  lemma GapSpace(text: string, i: nat, j: nat)
    requires i < j <= |text| && Gap(text[i..j]) && IsGapChar(text[i])
    ensures Gap(text[i + 1..j])
  {
    var s := text[i..j];
    assert forall n: nat :: !Attribute(s, n);
    assert s[1..] == text[i + 1..j];
  }

  /** No other position ends the gap. */
  lemma {:induction false} GapIsUnique(text: string, i: nat, j: nat)
    requires GapBetween(text, i, j)
    ensures j == GapEnd(text, i)
    decreases |text| - i
  {
    if i == j {
      StopsIsEnd(text, i);
    } else if IsGapChar(text[i]) {
      GapSpace(text, i, j);
      GapIsUnique(text, i + 1, j);
    } else {
      GapAttribute(text, i, j);
      GapIsUnique(text, NextClose(text, i + 2) + 2, j);
    }
  }

  // ---------------------------------------------------------------- the check

  /** An `if` with the parenthesis that opens its condition. */
  datatype If = If(start: nat, open: nat)

  ghost predicate Found(text: string, m: If) {
    m.start <= m.open < |text| && text[m.open] == '('
  }

  datatype Warning = Warning(line: nat, statement: string)

  /** When a warning is due, in terms of the original's lines: the condition is closed at
      `close` and the gap behind it at `j`, a newline is in the condition or before the
      body, the body has no brace, and one of the two lines was changed. */
  ghost predicate Due(original: string, text: string, m: If, changed: set<nat>, close: nat, j: nat, w: Warning)
    requires Found(text, m) && |text| == |original|
  {
    && Closes(text, m.open, close)
    && GapBetween(text, close + 1, j)
    && ('\n' in text[m.start..close + 1] || '\n' in text[close + 1..j])
    && j < |text| && text[j] != '{'
    && (LineOf(original, m.start) in changed || LineOf(original, j) in changed)
    && w == Warning(LineOf(original, j), Strip(original[j..LineEnd(original, j)]))
  }

  ghost predicate IsDue(original: string, text: string, m: If, changed: set<nat>, w: Warning)
    requires Found(text, m) && |text| == |original|
  {
    exists close: nat, j: nat :: Due(original, text, m, changed, close, j, w)
  }

  ghost predicate SomeDue(original: string, text: string, m: If, changed: set<nat>)
    requires Found(text, m) && |text| == |original|
  {
    exists w :: IsDue(original, text, m, changed, w)
  }

  /** The warnings are one for each `if` that is due one, in the order of the `if`s. */
  ghost predicate AllDue(original: string, text: string, ifs: seq<If>, changed: set<nat>, warnings: seq<Warning>)
    requires (forall m <- ifs :: Found(text, m)) && |text| == |original|
    decreases |ifs|
  {
    if ifs == [] then warnings == []
    else
      var n := |ifs| - 1;
      if SomeDue(original, text, ifs[n], changed) then
        && |warnings| > 0
        && IsDue(original, text, ifs[n], changed, warnings[|warnings| - 1])
        && AllDue(original, text, ifs[..n], changed, warnings[..|warnings| - 1])
      else AllDue(original, text, ifs[..n], changed, warnings)
  }

  /** With the closing parenthesis and the end of the gap known, these decide. */
  lemma DueAt(original: string, text: string, m: If, changed: set<nat>, close: nat, w: Warning)
    requires Found(text, m) && |text| == |original| && close < |text|
    requires Closes(text, m.open, close) && forall k :: m.open < k < |text| && Closes(text, m.open, k) ==> k == close
    ensures IsDue(original, text, m, changed, w) <==> Due(original, text, m, changed, close, GapEnd(text, close + 1), w)
  {
    if IsDue(original, text, m, changed, w) {
      var c: nat, j: nat :| Due(original, text, m, changed, c, j, w);
      GapIsUnique(text, c + 1, j);
    }
  }

  lemma NeverDue(original: string, text: string, m: If, changed: set<nat>, w: Warning)
    requires Found(text, m) && |text| == |original|
    requires forall k :: m.open < k < |text| ==> !Closes(text, m.open, k)
    ensures !IsDue(original, text, m, changed, w)
  {}

  /** One `if`: a warning if and only if one is due. */
  method CheckIf(original: string, ghost spans: seq<Span>, text: string, m: If, changed: set<nat>)
    returns (found: seq<Warning>)
    requires Blanked(original, spans, text) && Found(text, m)
    ensures |found| <= 1
    ensures forall w :: w in found <==> IsDue(original, text, m, changed, w)
  {
    found := [];
    var end := MatchParenthesis(text, m.open);
    if end == -1 {
      forall w ensures !IsDue(original, text, m, changed, w) {
        NeverDue(original, text, m, changed, w);
      }
      return;
    }
    found := CheckBody(original, spans, text, m, end, changed);
    forall w ensures w in found <==> IsDue(original, text, m, changed, w) {
      DueAt(original, text, m, changed, end, w);
    }
  }

  /** The part behind the closing parenthesis. */
  method CheckBody(original: string, ghost spans: seq<Span>, text: string, m: If, end: nat, changed: set<nat>)
    returns (found: seq<Warning>)
    requires Blanked(original, spans, text) && Found(text, m) && end < |text| && Closes(text, m.open, end)
    ensures |found| <= 1
    ensures forall w :: w in found <==> Due(original, text, m, changed, end, GapEnd(text, end + 1), w)
  {
    found := [];
    var j := GapEnd(text, end + 1);
    assert GapBetween(text, end + 1, j) by {
      GapEndIsGap(text, end + 1);
    }
    var newlineSeen := '\n' in text[end + 1..j];
    var isMultiline := '\n' in text[m.start..end + 1] || newlineSeen;
    if isMultiline && j < |text| && text[j] != '{' {
      var startLine, bodyLine := LineOf(text, m.start), LineOf(text, j);
      assert startLine == LineOf(original, m.start) && bodyLine == LineOf(original, j) by {
        BlankedKeepsLines(original, spans, text, m.start);
        BlankedKeepsLines(original, spans, text, j);
      }
      var statement := Strip(original[j..LineEnd(original, j)]);
      if startLine in changed || bodyLine in changed {
        found := [Warning(bodyLine, statement)];
      }
    }
  }

  /** One more `if`. */
  lemma AllDueNext(original: string, text: string, ifs: seq<If>, n: nat, changed: set<nat>, warnings: seq<Warning>,
                   found: seq<Warning>)
    requires (forall m <- ifs :: Found(text, m)) && |text| == |original| && n < |ifs|
    requires AllDue(original, text, ifs[..n], changed, warnings)
    requires |found| <= 1 && forall w :: w in found <==> IsDue(original, text, ifs[n], changed, w)
    ensures AllDue(original, text, ifs[..n + 1], changed, warnings + found)
  {
    assert ifs[..n + 1][..n] == ifs[..n];
    if found == [] {
      assert warnings + found == warnings;
    } else {
      assert found[0] in found;
      assert (warnings + found)[..|warnings|] == warnings;
    }
  }

  method CheckAll(original: string, ghost spans: seq<Span>, text: string, ifs: seq<If>, changed: set<nat>)
    returns (warnings: seq<Warning>)
    requires Blanked(original, spans, text) && forall m <- ifs :: Found(text, m)
    ensures AllDue(original, text, ifs, changed, warnings)
  {
    warnings := [];
    for n := 0 to |ifs|
      invariant AllDue(original, text, ifs[..n], changed, warnings)
    {
      var found := CheckIf(original, spans, text, ifs[n], changed);
      AllDueNext(original, text, ifs, n, changed, warnings, found);
      warnings := warnings + found;
    }
    assert ifs[..|ifs|] == ifs;
  }

  /** A whole file, for any way of finding comments and literals in a text and `if`s in
      the cleaned one: the warnings are those due, with lines and statements of the original. */
  method CheckFile(original: string, changed: set<nat>, matcher: string -> seq<Span>, finder: string -> seq<If>)
    returns (warnings: seq<Warning>, text: string)
    requires InOrder(matcher(original), |original|)
    requires forall t: string, m :: m in finder(t) ==> Found(t, m)
    ensures Blanked(original, matcher(original), text)
    ensures AllDue(original, text, finder(text), changed, warnings)
  {
    text := Clean(original, matcher(original));
    warnings := CheckAll(original, matcher(original), text, finder(text), changed);
  }

  /** What a warning shows is on the line it names: every one of its characters is on that
      line of the original. */
  lemma StatementOnLine(original: string, spans: seq<Span>, text: string, m: If, changed: set<nat>, close: nat, j: nat,
                        w: Warning)
    returns (a: nat, b: nat)
    requires Blanked(original, spans, text) && Found(text, m) && Due(original, text, m, changed, close, j, w)
    ensures close < j <= a <= b <= |original| && w.statement == original[a..b]
    ensures forall k :: a <= k <= b ==> LineOf(original, k) == w.line
    ensures forall k :: j <= k < a || b <= k < LineEnd(original, j) ==> IsStripped(original[k])
    ensures !IsStripped(original[j]) ==> a == j
  {
    a, b := StatementSpan(original, j);
  }

  lemma StatementSpan(text: string, j: nat) returns (a: nat, b: nat)
    requires j <= |text|
    ensures j <= a <= b <= LineEnd(text, j) && Strip(text[j..LineEnd(text, j)]) == text[a..b]
    ensures forall k :: j <= k < a || b <= k < LineEnd(text, j) ==> IsStripped(text[k])
    ensures forall k :: a <= k <= b ==> LineOf(text, k) == LineOf(text, j)
  {
    var end := LineEnd(text, j);
    var line := text[j..end];
    var c, d := StripIsPart(line);
    a, b := j + c, j + d;
    Slice(text, j, end, c, d);
    assert forall k :: j <= k < end ==> text[k] == line[k - j];
    forall k | a <= k <= b ensures LineOf(text, k) == LineOf(text, j) {
      OnLine(text, j, k);
    }
  }

  /** And its first character is code, not a blanked comment or literal. */
  lemma BodyIsCode(original: string, spans: seq<Span>, text: string, i: nat, j: nat)
    requires Blanked(original, spans, text) && GapBetween(text, i, j) && j < |text|
    ensures !Covered(spans, j) && original[j] == text[j] && original[j] != '\n'
  {}

  lemma OnLine(text: string, j: nat, k: nat)
    requires j <= k <= |text| && k <= LineEnd(text, j)
    ensures LineOf(text, k) == LineOf(text, j)
  {
    Slice(text, j, LineEnd(text, j), 0, k - j);
    SameLine(text, j, k);
  }
}
