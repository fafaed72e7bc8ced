/** `fix-timestamptz-binds.py`: a cast spliced in after each placeholder bound to a `_at` column. */
module CastEdits {
  import opened Decimal
  import opened Placeholders
  import opened WhiteSpace

  function Cast(): string
  {
    "::timestamptz"
  }

  /** Replace the characters from `start` up to `end` by `text`. */
  datatype Span = Span(start: nat, end: nat, text: string)

  // ---------------------------------------------------------------------------
  // Where the placeholders are, and what they feed
  // ---------------------------------------------------------------------------

  /** The length of the placeholder at the front: `?`, or `$` with digits; 0 if there is none. */
  function PlaceholderLen(s: string): (n: nat)
    ensures n <= |s|
  {
    if s == "" then 0
    else if s[0] == '?' then 1
    else if s[0] == '$' && DigitRun(s[1..]) != [] then 1 + |DigitRun(s[1..])|
    else 0
  }

  /** Where `sql[from..to]` ends but for the white space at its end. */
  function Trimmed(sql: string, from: nat, to: nat): (n: nat)
    requires from <= to <= |sql|
    ensures from <= n <= to
  {
    if from < to && IsSpace(sql[to - 1]) then Trimmed(sql, from, to - 1) else to
  }

  predicate EndsInAt(sql: string, from: nat, to: nat)
    requires from <= to <= |sql|
  {
    to - from >= 3 && sql[to - 3] == '_' && sql[to - 2] == 'a' && sql[to - 1] == 't'
  }

  predicate Compares(c: char)
  {
    c == '=' || c == '<' || c == '>'
  }

  /** `sql[from..to]` ends in a column name ending in `_at` and a comparison. */
  predicate Feeds(sql: string, from: nat, to: nat)
    requires from <= to <= |sql|
  {
    var n := Trimmed(sql, from, to);
    if n - from >= 2 && sql[n - 1] == '=' && (sql[n - 2] == '<' || sql[n - 2] == '>') then
      EndsInAt(sql, from, Trimmed(sql, from, n - 2))
    else n > from && Compares(sql[n - 1]) && EndsInAt(sql, from, Trimmed(sql, from, n - 1))
  }

  /** Where the line that holds position `i` begins. */
  function LineStart(sql: string, i: nat): (h: nat)
    requires i <= |sql|
    ensures h <= i
  {
    if i == 0 || sql[i - 1] == '\n' then i else LineStart(sql, i - 1)
  }

  /** The first pass looks at the placeholder's own line, the fallback at all the text before it. */
  predicate Bound(sql: string, i: nat, fallback: bool)
    requires i <= |sql|
  {
    Feeds(sql, if fallback then 0 else LineStart(sql, i), i)
  }

  lemma {:induction false} TrimmedStops(sql: string, from: nat, to: nat)
    requires from <= to <= |sql|
    ensures var n := Trimmed(sql, from, to);
      (forall j :: n <= j < to ==> IsSpace(sql[j])) && (n > from ==> !IsSpace(sql[n - 1]))
  {
    if from < to && IsSpace(sql[to - 1]) {
      TrimmedStops(sql, from, to - 1);
    }
  }

  lemma {:induction false} TrimmedIs(sql: string, from: nat, n: nat, to: nat)
    requires from < n <= to <= |sql| && !IsSpace(sql[n - 1]) && forall j :: n <= j < to ==> IsSpace(sql[j])
    ensures Trimmed(sql, from, to) == n
  {
    if n < to {
      TrimmedIs(sql, from, n, to - 1);
    }
  }

  /** `_at` up to `m`, white space up to `o`, a comparison up to `n`, and white space up to the end. */
  ghost predicate Compared(sql: string, from: nat, to: nat, m: int, o: int, n: int)
    requires from <= to <= |sql|
  {
    && from <= m - 3 && m <= o < n <= to
    && sql[m - 3..m] == "_at" && sql[o..n] in {"=", "<=", ">=", "<", ">"}
    && (forall j :: m <= j < o ==> IsSpace(sql[j])) && (forall j :: n <= j < to ==> IsSpace(sql[j]))
  }

  lemma NoneIsSpace()
    ensures !IsSpace('=') && !IsSpace('<') && !IsSpace('>') && !IsSpace('t')
  {
  }

  /** The test is the script's regular expression: a name ending in `_at`, white space, one of five comparisons,
    * white space, and no more. */
  lemma FeedsIff(sql: string, from: nat, to: nat)
    requires from <= to <= |sql|
    ensures Feeds(sql, from, to) <==> exists m, o, n :: Compared(sql, from, to, m, o, n)
  {
    hide IsSpace;
    NoneIsSpace();
    if Feeds(sql, from, to) {
      var n := Trimmed(sql, from, to);
      TrimmedStops(sql, from, to);
      var o := if n - from >= 2 && sql[n - 1] == '=' && (sql[n - 2] == '<' || sql[n - 2] == '>') then n - 2 else n - 1;
      var m := Trimmed(sql, from, o);
      TrimmedStops(sql, from, o);
      assert sql[m - 3..m] == "_at";
      assert sql[o..n] == if o == n - 2 then [sql[n - 2], sql[n - 1]] else [sql[n - 1]];
      assert Compared(sql, from, to, m, o, n);
    }
    if m, o, n :| Compared(sql, from, to, m, o, n) {
      ComparedFeeds(sql, from, to, m, o, n);
    }
  }

  lemma ComparedFeeds(sql: string, from: nat, to: nat, m: int, o: int, n: int)
    requires from <= to <= |sql| && Compared(sql, from, to, m, o, n)
    ensures Feeds(sql, from, to)
  {
    hide IsSpace;
    NoneIsSpace();
    var op, at := sql[o..n], sql[m - 3..m];
    assert |op| == n - o && op[n - o - 1] == sql[n - 1] && op[0] == sql[o];
    assert at[0] == sql[m - 3] && at[1] == sql[m - 2] && at[2] == sql[m - 1];
    TrimmedIs(sql, from, n, to);
    TrimmedIs(sql, from, m, o);
    if n - o == 1 {
      assert o > m ==> IsSpace(sql[n - 2]);
      assert o == m ==> sql[n - 2] == 't';
    }
  }

  /** The line of a position begins after the last line feed before it. */
  lemma {:induction false} LineStartIs(sql: string, i: nat)
    requires i <= |sql|
    ensures var h := LineStart(sql, i);
      (forall j :: h <= j < i ==> sql[j] != '\n') && (h > 0 ==> sql[h - 1] == '\n')
  {
    if i > 0 && sql[i - 1] != '\n' {
      LineStartIs(sql, i - 1);
    }
  }

  /** The spans of either pass from position `i` on. The fallback starts each one a single character
    * before the placeholder's end, however long the placeholder is. */
  function SpansFrom(sql: string, i: nat, fallback: bool): seq<Span>
    requires i <= |sql|
    decreases |sql| - i
  {
    if i == |sql| then []
    else
      var n := PlaceholderLen(sql[i..]);
      if n == 0 then SpansFrom(sql, i + 1, fallback)
      else
        (if Bound(sql, i, fallback)
         then [Span(if fallback then i + n - 1 else i, i + n, sql[i..i + n] + Cast())]
         else [])
        + SpansFrom(sql, i + n, fallback)
  }

  function CastSpans(sql: string): (spans: seq<Span>)
    ensures Ordered(spans, 0, |sql|)
  {
    SpansAssemble(sql, 0, 0, false);
    SpansAssemble(sql, 0, 0, true);
    if SpansFrom(sql, 0, false) != [] then SpansFrom(sql, 0, false) else SpansFrom(sql, 0, true)
  }

  // ---------------------------------------------------------------------------
  // Left to right and right to left
  // ---------------------------------------------------------------------------

  /** In order, apart from each other, from `last` on and inside the text. */
  predicate Ordered(spans: seq<Span>, last: nat, length: nat)
  {
    if spans == [] then last <= length
    else last <= spans[0].start < spans[0].end && Ordered(spans[1..], spans[0].end, length)
  }

  /** The pieces between the spans, and the spans' texts. */
  function Assembled(sql: string, spans: seq<Span>, last: nat): string
    requires Ordered(spans, last, |sql|)
    decreases |spans|
  {
    if spans == [] then sql[last..]
    else
      OrderedEnds(spans, last, |sql|);
      sql[last..spans[0].start] + spans[0].text + Assembled(sql, spans[1..], spans[0].end)
  }

  lemma {:induction false} OrderedEnds(spans: seq<Span>, last: nat, length: nat)
    requires Ordered(spans, last, length)
    ensures last <= length && forall k :: 0 <= k < |spans| ==> last <= spans[k].start < spans[k].end <= length
    ensures spans != [] ==> Ordered(spans[1..], spans[0].end, length)
  {
    if spans != [] {
      OrderedEnds(spans[1..], spans[0].end, length);
      assert spans == [spans[0]] + spans[1..];
    }
  }

  /** `cast_sql`'s loop: `last` advances over the text, the pieces go to an output list. */
  method CastSql(sql: string) returns (cast: string)
    ensures cast == Assembled(sql, CastSpans(sql), 0)
  {
    hide CastSpans, SpansFrom;
    var spans := CastSpans(sql);
    if spans == [] {
      assert sql[0..] == sql;
      return sql;
    }
    var out: string, last: nat := "", 0;
    assert spans[0..] == spans;
    for i := 0 to |spans|
      invariant Ordered(spans[i..], last, |sql|)
      invariant out + Assembled(sql, spans[i..], last) == Assembled(sql, spans, 0)
    {
      OrderedEnds(spans[i..], last, |sql|);
      assert spans[i..][1..] == spans[i + 1..];
      out := out + sql[last..spans[i].start];
      out := out + spans[i].text;
      last := spans[i].end;
    }
    OrderedEnds(spans[|spans|..], last, |sql|);
    cast := out + sql[last..];
  }

  /** The edits in descending order of their starts, equal starts in the order given. */
  function Descending(edits: seq<Span>): (d: seq<Span>)
    ensures |d| == |edits| && forall e :: e in d <==> e in edits
  {
    if edits == [] then [] else Inserted(edits[|edits| - 1], Descending(edits[..|edits| - 1]))
  }

  function Inserted(e: Span, sorted: seq<Span>): (d: seq<Span>)
    ensures |d| == |sorted| + 1 && forall x :: x in d <==> x == e || x in sorted
  {
    if sorted != [] && sorted[0].start >= e.start then [sorted[0]] + Inserted(e, sorted[1..]) else [e] + sorted
  }

  function Replaced(src: string, e: Span): string
    requires e.start <= e.end <= |src|
  {
    src[..e.start] + e.text + src[e.end..]
  }

  /** Every edit still lies inside the text when its turn comes. */
  predicate Applicable(src: string, edits: seq<Span>)
    decreases |edits|
  {
    edits == [] || (edits[0].start <= edits[0].end <= |src| && Applicable(Replaced(src, edits[0]), edits[1..]))
  }

  function AppliedInTurn(src: string, edits: seq<Span>): string
    requires Applicable(src, edits)
    decreases |edits|
  {
    if edits == [] then src else AppliedInTurn(Replaced(src, edits[0]), edits[1..])
  }

  /** `apply_edits`: sort, then splice one edit after the other into the text so far. */
  method ApplyEdits(text: string, edits: seq<Span>) returns (src: string)
    requires Applicable(text, Descending(edits))
    ensures src == AppliedInTurn(text, Descending(edits))
  {
    var sorted := Descending(edits);
    src := text;
    for i := 0 to |sorted|
      invariant Applicable(src, sorted[i..])
      invariant AppliedInTurn(src, sorted[i..]) == AppliedInTurn(text, sorted)
    {
      assert sorted[i..][1..] == sorted[i + 1..];
      var Span(start, end, rep) := sorted[i];
      src := src[..start] + rep + src[end..];
    }
  }

  function Reversed(edits: seq<Span>): seq<Span>
  {
    if edits == [] then [] else [edits[|edits| - 1]] + Reversed(edits[..|edits| - 1])
  }

  lemma {:induction false} DescendingIsReversed(edits: seq<Span>)
    requires forall i, j :: 0 <= i < j < |edits| ==> edits[i].start < edits[j].start
    ensures Descending(edits) == Reversed(edits)
  {
    if edits != [] {
      var front, last := edits[..|edits| - 1], edits[|edits| - 1];
      DescendingIsReversed(front);
      if front != [] {
        assert Descending(front)[0] in front;
      }
    }
  }

  lemma {:induction false} StartsAscend(spans: seq<Span>, last: nat, length: nat)
    requires Ordered(spans, last, length)
    ensures forall i, j :: 0 <= i < j < |spans| ==> spans[i].start < spans[j].start
  {
    if spans != [] {
      StartsAscend(spans[1..], spans[0].end, length);
      OrderedEnds(spans[1..], spans[0].end, length);
      assert spans == [spans[0]] + spans[1..];
    }
  }

  lemma AssembledOne(src: string, e: Span, last: nat)
    requires Ordered([e], last, |src|)
    ensures e.start <= e.end <= |src| && last <= |Replaced(src, e)| && Ordered([], last, |Replaced(src, e)|)
    ensures Assembled(src, [e], last) == Assembled(Replaced(src, e), [], last)
  {
    assert [e][1..] == [];
    assert Assembled(src, [], e.end) == src[e.end..];
    assert Replaced(src, e)[last..] == src[last..e.start] + e.text + src[e.end..];
  }

  /** Splicing the last span first leaves the others where they were. */
  lemma {:induction false} AssembledLast(src: string, spans: seq<Span>, last: nat)
    requires Ordered(spans, last, |src|) && spans != []
    ensures var e := spans[|spans| - 1];
      && e.start <= e.end <= |src|
      && Ordered(spans[..|spans| - 1], last, |Replaced(src, e)|)
      && Assembled(src, spans, last) == Assembled(Replaced(src, e), spans[..|spans| - 1], last)
    decreases |spans|
  {
    hide Ordered, Replaced, Assembled;
    var e, front, first := spans[|spans| - 1], spans[..|spans| - 1], spans[0];
    OrderedEnds(spans, last, |src|);
    if |spans| == 1 {
      assert spans == [e] && front == [];
      AssembledOne(src, e, last);
    } else {
      var rest, more := spans[1..], spans[1..][..|spans[1..]| - 1];
      AssembledLast(src, rest, first.end);
      assert rest[|rest| - 1] == e && [first] + rest == spans && [first] + more == front;
      OrderedEnds(rest, first.end, |src|);
      KeptBefore(src, e, last, first.start);
      OrderedEnds(more, first.end, |Replaced(src, e)|);
      OneMoreSpan(src, last, first, rest);
      OneMoreSpan(Replaced(src, e), last, first, more);
    }
  }

  lemma KeptBefore(src: string, e: Span, i: nat, j: nat)
    requires i <= j <= e.start <= e.end <= |src|
    ensures e.start <= |Replaced(src, e)| && Replaced(src, e)[i..j] == src[i..j]
  {
  }

  /** For ordered, disjoint spans, assembling the pieces from left to right and splicing the edits from
    * right to left give the same text; and no edit's offsets go stale on the way. */
  lemma {:induction false} BothWaysAgree(src: string, spans: seq<Span>)
    requires Ordered(spans, 0, |src|)
    ensures Applicable(src, Descending(spans))
    ensures AppliedInTurn(src, Descending(spans)) == Assembled(src, spans, 0)
    decreases |spans|
  {
    StartsAscend(spans, 0, |src|);
    DescendingIsReversed(spans);
    if spans == [] {
      assert src[0..] == src;
    } else {
      var front := spans[..|spans| - 1];
      AssembledLast(src, spans, 0);
      var src' := Replaced(src, spans[|spans| - 1]);
      BothWaysAgree(src', front);
      StartsAscend(front, 0, |src'|);
      DescendingIsReversed(front);
      assert Reversed(spans)[1..] == Reversed(front);
    }
  }

  // ---------------------------------------------------------------------------
  // The text with its casts
  // ---------------------------------------------------------------------------

  /** Position by position: a bound placeholder is followed by the cast, and the fallback has the
    * placeholder but for its last character in front of it once more. */
  function CastFrom(sql: string, i: nat, fallback: bool): string
    requires i <= |sql|
    decreases |sql| - i
  {
    if i == |sql| then ""
    else
      var n := PlaceholderLen(sql[i..]);
      if n == 0 then [sql[i]] + CastFrom(sql, i + 1, fallback)
      else if !Bound(sql, i, fallback) then sql[i..i + n] + CastFrom(sql, i + n, fallback)
      else (if fallback then sql[i..i + n - 1] else "") + (sql[i..i + n] + Cast() + CastFrom(sql, i + n, fallback))
  }

  lemma NoPlaceholder(sql: string, i: nat, fallback: bool)
    requires i < |sql| && PlaceholderLen(sql[i..]) == 0
    ensures SpansFrom(sql, i, fallback) == SpansFrom(sql, i + 1, fallback)
    ensures CastFrom(sql, i, fallback) == [sql[i]] + CastFrom(sql, i + 1, fallback)
    ensures MisSpans(sql, i) <==> MisSpans(sql, i + 1)
  {
  }

  lemma UnboundPlaceholder(sql: string, i: nat, n: nat, fallback: bool)
    requires i < |sql| && PlaceholderLen(sql[i..]) == n > 0 && !Bound(sql, i, fallback)
    ensures i + n <= |sql|
    ensures SpansFrom(sql, i, fallback) == SpansFrom(sql, i + n, fallback)
    ensures CastFrom(sql, i, fallback) == sql[i..i + n] + CastFrom(sql, i + n, fallback)
    ensures fallback ==> (MisSpans(sql, i) <==> MisSpans(sql, i + n))
  {
    hide PlaceholderLen, Bound, Cast;
  }

  lemma BoundPlaceholder(sql: string, i: nat, n: nat, fallback: bool)
    requires i < |sql| && PlaceholderLen(sql[i..]) == n > 0 && Bound(sql, i, fallback)
    ensures i + n <= |sql|
    ensures SpansFrom(sql, i, fallback)
         == [Span(if fallback then i + n - 1 else i, i + n, sql[i..i + n] + Cast())] + SpansFrom(sql, i + n, fallback)
    ensures CastFrom(sql, i, fallback)
         == (if fallback then sql[i..i + n - 1] else "") + (sql[i..i + n] + Cast() + CastFrom(sql, i + n, fallback))
    ensures fallback ==> (MisSpans(sql, i) <==> n > 1 || MisSpans(sql, i + n))
  {
    hide PlaceholderLen, Bound, Cast;
  }

  lemma {:induction false} SpansAssemble(sql: string, last: nat, i: nat, fallback: bool)
    requires last <= i <= |sql|
    ensures Ordered(SpansFrom(sql, i, fallback), last, |sql|)
    ensures Assembled(sql, SpansFrom(sql, i, fallback), last) == sql[last..i] + CastFrom(sql, i, fallback)
    decreases |sql| - i
  {
    hide PlaceholderLen, Bound, Cast, Ordered, Assembled, SpansFrom, CastFrom;
    if i == |sql| {
      NoSpans(sql, last, fallback);
    } else {
      var n := PlaceholderLen(sql[i..]);
      if n == 0 {
        SpansAssemble(sql, last, i + 1, fallback);
        NoPlaceholder(sql, i, fallback);
        Grows(sql, last, i, i + 1, CastFrom(sql, i + 1, fallback));
        assert sql[i..i + 1] == [sql[i]];
      } else if !Bound(sql, i, fallback) {
        SpansAssemble(sql, last, i + n, fallback);
        UnboundPlaceholder(sql, i, n, fallback);
        Grows(sql, last, i, i + n, CastFrom(sql, i + n, fallback));
      } else {
        SpansAssemble(sql, i + n, i + n, fallback);
        BoundPlaceholder(sql, i, n, fallback);
        OneSpan(sql, last, i, n, fallback, SpansFrom(sql, i + n, fallback), CastFrom(sql, i + n, fallback));
      }
    }
  }

  lemma Grows(sql: string, last: nat, i: nat, j: nat, rest: string)
    requires last <= i <= j <= |sql|
    ensures sql[last..j] + rest == sql[last..i] + (sql[i..j] + rest)
  {
    assert sql[last..j] == sql[last..i] + sql[i..j];
  }

  lemma NoSpans(sql: string, last: nat, fallback: bool)
    requires last <= |sql|
    ensures SpansFrom(sql, |sql|, fallback) == [] && CastFrom(sql, |sql|, fallback) == ""
    ensures Ordered([], last, |sql|) && Assembled(sql, [], last) == sql[last..|sql|] + ""
  {
    assert sql[last..|sql|] + "" == sql[last..];
  }

  lemma OneMoreSpan(sql: string, last: nat, span: Span, more: seq<Span>)
    requires last <= span.start < span.end <= |sql| && Ordered(more, span.end, |sql|)
    ensures Ordered([span] + more, last, |sql|)
    ensures Assembled(sql, [span] + more, last) == sql[last..span.start] + span.text + Assembled(sql, more, span.end)
  {
    assert ([span] + more)[1..] == more;
  }

  lemma OneSpan(sql: string, last: nat, i: nat, n: nat, fallback: bool, more: seq<Span>, rest: string)
    requires last <= i < i + n <= |sql|
    requires Ordered(more, i + n, |sql|) && Assembled(sql, more, i + n) == sql[i + n..i + n] + rest
    ensures var span := Span(if fallback then i + n - 1 else i, i + n, sql[i..i + n] + Cast());
      && Ordered([span] + more, last, |sql|)
      && Assembled(sql, [span] + more, last)
         == sql[last..i] + ((if fallback then sql[i..i + n - 1] else "") + (sql[i..i + n] + Cast() + rest))
  {
    hide Cast, Ordered, Assembled;
    var span := Span(if fallback then i + n - 1 else i, i + n, sql[i..i + n] + Cast());
    OneMoreSpan(sql, last, span, more);
    assert sql[i + n..i + n] + rest == rest;
    Grows(sql, last, i, span.start, span.text + rest);
    assert sql[i..span.start] == if fallback then sql[i..i + n - 1] else "";
    assert sql[last..span.start] + span.text + rest == sql[last..span.start] + (span.text + rest);
  }

  /** `re.sub` over each placeholder with a cast after it. */
  function Undo(s: string): string
    decreases |s|
  {
    if s == "" then ""
    else
      var n := PlaceholderLen(s);
      if n > 0 && Cast() <= s[n..] then s[..n] + Undo(s[n + |Cast()|..]) else [s[0]] + Undo(s[1..])
  }

  predicate HasCast(sql: string, i: nat)
    requires i <= |sql|
  {
    exists j :: i <= j <= |sql| && Cast() <= sql[j..]
  }

  /** A bound placeholder that the fallback puts its start wrong for. */
  predicate MisSpans(sql: string, i: nat)
    requires i <= |sql|
    decreases |sql| - i
  {
    if i == |sql| then false
    else
      var n := PlaceholderLen(sql[i..]);
      if n == 0 then MisSpans(sql, i + 1) else (n > 1 && Bound(sql, i, true)) || MisSpans(sql, i + n)
  }

  lemma CastFacts()
    ensures |Cast()| == 13 && Cast()[0] == ':' && forall c :: c in Cast() ==> c != '?' && c != '$'
  {
  }

  /** The text goes on, after any position, with the character it went on with. */
  lemma FirstStays(sql: string, i: nat, fallback: bool)
    requires i < |sql|
    ensures CastFrom(sql, i, fallback) != "" && CastFrom(sql, i, fallback)[0] == sql[i]
  {
    hide Bound, Cast;
    var n := PlaceholderLen(sql[i..]);
    if n > 0 {
      assert sql[i..i + n][0] == sql[i];
      if fallback && n > 1 {
        assert sql[i..i + n - 1][0] == sql[i];
      }
    }
  }

  /** A word without placeholders stands at the front after the casts only if it stood there before. */
  lemma PrefixTail(word: string, s: string)
    requires word != "" && s != ""
    ensures word <= s <==> word[0] == s[0] && word[1..] <= s[1..]
  {
    if word[0] == s[0] && word[1..] <= s[1..] {
      assert forall k :: 1 <= k < |word| ==> word[k] == word[1..][k - 1] == s[1..][k - 1] == s[k];
    }
  }

  lemma {:induction false} WordWasThere(sql: string, i: nat, fallback: bool, word: string)
    requires i <= |sql| && word <= CastFrom(sql, i, fallback)
    requires forall c :: c in word ==> c != '?' && c != '$'
    ensures word <= sql[i..]
    decreases |word|
  {
    hide CastFrom;
    if word != "" {
      CastLength(sql, i, fallback);
      FirstStays(sql, i, fallback);
      PrefixTail(word, CastFrom(sql, i, fallback));
      PrefixTail(word, sql[i..]);
      assert word[0] in word && word[0] == sql[i] == sql[i..][0];
      NoPlaceholder(sql, i, fallback);
      assert forall c :: c in word[1..] ==> c in word;
      WordWasThere(sql, i + 1, fallback, word[1..]);
    }
  }

  lemma CastLength(sql: string, i: nat, fallback: bool)
    requires i <= |sql| && CastFrom(sql, i, fallback) != ""
    ensures i < |sql|
  {
  }

  lemma {:induction false} UndoDigits(digits: string, s: string)
    requires AllDigits(digits)
    ensures Undo(digits + s) == digits + Undo(s)
    decreases |digits|
  {
    if digits == "" {
      assert digits + s == s;
    } else {
      assert (digits + s)[1..] == digits[1..] + s;
      UndoDigits(digits[1..], s);
    }
  }

  predicate StartsWithDigit(s: string)
  {
    s != "" && IsDigit(s[0])
  }

  /** A whole placeholder keeps its length whatever follows, but for a digit after a `$n`. */
  lemma LenOfWhole(t: string, s: string)
    requires PlaceholderLen(t) == |t| > 0 && (t[0] == '$' ==> !StartsWithDigit(s))
    ensures PlaceholderLen(t + s) == |t|
    ensures t[0] == '$' ==> AllDigits(t[1..]) && t[1..] != ""
    ensures t[0] == '?' ==> t == "?"
  {
    if t[0] == '$' {
      assert (t + s)[1..] == t[1..] + s;
      assert AllDigits(t[1..]);
      RunConcat(t[1..], s);
    }
  }

  lemma UndoWithCast(t: string, s: string)
    requires PlaceholderLen(t) == |t| > 0
    ensures Undo(t + Cast() + s) == t + Undo(s)
  {
    hide Cast, PlaceholderLen;
    CastFacts();
    var all := t + Cast() + s;
    assert all == t + (Cast() + s);
    LenOfWhole(t, Cast() + s);
    assert all[|t|..] == Cast() + s && all[..|t|] == t && all[|t| + |Cast()|..] == s;
  }

  lemma UndoWithoutCast(t: string, s: string)
    requires PlaceholderLen(t) == |t| > 0 && (t[0] == '$' ==> !StartsWithDigit(s)) && !(Cast() <= s)
    ensures Undo(t + s) == t + Undo(s)
  {
    hide Cast, PlaceholderLen, Undo;
    LenOfWhole(t, s);
    var all := t + s;
    assert all[|t|..] == s && all[1..] == t[1..] + s;
    UndoKeeps(all);
    IsPlaceholder(t);
    if t[0] == '$' {
      UndoDigits(t[1..], s);
    } else {
      assert t[1..] == "" && "" + s == s;
    }
    assert [t[0]] + (t[1..] + Undo(s)) == t + Undo(s);
  }

  lemma IsPlaceholder(t: string)
    requires PlaceholderLen(t) == |t| > 0
    ensures t[0] == '$' || t[0] == '?'
  {
  }

  /** The text up to a placeholder's last character, the placeholder and its cast. */
  lemma UndoTwice(t: string, s: string)
    requires PlaceholderLen(t) == |t| > 0
    ensures Undo(t[..|t| - 1] + (t + Cast() + s)) == t[..|t| - 1] + (t + Undo(s))
  {
    hide Cast, PlaceholderLen;
    UndoWithCast(t, s);
    IsPlaceholder(t);
    LenOfWhole(t, "");
    assert t + "" == t;
    var front := t[..|t| - 1];
    if t[0] == '?' {
      assert front == "" && "" + (t + Cast() + s) == t + Cast() + s && "" + (t + Undo(s)) == t + Undo(s);
    } else {
      UndoHalf(front, t + Cast() + s);
    }
  }

  lemma HalfLen(front: string, s: string)
    requires front != "" && front[0] == '$' && AllDigits(front[1..]) && s != "" && s[0] == '$'
    ensures PlaceholderLen(front + s) == if front[1..] == "" then 0 else |front|
  {
    assert (front + s)[1..] == front[1..] + s;
    RunConcat(front[1..], s);
    assert DigitRun(s) == "";
  }

  lemma UndoKeeps(s: string)
    requires s != "" && (PlaceholderLen(s) == 0 || !(Cast() <= s[PlaceholderLen(s)..]))
    ensures Undo(s) == [s[0]] + Undo(s[1..])
  {
  }

  /** `$` and some digits, not followed by a cast or a digit, stay. */
  lemma UndoHalf(front: string, s: string)
    requires front != "" && front[0] == '$' && AllDigits(front[1..])
    requires s != "" && s[0] == '$'
    ensures Undo(front + s) == front + Undo(s)
  {
    hide Cast, PlaceholderLen, Undo;
    CastFacts();
    HalfLen(front, s);
    var all := front + s;
    assert all[1..] == front[1..] + s && all[|front|..] == s && !(Cast() <= s);
    UndoDigits(front[1..], s);
    UndoKeeps(all);
    assert [front[0]] + (front[1..] + Undo(s)) == front + Undo(s);
  }

  lemma LenAt(sql: string, i: nat)
    requires i <= |sql|
    ensures var n := PlaceholderLen(sql[i..]);
      i + n <= |sql| && PlaceholderLen(sql[i..i + n]) == n
      && (n > 0 && sql[i] == '$' ==> !StartsWithDigit(sql[i + n..]))
  {
    hide DigitRun;
    var s := sql[i..];
    var n := PlaceholderLen(s);
    if n > 0 && s[0] == '$' {
      var run := DigitRun(s[1..]);
      assert s[1..][|run|..] == sql[i + n..];
      assert sql[i + n..] != "" ==> sql[i + n..][0] == s[1..][|run|];
      DigitsAreTheirRun(run);
      assert sql[i..i + n][1..] == run;
    }
  }

  lemma DigitsAreTheirRun(run: string)
    requires AllDigits(run)
    ensures DigitRun(run) == run
  {
    RunConcat(run, "");
    assert run + "" == run;
  }

  lemma DigitStays(sql: string, i: nat, fallback: bool)
    requires i <= |sql|
    ensures StartsWithDigit(CastFrom(sql, i, fallback)) <==> StartsWithDigit(sql[i..])
  {
    if i < |sql| {
      FirstStays(sql, i, fallback);
    }
  }

  lemma LenStays(sql: string, i: nat, fallback: bool)
    requires i < |sql| && PlaceholderLen(sql[i..]) == 0
    ensures PlaceholderLen([sql[i]] + CastFrom(sql, i + 1, fallback)) == 0
  {
    hide CastFrom;
    DigitStays(sql, i + 1, fallback);
    var s := [sql[i]] + CastFrom(sql, i + 1, fallback);
    assert s[1..] == CastFrom(sql, i + 1, fallback) && sql[i..][1..] == sql[i + 1..];
  }

  /** Undoing the casts from a position on never shortens a text that had none, and gives it back exactly
    * when the fallback mis-spanned nothing. */
  ghost predicate Restored(sql: string, i: nat, fallback: bool)
    requires i <= |sql|
  {
    var undone := Undo(CastFrom(sql, i, fallback));
    && |undone| >= |sql| - i
    && (fallback && MisSpans(sql, i) ==> |undone| > |sql| - i)
    && (!(fallback && MisSpans(sql, i)) ==> undone == sql[i..])
  }

  lemma {:induction false} UndoFrom(sql: string, i: nat, fallback: bool)
    requires i <= |sql| && !HasCast(sql, i)
    ensures Restored(sql, i, fallback)
    decreases |sql| - i
  {
    hide Bound, Cast, PlaceholderLen, Undo, CastFrom, MisSpans, Restored, SpansFrom;
    if i == |sql| {
      RestoredAtEnd(sql, fallback);
    } else {
      var n := PlaceholderLen(sql[i..]);
      LenAt(sql, i);
      UndoFrom(sql, if n == 0 then i + 1 else i + n, fallback);
      if n == 0 {
        RestoredOther(sql, i, fallback);
      } else if Bound(sql, i, fallback) {
        RestoredBound(sql, i, n, fallback);
      } else {
        RestoredUnbound(sql, i, n, fallback);
      }
    }
  }

  lemma RestoredAtEnd(sql: string, fallback: bool)
    ensures Restored(sql, |sql|, fallback)
  {
  }

  /** What is undone to itself is restored when what follows is. */
  lemma RestoredStep(sql: string, i: nat, k: nat, fallback: bool)
    requires i < i + k <= |sql| && Restored(sql, i + k, fallback)
    requires Undo(CastFrom(sql, i, fallback)) == sql[i..i + k] + Undo(CastFrom(sql, i + k, fallback))
    requires fallback ==> (MisSpans(sql, i) <==> MisSpans(sql, i + k))
    ensures Restored(sql, i, fallback)
  {
    hide Undo, CastFrom, MisSpans;
    assert sql[i..] == sql[i..i + k] + sql[i + k..];
  }

  lemma RestoredOther(sql: string, i: nat, fallback: bool)
    requires i < |sql| && PlaceholderLen(sql[i..]) == 0 && Restored(sql, i + 1, fallback)
    ensures Restored(sql, i, fallback)
  {
    hide Undo, CastFrom, MisSpans, PlaceholderLen, Restored, SpansFrom, Bound, Cast;
    NoPlaceholder(sql, i, fallback);
    LenStays(sql, i, fallback);
    UndoOther(sql[i], CastFrom(sql, i + 1, fallback));
    assert sql[i..i + 1] == [sql[i]];
    RestoredStep(sql, i, 1, fallback);
  }

  lemma RestoredBound(sql: string, i: nat, n: nat, fallback: bool)
    requires i < |sql| && PlaceholderLen(sql[i..]) == n > 0 && i + n <= |sql|
    requires Bound(sql, i, fallback) && Restored(sql, i + n, fallback)
    ensures Restored(sql, i, fallback)
  {
    hide Undo, CastFrom, MisSpans, PlaceholderLen, Bound, Cast, SpansFrom;
    var t, rest := sql[i..i + n], CastFrom(sql, i + n, fallback);
    LenAt(sql, i);
    BoundPlaceholder(sql, i, n, fallback);
    assert sql[i..] == t + sql[i + n..] && t[..n - 1] == sql[i..i + n - 1];
    if fallback {
      UndoTwice(t, rest);
      assert n == 1 ==> t[..n - 1] + (t + Undo(rest)) == t + Undo(rest);
    } else {
      UndoWithCast(t, rest);
      assert "" + (t + Cast() + rest) == t + Cast() + rest;
    }
  }

  lemma RestoredUnbound(sql: string, i: nat, n: nat, fallback: bool)
    requires i < |sql| && PlaceholderLen(sql[i..]) == n > 0 && i + n <= |sql| && !HasCast(sql, i)
    requires !Bound(sql, i, fallback) && Restored(sql, i + n, fallback)
    ensures Restored(sql, i, fallback)
  {
    hide Undo, CastFrom, MisSpans, PlaceholderLen, Bound, Cast, StartsWithDigit, Restored, SpansFrom;
    LenAt(sql, i);
    UnboundPlaceholder(sql, i, n, fallback);
    NoCastAhead(sql, i + n, fallback);
    DigitStays(sql, i + n, fallback);
    UndoWithoutCast(sql[i..i + n], CastFrom(sql, i + n, fallback));
    RestoredStep(sql, i, n, fallback);
  }

  lemma UndoOther(c: char, s: string)
    requires PlaceholderLen([c] + s) == 0
    ensures Undo([c] + s) == [c] + Undo(s)
  {
    assert ([c] + s)[1..] == s;
  }

  lemma NoCastAhead(sql: string, i: nat, fallback: bool)
    requires i <= |sql| && !HasCast(sql, i)
    ensures !(Cast() <= CastFrom(sql, i, fallback))
  {
    hide Cast, CastFrom;
    CastFacts();
    if Cast() <= CastFrom(sql, i, fallback) {
      WordWasThere(sql, i, fallback, Cast());
    }
  }

  /** In a statement without casts, taking the casts out again restores it exactly when they were placed
    * by the line-based pass, or by the fallback next to nothing longer than a `?`. */
  lemma UndoRestoresIff(sql: string)
    requires !HasCast(sql, 0)
    ensures Undo(Assembled(sql, CastSpans(sql), 0)) == sql
       <==> SpansFrom(sql, 0, false) != [] || !MisSpans(sql, 0)
  {
    hide Undo, CastFrom, Assembled, MisSpans;
    SpansAssemble(sql, 0, 0, false);
    SpansAssemble(sql, 0, 0, true);
    UndoFrom(sql, 0, false);
    UndoFrom(sql, 0, true);
    assert sql[0..0] == "" && sql[0..] == sql;
    assert "" + CastFrom(sql, 0, false) == CastFrom(sql, 0, false);
    assert "" + CastFrom(sql, 0, true) == CastFrom(sql, 0, true);
  }

  // ---------------------------------------------------------------------------
  // The mis-span, and the edits in their file
  // ---------------------------------------------------------------------------

  /** A `$n` on the line after its column gets there: the first pass sees no column on its line, and the
    * fallback, which does, writes the `$` twice. The check after the edit would refuse the file. */
  lemma BrokenLineMisSpans()
    ensures var sql := "_at=\n$1";
      && !HasCast(sql, 0) && SpansFrom(sql, 0, false) == [] && MisSpans(sql, 0)
      && Undo(Assembled(sql, CastSpans(sql), 0)) != sql
  {
    hide PlaceholderLen, SpansFrom, MisSpans, Bound, Undo, Assembled, CastSpans;
    var sql := "_at=\n$1";
    BrokenLinePlaceholders();
    BrokenLineBound();
    NoPlaceholder(sql, 0, false);
    NoPlaceholder(sql, 1, false);
    NoPlaceholder(sql, 2, false);
    NoPlaceholder(sql, 3, false);
    NoPlaceholder(sql, 4, false);
    UnboundPlaceholder(sql, 5, 2, false);
    NoSpans(sql, 0, false);
    BoundPlaceholder(sql, 5, 2, true);
    CastFacts();
    UndoRestoresIff(sql);
  }

  lemma BrokenLinePlaceholders()
    ensures var sql := "_at=\n$1";
      (forall k :: 0 <= k < 5 ==> PlaceholderLen(sql[k..]) == 0) && PlaceholderLen(sql[5..]) == 2
  {
    hide DigitRun;
    var sql := "_at=\n$1";
    forall k | 0 <= k < 5
      ensures PlaceholderLen(sql[k..]) == 0
    {
      assert sql[k..][0] == sql[k] && sql[k] != '?' && sql[k] != '$';
    }
    assert sql[5..] == "$1" && "$1"[1..] == "1";
    DigitsAreTheirRun("1");
  }

  lemma BrokenLineBound()
    ensures var sql := "_at=\n$1";
      !Bound(sql, 5, false) && Bound(sql, 5, true)
  {
    var sql := "_at=\n$1";
    assert LineStart(sql, 5) == 5;
    assert Trimmed(sql, 0, 4) == 4 && Trimmed(sql, 0, 5) == 4 && Trimmed(sql, 0, 3) == 3;
  }

  function Shifted(spans: seq<Span>, offset: nat): seq<Span>
  {
    if spans == [] then []
    else [Span(offset + spans[0].start, offset + spans[0].end, spans[0].text)] + Shifted(spans[1..], offset)
  }

  lemma {:induction false} ShiftedAssemble(pre: string, sql: string, post: string, spans: seq<Span>, last: nat)
    requires Ordered(spans, last, |sql|)
    ensures Ordered(Shifted(spans, |pre|), |pre| + last, |pre + sql + post|)
    ensures Assembled(pre + sql + post, Shifted(spans, |pre|), |pre| + last) == Assembled(sql, spans, last) + post
    decreases |spans|
  {
    hide Ordered, Assembled;
    var src := pre + sql + post;
    OrderedEnds(spans, last, |sql|);
    if spans == [] {
      ShiftedNothing(src, |pre| + last);
      ShiftedNothing(sql, last);
      assert src[|pre| + last..] == sql[last..] + post;
    } else {
      var s := spans[0];
      var more := Shifted(spans[1..], |pre|);
      ShiftedAssemble(pre, sql, post, spans[1..], s.end);
      OneMoreSpan(src, |pre| + last, Span(|pre| + s.start, |pre| + s.end, s.text), more);
      OneMoreSpan(sql, last, s, spans[1..]);
      assert [s] + spans[1..] == spans;
      assert src[|pre| + last..|pre| + s.start] == sql[last..s.start];
    }
  }

  lemma ShiftedNothing(sql: string, last: nat)
    requires last <= |sql|
    ensures Ordered([], last, |sql|) && Assembled(sql, [], last) == sql[last..]
  {
  }

  lemma AssembledSooner(sql: string, spans: seq<Span>, last: nat)
    requires Ordered(spans, last, |sql|)
    ensures Ordered(spans, 0, |sql|) && last <= |sql|
    ensures Assembled(sql, spans, 0) == sql[..last] + Assembled(sql, spans, last)
  {
    hide Ordered, Assembled;
    OrderedEnds(spans, last, |sql|);
    if spans == [] {
      ShiftedNothing(sql, last);
      ShiftedNothing(sql, 0);
      assert sql[0..] == sql[..last] + sql[last..];
    } else {
      var s, more := spans[0], spans[1..];
      assert [s] + more == spans;
      OneMoreSpan(sql, last, s, more);
      OneMoreSpan(sql, 0, s, more);
      var rest := s.text + Assembled(sql, more, s.end);
      assert sql[0..s.start] == sql[..last] + sql[last..s.start];
      assert sql[0..s.start] + s.text + Assembled(sql, more, s.end) == sql[..last] + (sql[last..s.start] + rest);
      assert sql[last..s.start] + s.text + Assembled(sql, more, s.end) == sql[last..s.start] + rest;
    }
  }

  /** Spans found in a literal and moved by its offset edit that literal of the file and nothing else. */
  lemma EditsStayInTheLiteral(pre: string, sql: string, post: string)
    ensures var edits := Shifted(CastSpans(sql), |pre|);
      && Applicable(pre + sql + post, Descending(edits))
      && AppliedInTurn(pre + sql + post, Descending(edits)) == pre + Assembled(sql, CastSpans(sql), 0) + post
  {
    hide CastSpans, Assembled, Ordered, AppliedInTurn, Applicable;
    var src, edits := pre + sql + post, Shifted(CastSpans(sql), |pre|);
    ShiftedAssemble(pre, sql, post, CastSpans(sql), 0);
    AssembledSooner(src, edits, |pre|);
    assert src[..|pre|] == pre;
    BothWaysAgree(src, edits);
  }
}
