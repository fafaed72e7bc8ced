/** `values_expressions`: the expressions of a VALUES list, split at its own commas only. */
module ValuesList {
  import opened Wrappers

  /** The pieces in order; when the list closes, what stands after its parenthesis, and when it does not,
    * nothing of what stands after the last comma. */
  datatype Split = Split(pieces: seq<string>, rest: Option<string>)

  predicate IsQuote(c: char)
  {
    c == '\'' || c == '"'
  }

  /** The quote still open after one more character. */
  function QuoteAfter(quote: Option<char>, c: char): Option<char>
  {
    if quote.Some? then (if c == quote.value then None else quote)
    else if IsQuote(c) then Some(c)
    else None
  }

  /** The depth after one more character; the list itself is depth 1. */
  function DepthAfter(depth: nat, quote: Option<char>, c: char): nat
    requires depth > 0
  {
    if quote.Some? then depth else if c == '(' then depth + 1 else if c == ')' then depth - 1 else depth
  }

  predicate TopComma(depth: nat, quote: Option<char>, c: char)
  {
    quote.None? && c == ',' && depth == 1
  }

  /** The list from here on, `buf` being the piece so far. */
  function SplitFrom(s: string, buf: string, depth: nat, quote: Option<char>): Split
    requires depth > 0
    decreases |s|
  {
    if s == "" then Split([], None)
    else
      var c := s[0];
      var depth' := DepthAfter(depth, quote, c);
      if depth' == 0 then Split([buf], Some(s[1..]))
      else if TopComma(depth, quote, c) then
        var more := SplitFrom(s[1..], "", depth', QuoteAfter(quote, c));
        more.(pieces := [buf] + more.pieces)
      else SplitFrom(s[1..], buf + [c], depth', QuoteAfter(quote, c))
  }

  function SplitList(s: string): Split
  {
    SplitFrom(s, "", 1, None)
  }

  /** `start` is where the opening parenthesis of the VALUES list ends, if there is one. */
  method ValuesExpressions(sql: string, start: Option<nat>) returns (out: seq<string>)
    requires start.Some? ==> start.value <= |sql|
    ensures out == if start.None? then [] else SplitList(sql[start.value..]).pieces
  {
    out := [];
    if start.None? {
      return;
    }
    var i: nat, begin: nat, depth: nat, quote: Option<char> := start.value, start.value, 1, None;
    assert sql[begin..i] == "";
    while i < |sql|
      invariant begin <= i <= |sql| && depth > 0
      invariant out + SplitFrom(sql[i..], sql[begin..i], depth, quote).pieces == SplitList(sql[start.value..]).pieces
    {
      var ch := sql[i];
      assert sql[i..][1..] == sql[i + 1..];
      assert sql[begin..i] + [ch] == sql[begin..i + 1];
      if quote.Some? {
        if ch == quote.value {
          quote := None;
        }
      } else if IsQuote(ch) {
        quote := Some(ch);
      } else if ch == '(' {
        depth := depth + 1;
      } else if ch == ')' {
        depth := depth - 1;
        if depth == 0 {
          out := out + [sql[begin..i]];
          return;
        }
      } else if ch == ',' && depth == 1 {
        ghost var more := SplitFrom(sql[i + 1..], "", depth, quote).pieces;
        assert out + ([sql[begin..i]] + more) == out + [sql[begin..i]] + more;
        out := out + [sql[begin..i]];
        begin := i + 1;
        assert sql[begin..i + 1] == "";
      }
      i := i + 1;
    }
  }

  // ---------------------------------------------------------------------------
  // What a piece is
  // ---------------------------------------------------------------------------

  function Count(s: string, c: char): nat
  {
    if s == "" then 0 else (if s[0] == c then 1 else 0) + Count(s[1..], c)
  }

  /** Where the character stands first, if it does. */
  function Find(s: string, c: char): (n: Option<nat>)
    ensures n.Some? ==> n.value < |s| && s[n.value] == c && c !in s[..n.value]
    ensures n.None? ==> c !in s
  {
    if s == "" then None
    else if s[0] == c then Some(0)
    else
      match Find(s[1..], c)
      case None => None
      case Some(n) => Some(n + 1)
  }

  /** What stands outside quotes, each of which reaches to the next character like it, and whether the last
    * one does. */
  function Bare(p: string): (string, bool)
    decreases |p|
  {
    if p == "" then ("", true)
    else if p[0] == '\'' || p[0] == '"' then
      match Find(p[1..], p[0])
      case None => ("", false)
      case Some(n) => Bare(p[n + 2..])
    else
      var (rest, closed) := Bare(p[1..]);
      ([p[0]] + rest, closed)
  }

  /** Begun `depth` parentheses deep, no prefix closes all of them, and every comma stands at least two deep. */
  ghost predicate StaysIn(b: string, depth: nat)
  {
    && (forall n :: 0 <= n <= |b| ==> Count(b[..n], ')') < Count(b[..n], '(') + depth)
    && (forall n :: 0 <= n < |b| && b[n] == ',' ==> Count(b[..n], ')') + 1 < Count(b[..n], '(') + depth)
  }

  /** The text neither closes the list nor has a comma of the list's own. */
  ghost predicate Within(p: string)
  {
    StaysIn(Bare(p).0, 1)
  }

  /** An expression: outside quotes as many parentheses are closed as opened, at no point more, every comma stands
    * inside some, and no quote is left open. */
  ghost predicate Whole(p: string)
  {
    var (b, closed) := Bare(p);
    Within(p) && Count(b, '(') == Count(b, ')') && closed
  }

  /** Read from a depth and a quote: how it ends, unless it closes the list or has a comma of its own. */
  function Through(p: string, depth: nat, quote: Option<char>): Option<(nat, Option<char>)>
    requires depth > 0
    decreases |p|
  {
    if p == "" then Some((depth, quote))
    else
      var depth' := DepthAfter(depth, quote, p[0]);
      if depth' == 0 || TopComma(depth, quote, p[0]) then None else Through(p[1..], depth', QuoteAfter(quote, p[0]))
  }

  lemma {:induction false} ThroughQuoted(p: string, depth: nat, quote: char)
    requires depth > 0
    ensures Through(p, depth, Some(quote))
         == match Find(p, quote)
            case None => Some((depth, Some(quote)))
            case Some(n) => Through(p[n + 1..], depth, None)
    decreases |p|
  {
    if p != "" && p[0] != quote {
      ThroughQuoted(p[1..], depth, quote);
      match Find(p[1..], quote)
      case None =>
      case Some(n) => assert p[1..][n + 1..] == p[n + 2..];
    }
  }

  lemma StaysInCons(c: char, b: string, depth: nat)
    requires depth > 0 && !IsQuote(c)
    ensures StaysIn([c] + b, depth)
       <==> DepthAfter(depth, None, c) > 0 && !TopComma(depth, None, c) && StaysIn(b, DepthAfter(depth, None, c))
  {
    var s, depth' := [c] + b, DepthAfter(depth, None, c);
    CountCons(c, b);
    assert s[..0] == "" && s[..1] == [c] && Count("", '(') == 0 == Count("", ')');
    assert Count([c], '(') == (if c == '(' then 1 else 0) && Count([c], ')') == if c == ')' then 1 else 0;
    if StaysIn(s, depth) {
      assert Count(s[..1], ')') < Count(s[..1], '(') + depth;
      forall n | 0 <= n <= |b|
        ensures Count(b[..n], ')') < Count(b[..n], '(') + depth'
        ensures n < |b| && b[n] == ',' ==> Count(b[..n], ')') + 1 < Count(b[..n], '(') + depth'
      {
        CountCons(c, b[..n]);
        assert s[..n + 1] == [c] + b[..n] && (n < |b| ==> s[n + 1] == b[n]);
      }
    }
    if depth' > 0 && !TopComma(depth, None, c) && StaysIn(b, depth') {
      forall n | 0 <= n <= |s|
        ensures Count(s[..n], ')') < Count(s[..n], '(') + depth
        ensures n < |s| && s[n] == ',' ==> Count(s[..n], ')') + 1 < Count(s[..n], '(') + depth
      {
        if n > 0 {
          CountCons(c, b[..n - 1]);
          assert s[..n] == [c] + b[..n - 1] && (n < |s| ==> s[n] == b[n - 1]);
          assert Count(b[..n - 1], ')') < Count(b[..n - 1], '(') + depth';
        }
      }
    }
  }

  lemma CountCons(c: char, b: string)
    ensures forall d :: Count([c] + b, d) == (if c == d then 1 else 0) + Count(b, d)
  {
    assert ([c] + b)[1..] == b;
  }

  /** The reading character by character is what the counts say. */
  lemma {:induction false} ThroughIff(p: string, depth: nat)
    requires depth > 0
    ensures var (b, closed) := Bare(p);
      && (Through(p, depth, None).Some? <==> StaysIn(b, depth))
      && (Through(p, depth, None).Some? ==>
            var (depth', quote') := Through(p, depth, None).value;
            depth' + Count(b, ')') == depth + Count(b, '(') && (quote'.None? <==> closed))
    decreases |p|
  {
    hide StaysIn;
    if p == "" {
      NothingStaysIn(depth);
    } else if p[0] == '\'' || p[0] == '"' {
      ThroughQuoted(p[1..], depth, p[0]);
      match Find(p[1..], p[0])
      case None => NothingStaysIn(depth);
      case Some(n) =>
        assert p[1..][n + 1..] == p[n + 2..];
        ThroughIff(p[n + 2..], depth);
    } else {
      var depth' := DepthAfter(depth, None, p[0]);
      var rest := Bare(p[1..]).0;
      StaysInCons(p[0], rest, depth);
      CountCons(p[0], rest);
      if depth' > 0 {
        ThroughIff(p[1..], depth');
      }
    }
  }

  lemma NothingStaysIn(depth: nat)
    requires depth > 0
    ensures StaysIn("", depth) && Count("", '(') == 0 == Count("", ')')
  {
  }

  lemma WholeIff(p: string)
    ensures Whole(p) <==> Through(p, 1, None) == Some((1, None))
    ensures Within(p) <==> Through(p, 1, None).Some?
  {
    hide StaysIn, Through;
    ThroughIff(p, 1);
    if Through(p, 1, None).Some? {
      var (depth', quote') := Through(p, 1, None).value;
      assert Through(p, 1, None) == Some((depth', quote'));
    }
  }

  function Join(pieces: seq<string>): string
  {
    if pieces == [] then ""
    else if |pieces| == 1 then pieces[0]
    else pieces[0] + "," + Join(pieces[1..])
  }

  function Terminated(pieces: seq<string>): string
  {
    if pieces == [] then "" else pieces[0] + "," + Terminated(pieces[1..])
  }

  ghost predicate AllWhole(pieces: seq<string>)
  {
    forall p :: p in pieces ==> Whole(p)
  }

  lemma {:induction false} SplitThrough(p: string, s: string, buf: string, depth: nat, quote: Option<char>)
    requires depth > 0 && Through(p, depth, quote).Some?
    ensures var (depth', quote') := Through(p, depth, quote).value;
      depth' > 0 && SplitFrom(p + s, buf, depth, quote) == SplitFrom(s, buf + p, depth', quote')
    decreases |p|
  {
    if p == "" {
      assert p + s == s && buf + p == buf;
    } else {
      assert (p + s)[1..] == p[1..] + s && buf + [p[0]] + p[1..] == buf + p;
      SplitThrough(p[1..], s, buf + [p[0]], DepthAfter(depth, quote, p[0]), QuoteAfter(quote, p[0]));
    }
  }

  lemma OnePiece(p: string, s: string)
    requires Whole(p)
    ensures SplitList(p + ("," + s)) == var more := SplitList(s); more.(pieces := [p] + more.pieces)
    ensures SplitList(p + (")" + s)) == Split([p], Some(s))
  {
    WholeIff(p);
    SplitThrough(p, "," + s, "", 1, None);
    SplitThrough(p, ")" + s, "", 1, None);
    assert "" + p == p && ("," + s)[1..] == s && (")" + s)[1..] == s;
  }

  /** Whole pieces joined with commas and closed with a parenthesis split into those pieces. */
  lemma {:induction false} SplitOfJoin(pieces: seq<string>, rest: string)
    requires pieces != [] && AllWhole(pieces)
    ensures SplitList(Join(pieces) + (")" + rest)) == Split(pieces, Some(rest))
  {
    hide SplitList, Whole;
    var p := pieces[0];
    assert p in pieces;
    if |pieces| == 1 {
      OnePiece(p, rest);
      assert pieces == [p];
    } else {
      var s := Join(pieces[1..]) + (")" + rest);
      SplitOfJoin(pieces[1..], rest);
      OnePiece(p, s);
      assert Join(pieces) + (")" + rest) == p + ("," + s) && [p] + pieces[1..] == pieces;
    }
  }

  /** Every text is some piece or part of one, and then ends, or closes the list, or goes on after a comma. */
  lemma {:induction false} FirstStop(s: string, depth: nat, quote: Option<char>) returns (n: nat)
    requires depth > 0
    ensures n <= |s| && Through(s[..n], depth, quote).Some?
    ensures n < |s| ==> var (depth', quote') := Through(s[..n], depth, quote).value;
      depth' > 0 && (DepthAfter(depth', quote', s[n]) == 0 || TopComma(depth', quote', s[n]))
    decreases |s|
  {
    if s == "" || DepthAfter(depth, quote, s[0]) == 0 || TopComma(depth, quote, s[0]) {
      n := 0;
    } else {
      n := FirstStop(s[1..], DepthAfter(depth, quote, s[0]), QuoteAfter(quote, s[0]));
      n := n + 1;
      assert s[..n][1..] == s[1..][..n - 1];
    }
  }

  lemma StopIsTop(depth: nat, quote: Option<char>, c: char)
    requires depth > 0 && (DepthAfter(depth, quote, c) == 0 || TopComma(depth, quote, c))
    ensures depth == 1 && quote == None && (c == ')' || c == ',')
  {
  }

  /** When the list closes, its pieces joined with commas are exactly the text between the parentheses,
    * every piece is whole; when it does not, the pieces are those that a comma ended, and what follows the
    * last comma is dropped. */
  lemma {:induction false} SplitExplains(s: string)
    ensures var r := SplitList(s);
      && AllWhole(r.pieces)
      && (r.rest.Some? ==> r.pieces != [] && s == Join(r.pieces) + (")" + r.rest.value))
      && (r.rest.None? ==> exists tail :: s == Terminated(r.pieces) + tail && Within(tail))
    decreases |s|
  {
    hide SplitFrom, Through, Whole, Within;
    var n := FirstStop(s, 1, None);
    var p := s[..n];
    WholeIff(p);
    if n == |s| {
      assert p == s;
      NoStop(s);
      assert s == Terminated([]) + s;
    } else {
      var (depth', quote') := Through(p, 1, None).value;
      StopIsTop(depth', quote', s[n]);
      assert Whole(p);
      var s' := s[n + 1..];
      assert s == p + ([s[n]] + s');
      OnePiece(p, s');
      if s[n] == ')' {
        assert Join([p]) == p;
      } else {
        SplitExplains(s');
        JoinMore(p, s', SplitList(s'));
      }
    }
  }

  lemma NoStop(s: string)
    requires Through(s, 1, None).Some?
    ensures SplitList(s) == Split([], None)
  {
    SplitThrough(s, "", "", 1, None);
    assert s + "" == s;
  }

  lemma JoinMore(p: string, s: string, r: Split)
    requires r.rest.Some? ==> r.pieces != [] && s == Join(r.pieces) + (")" + r.rest.value)
    requires r.rest.None? ==> exists tail :: s == Terminated(r.pieces) + tail && Within(tail)
    ensures r.rest.Some? ==> p + ("," + s) == Join([p] + r.pieces) + (")" + r.rest.value)
    ensures r.rest.None? ==>
      exists tail :: p + ("," + s) == Terminated([p] + r.pieces) + tail && Within(tail)
  {
    hide Within;
    assert ([p] + r.pieces)[1..] == r.pieces;
    if r.rest.None? {
      var tail :| s == Terminated(r.pieces) + tail && Within(tail);
      assert p + ("," + s) == Terminated([p] + r.pieces) + tail;
    }
  }

  /** So the split is the only one: a list closes with given pieces and a given rest if and only if they
    * are whole pieces and the text is their join, the parenthesis and the rest. */
  lemma SplitIsUnique(s: string, pieces: seq<string>, rest: string)
    ensures SplitList(s) == Split(pieces, Some(rest))
       <==> pieces != [] && AllWhole(pieces) && s == Join(pieces) + (")" + rest)
  {
    hide SplitList, Whole;
    SplitExplains(s);
    if pieces != [] && AllWhole(pieces) && s == Join(pieces) + (")" + rest) {
      SplitOfJoin(pieces, rest);
    }
  }
}
