/** `check-pg-placeholder-mixing.py`: blanking literals, numbering placeholders, and the gate over both. */
module Placeholders {
  import opened Decimal
  import opened WhiteSpace

  // ---------------------------------------------------------------------------
  // Literals
  // ---------------------------------------------------------------------------

  function Quotes(s: string): nat
  {
    if s == [] then 0 else Quotes(s[..|s| - 1]) + if s[|s| - 1] == '\'' then 1 else 0
  }

  /** A character is inside a literal when an odd number of quotes precede it. */
  predicate Inside(sql: string, k: nat)
    requires k <= |sql|
  {
    Quotes(sql[..k]) % 2 == 1
  }

  function MaskedAt(sql: string, k: nat): char
    requires k < |sql|
  {
    if sql[k] != '\'' && Inside(sql, k) then ' ' else sql[k]
  }

  function Masked(sql: string): (m: string)
    ensures |m| == |sql| && forall k :: 0 <= k < |sql| ==> m[k] == MaskedAt(sql, k)
  {
    if sql == [] then []
    else
      var front := sql[..|sql| - 1];
      assert forall k :: 0 <= k <= |front| ==> front[..k] == sql[..k];
      Masked(front) + [MaskedAt(sql, |sql| - 1)]
  }

  lemma QuotesOfNothing()
    ensures Quotes([]) == 0
  {
  }

  lemma QuotesStep(sql: string, k: nat)
    requires k < |sql|
    ensures Quotes(sql[..k + 1]) == Quotes(sql[..k]) + if sql[k] == '\'' then 1 else 0
  {
    assert sql[..k + 1][..k] == sql[..k];
  }

  lemma {:induction false} MaskKeepsQuotes(sql: string, k: nat)
    requires k <= |sql|
    ensures Quotes(Masked(sql)[..k]) == Quotes(sql[..k])
  {
    if k > 0 {
      MaskKeepsQuotes(sql, k - 1);
      QuotesStep(sql, k - 1);
      QuotesStep(Masked(sql), k - 1);
    }
  }

  /** Masking twice is masking once, doubled quotes and unterminated literals included. */
  lemma MaskIsIdempotent(sql: string)
    ensures Masked(Masked(sql)) == Masked(sql)
  {
    forall k | 0 <= k < |sql|
      ensures MaskedAt(Masked(sql), k) == MaskedAt(sql, k)
    {
      MaskKeepsQuotes(sql, k);
    }
  }

  /** `mask_string_literals`: a character is blanked exactly when it is not a quote and an odd number of
    * quotes precede it. */
  method MaskStringLiterals(sql: string) returns (masked: string)
    ensures masked == Masked(sql)
  {
    hide Quotes;
    QuotesOfNothing();
    assert sql[..0] == [];
    var out := new char[|sql|](k requires 0 <= k < |sql| => sql[k]);
    var i := 0;
    while i < |sql|
      invariant i <= |sql| + 1 && (i <= |sql| ==> !Inside(sql, i))
      invariant forall k :: 0 <= k < |sql| ==> out[k] == if k < i then MaskedAt(sql, k) else sql[k]
    {
      QuotesStep(sql, i);
      if sql[i] != '\'' {
        i := i + 1;
        continue;
      }
      i := i + 1;
      while i < |sql|
        invariant i <= |sql| && Inside(sql, i)
        invariant forall k :: 0 <= k < |sql| ==> out[k] == if k < i then MaskedAt(sql, k) else sql[k]
      {
        QuotesStep(sql, i);
        if sql[i] == '\'' {
          if i + 1 < |sql| && sql[i + 1] == '\'' {
            QuotesStep(sql, i + 1);
            i := i + 2;
            continue;
          }
          break;
        }
        out[i] := ' ';
        i := i + 1;
      }
      if i < |sql| {
        QuotesStep(sql, i);
      }
      i := i + 1;
    }
    masked := out[..];
  }

  // ---------------------------------------------------------------------------
  // Binds
  // ---------------------------------------------------------------------------

  function DigitRun(s: string): (r: string)
    ensures |r| <= |s| && AllDigits(r) && s == r + s[|r|..]
    ensures |r| < |s| ==> !IsDigit(s[|r|])
  {
    if s != [] && IsDigit(s[0]) then [s[0]] + DigitRun(s[1..]) else []
  }

  /** The numbers a statement's `$n` name: each `$` with the longest run of digits after it. */
  function NumberedBinds(s: string): seq<nat>
    decreases |s|
  {
    if s == [] then []
    else
      var run := DigitRun(s[1..]);
      if s[0] == '$' && run != [] then [Value(run)] + NumberedBinds(s[1 + |run|..]) else NumberedBinds(s[1..])
  }

  /** `rewrite`, from the `n`th placeholder on. */
  function Renumbered(sql: string, n: nat): string
    decreases |sql|
  {
    if sql == [] then []
    else if sql[0] == '?' then "$" + Print(n) + Renumbered(sql[1..], n + 1)
    else [sql[0]] + Renumbered(sql[1..], n)
  }

  method Rewrite(sql: string) returns (out: string)
    ensures out == Renumbered(sql, 1)
  {
    out := [];
    var index := 1;
    for i := 0 to |sql|
      invariant index >= 1
      invariant out + Renumbered(sql[i..], index) == Renumbered(sql, 1)
    {
      assert sql[i..][1..] == sql[i + 1..];
      if sql[i] == '?' {
        assert out + ("$" + Print(index) + Renumbered(sql[i + 1..], index + 1))
            == out + ("$" + Print(index)) + Renumbered(sql[i + 1..], index + 1);
        out := out + ("$" + Print(index));
        index := index + 1;
      } else {
        assert out + ([sql[i]] + Renumbered(sql[i + 1..], index)) == out + [sql[i]] + Renumbered(sql[i + 1..], index);
        out := out + [sql[i]];
      }
    }
  }

  function Questions(sql: string): nat
  {
    if sql == [] then 0 else (if sql[0] == '?' then 1 else 0) + Questions(sql[1..])
  }

  /** `n`, `n + 1`, … in order, `k` of them. */
  function Count(n: nat, k: nat): (c: seq<nat>)
    ensures |c| == k && forall i :: 0 <= i < k ==> c[i] == n + i
    decreases k
  {
    if k == 0 then [] else [n] + Count(n + 1, k - 1)
  }

  // ---------------------------------------------------------------------------
  // What the numbers are after the rewrite
  // ---------------------------------------------------------------------------

  /** Each `?` names its number with any digits written after it appended; each `$n` keeps its own. */
  function Expected(sql: string, n: nat): seq<nat>
    decreases |sql|
  {
    if sql == [] then []
    else
      var run := DigitRun(sql[1..]);
      if sql[0] == '?' then [Value(Print(n) + run)] + Expected(sql[1..], n + 1)
      else if sql[0] == '$' && run != [] then [Value(run)] + Expected(sql[1..], n)
      else Expected(sql[1..], n)
  }

  lemma {:induction false} RunConcat(digits: string, s: string)
    requires AllDigits(digits)
    ensures DigitRun(digits + s) == digits + DigitRun(s)
    decreases |digits|
  {
    if digits == [] {
      assert digits + s == s;
    } else {
      assert (digits + s)[1..] == digits[1..] + s;
      RunConcat(digits[1..], s);
    }
  }

  lemma {:induction false} SkipDigits(digits: string, s: string)
    requires AllDigits(digits)
    ensures NumberedBinds(digits + s) == NumberedBinds(s)
    decreases |digits|
  {
    if digits == [] {
      assert digits + s == s;
    } else {
      assert (digits + s)[1..] == digits[1..] + s;
      SkipDigits(digits[1..], s);
    }
  }

  lemma {:induction false} RunOfRenumbered(sql: string, n: nat)
    ensures DigitRun(Renumbered(sql, n)) == DigitRun(sql)
    decreases |sql|
  {
    if sql != [] && IsDigit(sql[0]) {
      RunOfRenumbered(sql[1..], n);
      assert Renumbered(sql, n)[1..] == Renumbered(sql[1..], n);
    }
  }

  lemma NumbersOfTail(sql: string)
    requires sql != []
    ensures var run := DigitRun(sql[1..]);
      NumberedBinds(sql) == (if sql[0] == '$' && run != [] then [Value(run)] else []) + NumberedBinds(sql[1..])
  {
    var rest := sql[1..];
    var run := DigitRun(rest);
    SkipDigits(run, rest[|run|..]);
    assert sql[1 + |run|..] == rest[|run|..];
  }

  /** A `$` before `digits` and a text: one number, then the text's own. */
  lemma DollarReads(digits: string, s: string)
    requires AllDigits(digits)
    ensures var run := digits + DigitRun(s);
      AllDigits(run)
      && NumberedBinds("$" + digits + s) == (if run == [] then [] else [Value(run)]) + NumberedBinds(s)
  {
    hide Value, NumberedBinds, DigitRun;
    var t := "$" + digits + s;
    assert t[1..] == digits + s;
    NumbersOfTail(t);
    RunConcat(digits, s);
    SkipDigits(digits, s);
  }

  lemma ExpectedTail(sql: string, n: nat)
    requires sql != []
    ensures sql[0] == '?' ==> Expected(sql, n) == [Value(Print(n) + DigitRun(sql[1..]))] + Expected(sql[1..], n + 1)
    ensures sql[0] != '?' ==>
      Expected(sql, n) == (if sql[0] == '$' && DigitRun(sql[1..]) != [] then [Value(DigitRun(sql[1..]))] else [])
                          + Expected(sql[1..], n)
    ensures sql[0] == '?' ==> Count(n, Questions(sql)) == [n] + Count(n + 1, Questions(sql[1..]))
    ensures sql[0] != '?' ==> Questions(sql) == Questions(sql[1..])
  {
    hide Print, Value, DigitRun;
  }

  lemma {:induction false} RenumberedReadsBack(sql: string, n: nat)
    ensures NumberedBinds(Renumbered(sql, n)) == Expected(sql, n)
    decreases |sql|
  {
    hide Print, Value, DigitRun, NumberedBinds, Expected;
    if sql == [] {
      NothingNamed(sql, n);
    } else {
      var rest := sql[1..];
      ExpectedTail(sql, n);
      if sql[0] == '?' {
        RenumberedReadsBack(rest, n + 1);
        RunOfRenumbered(rest, n + 1);
        DollarReads(Print(n), Renumbered(rest, n + 1));
      } else {
        RenumberedReadsBack(rest, n);
        RunOfRenumbered(rest, n);
        assert Renumbered(sql, n)[1..] == Renumbered(rest, n);
        NumbersOfTail(Renumbered(sql, n));
      }
    }
  }

  lemma NothingNamed(sql: string, n: nat)
    requires sql == []
    ensures NumberedBinds(sql) == [] && Expected(sql, n) == []
  {
  }

  /** Nothing the maximal munch could misread: no digit right after a `?`, and no `$n`. */
  predicate Clear(sql: string)
  {
    forall i :: 0 <= i && i + 1 < |sql| && (sql[i] == '?' || sql[i] == '$') ==> !IsDigit(sql[i + 1])
  }

  lemma ClearTail(sql: string)
    requires sql != []
    ensures Clear(sql) <==> Clear(sql[1..]) && ((sql[0] == '?' || sql[0] == '$') ==> DigitRun(sql[1..]) == [])
  {
    var rest := sql[1..];
    assert forall i :: 0 <= i < |rest| ==> rest[i] == sql[i + 1];
    if Clear(rest) && ((sql[0] == '?' || sql[0] == '$') ==> DigitRun(rest) == []) {
      forall i | 0 <= i && i + 1 < |sql| && (sql[i] == '?' || sql[i] == '$')
        ensures !IsDigit(sql[i + 1])
      {
        if i > 0 {
          assert rest[i - 1] == sql[i];
        }
      }
    }
  }

  lemma {:induction false} AtLeastOneEach(sql: string, n: nat)
    ensures |Expected(sql, n)| >= Questions(sql)
    decreases |sql|
  {
    hide Print, Value, DigitRun;
    if sql != [] {
      AtLeastOneEach(sql[1..], n + 1);
      AtLeastOneEach(sql[1..], n);
    }
  }

  lemma OwnNumber(n: nat, run: string)
    requires n > 0 && AllDigits(run)
    ensures Value(Print(n) + run) == n <==> run == []
  {
    ValueOfPrint(n);
    MoreDigits(Print(n), run);
    assert Print(n) + [] == Print(n);
  }

  lemma {:induction false} CountsUpIff(sql: string, n: nat)
    requires n > 0
    ensures Expected(sql, n) == Count(n, Questions(sql)) <==> Clear(sql)
    decreases |sql|
  {
    hide Print, Value, Clear;
    if sql == [] {
      assert Clear(sql) by { ClearShort(sql); }
    } else {
      var run := DigitRun(sql[1..]);
      ClearTail(sql);
      if sql[0] == '?' {
        CountsUpIff(sql[1..], n + 1);
        OwnNumber(n, run);
        var mine, wanted := Expected(sql[1..], n + 1), Count(n + 1, Questions(sql[1..]));
        assert ([Value(Print(n) + run)] + mine)[1..] == mine && ([n] + wanted)[1..] == wanted;
      } else {
        CountsUpIff(sql[1..], n);
        AtLeastOneEach(sql[1..], n);
      }
    }
  }

  lemma ClearShort(sql: string)
    requires sql == []
    ensures Clear(sql)
  {
  }

  /** The rewritten statement names exactly 1, 2, …, k in order, k being the number of `?`, if and only if
    * it held no `$n` and no `?` with a digit right after it. */
  lemma NumberedInOrderIff(sql: string)
    ensures NumberedBinds(Renumbered(sql, 1)) == Count(1, Questions(sql)) <==> Clear(sql)
  {
    RenumberedReadsBack(sql, 1);
    CountsUpIff(sql, 1);
  }

  lemma {:induction false} RenumberedLength(sql: string, n: nat)
    ensures |Renumbered(sql, n)| >= |sql| + Questions(sql)
    decreases |sql|
  {
    hide Print;
    if sql != [] {
      RenumberedLength(sql[1..], n + 1);
      RenumberedLength(sql[1..], n);
    }
  }

  lemma {:induction false} NoQuestionsNoChange(sql: string, n: nat)
    requires '?' !in sql
    ensures Renumbered(sql, n) == sql && Questions(sql) == 0
  {
    if sql != [] {
      NoQuestionsNoChange(sql[1..], n);
    }
  }

  lemma {:induction false} SomeQuestion(sql: string)
    requires '?' in sql
    ensures Questions(sql) > 0
  {
    if sql[0] != '?' {
      SomeQuestion(sql[1..]);
    }
  }

  /** The rewrite leaves a statement alone exactly when it has no `?`. */
  lemma RewriteIsIdentityIff(sql: string)
    ensures Renumbered(sql, 1) == sql <==> '?' !in sql
  {
    if '?' in sql {
      SomeQuestion(sql);
      RenumberedLength(sql, 1);
    } else {
      NoQuestionsNoChange(sql, 1);
    }
  }

  // ---------------------------------------------------------------------------
  // The gate
  // ---------------------------------------------------------------------------

  /** A `?` with a digit after it, white space between them allowed. */
  predicate DigitAfterSpace(s: string)
  {
    s != [] && (IsDigit(s[0]) || (IsSpace(s[0]) && DigitAfterSpace(s[1..])))
  }

  predicate NumberedQuestion(sql: string)
  {
    exists i :: 0 <= i < |sql| && sql[i] == '?' && DigitAfterSpace(sql[i + 1..])
  }

  function FirstNonBlank(s: string): string
  {
    if s != [] && s[0] == ' ' then FirstNonBlank(s[1..]) else s
  }

  /** A `?` is a bind unless a quote, a bar or an ampersand follows. */
  predicate IsBind(sql: string, i: nat)
    requires i < |sql|
  {
    var after := FirstNonBlank(sql[i + 1..]);
    sql[i] == '?' && !(after != [] && (after[0] == '\'' || after[0] == '|' || after[0] == '&'))
  }

  predicate AnyBind(sql: string)
  {
    exists i :: 0 <= i < |sql| && IsBind(sql, i)
  }

  predicate AllBinds(sql: string)
  {
    forall i :: 0 <= i < |sql| && sql[i] == '?' ==> IsBind(sql, i)
  }

  /** What the gate lets through: no numbered `?`, and one of the two spellings at most. */
  predicate Clean(sql: string)
  {
    !NumberedQuestion(sql) && (!AnyBind(sql) || NumberedBinds(sql) == [])
  }

  lemma {:induction false} DigitAfterSpaceIff(s: string)
    ensures DigitAfterSpace(s)
       <==> exists j :: 0 <= j < |s| && IsDigit(s[j]) && forall k :: 0 <= k < j ==> IsSpace(s[k])
    decreases |s|
  {
    if s != [] && !IsDigit(s[0]) && IsSpace(s[0]) {
      DigitAfterSpaceIff(s[1..]);
      if j :| 0 <= j < |s| && IsDigit(s[j]) && forall k :: 0 <= k < j ==> IsSpace(s[k]) {
        assert IsDigit(s[1..][j - 1]) && forall k :: 0 <= k < j - 1 ==> IsSpace(s[1..][k]);
      }
      if j :| 0 <= j < |s[1..]| && IsDigit(s[1..][j]) && forall k :: 0 <= k < j ==> IsSpace(s[1..][k]) {
        assert IsDigit(s[j + 1]) && forall k :: 0 < k < j + 1 ==> s[k] == s[1..][k - 1];
      }
    }
  }

  /** The first rule: a `?`, white space, a digit. */
  lemma NumberedQuestionIff(sql: string)
    ensures NumberedQuestion(sql)
       <==> exists i, j :: (&& 0 <= i < j < |sql| && sql[i] == '?' && IsDigit(sql[j])
                            && forall k :: i < k < j ==> IsSpace(sql[k]))
  {
    hide DigitAfterSpace, IsDigit, IsSpace;
    if NumberedQuestion(sql) {
      var i :| 0 <= i < |sql| && sql[i] == '?' && DigitAfterSpace(sql[i + 1..]);
      var s := sql[i + 1..];
      DigitAfterSpaceIff(s);
      var j :| 0 <= j < |s| && IsDigit(s[j]) && forall k :: 0 <= k < j ==> IsSpace(s[k]);
      assert IsDigit(sql[i + 1 + j]) && forall k :: i < k < i + 1 + j ==> sql[k] == s[k - i - 1];
    }
    if i, j :| && 0 <= i < j < |sql| && sql[i] == '?' && IsDigit(sql[j]) && forall k :: i < k < j ==> IsSpace(sql[k]) {
      var s := sql[i + 1..];
      DigitAfterSpaceIff(s);
      assert IsDigit(s[j - i - 1]) && forall k :: 0 <= k < j - i - 1 ==> s[k] == sql[k + i + 1];
    }
  }

  lemma {:induction false} FirstNonBlankIs(s: string)
    ensures var after := FirstNonBlank(s);
      && |after| <= |s| && after == s[|s| - |after|..] && (after != [] ==> after[0] != ' ')
      && forall k :: 0 <= k < |s| - |after| ==> s[k] == ' '
    decreases |s|
  {
    if s != [] && s[0] == ' ' {
      FirstNonBlankIs(s[1..]);
      var after := FirstNonBlank(s[1..]);
      assert forall k :: 0 < k < |s| - |after| ==> s[k] == s[1..][k - 1];
    }
  }

  /** A `?` is an operator if and only if, past blanks, a quote, a bar or an ampersand follows. */
  lemma IsBindIff(sql: string, i: nat)
    requires i < |sql| && sql[i] == '?'
    ensures !IsBind(sql, i)
       <==> exists j :: (&& i < j < |sql| && (sql[j] == '\'' || sql[j] == '|' || sql[j] == '&')
                         && forall k :: i < k < j ==> sql[k] == ' ')
  {
    hide FirstNonBlank;
    var s := sql[i + 1..];
    var after := FirstNonBlank(s);
    var at := |sql| - |after|;
    FirstNonBlankIs(s);
    assert forall k :: i < k < at ==> sql[k] == s[k - i - 1];
    assert after != [] ==> sql[at] == after[0];
    if !IsBind(sql, i) {
      assert i < at < |sql|;
    }
    if j :| && i < j < |sql| && (sql[j] == '\'' || sql[j] == '|' || sql[j] == '&') && forall k :: i < k < j ==> sql[k] == ' ' {
      assert at == j;
    }
  }

  lemma {:induction false} NamesNothingIff(sql: string)
    ensures NumberedBinds(sql) == []
       <==> forall i :: 0 <= i && i + 1 < |sql| && sql[i] == '$' ==> !IsDigit(sql[i + 1])
  {
    hide NumberedBinds, Value, IsDigit;
    if sql == [] {
      NothingNamed(sql, 0);
    } else {
      var rest := sql[1..];
      NamesNothingIff(rest);
      NumbersOfTail(sql);
      assert DigitRun(rest) != [] <==> rest != [] && IsDigit(rest[0]);
      forall i | 0 < i && i + 1 < |sql| && sql[i] == '$'
        ensures NumberedBinds(sql) == [] ==> !IsDigit(sql[i + 1])
      {
        assert rest[i - 1] == '$' && rest[i] == sql[i + 1];
      }
    }
  }

  lemma NoDigitAfterQuestion(sql: string)
    requires !NumberedQuestion(sql)
    ensures Clear(sql) <==> NumberedBinds(sql) == []
  {
    NamesNothingIff(sql);
    forall i | 0 <= i && i + 1 < |sql| && sql[i] == '?'
      ensures !IsDigit(sql[i + 1])
    {
      assert !DigitAfterSpace(sql[i + 1..]);
    }
  }

  /** The gate lets through a containment operator beside a numbered parameter, and both come out as `$1`. */
  lemma AnOperatorBecomesABind()
    ensures Clean("?|$1") && NumberedBinds(Renumbered("?|$1", 1)) == [1, 1]
  {
    hide Print, Value, DigitRun, NumberedBinds, Renumbered, Expected, NumberedQuestion, AnyBind;
    RenumberedReadsBack("?|$1", 1);
    ExpectedOfOperator();
    OperatorIsClean();
  }

  lemma OperatorIsClean()
    ensures !NumberedQuestion("?|$1") && !AnyBind("?|$1")
  {
    var sql := "?|$1";
    assert sql[1..] == "|$1";
    assert !DigitAfterSpace("|$1") && FirstNonBlank("|$1") == "|$1";
    assert forall i :: 0 <= i < |sql| && sql[i] == '?' ==> i == 0;
  }

  lemma ExpectedOfOperator()
    ensures Expected("?|$1", 1) == [1, 1]
  {
    hide DigitRun, Print, Value;
    var sql := "?|$1";
    assert sql[1..] == "|$1" && "|$1"[1..] == "$1" && "$1"[1..] == "1" && "1"[1..] == [];
    RunsOfOperator();
    OwnNumber(1, []);
    assert Print(1) + [] == Print(1);
    ValueOfPrint(1);
    assert Expected("1", 2) == [];
    assert Expected("$1", 2) == [1];
    assert Expected("|$1", 2) == [1];
  }

  lemma RunsOfOperator()
    ensures DigitRun("|$1") == [] && DigitRun("1") == Print(1) && DigitRun([]) == []
  {
    assert "1"[1..] == [];
  }

  // ---------------------------------------------------------------------------
  // Two numberings in one statement
  // ---------------------------------------------------------------------------

  lemma NothingExpected(sql: string, n: nat)
    requires sql == []
    ensures Expected(sql, n) == [] && Count(n, Questions(sql)) == []
  {
  }

  lemma NoRun(sql: string)
    requires sql != [] && (|sql| > 1 ==> !IsDigit(sql[1]))
    ensures DigitRun(sql[1..]) == []
  {
  }

  /** How many columns a number names. */
  function Times(numbers: seq<nat>, m: nat): nat
  {
    if numbers == [] then 0 else (if numbers[0] == m then 1 else 0) + Times(numbers[1..], m)
  }

  lemma TimesCons(n: nat, numbers: seq<nat>, m: nat)
    ensures Times([n] + numbers, m) == (if n == m then 1 else 0) + Times(numbers, m)
    ensures Times([] + numbers, m) == Times(numbers, m)
  {
    assert ([n] + numbers)[1..] == numbers && [] + numbers == numbers;
  }

  /** With no digit right after a `?`, the rewritten statement names 1, 2, …, k once each and, besides,
    * whatever it named before as often as it did. */
  lemma {:induction false} RewriteMerges(sql: string, n: nat, m: nat)
    requires n > 0 && forall i :: 0 <= i && i + 1 < |sql| && sql[i] == '?' ==> !IsDigit(sql[i + 1])
    ensures Times(Expected(sql, n), m) == Times(Count(n, Questions(sql)), m) + Times(NumberedBinds(sql), m)
    decreases |sql|
  {
    hide Print, Value, NumberedBinds, DigitRun, Expected, Count, Questions, Times;
    if sql == [] {
      NothingExpected(sql, n);
      NothingNamed(sql, n);
      NoTimes(m);
    } else {
      var rest := sql[1..];
      assert forall i :: 0 <= i < |rest| ==> rest[i] == sql[i + 1];
      NumbersOfTail(sql);
      ExpectedTail(sql, n);
      TimesCons(0, NumberedBinds(rest), m);
      TimesCons(0, Expected(rest, n), m);
      if sql[0] == '?' {
        RewriteMerges(rest, n + 1, m);
        NoRun(sql);
        OwnNumber(n, []);
        TimesCons(n, Expected(rest, n + 1), m);
        TimesCons(n, Count(n + 1, Questions(rest)), m);
      } else {
        RewriteMerges(rest, n, m);
        var run := DigitRun(rest);
        TimesCons(Value(run), Expected(rest, n), m);
        TimesCons(Value(run), NumberedBinds(rest), m);
      }
    }
  }

  lemma NoTimes(m: nat)
    ensures Times([], m) == 0
  {
  }

  lemma {:induction false} OneOfEach(n: nat, k: nat, m: nat)
    requires n <= m < n + k
    ensures Times(Count(n, k), m) >= 1
    decreases k
  {
    if m > n {
      OneOfEach(n + 1, k - 1, m);
    }
  }

  lemma {:induction false} TimesOfMember(numbers: seq<nat>, m: nat)
    requires m in numbers
    ensures Times(numbers, m) >= 1
  {
    if numbers[0] != m {
      TimesOfMember(numbers[1..], m);
    }
  }

  /** So a `$m` within the range the `?`s take always ends up naming two columns; of the gate's two
    * reports for a mixed statement, the one for a mere collision is left for `$0` alone. */
  lemma CollisionIsDuplication(sql: string, m: nat)
    requires !NumberedQuestion(sql) && m in NumberedBinds(sql) && 1 <= m <= Questions(sql)
    ensures Times(NumberedBinds(Renumbered(sql, 1)), m) >= 2
  {
    forall i | 0 <= i && i + 1 < |sql| && sql[i] == '?'
      ensures !IsDigit(sql[i + 1])
    {
      assert !DigitAfterSpace(sql[i + 1..]);
    }
    RenumberedReadsBack(sql, 1);
    RewriteMerges(sql, 1, m);
    OneOfEach(1, Questions(sql), m);
    TimesOfMember(NumberedBinds(sql), m);
  }
}
