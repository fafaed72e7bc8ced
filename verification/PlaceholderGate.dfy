/** The gate of `check-pg-placeholder-mixing.py` judges a statement with its literals blanked; the rewrite
  * runs on the statement as it is. What that comes to, for every statement the gate can see.
  */
module PlaceholderGate {
  import opened Decimal
  import opened Placeholders

  // ---------------------------------------------------------------------------
  // The mask, front to back
  // ---------------------------------------------------------------------------

  function Toggled(inside: bool, c: char): bool
  {
    if c == '\'' then !inside else inside
  }

  function Blanked(inside: bool, c: char): char
  {
    if inside && c != '\'' then ' ' else c
  }

  /** The mask from a point on, given whether it is inside a literal. */
  function MaskFrom(s: string, inside: bool): (m: string)
    ensures |m| == |s|
    decreases |s|
  {
    if s == "" then "" else [Blanked(inside, s[0])] + MaskFrom(s[1..], Toggled(inside, s[0]))
  }

  lemma {:induction false} QuotesCons(s: string, k: nat)
    requires 0 < k <= |s|
    ensures Quotes(s[..k]) == (if s[0] == '\'' then 1 else 0) + Quotes(s[1..][..k - 1])
    decreases k
  {
    QuotesStep(s, k - 1);
    if k == 1 {
      QuotesOfNothing();
      assert s[..0] == "" && s[1..][..0] == "";
    } else {
      QuotesCons(s, k - 1);
      QuotesStep(s[1..], k - 2);
      assert s[1..][..k - 2 + 1] == s[1..][..k - 1];
    }
  }

  lemma {:induction false} MaskFromAt(s: string, inside: bool, k: nat)
    requires k < |s|
    ensures MaskFrom(s, inside)[k]
         == if s[k] != '\'' && (Quotes(s[..k]) + (if inside then 1 else 0)) % 2 == 1 then ' ' else s[k]
    decreases |s|
  {
    hide Quotes;
    QuotesOfNothing();
    assert s[..0] == "";
    if k > 0 {
      MaskFromAt(s[1..], Toggled(inside, s[0]), k - 1);
      QuotesCons(s, k);
    }
  }

  /** It is the mask. */
  lemma MaskedFrontToBack(sql: string)
    ensures Masked(sql) == MaskFrom(sql, false)
  {
    forall k | 0 <= k < |sql|
      ensures Masked(sql)[k] == MaskFrom(sql, false)[k]
    {
      MaskFromAt(sql, false, k);
    }
  }

  lemma MaskTail(s: string, inside: bool)
    requires s != ""
    ensures MaskFrom(s, inside) != "" && MaskFrom(s, inside)[0] == Blanked(inside, s[0])
    ensures MaskFrom(s, inside)[1..] == MaskFrom(s[1..], Toggled(inside, s[0]))
  {
  }

  predicate NoQuote(s: string)
  {
    forall c :: c in s ==> c != '\''
  }

  lemma {:induction false} OutsideKeeps(word: string, s: string)
    requires NoQuote(word)
    ensures MaskFrom(word + s, false) == word + MaskFrom(s, false)
    decreases |word|
  {
    if word == "" {
      assert word + s == s;
    } else {
      assert word[0] in word && (word + s)[1..] == word[1..] + s && forall c :: c in word[1..] ==> c in word;
      OutsideKeeps(word[1..], s);
    }
  }

  /** Inside a literal nothing names a number. */
  lemma {:induction false} InsideIsSilent(word: string, s: string)
    requires NoQuote(word)
    ensures NumberedBinds(MaskFrom(word + s, true)) == NumberedBinds(MaskFrom(s, true))
    decreases |word|
  {
    hide NumberedBinds, MaskFrom;
    if word == "" {
      assert word + s == s;
    } else {
      assert word[0] in word && (word + s)[1..] == word[1..] + s && forall c :: c in word[1..] ==> c in word;
      MaskTail(word + s, true);
      NumbersOfTail(MaskFrom(word + s, true));
      InsideIsSilent(word[1..], s);
    }
  }

  lemma {:induction false} RunOfMask(s: string)
    ensures DigitRun(MaskFrom(s, false)) == DigitRun(s)
    decreases |s|
  {
    if s != "" && IsDigit(s[0]) {
      RunOfMask(s[1..]);
      MaskTail(s, false);
    }
  }

  // ---------------------------------------------------------------------------
  // The numbers outside literals, after the rewrite
  // ---------------------------------------------------------------------------

  /** As `Expected`, but a `?` inside a literal takes its number without naming one. */
  function ExpectedOutside(sql: string, n: nat, inside: bool): seq<nat>
    decreases |sql|
  {
    if sql == "" then []
    else
      var run := DigitRun(sql[1..]);
      var inside' := Toggled(inside, sql[0]);
      if sql[0] == '?' then
        (if inside then [] else [Value(Print(n) + run)]) + ExpectedOutside(sql[1..], n + 1, inside')
      else
        (if !inside && sql[0] == '$' && run != [] then [Value(run)] else [])
        + ExpectedOutside(sql[1..], n, inside')
  }

  lemma RenumberedStep(sql: string, n: nat)
    requires sql != ""
    ensures sql[0] == '?' ==> Renumbered(sql, n) == "$" + Print(n) + Renumbered(sql[1..], n + 1)
    ensures sql[0] != '?' ==> Renumbered(sql, n) == [sql[0]] + Renumbered(sql[1..], n)
  {
  }

  lemma DigitsHaveNoQuote(n: nat)
    ensures NoQuote("$" + Print(n)) && AllDigits(Print(n))
  {
    hide Print;
    assert forall k :: 0 <= k < |Print(n)| ==> IsDigit(Print(n)[k]);
  }

  lemma BindReads(sql: string, n: nat, inside: bool)
    requires sql != "" && sql[0] == '?'
    ensures NumberedBinds(MaskFrom(Renumbered(sql, n), inside))
         == (if inside then [] else [Value(Print(n) + DigitRun(sql[1..]))])
            + NumberedBinds(MaskFrom(Renumbered(sql[1..], n + 1), inside))
  {
    hide NumberedBinds, MaskFrom, Renumbered, Print, Value, DigitRun;
    var rest := Renumbered(sql[1..], n + 1);
    RenumberedStep(sql, n);
    DigitsHaveNoQuote(n);
    if inside {
      InsideIsSilent("$" + Print(n), rest);
    } else {
      OutsideKeeps("$" + Print(n), rest);
      DollarReads(Print(n), MaskFrom(rest, false));
      RunOfMask(rest);
      RunOfRenumbered(sql[1..], n + 1);
    }
  }

  lemma OtherReads(sql: string, n: nat, inside: bool)
    requires sql != "" && sql[0] != '?'
    ensures var run := DigitRun(sql[1..]);
      NumberedBinds(MaskFrom(Renumbered(sql, n), inside))
      == (if !inside && sql[0] == '$' && run != [] then [Value(run)] else [])
         + NumberedBinds(MaskFrom(Renumbered(sql[1..], n), Toggled(inside, sql[0])))
  {
    hide NumberedBinds, MaskFrom, Renumbered, Value, DigitRun;
    var rest := Renumbered(sql[1..], n);
    RenumberedStep(sql, n);
    var all := Renumbered(sql, n);
    assert all[0] == sql[0] && all[1..] == rest;
    MaskTail(all, inside);
    NumbersOfTail(MaskFrom(all, inside));
    if !inside && sql[0] == '$' {
      RunOfMask(rest);
      RunOfRenumbered(sql[1..], n);
    }
  }

  /** Which numbers any rewritten statement names outside its literals, position by position. */
  lemma {:induction false} OutsideReadsBack(sql: string, n: nat, inside: bool)
    ensures NumberedBinds(MaskFrom(Renumbered(sql, n), inside)) == ExpectedOutside(sql, n, inside)
    decreases |sql|
  {
    hide NumberedBinds, MaskFrom, Renumbered, Print, Value, DigitRun;
    if sql == "" {
      NothingOutside(n, inside);
    } else if sql[0] == '?' {
      BindReads(sql, n, inside);
      OutsideReadsBack(sql[1..], n + 1, inside);
    } else {
      OtherReads(sql, n, inside);
      OutsideReadsBack(sql[1..], n, Toggled(inside, sql[0]));
    }
  }

  lemma NothingOutside(n: nat, inside: bool)
    ensures NumberedBinds(MaskFrom(Renumbered("", n), inside)) == []
  {
  }

  // ---------------------------------------------------------------------------
  // When they are 1, 2, …, k
  // ---------------------------------------------------------------------------

  /** The numbers named are those of the `?` and of the `$n` outside literals. */
  lemma {:induction false} OutsideCount(sql: string, n: nat, inside: bool)
    ensures var m := MaskFrom(sql, inside);
      |ExpectedOutside(sql, n, inside)| == Questions(m) + |NumberedBinds(m)|
    ensures Questions(MaskFrom(sql, inside)) == 0 ==>
      ExpectedOutside(sql, n, inside) == NumberedBinds(MaskFrom(sql, inside))
    decreases |sql|
  {
    hide NumberedBinds, MaskFrom, Print, Value, DigitRun;
    var m := MaskFrom(sql, inside);
    if sql == "" {
      NothingMasked(inside);
    } else {
      MaskTail(sql, inside);
      NumbersOfTail(m);
      var next := if sql[0] == '?' then n + 1 else n;
      OutsideCount(sql[1..], next, Toggled(inside, sql[0]));
      if !inside {
        RunOfMask(sql[1..]);
      }
    }
  }

  lemma NothingMasked(inside: bool)
    ensures MaskFrom("", inside) == "" && NumberedBinds("") == []
  {
  }

  lemma {:induction false} NoneBelow(sql: string, n: nat, inside: bool)
    requires n > 0 && NumberedBinds(MaskFrom(sql, inside)) == []
    ensures forall e :: e in ExpectedOutside(sql, n, inside) ==> e >= n
    decreases |sql|
  {
    hide MaskFrom, Print, Value, NumberedBinds;
    if sql != "" {
      var rest, inside' := sql[1..], Toggled(inside, sql[0]);
      MaskTail(sql, inside);
      NumbersOfTail(MaskFrom(sql, inside));
      NoneBelow(rest, if sql[0] == '?' then n + 1 else n, inside');
      if !inside {
        RunOfMask(rest);
        AtLeastOwn(n, DigitRun(rest));
      }
    }
  }

  lemma AtLeastOwn(n: nat, run: string)
    requires AllDigits(run)
    ensures Value(Print(n) + run) >= n
  {
    ValueOfPrint(n);
    MoreDigits(Print(n), run);
  }

  /** A `?` inside a literal stands before one outside. */
  ghost predicate QuotedBefore(sql: string, m: string)
    requires |m| == |sql|
  {
    exists i, j :: 0 <= i < j < |sql| && sql[i] == '?' && m[i] != '?' && m[j] == '?'
  }

  lemma {:induction false} QuestionsIff(s: string)
    ensures Questions(s) > 0 <==> '?' in s
  {
    if '?' in s {
      SomeQuestion(s);
    } else {
      NoQuestionsNoChange(s, 0);
    }
  }

  lemma QuotedBeforeTail(sql: string, inside: bool)
    requires sql != ""
    ensures var m, rest := MaskFrom(sql, inside), MaskFrom(sql[1..], Toggled(inside, sql[0]));
      QuotedBefore(sql, m) <==> (inside && sql[0] == '?' && Questions(rest) > 0) || QuotedBefore(sql[1..], rest)
  {
    hide MaskFrom, Questions;
    var m, rest := MaskFrom(sql, inside), MaskFrom(sql[1..], Toggled(inside, sql[0]));
    MaskTail(sql, inside);
    QuestionsIff(rest);
    if inside && sql[0] == '?' && '?' in rest {
      var j :| 0 <= j < |rest| && rest[j] == '?';
      assert m[0] != '?' && m[j + 1] == '?';
    }
    if QuotedBefore(sql[1..], rest) {
      var i, j :| 0 <= i < j < |rest| && sql[1..][i] == '?' && rest[i] != '?' && rest[j] == '?';
      assert sql[i + 1] == '?' && m[i + 1] != '?' && m[j + 1] == '?';
    }
    if QuotedBefore(sql, m) {
      var i, j :| 0 <= i < j < |sql| && sql[i] == '?' && m[i] != '?' && m[j] == '?';
      assert rest[j - 1] == '?';
      if i > 0 {
        assert sql[1..][i - 1] == '?' && rest[i - 1] != '?';
      }
    }
  }

  lemma SameHead(e: nat, n: nat, more: seq<nat>, k: nat)
    ensures [e] + more == Count(n, k + 1) <==> e == n && more == Count(n + 1, k)
  {
    assert Count(n, k + 1) == [n] + Count(n + 1, k);
    assert ([e] + more)[1..] == more && ([n] + Count(n + 1, k))[1..] == Count(n + 1, k);
  }

  lemma {:induction false} OutsideCountsUpIff(sql: string, n: nat, inside: bool)
    requires n > 0
    ensures var m := MaskFrom(sql, inside);
      ExpectedOutside(sql, n, inside) == Count(n, Questions(m)) <==> Clear(m) && !QuotedBefore(sql, m)
    decreases |sql|
  {
    hide MaskFrom, Print, Value, Clear, DigitRun, QuotedBefore, NumberedBinds, Count, ExpectedOutside, Questions;
    var m := MaskFrom(sql, inside);
    if sql == "" {
      NothingQuoted(inside);
      NothingExpectedOutside(n, inside);
    } else {
      var rest, inside' := sql[1..], Toggled(inside, sql[0]);
      MaskTail(sql, inside);
      ClearTail(m);
      QuotedBeforeTail(sql, inside);
      OneMoreOutside(sql, n, inside);
      OutsideCountsUpIff(rest, if sql[0] == '?' then n + 1 else n, inside');
      if sql[0] == '?' && !inside {
        RunOfMask(rest);
        OwnNumber(n, DigitRun(rest));
        SameHead(Value(Print(n) + DigitRun(rest)), n, ExpectedOutside(rest, n + 1, inside'), Questions(m[1..]));
      } else if sql[0] == '?' {
        AfterQuoted(rest, n, inside');
      } else if !inside {
        RunOfMask(rest);
        OutsideCount(sql, n, inside);
        NumbersOfTail(m);
        CountLength(n, Questions(m));
      }
    }
  }

  lemma CountLength(n: nat, k: nat)
    ensures |Count(n, k)| == k
  {
  }

  lemma NothingExpectedOutside(n: nat, inside: bool)
    ensures ExpectedOutside("", n, inside) == [] == Count(n, Questions(""))
  {
  }

  lemma OneMoreOutside(sql: string, n: nat, inside: bool)
    requires sql != ""
    ensures var run := DigitRun(sql[1..]);
      var inside' := Toggled(inside, sql[0]);
      ExpectedOutside(sql, n, inside)
      == if sql[0] == '?' then
           (if inside then [] else [Value(Print(n) + run)]) + ExpectedOutside(sql[1..], n + 1, inside')
         else
           (if !inside && sql[0] == '$' && run != [] then [Value(run)] else [])
           + ExpectedOutside(sql[1..], n, inside')
    ensures Questions(MaskFrom(sql, inside))
         == (if sql[0] == '?' && !inside then 1 else 0) + Questions(MaskFrom(sql[1..], Toggled(inside, sql[0])))
  {
    hide DigitRun, Print, Value;
    MaskTail(sql, inside);
  }

  lemma NothingQuoted(inside: bool)
    ensures MaskFrom("", inside) == "" && Clear("") && !QuotedBefore("", MaskFrom("", inside))
  {
  }

  /** Once a number has gone to a literal, the `?` outside that follow cannot start from it. */
  lemma AfterQuoted(sql: string, n: nat, inside: bool)
    requires n > 0
    ensures var m := MaskFrom(sql, inside);
      ExpectedOutside(sql, n + 1, inside) == Count(n, Questions(m)) <==> Questions(m) == 0 && Clear(m)
  {
    hide MaskFrom, Clear, ExpectedOutside, NumberedBinds;
    var m, e := MaskFrom(sql, inside), ExpectedOutside(sql, n + 1, inside);
    OutsideCount(sql, n + 1, inside);
    CountLength(n, Questions(m));
    if Questions(m) == 0 {
      ClearOfNone(m);
    } else if NumberedBinds(m) == [] {
      NoneBelow(sql, n + 1, inside);
      assert e[0] in e && Count(n, Questions(m))[0] == n;
    }
  }

  /** Without a `?` it is the `$n` alone that are in the way. */
  lemma ClearOfNone(s: string)
    requires Questions(s) == 0
    ensures Clear(s) <==> NumberedBinds(s) == []
  {
    QuestionsIff(s);
    NamesNothingIff(s);
  }

  // ---------------------------------------------------------------------------
  // The gate
  // ---------------------------------------------------------------------------

  /** Outside its literals the rewritten statement names what it should: 1, 2, …, k for its `k` placeholders
    * there, and when there are none, what it named before. */
  ghost predicate RightlyNumbered(sql: string)
  {
    var m, after := Masked(sql), NumberedBinds(Masked(Renumbered(sql, 1)));
    after == if Questions(m) == 0 then NumberedBinds(m) else Count(1, Questions(m))
  }

  /** For every statement: the rewrite numbers it rightly if and only if it has no `?` outside literals, or
    * else names no `$n` there, has no digit right after such a `?`, and has no `?` inside a literal before
    * one outside. */
  lemma RightlyNumberedIff(sql: string)
    ensures RightlyNumbered(sql)
       <==> Questions(Masked(sql)) == 0 || (Clear(Masked(sql)) && !QuotedBefore(sql, Masked(sql)))
  {
    hide MaskFrom, Masked, Clear, NumberedBinds, QuotedBefore, ExpectedOutside;
    MaskedFrontToBack(sql);
    MaskedFrontToBack(Renumbered(sql, 1));
    OutsideReadsBack(sql, 1, false);
    OutsideCount(sql, 1, false);
    OutsideCountsUpIff(sql, 1, false);
  }

  /** A statement the gate lets through goes wrong in two ways and no other: a `?` inside a literal stands
    * before one outside and takes its number, or the `?` outside are all operators, which the gate
    * exempts, beside a `$n`. */
  lemma GateGoesWrongIff(sql: string)
    requires Clean(Masked(sql))
    ensures var m := Masked(sql);
      !RightlyNumbered(sql)
      <==> (NumberedBinds(m) == [] && QuotedBefore(sql, m))
           || (NumberedBinds(m) != [] && '?' in m && !AnyBind(m))
  {
    hide Masked, NumberedBinds, NumberedQuestion, RightlyNumbered, Clear;
    RightlyNumberedIff(sql);
    NoDigitAfterQuestion(Masked(sql));
    QuestionsIff(Masked(sql));
    if QuotedBefore(sql, Masked(sql)) {
      assert '?' in Masked(sql);
    }
  }

  /** So for statements whose every `?` outside literals is a bind, being let through and being rightly
    * numbered are the same but for the first way. */
  lemma GateIsSoundIff(sql: string)
    requires Clean(Masked(sql)) && AllBinds(Masked(sql))
    ensures RightlyNumbered(sql) <==> !QuotedBefore(sql, Masked(sql))
  {
    hide Masked, NumberedBinds, NumberedQuestion, RightlyNumbered, Clear;
    RightlyNumberedIff(sql);
    NoDigitAfterQuestion(Masked(sql));
    GateGoesWrongIff(sql);
    QuestionsIff(Masked(sql));
    var m := Masked(sql);
    if '?' in m {
      var i :| 0 <= i < |m| && m[i] == '?';
      assert IsBind(m, i);
    }
    if QuotedBefore(sql, m) {
      assert '?' in m;
    }
  }

  // ---------------------------------------------------------------------------
  // What becomes of the literals
  // ---------------------------------------------------------------------------

  /** The quotes of a statement and what stands inside them. */
  function Literals(s: string, inside: bool): string
    decreases |s|
  {
    if s == "" then ""
    else (if inside || s[0] == '\'' then [s[0]] else "") + Literals(s[1..], Toggled(inside, s[0]))
  }

  lemma {:induction false} LiteralsOfWord(word: string, s: string, inside: bool)
    requires NoQuote(word)
    ensures Literals(word + s, inside) == (if inside then word else "") + Literals(s, inside)
    decreases |word|
  {
    if word == "" {
      assert word + s == s;
    } else {
      assert word[0] in word && (word + s)[1..] == word[1..] + s && forall c :: c in word[1..] ==> c in word;
      LiteralsOfWord(word[1..], s, inside);
    }
  }

  /** A `?` inside a literal from here on. */
  predicate AnyQuoted(sql: string, inside: bool)
    decreases |sql|
  {
    sql != "" && ((inside && sql[0] == '?') || AnyQuoted(sql[1..], Toggled(inside, sql[0])))
  }

  lemma {:induction false} LiteralsAfter(sql: string, n: nat, inside: bool)
    ensures |Literals(Renumbered(sql, n), inside)| >= |Literals(sql, inside)|
    ensures AnyQuoted(sql, inside) ==> |Literals(Renumbered(sql, n), inside)| > |Literals(sql, inside)|
    ensures !AnyQuoted(sql, inside) ==> Literals(Renumbered(sql, n), inside) == Literals(sql, inside)
    decreases |sql|
  {
    hide Print, Renumbered;
    RenumberedNothing(n);
    if sql != "" {
      RenumberedStep(sql, n);
      if sql[0] == '?' {
        LiteralsAfter(sql[1..], n + 1, inside);
        DigitsHaveNoQuote(n);
        LiteralsOfWord("$" + Print(n), Renumbered(sql[1..], n + 1), inside);
      } else {
        LiteralsAfter(sql[1..], n, Toggled(inside, sql[0]));
        assert Renumbered(sql, n)[1..] == Renumbered(sql[1..], n);
      }
    }
  }

  lemma RenumberedNothing(n: nat)
    ensures Renumbered("", n) == ""
  {
  }

  lemma {:induction false} AnyQuotedIff(sql: string, inside: bool)
    ensures AnyQuoted(sql, inside)
       <==> exists i :: 0 <= i < |sql| && sql[i] == '?' && MaskFrom(sql, inside)[i] != '?'
    decreases |sql|
  {
    hide MaskFrom;
    if sql != "" {
      var m, rest, inside' := MaskFrom(sql, inside), sql[1..], Toggled(inside, sql[0]);
      MaskTail(sql, inside);
      AnyQuotedIff(rest, inside');
      if i :| 0 <= i < |rest| && rest[i] == '?' && MaskFrom(rest, inside')[i] != '?' {
        assert sql[i + 1] == '?' && m[i + 1] != '?';
      }
      if i :| 0 < i < |sql| && sql[i] == '?' && m[i] != '?' {
        assert rest[i - 1] == '?' && MaskFrom(rest, inside')[i - 1] != '?';
      }
    }
  }

  /** The rewrite leaves a statement's literals as they are if and only if no `?` stands inside one. */
  lemma LiteralsStayIff(sql: string)
    ensures Literals(Renumbered(sql, 1), false) == Literals(sql, false)
       <==> forall i :: 0 <= i < |sql| && sql[i] == '?' ==> Masked(sql)[i] == '?'
  {
    hide Literals, Renumbered, MaskFrom, Masked;
    MaskedFrontToBack(sql);
    LiteralsAfter(sql, 1, false);
    AnyQuotedIff(sql, false);
  }

  // ---------------------------------------------------------------------------
  // A statement the gate lets through
  // ---------------------------------------------------------------------------

  /** A question in a literal, then a bind: the gate sees the bind alone, and the rewrite makes it `$2`. */
  lemma QuotedQuestionShiftsBind()
    ensures var sql := "'?'?";
      && Clean(Masked(sql)) && AllBinds(Masked(sql)) && Questions(Masked(sql)) == 1
      && NumberedBinds(Masked(Renumbered(sql, 1))) == [2] && !RightlyNumbered(sql)
  {
    hide MaskFrom, Masked, Clean, AllBinds, NumberedBinds, Renumbered, ExpectedOutside;
    var sql := "'?'?";
    ShiftedMask();
    ShiftedIsClean();
    MaskedFrontToBack(sql);
    MaskedFrontToBack(Renumbered(sql, 1));
    OutsideReadsBack(sql, 1, false);
    ShiftedNumbers();
    assert Count(1, 1) == [1];
  }

  lemma ShiftedMask()
    ensures MaskFrom("'?'?", false) == "' '?" && Questions("' '?") == 1
  {
    var sql := "'?'?";
    assert sql[1..] == "?'?" && "?'?"[1..] == "'?" && "'?"[1..] == "?" && "?"[1..] == "";
    assert MaskFrom("?", false) == "?" && MaskFrom("'?", true) == "'?";
    assert MaskFrom("?'?", true) == " '?";
    assert "' '?"[1..] == " '?" && " '?"[1..] == "'?" && Questions("?") == 1;
    assert Questions("'?") == 1 && Questions(" '?") == 1;
  }

  lemma ShiftedIsClean()
    ensures Clean("' '?") && AllBinds("' '?")
  {
    hide NumberedBinds;
    var m := "' '?";
    assert m[4..] == "";
    assert forall i :: 0 <= i < |m| && m[i] == '?' ==> i == 3;
    assert !DigitAfterSpace("") && FirstNonBlank("") == "";
    NamesNothingIff(m);
  }

  lemma ShiftedNumbers()
    ensures ExpectedOutside("'?'?", 1, false) == [2]
  {
    hide Print, Value;
    var sql := "'?'?";
    assert sql[1..] == "?'?" && "?'?"[1..] == "'?" && "'?"[1..] == "?" && "?"[1..] == "";
    OwnNumber(2, "");
    assert DigitRun("") == "" && ExpectedOutside("?", 2, false) == [2];
    assert ExpectedOutside("'?", 2, true) == [2];
    assert ExpectedOutside("?'?", 1, true) == [2];
  }
}
