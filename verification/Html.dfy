/** `html.rs`: a document built by appending, every text and attribute value escaped; and a tokenizer
  * for what it builds, after sections 13.1.2.3 and 13.1.4 of the HTML Standard.
  */
module Html {
  import opened Wrappers

  // ---------------------------------------------------------------------------
  // Escaping
  // ---------------------------------------------------------------------------

  function EscapeChar(c: char): (e: string)
    ensures |e| > 0
  {
    if c == '&' then "&amp;"
    else if c == '<' then "&lt;"
    else if c == '>' then "&gt;"
    else if c == '"' then "&quot;"
    else if c == '\'' then "&#39;"
    else [c]
  }

  function Escape(s: string): string
  {
    if s == "" then "" else EscapeChar(s[0]) + Escape(s[1..])
  }

  lemma EscapeStep(c: char, s: string)
    ensures Escape([c] + s) == EscapeChar(c) + Escape(s)
  {
    hide EscapeChar;
    assert ([c] + s)[1..] == s;
  }

  /** The five characters that are escaped, each as its own reference. */
  lemma EscapesAre()
    ensures Escape("&<>\"'") == "&amp;" + ("&lt;" + ("&gt;" + ("&quot;" + "&#39;")))
  {
    hide Escape;
    EscapeStep('&', "<>\"'");
    EscapeStep('<', ">\"'");
    EscapeStep('>', "\"'");
    EscapeStep('"', "'");
    EscapeStep('\'', "");
    assert "&<>\"'" == ['&'] + "<>\"'" && "<>\"'" == ['<'] + ">\"'" && ">\"'" == ['>'] + "\"'";
    assert "\"'" == ['"'] + "'" && "'" == ['\''] + "" && Escape("") == "" by { NothingToEscape(); }
    assert "&#39;" + "" == "&#39;";
  }

  lemma NothingToEscape()
    ensures Escape("") == ""
  {
  }

  /** All others stand. */
  lemma OthersStand(c: char)
    requires c !in "&<>\"'"
    ensures Escape([c]) == [c]
  {
    var all := "&<>\"'";
    assert all[0] == '&' && all[1] == '<' && all[2] == '>' && all[3] == '"' && all[4] == '\'';
    assert [c][1..] == "";
  }

  method EscapeText(input: string) returns (out: string)
    ensures out == Escape(input)
  {
    out := "";
    for i := 0 to |input|
      invariant out + Escape(input[i..]) == Escape(input)
    {
      assert input[i..][1..] == input[i + 1..];
      out := out + EscapeChar(input[i]);
    }
  }

  /** The character reference at the front, as the character it stands for and its length. */
  function Reference(s: string): Option<(char, nat)>
  {
    if "&amp;" <= s then Some(('&', 5))
    else if "&lt;" <= s then Some(('<', 4))
    else if "&gt;" <= s then Some(('>', 4))
    else if "&quot;" <= s then Some(('"', 6))
    else if "&#39;" <= s then Some(('\'', 5))
    else None
  }

  /** Character references resolved; anything else stands for itself. */
  function Unescape(s: string): string
    decreases |s|
  {
    if s == "" then ""
    else
      match Reference(s)
      case Some((c, n)) => [c] + Unescape(s[n..])
      case None => [s[0]] + Unescape(s[1..])
  }

  lemma {:induction false} EscapeConcat(a: string, b: string)
    ensures Escape(a + b) == Escape(a) + Escape(b)
  {
    hide EscapeChar;
    if a == "" {
      assert a + b == b;
    } else {
      assert (a + b)[1..] == a[1..] + b;
      EscapeConcat(a[1..], b);
    }
  }

  predicate Markup(c: char)
  {
    c == '<' || c == '>' || c == '"' || c == '\''
  }

  lemma ReferenceReads(c: char, s: string)
    ensures var e := EscapeChar(c);
      Reference(e + s) == if c == '&' || Markup(c) then Some((c, |e|)) else None
  {
    var t := EscapeChar(c) + s;
    assert EscapeChar(c) <= t && t[0] == EscapeChar(c)[0];
    if c == '&' || Markup(c) {
      assert t[1] == EscapeChar(c)[1];
      assert "&amp;"[1] == 'a' && "&lt;"[1] == 'l' && "&gt;"[1] == 'g' && "&quot;"[1] == 'q' && "&#39;"[1] == '#';
    } else {
      assert "&amp;"[0] == '&' && "&lt;"[0] == '&' && "&gt;"[0] == '&' && "&quot;"[0] == '&' && "&#39;"[0] == '&';
    }
  }

  lemma EscapedCharReads(c: char, s: string)
    ensures Unescape(EscapeChar(c) + s) == [c] + Unescape(s)
  {
    hide Reference;
    var e := EscapeChar(c);
    ReferenceReads(c, s);
    assert (e + s)[|e|..] == s && (e + s)[0] == e[0];
  }

  /** Unescaping takes an escaped text back to what it was, whatever follows it. */
  lemma {:induction false} UnescapeEscaped(value: string, s: string)
    ensures Unescape(Escape(value) + s) == value + Unescape(s)
    decreases |value|
  {
    hide EscapeChar, Unescape;
    if value == "" {
      assert Escape(value) + s == s && value + Unescape(s) == Unescape(s);
    } else {
      var rest := Escape(value[1..]) + s;
      assert Escape(value) + s == EscapeChar(value[0]) + rest;
      EscapedCharReads(value[0], rest);
      UnescapeEscaped(value[1..], s);
      assert [value[0]] + (value[1..] + Unescape(s)) == value + Unescape(s);
    }
  }

  lemma EscapeRoundTrip(value: string)
    ensures Unescape(Escape(value)) == value
  {
    UnescapeEscaped(value, "");
    assert Escape(value) + "" == Escape(value) && value + "" == value;
  }

  /** No markup survives escaping. */
  lemma {:induction false} EscapedIsInert(value: string)
    ensures forall c :: c in Escape(value) ==> !Markup(c)
  {
    if value != "" {
      EscapedIsInert(value[1..]);
      assert forall c :: c in EscapeChar(value[0]) ==> !Markup(c);
    }
  }

  // ---------------------------------------------------------------------------
  // Building
  // ---------------------------------------------------------------------------

  type Attrs = seq<(string, string)>

  /** The calls a page is built with, all but `raw`. */
  datatype Op =
    | Text(value: string)
    | Open(name: string, attrs: Attrs)
    | OpenOpt(name: string, optional: seq<(string, Option<string>)>)
    | Void(name: string, attrs: Attrs)
    | Close(name: string)

  function WriteAttr(attr: (string, string)): string
  {
    " " + attr.0 + "=\"" + Escape(attr.1) + "\""
  }

  function WriteAttrs(attrs: Attrs): string
  {
    if attrs == [] then "" else WriteAttr(attrs[0]) + WriteAttrs(attrs[1..])
  }

  /** The attributes that have a value. */
  function Present(optional: seq<(string, Option<string>)>): Attrs
  {
    if optional == [] then []
    else
      (match optional[0].1
       case Some(value) => [(optional[0].0, value)]
       case None => [])
      + Present(optional[1..])
  }

  function WriteTag(name: string, attrs: Attrs): string
  {
    "<" + name + WriteAttrs(attrs) + ">"
  }

  function Write(op: Op): string
  {
    match op
    case Text(value) => Escape(value)
    case Open(name, attrs) => WriteTag(name, attrs)
    case OpenOpt(name, optional) => WriteTag(name, Present(optional))
    case Void(name, attrs) => WriteTag(name, attrs)
    case Close(name) => "</" + name + ">"
  }

  function WriteAll(ops: seq<Op>): string
  {
    if ops == [] then "" else Write(ops[0]) + WriteAll(ops[1..])
  }

  lemma PresentStep(optional: seq<(string, Option<string>)>, i: nat)
    requires i < |optional|
    ensures var rest := WriteAttrs(Present(optional[i + 1..]));
      match optional[i].1
      case Some(value) => WriteAttrs(Present(optional[i..])) == WriteAttr((optional[i].0, value)) + rest
      case None => WriteAttrs(Present(optional[i..])) == rest
  {
    assert optional[i..][1..] == optional[i + 1..];
    var rest := Present(optional[i + 1..]);
    if optional[i].1.Some? {
      assert ([(optional[i].0, optional[i].1.value)] + rest)[1..] == rest;
    } else {
      assert Present(optional[i..]) == rest;
    }
  }

  lemma PresentEnds(optional: seq<(string, Option<string>)>)
    ensures WriteAttrs(Present(optional[|optional|..])) == ""
  {
  }

  /** The document under construction: every call but `raw` appends what `Write` says. */
  class Page {
    var buffer: string

    constructor ()
      ensures buffer == ""
    {
      buffer := "";
    }

    method Text(value: string)
      modifies this
      ensures buffer == old(buffer) + Write(Op.Text(value))
    {
      var escaped := EscapeText(value);
      buffer := buffer + escaped;
    }

    method Raw(markup: string)
      modifies this
      ensures buffer == old(buffer) + markup
    {
      buffer := buffer + markup;
    }

    method Open(name: string, attrs: Attrs)
      modifies this
      ensures buffer == old(buffer) + Write(Op.Open(name, attrs))
    {
      Tag(name, attrs);
    }

    method OpenOpt(name: string, optional: seq<(string, Option<string>)>)
      modifies this
      ensures buffer == old(buffer) + Write(Op.OpenOpt(name, optional))
    {
      hide WriteAttrs, WriteAttr, Present;
      ghost var start := buffer;
      WriteOpen(name);
      ghost var named := buffer;
      assert optional[0..] == optional;
      for i := 0 to |optional|
        invariant buffer + WriteAttrs(Present(optional[i..])) == named + WriteAttrs(Present(optional))
      {
        PresentStep(optional, i);
        if optional[i].1.Some? {
          WriteAttribute(optional[i].0, optional[i].1.value);
        }
      }
      PresentEnds(optional);
      buffer := buffer + ">";
      assert start + ("<" + name + WriteAttrs(Present(optional)) + ">") == named + WriteAttrs(Present(optional)) + ">";
    }

    method Void(name: string, attrs: Attrs)
      modifies this
      ensures buffer == old(buffer) + Write(Op.Void(name, attrs))
    {
      Tag(name, attrs);
    }

    method Close(name: string)
      modifies this
      ensures buffer == old(buffer) + Write(Op.Close(name))
    {
      buffer := buffer + "</";
      buffer := buffer + name;
      buffer := buffer + ">";
    }

    method Tag(name: string, attrs: Attrs)
      modifies this
      ensures buffer == old(buffer) + WriteTag(name, attrs)
    {
      ghost var start := buffer;
      WriteOpen(name);
      ghost var named := buffer;
      for i := 0 to |attrs|
        invariant buffer + WriteAttrs(attrs[i..]) == named + WriteAttrs(attrs)
      {
        assert attrs[i..][1..] == attrs[i + 1..];
        WriteAttribute(attrs[i].0, attrs[i].1);
      }
      assert WriteAttrs(attrs[|attrs|..]) == "" && buffer + "" == buffer;
      buffer := buffer + ">";
      assert start + ("<" + name + WriteAttrs(attrs) + ">") == named + WriteAttrs(attrs) + ">";
    }

    method WriteOpen(name: string)
      modifies this
      ensures buffer == old(buffer) + ("<" + name)
    {
      buffer := buffer + "<";
      buffer := buffer + name;
    }

    method WriteAttribute(name: string, value: string)
      modifies this
      ensures buffer == old(buffer) + WriteAttr((name, value))
    {
      var escaped := EscapeText(value);
      buffer := buffer + " ";
      buffer := buffer + name;
      buffer := buffer + "=\"";
      buffer := buffer + escaped;
      buffer := buffer + "\"";
    }
  }

  // ---------------------------------------------------------------------------
  // Reading it back
  // ---------------------------------------------------------------------------

  datatype Token = Start(name: string, attrs: Attrs) | End(name: string) | Characters(data: string)

  /** The longest front part without any of `stops`. */
  function Run(s: string, stops: set<char>): (r: string)
    ensures |r| <= |s| && s == r + s[|r|..]
    ensures |r| < |s| ==> s[|r|] in stops
  {
    if s == "" || s[0] in stops then "" else [s[0]] + Run(s[1..], stops)
  }

  const TAG_STOPS: set<char> := {' ', '>', '=', '/'}

  /** A value in quotes, read from just after its name. */
  function ReadValue(after: string): (r: Option<(string, string)>)
    ensures r.Some? ==> |r.value.1| < |after|
  {
    if !("=\"" <= after) then None
    else
      var value := Run(after[2..], {'"'});
      var tail := after[2 + |value|..];
      if tail == "" then None else Some((Unescape(value), tail[1..]))
  }

  /** Attributes in double quotes up to the `>`, and what follows it. */
  function ReadAttrs(s: string): (r: Option<(Attrs, string)>)
    ensures r.Some? ==> |r.value.1| < |s|
    decreases |s|
  {
    if s == "" then None
    else if s[0] == '>' then Some(([], s[1..]))
    else if s[0] != ' ' then None
    else
      var name := Run(s[1..], TAG_STOPS);
      match ReadValue(s[1 + |name|..])
      case None => None
      case Some((value, tail)) =>
        match ReadAttrs(tail)
        case None => None
        case Some((attrs, rest)) => Some(([(name, value)] + attrs, rest))
  }

  function ReadTag(s: string): (r: Option<(Token, string)>)
    ensures r.Some? ==> |r.value.1| < |s|
  {
    if s != "" && s[0] == '/' then
      var name := Run(s[1..], TAG_STOPS);
      var after := s[1 + |name|..];
      if after != "" && after[0] == '>' then Some((End(name), after[1..])) else None
    else
      var name := Run(s, TAG_STOPS);
      match ReadAttrs(s[|name|..])
      case None => None
      case Some((attrs, rest)) => Some((Start(name, attrs), rest))
  }

  function Tokenize(s: string): Option<seq<Token>>
    decreases |s|
  {
    if s == "" then Some([])
    else if s[0] == '<' then
      match ReadTag(s[1..])
      case None => None
      case Some((token, rest)) => Cons(token, Tokenize(rest))
    else
      var text := Run(s, {'<'});
      Cons(Characters(Unescape(text)), Tokenize(s[|text|..]))
  }

  function Cons(token: Token, rest: Option<seq<Token>>): Option<seq<Token>>
  {
    match rest
    case None => None
    case Some(tokens) => Some([token] + tokens)
  }

  // ---------------------------------------------------------------------------
  // What a page should read as
  // ---------------------------------------------------------------------------

  /** Text joins the text after it, and empty text leaves no trace. */
  function WithText(value: string, tokens: seq<Token>): seq<Token>
  {
    if value == "" then tokens
    else if tokens != [] && tokens[0].Characters? then [Characters(value + tokens[0].data)] + tokens[1..]
    else [Characters(value)] + tokens
  }

  function Tokens(ops: seq<Op>): seq<Token>
  {
    if ops == [] then []
    else
      var rest := Tokens(ops[1..]);
      match ops[0]
      case Text(value) => WithText(value, rest)
      case Open(name, attrs) => [Start(name, attrs)] + rest
      case OpenOpt(name, optional) => [Start(name, Present(optional))] + rest
      case Void(name, attrs) => [Start(name, attrs)] + rest
      case Close(name) => [End(name)] + rest
  }

  predicate PlainName(name: string)
  {
    && name != "" && 'a' <= name[0] <= 'z'
    && forall c :: c in name ==> 'a' <= c <= 'z' || '0' <= c <= '9' || c == '-' || c == '_' || c == ':'
  }

  predicate PlainAttrs(attrs: Attrs)
  {
    forall k :: 0 <= k < |attrs| ==> PlainName(attrs[k].0)
  }

  predicate PlainOp(op: Op)
  {
    match op
    case Text(_) => true
    case Open(name, attrs) => PlainName(name) && PlainAttrs(attrs)
    case OpenOpt(name, optional) => PlainName(name) && PlainAttrs(Present(optional))
    case Void(name, attrs) => PlainName(name) && PlainAttrs(attrs)
    case Close(name) => PlainName(name)
  }

  lemma {:induction false} RunConcat(a: string, b: string, stops: set<char>)
    requires forall c :: c in a ==> c !in stops
    ensures Run(a + b, stops) == a + Run(b, stops)
  {
    if a == "" {
      assert a + b == b;
    } else {
      assert (a + b)[1..] == a[1..] + b;
      RunConcat(a[1..], b, stops);
    }
  }

  lemma RunTo(a: string, b: string, stops: set<char>)
    requires forall c :: c in a ==> c !in stops
    requires b != "" && b[0] in stops
    ensures Run(a + b, stops) == a && (a + b)[|a|..] == b
  {
    RunConcat(a, b, stops);
  }

  lemma ValueReads(value: string, s: string)
    ensures ReadValue("=\"" + (Escape(value) + ("\"" + s))) == Some((value, s))
  {
    hide Escape, Unescape;
    var tail := "\"" + s;
    var after := "=\"" + (Escape(value) + tail);
    assert "=\"" <= after && after[2..] == Escape(value) + tail;
    EscapedIsInert(value);
    RunTo(Escape(value), tail, {'"'});
    assert after[2 + |Escape(value)|..] == tail && tail[1..] == s;
    EscapeRoundTrip(value);
  }

  lemma OneAttrReads(attr: (string, string), s: string)
    requires PlainName(attr.0)
    ensures ReadAttrs(WriteAttr(attr) + s)
         == match ReadAttrs(s)
            case None => None
            case Some((attrs, rest)) => Some(([attr] + attrs, rest))
  {
    hide Escape, ReadValue, PlainName;
    var (name, value) := attr;
    var after := "=\"" + (Escape(value) + ("\"" + s));
    var all := WriteAttr(attr) + s;
    assert all == " " + (name + after) && all[1..] == name + after;
    NameHasNoStop(name);
    RunTo(name, after, TAG_STOPS);
    assert all[1 + |name|..] == after;
    ValueReads(value, s);
  }

  lemma NameHasNoStop(name: string)
    requires PlainName(name)
    ensures forall c :: c in name ==> c !in TAG_STOPS
  {
  }

  lemma {:induction false} AttrsRead(attrs: Attrs, s: string)
    requires PlainAttrs(attrs)
    ensures ReadAttrs(WriteAttrs(attrs) + (">" + s)) == Some((attrs, s))
    decreases |attrs|
  {
    hide PlainName, WriteAttr;
    if attrs == [] {
      assert WriteAttrs(attrs) + (">" + s) == ">" + s && (">" + s)[1..] == s;
    } else {
      var rest := WriteAttrs(attrs[1..]) + (">" + s);
      assert WriteAttrs(attrs) + (">" + s) == WriteAttr(attrs[0]) + rest;
      OneAttrReads(attrs[0], rest);
      AttrsRead(attrs[1..], s);
      assert [attrs[0]] + attrs[1..] == attrs;
    }
  }

  lemma WrittenAttrsStop(attrs: Attrs, s: string)
    ensures var t := WriteAttrs(attrs) + (">" + s);
      t != "" && t[0] in TAG_STOPS
  {
    if attrs != [] {
      assert WriteAttr(attrs[0])[0] == ' ';
    }
  }

  lemma TagReads(name: string, attrs: Attrs, s: string)
    requires PlainName(name) && PlainAttrs(attrs)
    ensures Tokenize(WriteTag(name, attrs) + s) == Cons(Start(name, attrs), Tokenize(s))
  {
    hide ReadAttrs, WriteAttrs;
    var tail := WriteAttrs(attrs) + (">" + s);
    var all := WriteTag(name, attrs) + s;
    assert all == "<" + (name + tail) && all[1..] == name + tail;
    NameHasNoStop(name);
    WrittenAttrsStop(attrs, s);
    RunTo(name, tail, TAG_STOPS);
    AttrsRead(attrs, s);
    assert (name + tail)[0] == name[0] != '/';
  }

  lemma EndTagReads(name: string, s: string)
    requires PlainName(name)
    ensures ReadTag("/" + (name + (">" + s))) == Some((End(name), s))
  {
    hide ReadAttrs, PlainName, Run;
    var tail := ">" + s;
    var tag := "/" + (name + tail);
    assert tag[1..] == name + tail;
    NameHasNoStop(name);
    RunTo(name, tail, TAG_STOPS);
    assert tag[1 + |name|..] == tail && tail[1..] == s;
  }

  lemma CloseReads(name: string, s: string)
    requires PlainName(name)
    ensures Tokenize("</" + name + ">" + s) == Cons(End(name), Tokenize(s))
  {
    hide ReadTag, PlainName;
    EndTagReads(name, s);
    var all := "</" + name + ">" + s;
    assert all[1..] == "/" + (name + (">" + s));
  }

  lemma EscapedStart(value: string)
    requires value != ""
    ensures Escape(value) != "" && Escape(value)[0] != '<'
  {
  }

  lemma TextReads(value: string, s: string)
    ensures Tokenize(Escape(value) + s)
         == match Tokenize(s)
            case None => None
            case Some(tokens) => Some(WithText(value, tokens))
  {
    hide Escape, Unescape, ReadTag;
    if value == "" {
      assert Escape(value) == "" by { NothingEscaped(); }
      assert Escape(value) + s == s;
    } else {
      var all := Escape(value) + s;
      EscapedStart(value);
      EscapedIsInert(value);
      RunConcat(Escape(value), s, {'<'});
      var run := Run(s, {'<'});
      assert all[|Escape(value) + run|..] == s[|run|..];
      UnescapeEscaped(value, run);
      if s == "" || s[0] == '<' {
        assert run == "" && s[|run|..] == s;
        assert Unescape("") == "" by { NothingEscaped(); }
        assert value + "" == value;
        FirstIsNoText(s);
      }
    }
  }

  lemma NothingEscaped()
    ensures Escape("") == "" && Unescape("") == ""
  {
  }

  lemma FirstIsNoText(s: string)
    requires s == "" || s[0] == '<'
    ensures Tokenize(s).Some? && Tokenize(s).value != [] ==> !Tokenize(s).value[0].Characters?
  {
  }

  /** A page built with plain names and without `raw` reads back as exactly the elements, attribute values
    * and texts it was built from, neighbouring texts joined, whatever characters they hold. */
  lemma {:induction false} PageReadsBack(ops: seq<Op>)
    requires forall k :: 0 <= k < |ops| ==> PlainOp(ops[k])
    ensures Tokenize(WriteAll(ops)) == Some(Tokens(ops))
  {
    hide Tokenize, WriteTag, Escape;
    if ops == [] {
      assert Tokenize("") == Some([]) by { NothingTokenized(); }
    } else {
      var s := WriteAll(ops[1..]);
      PageReadsBack(ops[1..]);
      assert PlainOp(ops[0]);
      match ops[0]
      case Text(value) => TextReads(value, s);
      case Open(name, attrs) => TagReads(name, attrs, s);
      case OpenOpt(name, optional) => TagReads(name, Present(optional), s);
      case Void(name, attrs) => TagReads(name, attrs, s);
      case Close(name) => CloseReads(name, s);
    }
  }

  lemma NothingTokenized()
    ensures Tokenize("") == Some([])
  {
  }
}
