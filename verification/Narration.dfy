/** `chunk_text` of `narration.rs`: pieces no longer than a byte limit, cut at natural places. */
module Narration {
  import opened Bytes
  import opened Utf8

  // ---------------------------------------------------------------------------
  // Character boundaries
  // ---------------------------------------------------------------------------

  /** `str::is_char_boundary`: an end of the bytes, or a byte that does not continue a character. */
  predicate IsCharBoundary(b: seq<Byte>, i: nat)
  {
    i == 0 || i == |b| || (i < |b| && !IsContinuation(b[i]))
  }

  /** How many characters take the first `n` bytes, when `n` is a boundary. */
  function CharsBefore(s: string, n: nat): (k: nat)
    requires n <= Len(s) && IsCharBoundary(Encode(s), n)
    ensures k <= |s| && Len(s[..k]) == n
  {
    if n == 0 then 0 else
    BoundaryAfterFirst(s, n);
    var k := 1 + CharsBefore(s[1..], n - |CharBytes(s[0])|);
    assert s[..k][1..] == s[1..][..k - 1];
    k
  }

  /** No boundary falls inside the first character, and later ones are boundaries of the rest. */
  lemma BoundaryAfterFirst(s: string, n: nat)
    requires 0 < n <= Len(s) && IsCharBoundary(Encode(s), n)
    ensures |CharBytes(s[0])| <= n
    ensures IsCharBoundary(Encode(s[1..]), n - |CharBytes(s[0])|)
  {
    hide CharBytes;
    var w := |CharBytes(s[0])|;
    assert forall i :: 0 <= i < w ==> Encode(s)[i] == CharBytes(s[0])[i];
    assert forall i :: w <= i < |Encode(s)| ==> Encode(s)[i] == Encode(s[1..])[i - w];
  }

  lemma {:induction false} PrefixIsBoundary(s: string, k: nat)
    requires k <= |s|
    ensures Len(s[..k]) <= Len(s) && IsCharBoundary(Encode(s), Len(s[..k]))
  {
    assert s == s[..k] + s[k..];
    EncodeConcat(s[..k], s[k..]);
    if k < |s| {
      assert Encode(s)[Len(s[..k])] == Encode(s[k..])[0] == CharBytes(s[k])[0];
    }
  }

  /** The byte test finds exactly the offsets between characters. */
  lemma BoundaryIff(s: string, n: nat)
    requires n <= Len(s)
    ensures IsCharBoundary(Encode(s), n) <==> exists k :: 0 <= k <= |s| && Len(s[..k]) == n
  {
    if IsCharBoundary(Encode(s), n) {
      var k := CharsBefore(s, n);
    }
    forall k | 0 <= k <= |s| && Len(s[..k]) == n
      ensures IsCharBoundary(Encode(s), n)
    {
      PrefixIsBoundary(s, k);
    }
  }

  // ---------------------------------------------------------------------------
  // Where a cut goes
  // ---------------------------------------------------------------------------

  predicate EndsSentence(c: char)
  {
    c == '.' || c == '!' || c == '?' || c == '\n'
  }

  /** `char::is_whitespace`: the characters with the Unicode White_Space property. */
  predicate IsWhitespace(c: char)
  {
    var n := c as int;
    0x09 <= n <= 0x0D || n == 0x20 || n == 0x85 || n == 0xA0 || n == 0x1680 || 0x2000 <= n <= 0x200A
    || n == 0x2028 || n == 0x2029 || n == 0x202F || n == 0x205F || n == 0x3000
  }

  /** Just past the last character of `s` that `p` accepts, or 0. */
  function AfterLast(s: string, p: char -> bool): (k: nat)
    ensures k <= |s|
    ensures 0 < k ==> p(s[k - 1])
    ensures forall i :: k <= i < |s| ==> !p(s[i])
  {
    if s == "" then 0
    else if p(s[|s| - 1]) then |s|
    else AfterLast(s[..|s| - 1], p)
  }

  /** `w` characters fit the limit, and no more do. */
  ghost predicate IsWindow(rest: string, limit: nat, w: nat)
  {
    && w <= |rest| && Len(rest[..w]) <= limit
    && (w < |rest| ==> limit < Len(rest[..w + 1]))
  }

  /** `k` is just past the last character of the window that `p` accepts. */
  ghost predicate IsAfterLast(rest: string, w: nat, p: char -> bool, k: nat)
    requires w <= |rest|
  {
    0 < k <= w && p(rest[k - 1]) && forall i :: k <= i < w ==> !p(rest[i])
  }

  ghost predicate Occurs(rest: string, w: nat, p: char -> bool)
    requires w <= |rest|
  {
    exists i :: 0 <= i < w && p(rest[i])
  }

  /** The last sentence end in the window, else the last whitespace, else the window's edge; and one
    * whole character when not even one fits. */
  ghost predicate IsCutIn(rest: string, w: nat, k: nat)
    requires w <= |rest|
  {
    if Occurs(rest, w, EndsSentence) then IsAfterLast(rest, w, EndsSentence, k)
    else if Occurs(rest, w, IsWhitespace) then IsAfterLast(rest, w, IsWhitespace, k)
    else k == (if w == 0 then 1 else w)
  }

  ghost predicate IsCut(rest: string, limit: nat, k: nat)
  {
    0 < k <= |rest| && exists w: nat :: IsWindow(rest, limit, w) && IsCutIn(rest, w, k)
  }

  /** Spelled out: a window with a full stop, an exclamation or question mark or a line feed in it is cut just
    * past the last of them; one without, past its last white space; and one without either, at its edge. */
  lemma CutIs(rest: string, limit: nat, w: nat, k: nat)
    requires IsWindow(rest, limit, w) && IsCutIn(rest, w, k)
    ensures var ends := ".!?\n";
      if exists i :: 0 <= i < w && rest[i] in ends
      then 0 < k <= w && rest[k - 1] in ends && forall i :: k <= i < w ==> rest[i] !in ends
      else if exists i :: 0 <= i < w && IsWhitespace(rest[i])
      then 0 < k <= w && IsWhitespace(rest[k - 1]) && forall i :: k <= i < w ==> !IsWhitespace(rest[i])
      else k == if w == 0 then 1 else w
  {
    forall c
      ensures EndsSentence(c) <==> c in ".!?\n"
    {
    }
    if i :| 0 <= i < w && rest[i] in ".!?\n" {
      assert EndsSentence(rest[i]);
    } else if i :| 0 <= i < w && IsWhitespace(rest[i]) {
      assert Occurs(rest, w, IsWhitespace);
    }
  }

  /** What the chunks of a text are. */
  ghost predicate Chunked(text: string, limit: nat, chunks: seq<string>)
    decreases |chunks|
  {
    if Len(text) <= limit then chunks == (if text == "" then [] else [text])
    else
      && chunks != []
      && chunks[0] <= text
      && IsCut(text, limit, |chunks[0]|)
      && Chunked(text[|chunks[0]|..], limit, chunks[1..])
  }

  function Concat(chunks: seq<string>): string
  {
    if chunks == [] then "" else chunks[0] + Concat(chunks[1..])
  }

  // ---------------------------------------------------------------------------
  // What that means
  // ---------------------------------------------------------------------------

  lemma {:induction false} LenMonotone(s: string, j: nat, k: nat)
    requires j <= k <= |s|
    ensures Len(s[..j]) <= Len(s[..k])
    ensures j < k ==> Len(s[..j]) < Len(s[..k])
  {
    assert s[..k] == s[..j] + s[j..k];
    EncodeConcat(s[..j], s[j..k]);
  }

  lemma WindowUnique(rest: string, limit: nat, v: nat, w: nat)
    requires IsWindow(rest, limit, v) && IsWindow(rest, limit, w)
    ensures v == w
  {
    if v < w {
      LenMonotone(rest, v + 1, w);
    } else if w < v {
      LenMonotone(rest, w + 1, v);
    }
  }

  /** A cut piece is never empty, and stays within the limit unless it is one wider character. */
  lemma CutBound(rest: string, limit: nat, k: nat)
    requires IsCut(rest, limit, k)
    ensures 0 < k <= |rest| && (Len(rest[..k]) <= limit || (k == 1 && limit < Len(rest[..1])))
  {
    var w: nat :| IsWindow(rest, limit, w) && IsCutIn(rest, w, k);
    if k <= w {
      LenMonotone(rest, k, w);
    }
  }

  lemma CutInUnique(rest: string, w: nat, j: nat, k: nat)
    requires w <= |rest| && IsCutIn(rest, w, j) && IsCutIn(rest, w, k)
    ensures j == k
  {
    hide EndsSentence, IsWhitespace, Occurs;
  }

  lemma CutUnique(rest: string, limit: nat, j: nat, k: nat)
    requires IsCut(rest, limit, j) && IsCut(rest, limit, k)
    ensures j == k
  {
    hide IsCutIn;
    var v: nat :| IsWindow(rest, limit, v) && IsCutIn(rest, v, j);
    var w: nat :| IsWindow(rest, limit, w) && IsCutIn(rest, w, k);
    WindowUnique(rest, limit, v, w);
    CutInUnique(rest, w, j, k);
  }

  lemma ChunkedUnfolds(text: string, limit: nat, chunks: seq<string>)
    requires Chunked(text, limit, chunks)
    ensures Len(text) <= limit ==> chunks == if text == "" then [] else [text]
    ensures Len(text) > limit ==>
      && chunks != [] && chunks[0] <= text && IsCut(text, limit, |chunks[0]|)
      && Chunked(text[|chunks[0]|..], limit, chunks[1..])
  {
    hide IsCut, Len;
  }

  lemma OneMoreChunk(text: string, limit: nat, k: nat, more: seq<string>)
    requires 0 < k <= |text| && (Len(text[..k]) <= limit || k == 1)
    requires Concat(more) == text[k..]
    requires forall c :: c in more ==> c != "" && (Len(c) <= limit || |c| == 1)
    ensures var chunks := [text[..k]] + more;
      Concat(chunks) == text && forall c :: c in chunks ==> c != "" && (Len(c) <= limit || |c| == 1)
  {
    hide Len;
    assert ([text[..k]] + more)[1..] == more && text == text[..k] + text[k..];
  }

  /** Joined up, the chunks are the text; none is empty; each fits, or is one character too wide to. */
  lemma {:induction false} ChunksCover(text: string, limit: nat, chunks: seq<string>)
    requires Chunked(text, limit, chunks)
    ensures Concat(chunks) == text
    ensures forall c :: c in chunks ==> c != "" && (Len(c) <= limit || |c| == 1)
  {
    hide Len, IsCut, Chunked, Concat;
    ChunkedUnfolds(text, limit, chunks);
    if Len(text) > limit {
      var k := |chunks[0]|;
      CutBound(text, limit, k);
      ChunksCover(text[k..], limit, chunks[1..]);
      OneMoreChunk(text, limit, k, chunks[1..]);
      assert chunks[0] == text[..k];
      assert chunks == [text[..k]] + chunks[1..];
    } else {
      WholeChunk(text);
    }
  }

  lemma WholeChunk(text: string)
    ensures Concat([text]) == text && Concat([]) == ""
  {
    assert [text][1..] == [];
  }

  /** The chunking is the only one with those cuts. */
  lemma {:induction false} ChunkingUnique(text: string, limit: nat, xs: seq<string>, ys: seq<string>)
    requires Chunked(text, limit, xs) && Chunked(text, limit, ys)
    ensures xs == ys
  {
    hide IsCut;
    if Len(text) > limit {
      assert IsCut(text, limit, |xs[0]|) && IsCut(text, limit, |ys[0]|);
      CutUnique(text, limit, |xs[0]|, |ys[0]|);
      ChunkingUnique(text[|xs[0]|..], limit, xs[1..], ys[1..]);
      assert xs[0] == text[..|xs[0]|] == ys[0];
      assert xs == [xs[0]] + xs[1..] && ys == [ys[0]] + ys[1..];
    } else if text == "" {
      assert xs == ys == [];
    } else {
      assert xs == ys == [text];
    }
  }

  lemma {:induction false} PieceOfConcat(chunks: seq<string>, c: string, x: char)
    requires c in chunks && x in c
    ensures x in Concat(chunks)
  {
    if c != chunks[0] {
      PieceOfConcat(chunks[1..], c, x);
    }
  }

  lemma {:induction false} ConcatPiece(chunks: seq<string>, x: char)
    requires x in Concat(chunks)
    ensures exists c :: c in chunks && x in c
  {
    if x !in chunks[0] {
      ConcatPiece(chunks[1..], x);
      var c :| c in chunks[1..] && x in c;
      assert c in chunks;
    } else {
      assert chunks[0] in chunks;
    }
  }

  lemma {:induction false} CharFits(c: string, x: char)
    requires x in c
    ensures |CharBytes(x)| <= Len(c)
  {
    if x != c[0] {
      CharFits(c[1..], x);
    }
  }

  lemma OneChar(c: string)
    requires |c| == 1
    ensures Len(c) == |CharBytes(c[0])|
  {
    assert c[1..] == "";
  }

  /** The documented bound, every chunk within the limit, holds exactly for texts with no character
    * wider than the limit. */
  lemma AllWithinLimitIff(text: string, limit: nat, chunks: seq<string>)
    requires Chunked(text, limit, chunks)
    ensures (forall c :: c in chunks ==> Len(c) <= limit) <==> (forall x :: x in text ==> |CharBytes(x)| <= limit)
  {
    ChunksCover(text, limit, chunks);
    if forall c :: c in chunks ==> Len(c) <= limit {
      forall x | x in text
        ensures |CharBytes(x)| <= limit
      {
        ConcatPiece(chunks, x);
        var c :| c in chunks && x in c;
        CharFits(c, x);
      }
    }
    if forall x :: x in text ==> |CharBytes(x)| <= limit {
      forall c | c in chunks
        ensures Len(c) <= limit
      {
        if Len(c) > limit {
          OneChar(c);
          PieceOfConcat(chunks, c, c[0]);
        }
      }
    }
  }

  // ---------------------------------------------------------------------------
  // The loop
  // ---------------------------------------------------------------------------

  /** Back from the limit to the boundary at or before it. */
  method WindowLen(rest: string, limit: nat) returns (n: nat)
    requires limit < Len(rest)
    ensures n <= limit && IsCharBoundary(Encode(rest), n)
    ensures forall i :: n < i <= limit ==> !IsCharBoundary(Encode(rest), i)
  {
    n := limit;
    while !IsCharBoundary(Encode(rest), n)
      invariant n <= limit
      decreases n
      invariant forall i :: n < i <= limit ==> !IsCharBoundary(Encode(rest), i)
    {
      n := n - 1;
    }
  }

  /** How many characters of `rest` the next chunk takes. */
  method SplitAt(rest: string, limit: nat) returns (k: nat)
    requires limit < Len(rest)
    ensures k <= |rest| && IsCut(rest, limit, k)
  {
    hide EndsSentence, IsWhitespace, CharBytes;
    var windowLen := WindowLen(rest, limit);
    var w := CharsBefore(rest, windowLen);
    assert IsWindow(rest, limit, w) by {
      if w < |rest| && Len(rest[..w + 1]) <= limit {
        LenMonotone(rest, w, w + 1);
        PrefixIsBoundary(rest, w + 1);
      }
    }
    assert rest[..|rest|] == rest;
    var window := rest[..w];
    assert forall i :: 0 <= i < w ==> rest[i] == window[i];
    k := AfterLast(window, EndsSentence);
    if k == 0 {
      k := AfterLast(window, IsWhitespace);
    }
    if k == 0 {
      k := if windowLen == 0 then 1 else w;
    }
  }

  /** Putting a cut piece in front of the rest's chunks chunks the whole. */
  lemma ChunkedCons(rest: string, limit: nat, k: nat, more: seq<string>)
    requires Len(rest) > limit && k <= |rest| && IsCut(rest, limit, k) && Chunked(rest[k..], limit, more)
    ensures Chunked(rest, limit, [rest[..k]] + more)
  {
    hide IsCut, Len;
    assert ([rest[..k]] + more)[1..] == more;
  }

  method ChunkText(text: string, limit: nat) returns (chunks: seq<string>)
    ensures Chunked(text, limit, chunks)
    ensures Concat(chunks) == text
    ensures forall c :: c in chunks ==> c != "" && (Len(c) <= limit || |c| == 1)
  {
    hide IsCut, Len, Chunked;
    chunks := [];
    var rest := text;
    assert forall more: seq<string> :: chunks + more == more;
    while Len(rest) > limit
      // However the rest is chunked, the chunks so far followed by those chunk the text.
      invariant forall more :: Chunked(rest, limit, more) ==> Chunked(text, limit, chunks + more)
      decreases |rest|
    {
      var k := SplitAt(rest, limit);
      CutInside(rest, limit, k);
      forall more | Chunked(rest[k..], limit, more)
        ensures Chunked(text, limit, (chunks + [rest[..k]]) + more)
      {
        ChunkedCons(rest, limit, k, more);
        assert (chunks + [rest[..k]]) + more == chunks + ([rest[..k]] + more);
      }
      chunks := chunks + [rest[..k]];
      rest := rest[k..];
    }
    ghost var last := if rest == "" then [] else [rest];
    ChunkedShort(rest, limit);
    if rest != "" {
      chunks := chunks + [rest];
    } else {
      assert chunks + [] == chunks;
    }
    ChunksCover(text, limit, chunks);
  }

  lemma CutInside(rest: string, limit: nat, k: nat)
    requires IsCut(rest, limit, k)
    ensures 0 < k <= |rest|
  {
  }

  lemma ChunkedShort(rest: string, limit: nat)
    requires Len(rest) <= limit
    ensures Chunked(rest, limit, if rest == "" then [] else [rest])
  {
  }
}
