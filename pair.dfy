/**
 * Step 2 of the formatter: the global replace of `\\(.*?)\\` by `<i>$1</i>`.
 * The lazy `.*?` cannot cross a line terminator, so a backslash is closed by
 * the nearest later backslash on the same line; a backslash with no such
 * partner is left alone and the search goes on at the next character.
 */
module Pairing {
  import opened Options
  import opened Tags

  /** The characters JavaScript's `.` does not match. */
  predicate LineTerminator(c: char)
  {
    c == '\n' || c == '\r' || c == '\U{2028}' || c == '\U{2029}'
  }

  /** Where the line starting at the front of `t` ends: its first line terminator, or `|t|`. */
  function LineEnd(t: string): (r: nat)
    ensures r <= |t|
    ensures r < |t| ==> LineTerminator(t[r])
    ensures forall k :: 0 <= k < r ==> !LineTerminator(t[k])
  {
    if t == [] || LineTerminator(t[0]) then 0 else 1 + LineEnd(t[1..])
  }

  /**
   * Where the lazy `(.*?)\\` stops in `t`, the text right after an opening
   * backslash: the first backslash, provided it comes before the end of the
   * line; otherwise there is no match.
   */
  function CloseIndex(t: string): (r: Option<nat>)
    ensures r.Some? ==> r.value < LineEnd(t) && t[r.value] == '\\'
    ensures r.Some? ==> forall k :: 0 <= k < r.value ==> t[k] != '\\'
    ensures r.None? ==> forall k :: 0 <= k < LineEnd(t) ==> t[k] != '\\'
  {
    if t == [] || LineTerminator(t[0]) then None
    else if t[0] == '\\' then Some(0)
    else
      match CloseIndex(t[1..])
      case Some(j) => Some(j + 1)
      case None => None
  }

  /** What the scan of the pair step sees: a character it passes over, or one match. */
  datatype Piece = Lit(c: char) | Span(content: string)

  /** The text of the input a piece was read from. */
  function PieceSource(p: Piece): string
  {
    match p
    case Lit(c) => [c]
    case Span(t) => ['\\'] + t + ['\\']
  }

  /** The text of the input the pieces were read from. */
  function Source(ps: seq<Piece>): string
  {
    if ps == [] then [] else PieceSource(ps[0]) + Source(ps[1..])
  }

  /** What the replace writes for a piece. */
  function PieceRender(p: Piece): string
  {
    match p
    case Lit(c) => [c]
    case Span(t) => Open + t + Close
  }

  /** What the replace writes for the pieces. */
  function Render(ps: seq<Piece>): string
  {
    if ps == [] then [] else PieceRender(ps[0]) + Render(ps[1..])
  }

  /** The content of a match: neither a backslash nor a line terminator. */
  predicate PlainLine(t: string)
  {
    forall k :: 0 <= k < |t| ==> t[k] != '\\' && !LineTerminator(t[k])
  }

  /**
   * The scan of the global regular expression over `s`, split into pieces.
   * The scan accounts for the whole input: reading the pieces back gives `s`.
   */
  function Tokenize(s: string): (ps: seq<Piece>)
    decreases |s|
    ensures Source(ps) == s
  {
    if s == [] then []
    else if s[0] == '\\' && CloseIndex(s[1..]).Some? then
      var j := CloseIndex(s[1..]).value;
      var rest := Tokenize(s[j + 2..]);
      SourceCons(Span(s[1..j + 1]), rest);
      MatchSource(s, j);
      [Span(s[1..j + 1])] + rest
    else
      var rest := Tokenize(s[1..]);
      SourceCons(Lit(s[0]), rest);
      LitSource(s);
      [Lit(s[0])] + rest
  }

  /** A backslash with a closing partner on its line starts a match. */
  lemma TokenizeMatchStep(s: string)
    requires s != [] && s[0] == '\\' && CloseIndex(s[1..]).Some?
    ensures CloseIndex(s[1..]).value + 2 <= |s|
    ensures Tokenize(s) == [Span(s[1..CloseIndex(s[1..]).value + 1])]
      + Tokenize(s[CloseIndex(s[1..]).value + 2..])
  {
  }

  /** Any other character is passed over. */
  lemma TokenizeLitStep(s: string)
    requires s != [] && !(s[0] == '\\' && CloseIndex(s[1..]).Some?)
    ensures Tokenize(s) == [Lit(s[0])] + Tokenize(s[1..])
  {
  }

  /** A character read from the front of `s`, followed by the rest of `s`, is `s`. */
  lemma LitSource(s: string)
    requires s != []
    ensures PieceSource(Lit(s[0])) + s[1..] == s
  {
    assert s == [s[0]] + s[1..];
  }

  /** A match read from the front of `s`, followed by the rest of `s`, is `s`. */
  lemma MatchSource(s: string, j: nat)
    requires j + 2 <= |s| && s[0] == '\\' && s[j + 1] == '\\'
    ensures PieceSource(Span(s[1..j + 1])) + s[j + 2..] == s
  {
    assert s[..j + 2] == ['\\'] + s[1..j + 1] + ['\\'];
    assert s == s[..j + 2] + s[j + 2..];
  }

  /** Reading back works piece by piece. */
  lemma SourceCons(p: Piece, ps: seq<Piece>)
    ensures Source([p] + ps) == PieceSource(p) + Source(ps)
  {
    assert ([p] + ps)[1..] == ps;
  }

  /** Every match among the pieces holds plain text of one line. */
  predicate SpansPlain(ps: seq<Piece>)
  {
    forall k :: 0 <= k < |ps| && ps[k].Span? ==> PlainLine(ps[k].content)
  }

  /** Putting a piece with plain content in front keeps the matches plain. */
  lemma SpansPlainCons(p: Piece, ps: seq<Piece>)
    requires p.Span? ==> PlainLine(p.content)
    requires SpansPlain(ps)
    ensures SpansPlain([p] + ps)
  {
    assert forall k :: 1 <= k < |[p] + ps| ==> ([p] + ps)[k] == ps[k - 1];
  }

  /** The text a match closes over is plain text of one line. */
  lemma MatchContentPlain(t: string)
    requires CloseIndex(t).Some?
    ensures PlainLine(t[..CloseIndex(t).value])
  {
  }

  /** Every match holds plain text of one line. */
  lemma {:induction false} TokenizeSpansPlain(s: string)
    ensures forall k :: 0 <= k < |Tokenize(s)| && Tokenize(s)[k].Span? ==>
      PlainLine(Tokenize(s)[k].content)
    decreases |s|
  {
    if s == [] {
    } else if s[0] == '\\' && CloseIndex(s[1..]).Some? {
      var j := CloseIndex(s[1..]).value;
      TokenizeMatchStep(s);
      TokenizeSpansPlain(s[j + 2..]);
      MatchContentPlain(s[1..]);
      assert s[1..][..j] == s[1..j + 1];
      SpansPlainCons(Span(s[1..j + 1]), Tokenize(s[j + 2..]));
    } else {
      TokenizeLitStep(s);
      TokenizeSpansPlain(s[1..]);
      SpansPlainCons(Lit(s[0]), Tokenize(s[1..]));
    }
    assert SpansPlain(Tokenize(s));
  }

  /** Every backslash the scan passes over has no closing backslash after it on its line. */
  lemma {:induction false} TokenizeSkipsUnclosed(s: string)
    ensures forall k :: 0 <= k < |Tokenize(s)| && Tokenize(s)[k] == Lit('\\') ==>
      CloseIndex(Source(Tokenize(s)[k + 1..])).None?
    decreases |s|
  {
    var ps := Tokenize(s);
    if s == [] {
    } else if s[0] == '\\' && CloseIndex(s[1..]).Some? {
      var j := CloseIndex(s[1..]).value;
      var rest := Tokenize(s[j + 2..]);
      TokenizeSkipsUnclosed(s[j + 2..]);
      assert ps == [Span(s[1..j + 1])] + rest;
      assert forall k :: 1 <= k < |ps| ==> ps[k] == rest[k - 1] && ps[k + 1..] == rest[k..];
    } else {
      var rest := Tokenize(s[1..]);
      TokenizeSkipsUnclosed(s[1..]);
      assert ps == [Lit(s[0])] + rest;
      assert ps[1..] == rest;
      assert forall k :: 1 <= k < |ps| ==> ps[k] == rest[k - 1] && ps[k + 1..] == rest[k..];
    }
  }

  /** How many of the pieces are matches. */
  function SpanCount(ps: seq<Piece>): nat
  {
    if ps == [] then 0 else (if ps[0].Span? then 1 else 0) + SpanCount(ps[1..])
  }

  /**
   * Each match is written five characters longer than it was read: its two
   * backslashes become `<i>` and `</i>`. Every other piece keeps its length.
   */
  lemma {:induction false} RenderLength(ps: seq<Piece>)
    ensures |Render(ps)| == |Source(ps)| + 5 * SpanCount(ps)
  {
    if ps != [] {
      RenderLength(ps[1..]);
      RenderCons(ps[0], ps[1..]);
      SourceCons(ps[0], ps[1..]);
      assert [ps[0]] + ps[1..] == ps;
    }
  }

  /**
   * The pair step: every match becomes `<i>` + its content + `</i>`, and
   * everything else is copied, so nothing is ever shortened.
   */
  function Pair(s: string): (r: string)
    ensures |r| >= |s|
  {
    RenderLength(Tokenize(s));
    Render(Tokenize(s))
  }

  /** The pair step writes five more characters for each match it finds. */
  lemma PairLength(s: string)
    ensures |Pair(s)| == |s| + 5 * SpanCount(Tokenize(s))
  {
    RenderLength(Tokenize(s));
  }

  /** What the replace writes for the first piece comes first. */
  lemma RenderCons(p: Piece, ps: seq<Piece>)
    ensures Render([p] + ps) == PieceRender(p) + Render(ps)
  {
    assert ([p] + ps)[1..] == ps;
  }

  /** Rendering works piece by piece. */
  lemma {:induction false} RenderAppend(a: seq<Piece>, b: seq<Piece>)
    ensures Render(a + b) == Render(a) + Render(b)
  {
    if a != [] {
      assert (a + b)[0] == a[0];
      assert (a + b)[1..] == a[1..] + b;
      RenderAppend(a[1..], b);
      ConcatAssoc(PieceRender(a[0]), Render(a[1..]), Render(b));
    } else {
      assert a + b == b;
    }
  }

  /** A character other than a backslash is copied by the pair step. */
  lemma PairPlainStep(s: string)
    requires s != [] && s[0] != '\\'
    ensures Pair(s) == [s[0]] + Pair(s[1..])
  {
    TokenizeLitStep(s);
    RenderCons(Lit(s[0]), Tokenize(s[1..]));
  }

  /** Text before the first backslash is copied through the pair step unchanged. */
  lemma {:induction false} PairPlainPrefix(a: string, b: string)
    requires forall k :: 0 <= k < |a| ==> a[k] != '\\'
    ensures Pair(a + b) == a + Pair(b)
    decreases |a|
  {
    if a != [] {
      var s := a + b;
      assert s[0] == a[0] && s[1..] == a[1..] + b;
      PairPlainStep(s);
      PairPlainPrefix(a[1..], b);
      ConcatAssoc([a[0]], a[1..], Pair(b));
      assert a == [a[0]] + a[1..];
    } else {
      assert a + b == b;
    }
  }

  /** After a line of plain text, the next backslash is the closing one. */
  lemma {:induction false} CloseIndexAfterPlainLine(t: string, b: string)
    requires PlainLine(t)
    ensures CloseIndex(t + (['\\'] + b)) == Some(|t|)
    decreases |t|
  {
    var u := t + (['\\'] + b);
    if t == [] {
      assert u[0] == '\\';
    } else {
      assert u[0] == t[0] && u[1..] == t[1..] + (['\\'] + b);
      CloseIndexAfterPlainLine(t[1..], b);
    }
  }

  /**
   * A backslash, one line of plain text and a backslash are one match: the
   * pair step writes them as `<i>` + the text + `</i>` and carries on after.
   */
  lemma PairLeadingMatch(t: string, b: string)
    requires PlainLine(t)
    ensures Pair(['\\'] + (t + (['\\'] + b))) == Open + (t + (Close + Pair(b)))
  {
    var s := ['\\'] + (t + (['\\'] + b));
    assert s[1..] == t + (['\\'] + b);
    CloseIndexAfterPlainLine(t, b);
    assert s[1..|t| + 1] == t;
    assert s[|t| + 2..] == b;
    TokenizeMatchStep(s);
    RenderCons(Span(t), Tokenize(b));
    ConcatAssoc(Open, t, Close);
    ConcatAssoc(Open, t + Close, Pair(b));
    ConcatAssoc(t, Close, Pair(b));
  }
}
