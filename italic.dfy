/**
 * `formatTextToItalic`: the four rewrite steps applied to the model's reply
 * in order (escape, pair, collapse, balance).
 */
module Italic {
  import opened Tags
  import opened Escaping
  import opened Pairing
  import opened Collapsing
  import opened Balancing

  /**
   * The reply formatter, one rewrite after the other. Text with no special
   * character, no backslash and no `<` gives none of the steps anything to
   * do, and comes back unchanged.
   */
  function FormatTextToItalic(input: string): (output: string)
    ensures (forall k :: 0 <= k < |input| ==>
               !Special(input[k]) && input[k] != '\\' && input[k] != '<') ==> output == input
  {
    var escaped := Escape(input);
    var paired := Pair(escaped);
    var collapsed := Collapse(paired);
    assert (forall k :: 0 <= k < |input| ==>
              !Special(input[k]) && input[k] != '\\' && input[k] != '<') ==> Balance(collapsed) == input by {
      if forall k :: 0 <= k < |input| ==> !Special(input[k]) && input[k] != '\\' && input[k] != '<' {
        EscapePlain(input);
        PairPlainPrefix(input, []);
        assert Tokenize([]) == [];
        assert input + [] == input;
        CollapsePlainPrefix(input, []);
        CountSkipsPlain(input, [], Open);
        CountSkipsPlain(input, [], Close);
      }
    }
    Balance(collapsed)
  }

  /**
   * What reaches the balancing step never has two adjacent opening tags, so
   * a surplus of two or more opening tags is never removed, and a surplus of
   * exactly one removes the first opening tag.
   */
  lemma FormatSurplusOpenings(input: string)
    ensures
      var collapsed := Collapse(Pair(Escape(input)));
      && NoAdjacentOpenings(collapsed)
      && (Count(collapsed, Open) >= Count(collapsed, Close) + 2 ==>
            FormatTextToItalic(input) == collapsed)
      && (Count(collapsed, Open) == Count(collapsed, Close) + 1 ==>
            exists i: nat ::
              && StartsAt(collapsed, i, Open)
              && (forall j :: 0 <= j < i ==> !StartsAt(collapsed, j, Open))
              && FormatTextToItalic(input) == collapsed[..i] + collapsed[i + 3..])
  {
    var collapsed := Collapse(Pair(Escape(input)));
    CollapseNoAdjacent(Pair(Escape(input)));
    if Count(collapsed, Open) > Count(collapsed, Close) {
      BalanceSurplusOpening(collapsed);
    }
  }

  /** The formatter's result, given the result of each of its steps. */
  lemma FormatBySteps(input: string, escaped: string, paired: string, collapsed: string, output: string)
    requires Escape(input) == escaped && Pair(escaped) == paired
    requires Collapse(paired) == collapsed && Balance(collapsed) == output
    ensures FormatTextToItalic(input) == output
  {
  }

  /**
   * Text none of the four steps touches: no special character, no
   * backslash, no `<` and no line terminator.
   */
  predicate Inert(t: string)
  {
    forall k :: 0 <= k < |t| ==>
      !Special(t[k]) && t[k] != '\\' && t[k] != '<' && !LineTerminator(t[k])
  }

  // Asterisks around inert text, as in `*bold*`. Each step of the pipeline
  // is one lemma; `FormatStarred` chains them.

  lemma StarredEscaped(t: string)
    requires Inert(t)
    ensures Escape(['*'] + (t + ['*'])) == ['\\'] + ((['*'] + t) + (['\\'] + ['*']))
  {
    EscapeSpecialFirst('*', t + ['*']);
    EscapePlainPrefix(t, ['*']);
    EscapeSpecialFirst('*', []);
    assert ['*'] + [] == ['*'];
    assert ['\\', '*'] + (t + ['\\', '*']) == ['\\'] + ((['*'] + t) + (['\\'] + ['*']));
  }

  lemma StarredPaired(t: string)
    requires Inert(t)
    ensures Pair(['\\'] + ((['*'] + t) + (['\\'] + ['*']))) == Open + ((['*'] + t) + (Close + ['*']))
  {
    var u := ['*'] + t;
    assert PlainLine(u) by {
      assert forall k :: 1 <= k < |u| ==> u[k] == t[k - 1];
    }
    PairLeadingMatch(u, ['*']);
    PairPlainStep(['*']);
    assert ['*'][1..] == [];
    assert Pair([]) == [];
  }

  lemma StarredCollapsed(t: string)
    requires Inert(t)
    ensures Collapse(Open + ((['*'] + t) + (Close + ['*']))) == Open + ((['*'] + t) + (Close + ['*']))
  {
    var u := ['*'] + t;
    assert forall k :: 1 <= k < |u| ==> u[k] == t[k - 1];
    var x := u + (Close + ['*']);
    assert !StartsAt(x, 0, Open) by { assert x[0] == '*'; }
    CollapseLoneOpening(x);
    CollapsePlainPrefix(u, Close + ['*']);
    CollapseClosing(['*']);
    CollapsePlainStep(['*']);
    assert ['*'][1..] == [];
  }

  lemma StarredBalanced(t: string)
    requires Inert(t)
    ensures Balance(Open + ((['*'] + t) + (Close + ['*']))) == Open + ((['*'] + t) + (Close + ['*']))
  {
    var u := ['*'] + t;
    assert forall k :: 1 <= k < |u| ==> u[k] == t[k - 1];
    var x := u + (Close + ['*']);
    assert Count(Open + x, Open) == 1 by {
      CountLeadingMatch(Open, x);
      CountSkipsPlain(u, Close + ['*'], Open);
      CountOpenSkipsClose(['*']);
    }
    assert Count(Open + x, Close) == 1 by {
      CountCloseSkipsOpen(x);
      CountSkipsPlain(u, Close + ['*'], Close);
      CountLeadingMatch(Close, ['*']);
    }
  }

  /**
   * Asterisks around inert text come back with the text wrapped in an
   * italic span that starts after the first asterisk and ends before the
   * second: the escape step puts a backslash in front of each asterisk, and
   * the pair step then takes those two backslashes as a match.
   */
  lemma FormatStarred(t: string)
    requires Inert(t)
    ensures FormatTextToItalic(['*'] + (t + ['*'])) == Open + ((['*'] + t) + (Close + ['*']))
  {
    var u := ['*'] + t;
    var escaped := ['\\'] + (u + (['\\'] + ['*']));
    var out := Open + (u + (Close + ['*']));
    StarredEscaped(t);
    StarredPaired(t);
    StarredCollapsed(t);
    StarredBalanced(t);
    FormatBySteps(['*'] + (t + ['*']), escaped, out, out, out);
  }

  // An already-escaped asterisk, as in `a \*hi\* b`: the backslash of the
  // input and the one the escape step inserts form an empty match.

  /** `\*` becomes a backslash, then the escaped asterisk. */
  lemma EscapedStarEscape(x: string)
    ensures Escape(['\\', '*'] + x) == ['\\', '\\', '*'] + Escape(x)
  {
    assert ['\\', '*'] + x == ['\\'] + (['*'] + x);
    EscapePlainPrefix(['\\'], ['*'] + x);
    EscapeSpecialFirst('*', x);
  }

  /** Two backslashes in a row are an empty match. */
  lemma PairEmptyMatch(x: string)
    ensures Pair(['\\', '\\', '*'] + x) == Open + (Close + Pair(['*'] + x))
  {
    assert ['\\', '\\', '*'] + x == ['\\'] + ([] + (['\\'] + (['*'] + x)));
    PairLeadingMatch([], ['*'] + x);
    assert [] + (Close + Pair(['*'] + x)) == Close + Pair(['*'] + x);
  }

  /** An empty italic span is copied through the collapse step. */
  lemma CollapseEmptySpan(x: string)
    ensures Collapse(Open + (Close + x)) == Open + (Close + Collapse(x))
  {
    assert !StartsAt(Close + x, 0, Open) by { assert (Close + x)[1] == '/'; }
    CollapseLoneOpening(Close + x);
    CollapseClosing(x);
  }

  /** An empty italic span holds one tag of each kind. */
  lemma CountEmptySpan(x: string)
    ensures Count(Open + (Close + x), Open) == 1 + Count(x, Open)
    ensures Count(Open + (Close + x), Close) == 1 + Count(x, Close)
  {
    CountLeadingMatch(Open, Close + x);
    CountOpenSkipsClose(x);
    CountCloseSkipsOpen(Close + x);
    CountLeadingMatch(Close, x);
  }

  /** An asterisk followed by inert text. */
  lemma StarInert(t: string)
    requires Inert(t)
    ensures forall k :: 0 <= k < |['*'] + t| ==>
      (['*'] + t)[k] != '\\' && (['*'] + t)[k] != '<'
  {
    assert forall k :: 1 <= k < |['*'] + t| ==> (['*'] + t)[k] == t[k - 1];
  }

  lemma EscapedStarsEscaped(a: string, t: string, b: string)
    requires Inert(a) && Inert(t) && Inert(b)
    ensures Escape(a + (['\\', '*'] + (t + (['\\', '*'] + b))))
         == a + (['\\', '\\', '*'] + (t + (['\\', '\\', '*'] + b)))
  {
    var tail := ['\\', '*'] + b;
    var mid := t + tail;
    EscapePlainPrefix(a, ['\\', '*'] + mid);
    EscapedStarEscape(mid);
    EscapePlainPrefix(t, tail);
    EscapedStarEscape(b);
    EscapePlain(b);
  }

  lemma EscapedStarsPaired(a: string, t: string, b: string)
    requires Inert(a) && Inert(t) && Inert(b)
    ensures Pair(a + (['\\', '\\', '*'] + (t + (['\\', '\\', '*'] + b))))
         == a + (Open + (Close + (['*'] + (t + (Open + (Close + (['*'] + b)))))))
  {
    var tail := ['\\', '\\', '*'] + b;
    PairPlainPrefix(a, ['\\', '\\', '*'] + (t + tail));
    PairEmptyMatch(t + tail);
    StarInert(t);
    ConcatAssoc(['*'], t, tail);
    PairPlainPrefix(['*'] + t, tail);
    ConcatAssoc(['*'], t, Pair(tail));
    PairEmptyMatch(b);
    StarInert(b);
    PairPlainPrefix(['*'] + b, []);
    assert ['*'] + b + [] == ['*'] + b;
    assert Pair([]) == [];
  }

  lemma EscapedStarsCollapsed(a: string, t: string, b: string)
    requires Inert(a) && Inert(t) && Inert(b)
    ensures
      var out := a + (Open + (Close + (['*'] + (t + (Open + (Close + (['*'] + b)))))));
      Collapse(out) == out
  {
    var second := Open + (Close + (['*'] + b));
    CollapsePlainPrefix(a, Open + (Close + (['*'] + (t + second))));
    CollapseEmptySpan(['*'] + (t + second));
    StarInert(t);
    ConcatAssoc(['*'], t, second);
    CollapsePlainPrefix(['*'] + t, second);
    CollapseEmptySpan(['*'] + b);
    StarInert(b);
    CollapsePlainPrefix(['*'] + b, []);
    assert ['*'] + b + [] == ['*'] + b;
    assert Collapse([]) == [];
  }

  lemma EscapedStarsBalanced(a: string, t: string, b: string)
    requires Inert(a) && Inert(t) && Inert(b)
    ensures
      var out := a + (Open + (Close + (['*'] + (t + (Open + (Close + (['*'] + b)))))));
      Balance(out) == out
  {
    var second := Open + (Close + (['*'] + b));
    var first := Open + (Close + (['*'] + (t + second)));
    var out := a + first;
    StarInert(t);
    StarInert(b);
    ConcatAssoc(['*'], t, second);
    assert Count(out, Open) == 2 by {
      CountSkipsPlain(a, first, Open);
      CountEmptySpan(['*'] + (t + second));
      CountSkipsPlain(['*'] + t, second, Open);
      CountEmptySpan(['*'] + b);
      CountSkipsPlain(['*'] + b, [], Open);
      assert ['*'] + b + [] == ['*'] + b;
    }
    assert Count(out, Close) == 2 by {
      CountSkipsPlain(a, first, Close);
      CountEmptySpan(['*'] + (t + second));
      CountSkipsPlain(['*'] + t, second, Close);
      CountEmptySpan(['*'] + b);
      CountSkipsPlain(['*'] + b, [], Close);
      assert ['*'] + b + [] == ['*'] + b;
    }
  }

  /**
   * Already-escaped asterisks, as in `a \*hi\* b`: each backslash of the
   * input is closed at once by the backslash the escape step inserts after
   * it, so the result holds two empty italic spans, and the asterisks and
   * the text between them stay outside any span.
   */
  lemma FormatEscapedStars(a: string, t: string, b: string)
    requires Inert(a) && Inert(t) && Inert(b)
    ensures FormatTextToItalic(a + (['\\', '*'] + (t + (['\\', '*'] + b))))
         == a + (Open + (Close + (['*'] + (t + (Open + (Close + (['*'] + b)))))))
  {
    var escaped := a + (['\\', '\\', '*'] + (t + (['\\', '\\', '*'] + b)));
    var out := a + (Open + (Close + (['*'] + (t + (Open + (Close + (['*'] + b)))))));
    EscapedStarsEscaped(a, t, b);
    EscapedStarsPaired(a, t, b);
    EscapedStarsCollapsed(a, t, b);
    EscapedStarsBalanced(a, t, b);
    FormatBySteps(a + (['\\', '*'] + (t + (['\\', '*'] + b))), escaped, out, out, out);
  }

  // Three opening tags and one closing tag, none adjacent, as in
  // `<i>a<i>b\c\`: the balancing step leaves them all in place.

  /** Inert text that is not empty, or a tail that does not begin with an opening tag, keeps one out of the front. */
  lemma NoLeadingOpening(x: string, y: string)
    requires Inert(x)
    requires x != [] || !StartsAt(y, 0, Open)
    ensures !StartsAt(x + y, 0, Open)
  {
    if x != [] {
      assert (x + y)[0] == x[0];
    } else {
      assert x + y == y;
    }
  }

  lemma SurplusEscaped(a: string, b: string, c: string)
    requires Inert(a) && Inert(b) && Inert(c)
    ensures
      var input := Open + (a + (Open + (b + (['\\'] + (c + ['\\'])))));
      Escape(input) == input
  {
    var x := ['\\'] + (c + ['\\']);
    assert forall k :: 0 <= k < |Open| ==> !Special(Open[k]);
    EscapePlainPrefix(Open, a + (Open + (b + x)));
    EscapePlainPrefix(a, Open + (b + x));
    EscapePlainPrefix(Open, b + x);
    EscapePlainPrefix(b, x);
    EscapePlainPrefix(['\\'], c + ['\\']);
    EscapePlainPrefix(c, ['\\']);
    EscapePlain(['\\']);
  }

  lemma SurplusPaired(a: string, b: string, c: string)
    requires Inert(a) && Inert(b) && Inert(c)
    ensures Pair(Open + (a + (Open + (b + (['\\'] + (c + ['\\']))))))
         == Open + (a + (Open + (b + (Open + (c + Close)))))
  {
    var x := ['\\'] + (c + ['\\']);
    assert forall k :: 0 <= k < |Open| ==> Open[k] != '\\';
    PairPlainPrefix(Open, a + (Open + (b + x)));
    PairPlainPrefix(a, Open + (b + x));
    PairPlainPrefix(Open, b + x);
    PairPlainPrefix(b, x);
    assert PlainLine(c);
    assert x == ['\\'] + (c + (['\\'] + []));
    PairLeadingMatch(c, []);
    assert Pair([]) == [];
    assert Close + [] == Close;
  }

  lemma SurplusCollapsed(a: string, b: string, c: string)
    requires Inert(a) && Inert(b) && Inert(c) && a != [] && b != []
    ensures
      var out := Open + (a + (Open + (b + (Open + (c + Close)))));
      Collapse(out) == out
  {
    var third := Open + (c + Close);
    var second := Open + (b + third);
    NoLeadingOpening(a, second);
    CollapseLoneOpening(a + second);
    CollapsePlainPrefix(a, second);
    NoLeadingOpening(b, third);
    CollapseLoneOpening(b + third);
    CollapsePlainPrefix(b, third);
    assert !StartsAt(Close, 0, Open) by { assert Close[1] == '/'; }
    NoLeadingOpening(c, Close);
    CollapseLoneOpening(c + Close);
    CollapsePlainPrefix(c, Close);
    CollapseClosing([]);
    assert Close + [] == Close;
    assert Collapse([]) == [];
  }

  lemma SurplusCounted(a: string, b: string, c: string)
    requires Inert(a) && Inert(b) && Inert(c)
    ensures
      var out := Open + (a + (Open + (b + (Open + (c + Close)))));
      Count(out, Open) == 3 && Count(out, Close) == 1
  {
    var third := Open + (c + Close);
    var second := Open + (b + third);
    var out := Open + (a + second);
    assert Close + [] == Close;
    assert Count(out, Open) == 3 by {
      CountLeadingMatch(Open, a + second);
      CountSkipsPlain(a, second, Open);
      CountLeadingMatch(Open, b + third);
      CountSkipsPlain(b, third, Open);
      CountLeadingMatch(Open, c + Close);
      CountSkipsPlain(c, Close, Open);
      CountOpenSkipsClose([]);
    }
    assert Count(out, Close) == 1 by {
      CountCloseSkipsOpen(a + second);
      CountSkipsPlain(a, second, Close);
      CountCloseSkipsOpen(b + third);
      CountSkipsPlain(b, third, Close);
      CountCloseSkipsOpen(c + Close);
      CountSkipsPlain(c, Close, Close);
      CountLeadingMatch(Close, []);
    }
  }

  /**
   * Three opening tags and one closing tag reach the balancing step, none of
   * them adjacent: the pattern for a run of two opening tags finds nothing,
   * so all three opening tags are kept and the result stays unbalanced.
   */
  lemma FormatKeepsSurplusOpenings(a: string, b: string, c: string)
    requires Inert(a) && Inert(b) && Inert(c) && a != [] && b != []
    ensures
      var out := Open + (a + (Open + (b + (Open + (c + Close)))));
      && FormatTextToItalic(Open + (a + (Open + (b + (['\\'] + (c + ['\\'])))))) == out
      && Count(out, Open) == Count(out, Close) + 2
  {
    var input := Open + (a + (Open + (b + (['\\'] + (c + ['\\'])))));
    var out := Open + (a + (Open + (b + (Open + (c + Close)))));
    SurplusEscaped(a, b, c);
    SurplusPaired(a, b, c);
    SurplusCollapsed(a, b, c);
    SurplusCounted(a, b, c);
    CollapseNoAdjacent(out);
    BalanceSurplusOpening(out);
    FormatBySteps(input, input, out, out, out);
  }
}
