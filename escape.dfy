/**
 * Step 1 of the formatter: the global replace of `([*_`[\]])` by `\$1`,
 * which puts one backslash in front of every character the display markup
 * treats specially. A backslash already in the text is not one of them.
 */
module Escaping {
  import opened Tags

  /** The characters of the escape step's class: `*`, `_`, a backtick, `[` and `]`. */
  predicate Special(c: char)
  {
    c == '*' || c == '_' || c == '`' || c == '[' || c == ']'
  }

  /** How many characters of `s` are special. */
  function SpecialCount(s: string): nat
  {
    if s == [] then 0 else (if Special(s[0]) then 1 else 0) + SpecialCount(s[1..])
  }

  /** The escape step, one character at a time. */
  function Escape(s: string): (r: string)
    ensures |r| == |s| + SpecialCount(s)
    ensures forall i :: 0 <= i < |r| && Special(r[i]) ==> 0 < i && r[i - 1] == '\\'
  {
    if s == [] then []
    else
      var head := if Special(s[0]) then ['\\', s[0]] else [s[0]];
      var r := head + Escape(s[1..]);
      assert forall i :: |head| <= i < |r| ==> r[i] == Escape(s[1..])[i - |head|];
      r
  }

  /**
   * The inverse of the escape step: a backslash that stands directly in front
   * of a special character is dropped; everything else is kept.
   */
  function Unescape(s: string): string
  {
    if s == [] then []
    else if |s| >= 2 && s[0] == '\\' && Special(s[1]) then [s[1]] + Unescape(s[2..])
    else [s[0]] + Unescape(s[1..])
  }

  /**
   * Removing the inserted backslashes gives the input back: the escape step
   * adds only backslashes in front of special characters, and keeps every
   * character of the input, existing backslashes included, in order.
   */
  lemma {:induction false} UnescapeEscape(s: string)
    ensures Unescape(Escape(s)) == s
  {
    if s != [] {
      var tail := Escape(s[1..]);
      UnescapeEscape(s[1..]);
      if Special(s[0]) {
        assert Escape(s) == ['\\', s[0]] + tail;
        assert (['\\', s[0]] + tail)[2..] == tail;
      } else {
        assert Escape(s) == [s[0]] + tail;
        assert ([s[0]] + tail)[1..] == tail;
        // The escaped tail cannot begin with a special character, so a
        // backslash of the input is never mistaken for an inserted one.
        assert |tail| > 0 ==> !Special(tail[0]);
      }
    }
  }

  /** Escaping works character by character, so it distributes over concatenation. */
  lemma {:induction false} EscapeAppend(a: string, b: string)
    ensures Escape(a + b) == Escape(a) + Escape(b)
  {
    if a != [] {
      assert (a + b)[0] == a[0] && (a + b)[1..] == a[1..] + b;
      EscapeAppend(a[1..], b);
      var head := if Special(a[0]) then ['\\', a[0]] else [a[0]];
      ConcatAssoc(head, Escape(a[1..]), Escape(b));
    } else {
      assert a + b == b;
    }
  }

  /** Text without special characters is not changed by the escape step. */
  lemma {:induction false} EscapePlain(s: string)
    requires forall k :: 0 <= k < |s| ==> !Special(s[k])
    ensures Escape(s) == s
  {
    if s != [] {
      EscapePlain(s[1..]);
      assert s == [s[0]] + s[1..];
    }
  }

  /** Text without special characters passes through in front of what follows. */
  lemma EscapePlainPrefix(a: string, b: string)
    requires forall k :: 0 <= k < |a| ==> !Special(a[k])
    ensures Escape(a + b) == a + Escape(b)
  {
    EscapeAppend(a, b);
    EscapePlain(a);
  }

  /** A special character gets exactly one backslash in front of it. */
  lemma EscapeSpecialFirst(c: char, b: string)
    requires Special(c)
    ensures Escape([c] + b) == ['\\', c] + Escape(b)
  {
    assert ([c] + b)[1..] == b;
  }
}
