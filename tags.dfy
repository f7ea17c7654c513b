/**
 * Searching a string for a fixed pattern, the way the formatter's regular
 * expressions do: where a pattern occurs, the leftmost occurrence, how many
 * non-overlapping occurrences a global match finds, and deleting the first one.
 */
module Tags {
  import opened Options

  /** The opening and closing italic tags the formatter writes and counts. */
  const Open: string := "<i>"
  const Close: string := "</i>"

  /** `p` occurs in `s` starting at index `i`. */
  predicate StartsAt(s: string, i: nat, p: string)
  {
    i + |p| <= |s| && s[i..i + |p|] == p
  }

  /** Concatenation is associative. */
  lemma ConcatAssoc<T>(x: seq<T>, y: seq<T>, z: seq<T>)
    ensures x + (y + z) == (x + y) + z
  {
  }

  /** An occurrence inside the tail `s[d..]` is an occurrence in `s`, shifted by `d`. */
  lemma StartsAtSuffix(s: string, d: nat, i: nat, p: string)
    requires d <= |s|
    ensures StartsAt(s[d..], i, p) <==> StartsAt(s, d + i, p)
  {
    if d + i + |p| <= |s| {
      assert s[d..][i..i + |p|] == s[d + i..d + i + |p|];
    }
  }

  /** An occurrence after a prefix `a` is an occurrence in what follows `a`. */
  lemma StartsAtAppend(a: string, b: string, i: nat, p: string)
    ensures StartsAt(a + b, |a| + i, p) <==> StartsAt(b, i, p)
  {
    if |a| + i + |p| <= |a + b| {
      assert (a + b)[|a| + i..|a| + i + |p|] == b[i..i + |p|];
    }
  }

  /** An occurrence that ends inside a prefix `a` of `a + b` is an occurrence in `a`. */
  lemma StartsAtPrefix(a: string, b: string, i: nat, p: string)
    requires i + |p| <= |a|
    ensures StartsAt(a + b, i, p) <==> StartsAt(a, i, p)
  {
    assert (a + b)[i..i + |p|] == a[i..i + |p|];
  }

  /** `a + b` occurs at `i` exactly when `a` does and `b` follows it. */
  lemma StartsAtSplit(s: string, i: nat, a: string, b: string)
    ensures StartsAt(s, i, a + b) <==> StartsAt(s, i, a) && StartsAt(s, i + |a|, b)
  {
    if i + |a| + |b| <= |s| {
      assert s[i..i + |a + b|] == s[i..i + |a|] + s[i + |a|..i + |a| + |b|];
      if StartsAt(s, i, a + b) {
        assert s[i..i + |a|] == (a + b)[..|a|];
        assert s[i + |a|..i + |a| + |b|] == (a + b)[|a|..];
      }
    }
  }

  /**
   * The number of matches of a global regular expression for the literal `p`:
   * matches are found left to right, and the search resumes after each one.
   * Its properties are lemmas (`CountPositiveOccurs`, `CountFits`): as a
   * contract they would be in scope of every proof about the balancing step.
   */
  function Count(s: string, p: string): (n: nat)
    requires |p| > 0
    decreases |s|
  {
    if |s| < |p| then 0
    else if s[..|p|] == p then 1 + Count(s[|p|..], p)
    else Count(s[1..], p)
  }

  /** The matches of a global search never overlap, so together they fit inside `s`. */
  lemma {:induction false} CountFits(s: string, p: string)
    requires |p| > 0
    ensures Count(s, p) * |p| <= |s|
    decreases |s|
  {
    if |s| >= |p| {
      if s[..|p|] == p {
        CountFits(s[|p|..], p);
        assert (1 + Count(s[|p|..], p)) * |p| == |p| + Count(s[|p|..], p) * |p|;
      } else {
        CountFits(s[1..], p);
      }
    }
  }

  /** The leftmost index at which `p` occurs in `s`, if any. */
  function FirstAt(s: string, p: string): (r: Option<nat>)
    decreases |s|
    ensures r.Some? ==> StartsAt(s, r.value, p)
    ensures r.Some? ==> forall j :: 0 <= j < r.value ==> !StartsAt(s, j, p)
    ensures r.None? ==> forall j: nat :: !StartsAt(s, j, p)
  {
    if |s| < |p| then None
    else if s[..|p|] == p then Some(0)
    else
      match FirstAt(s[1..], p)
      case Some(j) =>
        ShiftedOccurrences(s, p);
        Some(j + 1)
      case None =>
        ShiftedOccurrences(s, p);
        None
  }

  /** Every occurrence in a non-empty `s` past index 0 is an occurrence in `s[1..]`. */
  lemma ShiftedOccurrences(s: string, p: string)
    requires |s| > 0
    ensures forall j: nat :: 0 < j ==> (StartsAt(s, j, p) <==> StartsAt(s[1..], j - 1, p))
  {
    forall j: nat | 0 < j
      ensures StartsAt(s, j, p) <==> StartsAt(s[1..], j - 1, p)
    {
      StartsAtSuffix(s, 1, j - 1, p);
    }
  }

  /** An occurrence with none before it is the one `FirstAt` finds. */
  lemma FirstAtIsLeftmost(s: string, p: string, i: nat)
    requires StartsAt(s, i, p)
    requires forall j :: 0 <= j < i ==> !StartsAt(s, j, p)
    ensures FirstAt(s, p) == Some(i)
  {
    var r := FirstAt(s, p);
    assert r.Some?;
    assert !(r.value < i) && !(i < r.value);
  }

  /** A global match finds something exactly when the pattern occurs. */
  lemma {:induction false} CountPositiveOccurs(s: string, p: string)
    requires |p| > 0
    ensures Count(s, p) > 0 <==> FirstAt(s, p).Some?
    decreases |s|
  {
    if |s| >= |p| && s[..|p|] != p {
      CountPositiveOccurs(s[1..], p);
      ShiftedOccurrences(s, p);
    }
  }

  /** A position whose character differs from the pattern's first is skipped. */
  lemma CountPlainStep(s: string, p: string)
    requires |p| > 0 && s != [] && s[0] != p[0]
    ensures Count(s, p) == Count(s[1..], p)
  {
    assert |s| >= |p| ==> s[..|p|][0] != p[0];
  }

  /** Text in which the pattern's first character never appears holds no match. */
  lemma {:induction false} CountSkipsPlain(a: string, b: string, p: string)
    requires |p| > 0
    requires forall k :: 0 <= k < |a| ==> a[k] != p[0]
    ensures Count(a + b, p) == Count(b, p)
    decreases |a|
  {
    if a != [] {
      var s := a + b;
      assert s[0] == a[0] && s[1..] == a[1..] + b;
      CountPlainStep(s, p);
      CountSkipsPlain(a[1..], b, p);
    } else {
      assert a + b == b;
    }
  }

  /** A match at the very start is counted, and the search resumes after it. */
  lemma CountLeadingMatch(p: string, b: string)
    requires |p| > 0
    ensures Count(p + b, p) == 1 + Count(b, p)
  {
    assert (p + b)[..|p|] == p;
    assert (p + b)[|p|..] == b;
  }

  /** A closing tag holds no opening tag. */
  lemma CountOpenSkipsClose(b: string)
    ensures Count(Close + b, Open) == Count(b, Open)
  {
    var s := Close + b;
    var tail := Close[1..];
    assert s[0] == '<' && s[1] == '/';
    assert s[..3] != Open by { assert s[..3][1] == '/'; }
    assert s[1..] == tail + b;
    assert forall k :: 0 <= k < |tail| ==> tail[k] != Open[0];
    CountSkipsPlain(tail, b, Open);
  }

  /** An opening tag holds no closing tag. */
  lemma CountCloseSkipsOpen(b: string)
    ensures Count(Open + b, Close) == Count(b, Close)
  {
    var s := Open + b;
    var tail := Open[1..];
    if |s| >= 4 {
      assert s[..4] != Close by { assert s[..4][1] == 'i'; }
    }
    assert s[1..] == tail + b;
    assert forall k :: 0 <= k < |tail| ==> tail[k] != Close[0];
    CountSkipsPlain(tail, b, Close);
  }

  /** `k` copies of `p` in a row: the string the pattern `(p){k}` matches. */
  function Repeat(p: string, k: nat): (r: string)
    ensures |r| == k * |p|
  {
    if k == 0 then [] else p + Repeat(p, k - 1)
  }

  /**
   * The first match of the non-global pattern `p` replaced by the empty string:
   * the leftmost occurrence is cut out, and a string without one is returned as it is.
   */
  function DeleteFirst(s: string, p: string): (r: string)
    ensures FirstAt(s, p).None? ==> r == s
    ensures FirstAt(s, p).Some? ==>
      var i := FirstAt(s, p).value;
      |r| == |s| - |p| && r[..i] == s[..i] && r[i..] == s[i + |p|..]
  {
    match FirstAt(s, p)
    case None => s
    case Some(i) => s[..i] + s[i + |p|..]
  }
  /** Deleting the leftmost occurrence of `p`, found at `i`, keeps what is around it. */
  lemma DeleteFirstAt(s: string, p: string, i: nat)
    requires StartsAt(s, i, p)
    requires forall j :: 0 <= j < i ==> !StartsAt(s, j, p)
    ensures DeleteFirst(s, p) == s[..i] + s[i + |p|..]
  {
    FirstAtIsLeftmost(s, p, i);
    var r := DeleteFirst(s, p);
    assert r == r[..i] + r[i..];
  }

}
