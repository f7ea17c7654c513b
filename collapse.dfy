/**
 * Step 3 of the formatter: the global replace of `(<i>)+` by `<i>`, which
 * turns every run of adjacent opening tags into a single one.
 */
module Collapsing {
  import opened Tags

  /** No two opening tags stand next to each other anywhere in `s`. */
  ghost predicate NoAdjacentOpenings(s: string)
  {
    forall i: nat :: !StartsAt(s, i, Open + Open)
  }

  /** What is left once the whole leading run of opening tags is taken off. */
  function DropOpenings(s: string): (r: string)
    decreases |s|
    ensures |r| <= |s|
    ensures !StartsAt(r, 0, Open)
    ensures s == r || StartsAt(s, 0, Open)
  {
    if StartsAt(s, 0, Open) then DropOpenings(s[|Open|..]) else s
  }

  /** What `DropOpenings` takes off is a whole number of opening tags. */
  lemma {:induction false} DropOpeningsRun(s: string)
    ensures exists m: nat :: s == Repeat(Open, m) + DropOpenings(s)
    decreases |s|
  {
    var r := DropOpenings(s);
    if StartsAt(s, 0, Open) {
      var tail := s[|Open|..];
      DropOpeningsRun(tail);
      var m: nat :| tail == Repeat(Open, m) + r;
      assert s == Open + tail;
      ConcatAssoc(Open, Repeat(Open, m), r);
      assert Repeat(Open, m + 1) == Open + Repeat(Open, m);
    } else {
      assert s == Repeat(Open, 0) + r;
    }
  }

  /** The collapse step: each maximal run of opening tags is written as one. */
  function Collapse(s: string): (r: string)
    decreases |s|
    ensures |r| <= |s|
  {
    if s == [] then []
    else if StartsAt(s, 0, Open) then Open + Collapse(DropOpenings(s[|Open|..]))
    else [s[0]] + Collapse(s[1..])
  }

  /** The collapse step never changes the first three characters. */
  lemma {:induction false} CollapseKeepsHead(s: string, n: nat)
    requires n <= |Open| && n <= |s|
    ensures n <= |Collapse(s)| && Collapse(s)[..n] == s[..n]
    decreases |s|
  {
    if n > 0 && !StartsAt(s, 0, Open) {
      CollapseKeepsHead(s[1..], n - 1);
      assert Collapse(s)[..n] == [s[0]] + Collapse(s[1..])[..n - 1];
      assert s[..n] == [s[0]] + s[1..][..n - 1];
    }
  }

  /** A string that does not begin with an opening tag still does not after collapsing. */
  lemma CollapseKeepsNoLeadingOpening(s: string)
    requires !StartsAt(s, 0, Open)
    ensures !StartsAt(Collapse(s), 0, Open)
  {
    if |s| >= |Open| {
      CollapseKeepsHead(s, |Open|);
    }
  }

  /** After the collapse step no two opening tags are adjacent. */
  lemma {:induction false} CollapseNoAdjacent(s: string)
    ensures NoAdjacentOpenings(Collapse(s))
    decreases |s|
  {
    var r := Collapse(s);
    if s == [] {
    } else if StartsAt(s, 0, Open) {
      var rest := DropOpenings(s[|Open|..]);
      var c := Collapse(rest);
      CollapseNoAdjacent(rest);
      CollapseKeepsNoLeadingOpening(rest);
      assert r == Open + c;
      forall i: nat
        ensures !StartsAt(r, i, Open + Open)
      {
        if i == 0 {
          StartsAtAppend(Open, c, 0, Open);
          StartsAtSplit(r, 0, Open, Open);
        } else if i < |Open| {
          assert r[i] != '<';
        } else {
          StartsAtAppend(Open, c, i - |Open|, Open + Open);
        }
      }
    } else {
      var c := Collapse(s[1..]);
      CollapseNoAdjacent(s[1..]);
      assert r == [s[0]] + c;
      forall i: nat
        ensures !StartsAt(r, i, Open + Open)
      {
        if i == 0 {
          CollapseKeepsNoLeadingOpening(s);
          StartsAtSplit(r, 0, Open, Open);
        } else {
          StartsAtAppend([s[0]], c, i - 1, Open + Open);
        }
      }
    }
  }

  /** A string without adjacent opening tags is left as it is. */
  lemma {:induction false} CollapseFixpoint(s: string)
    requires NoAdjacentOpenings(s)
    ensures Collapse(s) == s
    decreases |s|
  {
    if s == [] {
    } else if StartsAt(s, 0, Open) {
      var tail := s[|Open|..];
      forall i: nat
        ensures !StartsAt(tail, i, Open + Open)
      {
        StartsAtSuffix(s, |Open|, i, Open + Open);
      }
      StartsAtSplit(s, 0, Open, Open);
      StartsAtSuffix(s, |Open|, 0, Open);
      CollapseFixpoint(tail);
      assert s == Open + tail;
    } else {
      forall i: nat
        ensures !StartsAt(s[1..], i, Open + Open)
      {
        StartsAtSuffix(s, 1, i, Open + Open);
      }
      CollapseFixpoint(s[1..]);
      assert s == [s[0]] + s[1..];
    }
  }

  /** Applying the collapse step a second time changes nothing. */
  lemma CollapseIdempotent(s: string)
    ensures Collapse(Collapse(s)) == Collapse(s)
  {
    CollapseNoAdjacent(s);
    CollapseFixpoint(Collapse(s));
  }

  /** A character that does not begin an opening tag is copied as it is. */
  lemma CollapsePlainStep(s: string)
    requires s != [] && !StartsAt(s, 0, Open)
    ensures Collapse(s) == [s[0]] + Collapse(s[1..])
  {
  }

  /** Text without a `<` is copied through the collapse step unchanged. */
  lemma {:induction false} CollapsePlainPrefix(a: string, b: string)
    requires forall k :: 0 <= k < |a| ==> a[k] != '<'
    ensures Collapse(a + b) == a + Collapse(b)
    decreases |a|
  {
    if a != [] {
      var s := a + b;
      assert s[0] == a[0] && s[1..] == a[1..] + b;
      assert !StartsAt(s, 0, Open) by {
        assert |s| >= |Open| ==> s[..|Open|][0] != Open[0];
      }
      CollapsePlainStep(s);
      CollapsePlainPrefix(a[1..], b);
      ConcatAssoc([a[0]], a[1..], Collapse(b));
      assert a == [a[0]] + a[1..];
    } else {
      assert a + b == b;
    }
  }

  /** A lone opening tag stays as it is. */
  lemma CollapseLoneOpening(b: string)
    requires !StartsAt(b, 0, Open)
    ensures Collapse(Open + b) == Open + Collapse(b)
  {
    var s := Open + b;
    assert StartsAt(s, 0, Open);
    assert s[|Open|..] == b;
  }

  /** Two adjacent opening tags collapse as one. */
  lemma CollapseRun(b: string)
    ensures Collapse(Open + (Open + b)) == Collapse(Open + b)
  {
    var s := Open + (Open + b);
    assert StartsAt(s, 0, Open);
    assert s[|Open|..] == Open + b;
    assert StartsAt(Open + b, 0, Open);
    assert (Open + b)[|Open|..] == b;
  }

  /** A run of one or more opening tags is written as a single one. */
  lemma {:induction false} CollapseRunOfOpenings(m: nat, b: string)
    requires m >= 1 && !StartsAt(b, 0, Open)
    ensures Collapse(Repeat(Open, m) + b) == Open + Collapse(b)
    decreases m
  {
    if m == 1 {
      assert Repeat(Open, 1) + b == Open + b;
      CollapseLoneOpening(b);
    } else {
      var x := Repeat(Open, m - 2) + b;
      ConcatAssoc(Open, Repeat(Open, m - 1), b);
      ConcatAssoc(Open, Repeat(Open, m - 2), b);
      assert Repeat(Open, m) + b == Open + (Open + x);
      assert Repeat(Open, m - 1) + b == Open + x;
      CollapseRun(x);
      CollapseRunOfOpenings(m - 1, b);
    }
  }

  /** A closing tag is copied through the collapse step. */
  lemma CollapseClosing(b: string)
    ensures Collapse(Close + b) == Close + Collapse(b)
  {
    var s := Close + b;
    var tail := Close[1..];
    assert !StartsAt(s, 0, Open) by { assert s[1] == '/'; }
    CollapsePlainStep(s);
    assert s[1..] == tail + b;
    assert forall k :: 0 <= k < |tail| ==> tail[k] != '<';
    CollapsePlainPrefix(tail, b);
    ConcatAssoc([s[0]], tail, Collapse(b));
    assert Close == [s[0]] + tail;
  }
}
