/**
 * Step 4 of the formatter: count opening and closing tags once, then, when
 * one side has `k` more, delete the first run of exactly `k` adjacent tags of
 * that side (a non-global replace of `(tag){k}` by the empty string).
 */
module Balancing {
  import opened Options
  import opened Tags
  import opened Collapsing

  /**
   * The balancing step. Both tag counts are taken before anything is
   * deleted, so at most one side is touched: equal counts leave the string
   * as it is, and otherwise only the first run of exactly the surplus number
   * of tags of the larger side is deleted.
   */
  function Balance(s: string): (r: string)
    ensures |r| <= |s|
    ensures Count(s, Open) == Count(s, Close) ==> r == s
  {
    var opening := Count(s, Open);
    var closing := Count(s, Close);
    var afterClosing :=
      if closing > opening then DeleteFirst(s, Repeat(Close, closing - opening)) else s;
    if opening > closing then DeleteFirst(afterClosing, Repeat(Open, opening - closing))
    else afterClosing
  }

  /** More closing tags than opening ones: only the closing side is touched. */
  lemma BalanceClosingSide(s: string)
    requires Count(s, Close) > Count(s, Open)
    ensures Balance(s) == DeleteFirst(s, Repeat(Close, Count(s, Close) - Count(s, Open)))
  {
  }

  /** More opening tags than closing ones: only the opening side is touched. */
  lemma BalanceOpeningSide(s: string)
    requires Count(s, Open) > Count(s, Close)
    ensures Balance(s) == DeleteFirst(s, Repeat(Open, Count(s, Open) - Count(s, Close)))
  {
  }

  /**
   * `k` more closing tags than opening ones: the leftmost run of exactly `k`
   * adjacent closing tags is deleted and nothing else changes; with no such
   * run the string is returned unchanged.
   */
  lemma BalanceSurplusClosing(s: string, k: nat)
    requires k > 0 && Count(s, Close) == Count(s, Open) + k
    ensures (forall i: nat :: !StartsAt(s, i, Repeat(Close, k))) ==> Balance(s) == s
    ensures forall i: nat ::
      StartsAt(s, i, Repeat(Close, k)) && (forall j :: 0 <= j < i ==> !StartsAt(s, j, Repeat(Close, k)))
      ==> Balance(s) == s[..i] + s[i + 4 * k..]
  {
    var run := Repeat(Close, k);
    assert |run| == 4 * k;
    BalanceClosingSide(s);
    DeleteFirstCases(s, run);
  }

  /** Deleting the first occurrence of `p`, for every place it can be found. */
  lemma DeleteFirstCases(s: string, p: string)
    ensures (forall i: nat :: !StartsAt(s, i, p)) ==> DeleteFirst(s, p) == s
    ensures forall i: nat ::
      StartsAt(s, i, p) && (forall j :: 0 <= j < i ==> !StartsAt(s, j, p))
      ==> DeleteFirst(s, p) == s[..i] + s[i + |p|..]
  {
    forall i: nat |
      StartsAt(s, i, p) && (forall j :: 0 <= j < i ==> !StartsAt(s, j, p))
      ensures DeleteFirst(s, p) == s[..i] + s[i + |p|..]
    {
      DeleteFirstAt(s, p, i);
    }
  }

  /** A run of two or more opening tags begins with two adjacent opening tags. */
  lemma RunOfOpeningsHasPair(s: string, i: nat, k: nat)
    requires k >= 2
    ensures StartsAt(s, i, Repeat(Open, k)) ==> StartsAt(s, i, Open + Open)
  {
    assert Repeat(Open, k) == (Open + Open) + Repeat(Open, k - 2);
    StartsAtSplit(s, i, Open + Open, Repeat(Open, k - 2));
  }

  /**
   * More opening tags than closing ones, in a string where no two opening
   * tags are adjacent (as the collapse step leaves it): a surplus of two or
   * more deletes nothing, and a surplus of one deletes the first opening tag.
   */
  lemma {:induction false} BalanceSurplusOpening(s: string)
    requires NoAdjacentOpenings(s)
    requires Count(s, Open) > Count(s, Close)
    ensures Count(s, Open) >= Count(s, Close) + 2 ==> Balance(s) == s
    ensures Count(s, Open) == Count(s, Close) + 1 ==>
      exists i: nat ::
        && StartsAt(s, i, Open)
        && (forall j :: 0 <= j < i ==> !StartsAt(s, j, Open))
        && Balance(s) == s[..i] + s[i + 3..]
  {
    var k := Count(s, Open) - Count(s, Close);
    var run := Repeat(Open, k);
    if k >= 2 {
      forall i: nat
        ensures !StartsAt(s, i, run)
      {
        RunOfOpeningsHasPair(s, i, k);
      }
      BalanceOpeningSide(s);
      assert FirstAt(s, run).None?;
    } else {
      assert run == Open;
      BalanceOpeningSide(s);
      CountPositiveOccurs(s, Open);
      var i := FirstAt(s, Open).value;
      DeleteFirstAt(s, Open, i);
    }
  }
}
