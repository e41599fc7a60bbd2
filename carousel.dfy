/**
 * The projects carousel's centre rule, `updateCenterActive`
 * (assets/js/tidytouch.js, lines 97-106): every item loses the
 * `center-active` mark, then, when an odd number greater than one of
 * items is visible (`active`), the middle visible item gets it.
 *
 * The carousel's items are a sequence of flags saying which are visible;
 * the result is the sequence of `center-active` marks afterwards.
 */
module Carousel {

  datatype Option<T> = None | Some(value: T)

  /** Number of items that are set. */
  function Count(a: seq<bool>): nat {
    if a == [] then 0 else Count(a[..|a| - 1]) + (if a[|a| - 1] then 1 else 0)
  }

  /** `Math.floor(itemsVisible / 2)` when the middle is to be marked: an
      odd count above one; nothing otherwise. */
  function CenterIndex(n: nat): (r: Option<nat>)
    ensures r.Some? ==> n > 1 && 2 * r.value + 1 == n
    ensures r.None? ==> n <= 1 || n % 2 == 0
  {
    if n > 1 && n % 2 == 1 then Some(n / 2) else None
  }

  /** Marks the k-th set item (counting from 0), that is `.eq(k)` on the
      visible items. */
  function MarkNth(a: seq<bool>, k: nat): (r: seq<bool>)
    ensures |r| == |a|
    ensures forall j | 0 <= j < |a| :: r[j] == (a[j] && Count(a[..j]) == k)
  {
    seq(|a|, j requires 0 <= j < |a| => a[j] && Count(a[..j]) == k)
  }

  /** The `center-active` marks after `updateCenterActive`, whatever they
      were before: only a visible item with as many visible items before
      it as after it is marked, and only when more than one is visible. */
  function CenterActive(active: seq<bool>): (marks: seq<bool>)
    ensures |marks| == |active|
    ensures forall j | 0 <= j < |active| ::
      marks[j] <==> active[j] && Count(active) > 1 && Count(active[..j]) == Count(active[j + 1..])
  {
    var n := Count(active);
    match CenterIndex(n)
    case Some(k) =>
      MiddleByCount(active, k);
      MarkNth(active, k)
    case None =>
      NoMiddle(active);
      seq(|active|, _ => false)
  }

  /** With 2k + 1 visible items, the item with k visible items before it
      is the one with as many before it as after it. */
  lemma MiddleByCount(a: seq<bool>, k: nat)
    requires Count(a) == 2 * k + 1
    ensures forall j | 0 <= j < |a| ::
      (a[j] && Count(a[..j]) == k) <==> (a[j] && Count(a[..j]) == Count(a[j + 1..]))
  {
    forall j | 0 <= j < |a|
      ensures (a[j] && Count(a[..j]) == k) <==> (a[j] && Count(a[..j]) == Count(a[j + 1..]))
    {
      CountAround(a, j);
    }
  }

  /** With an even number of visible items no visible item has as many
      before it as after it. */
  lemma NoMiddle(a: seq<bool>)
    ensures Count(a) % 2 == 0 ==>
      forall j | 0 <= j < |a| :: !(a[j] && Count(a[..j]) == Count(a[j + 1..]))
  {
    forall j | 0 <= j < |a|
      ensures Count(a) % 2 == 0 ==> !(a[j] && Count(a[..j]) == Count(a[j + 1..]))
    {
      CountAround(a, j);
    }
  }

  lemma {:induction false} CountAppend(a: seq<bool>, b: seq<bool>)
    ensures Count(a + b) == Count(a) + Count(b)
    decreases |b|
  {
    if b == [] {
      assert a + b == a;
    } else {
      assert (a + b)[..|a + b| - 1] == a + b[..|b| - 1];
      CountAppend(a, b[..|b| - 1]);
    }
  }

  /** An item splits the count into the items before it, itself, and the
      items after it. */
  lemma CountAround(a: seq<bool>, j: nat)
    requires j < |a|
    ensures Count(a) == Count(a[..j]) + (if a[j] then 1 else 0) + Count(a[j + 1..])
  {
    var before, x, after := a[..j], a[j], a[j + 1..];
    assert a == before + [x] + after;
    CountAppend(before + [x], after);
    CountAppend(before, [x]);
    assert [x][..0] == [];
  }

  lemma CountsAround(a: seq<bool>)
    ensures forall j | 0 <= j < |a| ::
      Count(a) == Count(a[..j]) + (if a[j] then 1 else 0) + Count(a[j + 1..])
  {
    forall j | 0 <= j < |a| {
      CountAround(a, j);
    }
  }

  /** Exactly one item is marked when k is below the number of set items,
      none otherwise. */
  lemma {:induction false} MarkNthCount(a: seq<bool>, k: nat)
    ensures Count(MarkNth(a, k)) == (if k < Count(a) then 1 else 0)
    decreases |a|
  {
    if a != [] {
      var a', x := a[..|a| - 1], a[|a| - 1];
      MarkNthCount(a', k);
      var m := MarkNth(a, k);
      assert m[..|m| - 1] == MarkNth(a', k) by {
        forall j | 0 <= j < |a'| ensures a[..j] == a'[..j] {}
      }
      assert a[..|a| - 1] == a';
    }
  }

  /** At most one item carries the mark: exactly one for an odd number of
      visible items above one, none otherwise. */
  lemma CenterActiveCount(active: seq<bool>)
    ensures var n := Count(active);
      Count(CenterActive(active)) == (if n > 1 && n % 2 == 1 then 1 else 0)
  {
    var n := Count(active);
    if n > 1 && n % 2 == 1 {
      MarkNthCount(active, n / 2);
    } else {
      NoneMarked(|active|);
    }
  }

  lemma {:induction false} NoneMarked(len: nat)
    ensures Count(seq(len, _ => false)) == 0
  {
    if len > 0 {
      assert seq(len, _ => false)[..len - 1] == seq(len - 1, _ => false);
      NoneMarked(len - 1);
    }
  }

  /** The marked item is the `Math.floor(n / 2)`-th visible one. */
  lemma CenterIsMiddle(active: seq<bool>, j: nat)
    requires j < |active| && CenterActive(active)[j]
    ensures active[j] && Count(active[..j]) == Count(active) / 2
  {
    CountsAround(active);
  }
}
