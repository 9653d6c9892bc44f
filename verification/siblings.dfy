/** The ordered list of sibling option values and the movement over it that
    the arrow keys perform. */
module Siblings {
  import opened Js
  import opened Modular

  /** No value occurs twice. The component does not enforce this; it is the
      hypothesis under which navigation is a cycle through every option. */
  predicate Distinct<V(==)>(s: seq<V>) {
    forall i, j :: 0 <= i < j < |s| ==> s[i] != s[j]
  }

  /** `findIndex`: the first position holding `v`, or -1 when there is none. */
  function IndexOf<V(==)>(s: seq<V>, v: V): (r: int)
    ensures -1 <= r < |s|
    ensures r == -1 <==> v !in s
    ensures 0 <= r ==> s[r] == v
    ensures forall j :: 0 <= j < r ==> s[j] != v
  {
    if |s| == 0 then -1
    else if s[0] == v then 0
    else
      var k := IndexOf(s[1..], v);
      if k == -1 then -1 else k + 1
  }

  /** `count`: the position of the last sibling, -1 for an empty list. */
  function LastIndex<V>(s: seq<V>): int {
    |s| - 1
  }

  /** `setPrevious`: the sibling before `own`, the last one when `own` is
      first. When `own` is absent its index is -1 and the read at -2 is
      undefined. */
  function Previous<V(==)>(s: seq<V>, own: V): (r: Slot<V>)
    ensures own in s ==> r == Defined(s[(IndexOf(s, own) + |s| - 1) % |s|])
    ensures own !in s ==> r == Undefined
  {
    var index := IndexOf(s, own);
    PredMod(index, |s|);
    if index == 0 then Read(s, LastIndex(s)) else Read(s, index - 1)
  }

  /** `setNext`: the sibling after `own`, the first one when `own` is last.
      When `own` is absent its index is -1, so the read is at position 0,
      which is undefined only for an empty list. */
  function Next<V(==)>(s: seq<V>, own: V): (r: Slot<V>)
    ensures own in s ==> r == Defined(s[(IndexOf(s, own) + 1) % |s|])
    ensures own !in s && |s| == 0 ==> r == Undefined
    ensures own !in s && |s| > 0 ==> r == Defined(s[0])
  {
    var index := IndexOf(s, own);
    SuccMod(index, |s|);
    if index == LastIndex(s) then Read(s, 0) else Read(s, index + 1)
  }

  /** In a list without duplicates every value's position is its index. */
  lemma IndexOfDistinct<V>(s: seq<V>, i: int)
    requires Distinct(s)
    requires 0 <= i < |s|
    ensures IndexOf(s, s[i]) == i
  {
  }

  /** Down/Right, stated without `findIndex`: from position `i` of a list
      of `n` distinct values it lands on position `(i+1) mod n`. */
  lemma NextAt<V>(s: seq<V>, i: int)
    requires Distinct(s)
    requires 0 <= i < |s|
    ensures Next(s, s[i]) == Defined(s[(i + 1) % |s|])
  {
    IndexOfDistinct(s, i);
  }

  /** Up/Left, stated without `findIndex`: from position `i` of a list of
      `n` distinct values it lands on position `(i+n-1) mod n`. */
  lemma PreviousAt<V>(s: seq<V>, i: int)
    requires Distinct(s)
    requires 0 <= i < |s|
    ensures Previous(s, s[i]) == Defined(s[(i + |s| - 1) % |s|])
  {
    IndexOfDistinct(s, i);
  }

  /** Previous undoes next and next undoes previous, so with distinct values
      both are bijections on the list's values. */
  lemma PreviousUndoesNext<V>(s: seq<V>, own: V)
    requires Distinct(s)
    requires own in s
    ensures Next(s, own).Defined? && Previous(s, Next(s, own).value) == Defined(own)
    ensures Previous(s, own).Defined? && Next(s, Previous(s, own).value) == Defined(own)
  {
    var n := |s|;
    var i := IndexOf(s, own);
    SuccMod(i, n);
    PredMod(i, n);
    var j := (i + 1) % n;
    var k := (i + n - 1) % n;
    IndexOfDistinct(s, j);
    IndexOfDistinct(s, k);
    PredMod(j, n);
    SuccMod(k, n);
  }

  /** A one-option group wraps onto itself in both directions. */
  lemma SingletonWrapsToItself<V>(v: V)
    ensures Next([v], v) == Defined(v)
    ensures Previous([v], v) == Defined(v)
  {
  }

  /** Next is injective on the positions of a duplicate-free list: no two
      options move to the same sibling. */
  lemma NextInjective<V>(s: seq<V>, i: int, j: int)
    requires Distinct(s)
    requires 0 <= i < |s| && 0 <= j < |s|
    requires Next(s, s[i]) == Next(s, s[j])
    ensures i == j
  {
    PreviousUndoesNext(s, s[i]);
    PreviousUndoesNext(s, s[j]);
    assert s[i] == s[j];
  }

  /** `setNext` applied `k` times from `start`, each result taken as the next
      starting value. This is what repeated Down/Right presses request when
      the owner feeds every request back as the group's value and
      `autoFocus` moves focus onto the newly selected option; without that
      focus stays put and every press repeats the first request. An
      undefined request ends the sequence: with `undefined` as the group's
      value no option is checked, so none claims focus. */
  function Walk<V(==)>(s: seq<V>, start: V, k: nat): Slot<V> {
    if k == 0 then Defined(start)
    else
      match Walk(s, start, k - 1)
      case Undefined => Undefined
      case Defined(w) => Next(s, w)
  }

  /** The position `k` steps after `p` around a cycle of length `n`, one
      wrap at a time. */
  function Advance(p: int, k: nat, n: int): int {
    if k == 0 then p
    else
      var q := Advance(p, k - 1, n);
      if q == n - 1 then 0 else q + 1
  }

  /** Stepping one wrap at a time agrees with the remainder. */
  lemma {:induction false} AdvanceIsMod(p: int, k: nat, n: int)
    requires 0 <= p < n
    ensures Advance(p, k, n) == (p + k) % n
  {
    if k == 0 {
      ModSmall(p, n);
    } else {
      AdvanceIsMod(p, k - 1, n);
      ModSucc(p + k - 1, n);
      SuccMod((p + k - 1) % n, n);
    }
  }

  /** Down/Right from position `p` of a duplicate-free list, one wrap at a
      time. */
  lemma NextStep<V>(s: seq<V>, p: int)
    requires Distinct(s)
    requires 0 <= p < |s|
    ensures Next(s, s[p]) == Defined(s[if p == |s| - 1 then 0 else p + 1])
  {
    IndexOfDistinct(s, p);
  }

  /** The walk visits the positions `Advance` lists. */
  lemma {:induction false} WalkAdvances<V>(s: seq<V>, i: int, k: nat)
    requires Distinct(s)
    requires 0 <= i < |s|
    ensures 0 <= Advance(i, k, |s|) < |s|
    ensures Walk(s, s[i], k) == Defined(s[Advance(i, k, |s|)])
  {
    if k > 0 {
      WalkAdvances(s, i, k - 1);
      NextStep(s, Advance(i, k - 1, |s|));
    }
  }

  /** Each step of next advances the position by one, modulo the length. */
  lemma WalkIsRotation<V>(s: seq<V>, i: int, k: nat)
    requires Distinct(s)
    requires 0 <= i < |s|
    ensures Walk(s, s[i], k) == Defined(s[(i + k) % |s|])
  {
    AdvanceIsMod(i, k, |s|);
    WalkAdvances(s, i, k);
  }

  /** `|s|` applications of `setNext` bring the selection back to where it
      started. */
  lemma WalkReturnsToStart<V>(s: seq<V>, i: int)
    requires Distinct(s)
    requires 0 <= i < |s|
    ensures Walk(s, s[i], |s|) == Defined(s[i])
  {
    var n := |s|;
    ModWrap(i + n, n);
    assert (i + n) % n == i;
    WalkIsRotation(s, i, n);
  }

  /** Navigation is a single cycle: from any option, every option is reached
      within fewer than `|s|` applications of `setNext`. */
  lemma WalkReachesEveryOption<V>(s: seq<V>, i: int, j: int)
    requires Distinct(s)
    requires 0 <= i < |s| && 0 <= j < |s|
    ensures exists k: nat :: k < |s| && Walk(s, s[i], k) == Defined(s[j])
  {
    var n := |s|;
    var k := if j >= i then j - i else j - i + n;
    if j >= i {
      ModSmall(i + k, n);
    } else {
      ModWrap(i + k, n);
    }
    assert (i + k) % n == j;
    WalkIsRotation(s, i, k);
  }

  /** With a repeated value the cycle breaks: in `[a, b, a, c]` the second `a`
      resolves to the first, so applying `setNext` from `a` only ever
      alternates between `a` and `b` and never reaches `c`. */
  lemma {:induction false} DuplicateTrapsNavigation<V>(a: V, b: V, c: V, k: nat)
    requires a != b && a != c && b != c
    ensures Walk([a, b, a, c], a, k) in {Defined(a), Defined(b)}
  {
    var s := [a, b, a, c];
    if k > 0 {
      DuplicateTrapsNavigation(a, b, c, k - 1);
      assert IndexOf(s, a) == 0;
      assert IndexOf(s, b) == 1;
    }
  }
}
