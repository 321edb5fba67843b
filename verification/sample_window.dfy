/** The 30-slot circular sample window each data source owns: a decoder
    overwrites the slot under the write cursor and moves the cursor on,
    wrapping to 0; readers find the newest sample one slot behind it. */
module SampleWindow {

  const NumberOfSamples: nat := 30

  datatype Window<T> = Window(slots: seq<T>, cursor: nat)
  {
    predicate Valid()
    {
      |slots| == NumberOfSamples && cursor < NumberOfSamples
    }
  }

  /** The zero-initialised window the firmware starts with. */
  function Init<T>(zero: T): (w: Window<T>)
    ensures w.Valid() && w.cursor == 0
    ensures forall i :: 0 <= i < NumberOfSamples ==> w.slots[i] == zero
  {
    Window(seq(NumberOfSamples, _ => zero), 0)
  }

  /** The cursor update after a write: increment, and back to 0 once it reaches the window size. */
  function Advance(c: nat): (n: nat)
    requires c < NumberOfSamples
    ensures n < NumberOfSamples
    ensures n == (c + 1) % NumberOfSamples
  {
    if c + 1 >= NumberOfSamples then 0 else c + 1
  }

  /** The slot written last, given the write cursor. */
  function LatestIndex(c: nat): (i: nat)
    requires c < NumberOfSamples
    ensures i < NumberOfSamples
    ensures Advance(i) == c
  {
    if c != 0 then c - 1 else NumberOfSamples - 1
  }

  /** The latest index is the only slot whose successor is the cursor. */
  lemma LatestIndexUnique(c: nat, i: nat)
    requires c < NumberOfSamples && i < NumberOfSamples
    ensures Advance(i) == c <==> i == LatestIndex(c)
  {
  }

  /** One decoder write: the sample lands under the cursor and the cursor moves on. */
  function Write<T>(w: Window<T>, v: T): (w': Window<T>)
    requires w.Valid()
    ensures w'.Valid()
    ensures w'.cursor == (w.cursor + 1) % NumberOfSamples
    ensures w'.slots[w.cursor] == v
    ensures forall j :: 0 <= j < NumberOfSamples && j != w.cursor ==> w'.slots[j] == w.slots[j]
    ensures w'.slots[LatestIndex(w'.cursor)] == v
  {
    Window(w.slots[w.cursor := v], Advance(w.cursor))
  }

  /** The writes `vs`, oldest first. */
  function WriteAll<T>(w: Window<T>, vs: seq<T>): (w': Window<T>)
    requires w.Valid()
    ensures w'.Valid()
    decreases |vs|
  {
    if |vs| == 0 then w else Write(WriteAll(w, vs[..|vs| - 1]), vs[|vs| - 1])
  }

  /** After `n` writes the cursor has moved `n` slots round the window. */
  lemma {:induction false} WriteAllCursor<T>(w: Window<T>, vs: seq<T>)
    requires w.Valid()
    ensures WriteAll(w, vs).cursor == (w.cursor + |vs|) % NumberOfSamples
    decreases |vs|
  {
    if |vs| > 0 {
      WriteAllCursor(w, vs[..|vs| - 1]);
    }
  }

  lemma ModDistinct(a: nat, b: nat)
    requires a < b < a + NumberOfSamples
    ensures a % NumberOfSamples != b % NumberOfSamples
  {
    var q, r := a / NumberOfSamples, b / NumberOfSamples;
    assert a == q * NumberOfSamples + a % NumberOfSamples;
    assert b == r * NumberOfSamples + b % NumberOfSamples;
  }

  /** The window holds the last 30 writes: write `k` sits `k` slots after the
      starting cursor unless 30 or more writes came after it. */
  lemma {:induction false} WriteAllRecent<T>(w: Window<T>, vs: seq<T>, k: nat)
    requires w.Valid()
    requires k < |vs| <= k + NumberOfSamples
    ensures WriteAll(w, vs).slots[(w.cursor + k) % NumberOfSamples] == vs[k]
    decreases |vs|
  {
    var n := |vs|;
    var prefix := vs[..n - 1];
    WriteAllCursor(w, prefix);
    if k < n - 1 {
      WriteAllRecent(w, prefix, k);
      ModDistinct(w.cursor + k, w.cursor + n - 1);
    }
  }

  /** After at least 30 writes every slot holds one of the last 30 writes:
      nothing older survives, whatever cursor the window started from. */
  lemma WindowHoldsOnlyRecentWrites<T>(w: Window<T>, vs: seq<T>, j: nat)
    requires w.Valid() && NumberOfSamples <= |vs| && j < NumberOfSamples
    ensures WriteAll(w, vs).slots[j] in vs[|vs| - NumberOfSamples..]
  {
    var base := |vs| - NumberOfSamples;
    var k := SlotDistance(w.cursor, base, j);
    WriteAllRecent(w, vs, k);
    assert vs[k] == vs[base..][k - base];
  }

  /** The write, among the 30 from number `base` on, that lands on slot `j`
      of a window whose cursor started at `c`. */
  lemma SlotDistance(c: nat, base: nat, j: nat) returns (k: nat)
    requires j < NumberOfSamples
    ensures base <= k < base + NumberOfSamples && (c + k) % NumberOfSamples == j
  {
    var from := c + base;
    var r := from % 30;
    assert from == 30 * (from / 30) + r;
    var m := if r <= j then j - r else j + 30 - r;
    assert from + m == 30 * (from / 30) + (if r <= j then j else j + 30);
    k := base + m;
  }

  /** The newest sample is always the last one written. */
  lemma LatestIsLastWrite<T>(w: Window<T>, vs: seq<T>)
    requires w.Valid() && 0 < |vs|
    ensures WriteAll(w, vs).slots[LatestIndex(WriteAll(w, vs).cursor)] == vs[|vs| - 1]
  {
  }

  /** From the initial window, after 31 writes the cursor is at 1, the latest
      slot is slot 0 and it holds write 31, which overwrote write 1. */
  lemma ThirtyOneWrites<T>(zero: T, vs: seq<T>)
    requires |vs| == 31
    ensures WriteAll(Init(zero), vs).cursor == 1
    ensures LatestIndex(WriteAll(Init(zero), vs).cursor) == 0
    ensures WriteAll(Init(zero), vs).slots[0] == vs[30]
  {
    WriteAllCursor(Init(zero), vs);
  }
}
