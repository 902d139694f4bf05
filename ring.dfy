/** The write pattern of a fixed-capacity ring buffer, as pure functions.

    A column of `size` slots starts filled with `zero`. The value written
    when the store counter stood at `c` goes to slot `c % size`, so
    `Column(w, zero, size)` is the column after the writes `w` (in counter
    order). The lemmas state the overwrite law: each slot holds the latest
    write aimed at it, and once the counter has reached `size` the column
    holds exactly the last `size` writes.
 */
module Ring {

  /** The slot that the write made at counter value `cntr` goes to. */
  function SlotIndex(cntr: nat, size: nat): (i: nat)
    requires size > 0
    ensures i < size
    ensures cntr < size ==> i == cntr
  {
    cntr % size
  }

  /** The write cursor moves one slot forward, wrapping from the last slot to slot 0. */
  lemma SlotIndexAdvances(cntr: nat, size: nat)
    requires size > 0
    ensures SlotIndex(cntr + 1, size) ==
            if SlotIndex(cntr, size) + 1 == size then 0 else SlotIndex(cntr, size) + 1
  {
    var q, r := cntr / size, cntr % size;
    assert cntr == q * size + r;
    if r + 1 == size {
      assert cntr + 1 == (q + 1) * size;
      ModOfMultiple(q + 1, size);
    } else {
      ModOfSmallOffset(q, r + 1, size);
    }
  }

  /** The column after writing `w[0], w[1], ...` at counters 0, 1, ... */
  function Column<T>(w: seq<T>, zero: T, size: nat): (col: seq<T>)
    requires size > 0
    ensures |col| == size
  {
    if w == [] then seq(size, _ => zero)
    else
      var n := |w| - 1;
      Column(w[..n], zero, size)[SlotIndex(n, size) := w[n]]
  }

  /** The counter value of the latest write to slot `j` among the first `n` writes. */
  function LastWrite(j: nat, n: nat, size: nat): (c: nat)
    requires j < size && j < n
    ensures c < n && n - size <= c
    ensures SlotIndex(c, size) == j
  {
    var k := (n - 1 - j) / size;
    assert (n - 1 - j) - size < k * size <= n - 1 - j;
    ModOfSmallOffset(k, j, size);
    j + k * size
  }

  /** While the counter has not passed `size`, the writes fill the column front to back. */
  lemma {:induction false} ColumnFilling<T>(w: seq<T>, zero: T, size: nat)
    requires 0 < size && |w| <= size
    ensures Column(w, zero, size) == w + seq(size - |w|, _ => zero)
  {
    if w != [] {
      var n := |w| - 1;
      ColumnFilling(w[..n], zero, size);
      assert w[..n] + [w[n]] == w;
    }
  }

  /** Every one of the last `size` writes is still in the slot it was written to. */
  lemma {:induction false} ColumnRecent<T>(w: seq<T>, zero: T, size: nat, c: nat)
    requires size > 0 && c < |w| && |w| - size <= c
    ensures Column(w, zero, size)[SlotIndex(c, size)] == w[c]
  {
    var n := |w| - 1;
    if c < n {
      ColumnRecent(w[..n], zero, size, c);
      SlotsDiffer(c, n - c, size);
    }
  }

  /** Slot `j` holds the latest write aimed at it. */
  lemma ColumnAtLastWrite<T>(w: seq<T>, zero: T, size: nat, j: nat)
    requires j < size && j < |w|
    ensures Column(w, zero, size)[j] == w[LastWrite(j, |w|, size)]
  {
    ColumnRecent(w, zero, size, LastWrite(j, |w|, size));
  }

  /** A slot no write has reached yet still holds `zero`. */
  lemma {:induction false} ColumnUnfilled<T>(w: seq<T>, zero: T, size: nat, j: nat)
    requires |w| <= j < size
    ensures Column(w, zero, size)[j] == zero
  {
    if w != [] {
      ColumnUnfilled(w[..|w| - 1], zero, size, j);
    }
  }

  /** Once the counter has reached `size`, the column holds exactly the last `size`
      writes, each once (as a multiset, since the order is rotated). */
  lemma {:induction false} ColumnHoldsLastWindow<T>(w: seq<T>, zero: T, size: nat)
    requires 0 < size <= |w|
    ensures multiset(Column(w, zero, size)) == multiset(w[|w| - size..])
  {
    if |w| == size {
      ColumnFilling(w, zero, size);
      assert Column(w, zero, size) == w;
    } else {
      var before := Column(w[..|w| - 1], zero, size);
      ColumnHoldsLastWindow(w[..|w| - 1], zero, size);
      OldestOverwritten(w, zero, size);
      WindowSlides(before, SlotIndex(|w| - 1, size), w, size);
    }
  }

  /** Overwriting the slot of the oldest write of a full window with the next
      write slides the window one write further. */
  lemma WindowSlides<T>(before: seq<T>, i: nat, w: seq<T>, size: nat)
    requires 0 < size < |w| && i < |before|
    requires before[i] == w[|w| - 1 - size]
    requires multiset(before) == multiset(w[|w| - 1 - size..|w| - 1])
    ensures multiset(before[i := w[|w| - 1]]) == multiset(w[|w| - size..])
  {
    MultisetOverwrite(before, i, w[|w| - 1 - size..|w| - 1], w[|w| - 1]);
    WindowShift(w, |w| - 1 - size, |w| - size);
  }

  /** The slot the next write goes to holds the oldest write of a full column. */
  lemma OldestOverwritten<T>(w: seq<T>, zero: T, size: nat)
    requires 0 < size < |w|
    ensures Column(w[..|w| - 1], zero, size)[SlotIndex(|w| - 1, size)] == w[|w| - 1 - size]
  {
    var oldest := |w| - 1 - size;
    SlotsApart(oldest, |w| - 1, size);
    ColumnRecent(w[..|w| - 1], zero, size, oldest);
  }

  /** Dropping the front of a window that ends before the last element and adding
      the last element gives the window one further on. */
  lemma WindowShift<T>(w: seq<T>, lo: nat, next: nat)
    requires lo < |w| - 1 && next == lo + 1
    ensures w[lo..|w| - 1][1..] + [w[|w| - 1]] == w[next..]
  {
  }

  /** Overwriting, in a sequence that holds the elements of `window`, the copy of
      the window's first element leaves the rest of the window plus the new value. */
  lemma MultisetOverwrite<T>(s: seq<T>, i: nat, window: seq<T>, v: T)
    requires i < |s| && 0 < |window| && s[i] == window[0]
    requires multiset(s) == multiset(window)
    ensures multiset(s[i := v]) == multiset(window[1..] + [v])
  {
    assert s == s[..i] + [s[i]] + s[i + 1..];
    assert s[i := v] == s[..i] + [v] + s[i + 1..];
    assert window == [window[0]] + window[1..];
  }

  // Arithmetic helpers about `%`.

  lemma ModOfMultiple(q: nat, size: nat)
    requires size > 0
    ensures (q * size) % size == 0
  {
    ModOfSmallOffset(q, 0, size);
  }

  lemma ModOfSmallOffset(q: nat, r: nat, size: nat)
    requires r < size
    ensures (q * size + r) % size == r
  {
    var x := q * size + r;
    var q', r' := x / size, x % size;
    assert x == q' * size + r';
    if q' < q {
      MulMonotone(q' + 1, q, size);
      assert false;
    } else if q' > q {
      MulMonotone(q + 1, q', size);
      assert false;
    }
  }

  lemma MulMonotone(a: nat, b: nat, size: nat)
    requires a <= b
    ensures a * size <= b * size
  {
    assert b * size == a * size + (b - a) * size;
  }

  /** Two writes fewer than `size` apart go to different slots. */
  lemma SlotsDiffer(c: nat, d: nat, size: nat)
    requires 0 < d < size
    ensures SlotIndex(c, size) != SlotIndex(c + d, size)
  {
    var q, r := c / size, c % size;
    assert c == q * size + r;
    if r + d < size {
      ModOfSmallOffset(q, r + d, size);
      assert c + d == q * size + (r + d);
    } else {
      ModOfSmallOffset(q + 1, r + d - size, size);
      assert c + d == (q + 1) * size + (r + d - size);
    }
  }

  /** Two writes exactly `size` apart go to the same slot. */
  lemma SlotsApart(c: nat, d: nat, size: nat)
    requires size > 0 && d == c + size
    ensures SlotIndex(c, size) == SlotIndex(d, size)
  {
    var q, r := c / size, c % size;
    assert c == q * size + r;
    ModOfSmallOffset(q + 1, r, size);
    assert c + size == (q + 1) * size + r;
  }
}
