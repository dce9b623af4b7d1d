/** Sequence helpers shared by the image buffers and the BMP codecs:
    concatenation of rows into one row-major buffer and row reversal
    (bottom-up files). */
module Seqs {

  /** The concatenation of all rows, first row first. */
  function Flatten<T>(rows: seq<seq<T>>): seq<T> {
    if |rows| == 0 then [] else rows[0] + Flatten(rows[1..])
  }

  /** The rows in the opposite order. */
  function Reverse<T>(s: seq<T>): (r: seq<T>)
    ensures |r| == |s|
    ensures forall i :: 0 <= i < |s| ==> r[i] == s[|s| - 1 - i]
  {
    seq(|s|, i requires 0 <= i < |s| => s[|s| - 1 - i])
  }

  /** Every row has exactly width w. */
  predicate AllWidth<T>(rows: seq<seq<T>>, w: nat) {
    forall i :: 0 <= i < |rows| ==> |rows[i]| == w
  }

  lemma {:induction false} FlattenLength<T>(rows: seq<seq<T>>, w: nat)
    requires AllWidth(rows, w)
    ensures |Flatten(rows)| == |rows| * w
  {
    if |rows| > 0 {
      FlattenLength(rows[1..], w);
    }
  }

  lemma ReverseReverse<T>(s: seq<T>)
    ensures Reverse(Reverse(s)) == s
  {
    assert forall i :: 0 <= i < |s| ==> Reverse(Reverse(s))[i] == s[i];
  }

  /** Replacing row y of equal-width rows replaces the slice
      [y·w, (y+1)·w) of the flat buffer and nothing else. */
  lemma {:induction false} FlattenUpdate<T>(rows: seq<seq<T>>, w: nat, y: nat, row: seq<T>)
    requires AllWidth(rows, w) && y < |rows| && |row| == w
    ensures |Flatten(rows)| == |rows| * w
    ensures y * w + w <= |Flatten(rows)|
    ensures Flatten(rows[y := row]) == Flatten(rows)[..y * w] + row + Flatten(rows)[y * w + w..]
  {
    FlattenLength(rows, w);
    if y == 0 {
      assert rows[y := row][1..] == rows[1..];
    } else {
      FlattenUpdate(rows[1..], w, y - 1, row);
      UpdateBelowHead(rows, w, y, row);
    }
  }

  /** The step of FlattenUpdate below the first row: the replaced slice of
      the flattened tail shifts by one row's width. */
  lemma UpdateBelowHead<T>(rows: seq<seq<T>>, w: nat, y: nat, row: seq<T>)
    requires 0 < y < |rows| && |row| == w && |rows[0]| == w
    requires (y - 1) * w + w <= |Flatten(rows[1..])|
    requires Flatten(rows[1..][y - 1 := row])
          == Flatten(rows[1..])[..(y - 1) * w] + row + Flatten(rows[1..])[(y - 1) * w + w..]
    ensures y * w + w <= |Flatten(rows)|
    ensures Flatten(rows[y := row]) == Flatten(rows)[..y * w] + row + Flatten(rows)[y * w + w..]
  {
    MulPred(y, w);
    FlattenReplaceBelowHead(rows, y, row);
    HeadSplice(rows[0], Flatten(rows[1..]), (y - 1) * w, row);
  }

  /** Replacing a row below the first keeps the first row in front. */
  lemma FlattenReplaceBelowHead<T>(rows: seq<seq<T>>, y: nat, row: seq<T>)
    requires 0 < y < |rows|
    ensures Flatten(rows) == rows[0] + Flatten(rows[1..])
    ensures Flatten(rows[y := row]) == rows[0] + Flatten(rows[1..][y - 1 := row])
  {
    assert rows[y := row][1..] == rows[1..][y - 1 := row];
  }

  /** Replacing a slice of the part after a head of width |h| replaces the
      slice shifted by |h|. */
  lemma HeadSplice<T>(h: seq<T>, f: seq<T>, k: nat, row: seq<T>)
    requires k + |row| <= |f|
    ensures h + (f[..k] + row + f[k + |row|..])
         == (h + f)[..|h| + k] + row + (h + f)[|h| + k + |row|..]
  {
    assert (h + f)[..|h| + k] == h + f[..k];
    assert (h + f)[|h| + k + |row|..] == f[k + |row|..];
  }

  /** Dropping `offset` elements and then `start` more drops offset + start. */
  lemma SliceShift<T>(s: seq<T>, offset: nat, start: nat)
    requires offset + start <= |s|
    ensures s[offset..][start..] == s[offset + start..]
  {
  }

  /** One more row of width w: y·w = (y − 1)·w + w. */
  lemma MulPred(y: nat, w: nat)
    requires y > 0
    ensures 0 <= (y - 1) * w && y * w == (y - 1) * w + w
  {
  }

  /** Row y of equal-width rows sits at [y·w, (y+1)·w) of the flat buffer,
      so its element x is element y·w + x. */
  lemma {:induction false} FlattenIndex<T>(rows: seq<seq<T>>, w: nat, y: nat, x: nat)
    requires AllWidth(rows, w) && y < |rows| && x < w
    ensures |Flatten(rows)| == |rows| * w
    ensures y * w + x < |Flatten(rows)|
    ensures Flatten(rows)[y * w + x] == rows[y][x]
  {
    FlattenLength(rows, w);
    if y > 0 {
      FlattenIndex(rows[1..], w, y - 1, x);
      assert (y - 1) * w + x + w == y * w + x;
    }
  }

  /** n copies of x: a buffer filled with one value (std::vector(n, x),
      a zero-initialised allocation). */
  function Repeat<T>(x: T, n: nat): (r: seq<T>)
    ensures |r| == n && forall i :: 0 <= i < n ==> r[i] == x
  {
    seq(n, _ => x)
  }

  /** Row y of equal-width rows is the slice [y·w, (y+1)·w) of the flat
      buffer. */
  lemma FlattenSlice<T>(rows: seq<seq<T>>, w: nat, y: nat)
    requires AllWidth(rows, w) && y < |rows|
    ensures |Flatten(rows)| == |rows| * w
    ensures y * w + w <= |Flatten(rows)|
    ensures Flatten(rows)[y * w..y * w + w] == rows[y]
  {
    FlattenUpdate(rows, w, y, rows[y]);
    assert rows[y := rows[y]] == rows;
  }

  /** The first k + 1 elements of the reversal extend the first k by the
      element k places from the end. */
  lemma ReversePrefix<T>(s: seq<T>, k: nat)
    requires k < |s|
    ensures Reverse(s)[..k + 1] == Reverse(s)[..k] + [s[|s| - 1 - k]]
  {
    var r := Reverse(s);
    assert r[k] == s[|s| - 1 - k];
    assert r[..k + 1] == r[..k] + [r[k]];
  }

  /** s with the elements from pos on overwritten by t (a copy into a
      buffer): the result has the same length, holds t at pos and s
      everywhere else. */
  function Splice<T>(s: seq<T>, pos: nat, t: seq<T>): (r: seq<T>)
    requires pos + |t| <= |s|
    ensures |r| == |s| && r[..pos] == s[..pos] && r[pos..pos + |t|] == t
    ensures r[pos + |t|..] == s[pos + |t|..]
  {
    s[..pos] + t + s[pos + |t|..]
  }

  lemma SliceSplit<T>(s: seq<T>, j: nat, k: nat)
    requires j <= k <= |s|
    ensures s[..k] == s[..j] + s[j..k]
  {
  }

  /** h rows of w copies of x, laid end to end, are w·h copies of x. */
  lemma {:induction false} FlattenRepeat<T>(x: T, w: nat, h: nat)
    ensures Flatten(Repeat(Repeat(x, w), h)) == Repeat(x, w * h)
  {
    if h > 0 {
      var rows := Repeat(Repeat(x, w), h);
      assert rows[1..] == Repeat(Repeat(x, w), h - 1);
      FlattenRepeat(x, w, h - 1);
      assert w * h == w + w * (h - 1);
      assert Repeat(x, w) + Repeat(x, w * (h - 1)) == Repeat(x, w * h);
    }
  }

  /** Overwriting element x of row y of equal-width rows overwrites
      element y·w + x of the flat buffer. */
  lemma {:induction false} FlattenStore<T>(rows: seq<seq<T>>, w: nat, x: nat, y: nat, v: T)
    requires AllWidth(rows, w) && x < w && y < |rows|
    ensures y * w + x < |Flatten(rows)|
    ensures Flatten(rows)[y * w + x := v] == Flatten(rows[y := rows[y][x := v]])
  {
    FlattenLength(rows, w);
    var tail := rows[1..];
    var f := Flatten(tail);
    assert Flatten(rows) == rows[0] + f;
    if y == 0 {
      assert rows[y := rows[y][x := v]][1..] == tail;
      ConcatStore(rows[0], f, x, v);
    } else {
      FlattenStore(tail, w, x, y - 1, v);
      StoreBelowHead(rows, w, x, y, v);
    }
  }

  /** The step of FlattenStore below the first row: a store into the
      flattened tail shifts by one row's width. */
  lemma StoreBelowHead<T>(rows: seq<seq<T>>, w: nat, x: nat, y: nat, v: T)
    requires AllWidth(rows, w) && x < w && 0 < y < |rows|
    requires (y - 1) * w + x < |Flatten(rows[1..])|
    requires Flatten(rows[1..])[(y - 1) * w + x := v] == Flatten(rows[1..][y - 1 := rows[1..][y - 1][x := v]])
    ensures Flatten(rows)[y * w + x := v] == Flatten(rows[y := rows[y][x := v]])
  {
    var tail := rows[1..];
    var f := Flatten(tail);
    var j := (y - 1) * w + x;
    MulPred(y, w);
    assert Flatten(rows) == rows[0] + f;
    assert |rows[0]| + j == y * w + x;
    assert rows[y := rows[y][x := v]][1..] == tail[y - 1 := tail[y - 1][x := v]];
    StoreConcat(rows[0], f, j, v);
  }

  /** Overwriting an element of the first part of a concatenation. */
  lemma ConcatStore<T>(a: seq<T>, b: seq<T>, j: nat, v: T)
    requires j < |a|
    ensures (a + b)[j := v] == a[j := v] + b
  {
  }

  /** Overwriting an element of the second part of a concatenation. */
  lemma StoreConcat<T>(a: seq<T>, b: seq<T>, j: nat, v: T)
    requires j < |b|
    ensures (a + b)[|a| + j := v] == a + b[j := v]
  {
  }
}
