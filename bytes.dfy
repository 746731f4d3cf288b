/** Bytes and byte strings as the image code writes them. */
module Bytes {

  newtype byte = x: int | 0 <= x < 256

  /** Rows laid end to end, first row first: what writing each row in turn
      produces. */
  function Flatten(rows: seq<seq<byte>>): seq<byte> {
    if |rows| == 0 then [] else Flatten(rows[..|rows| - 1]) + rows[|rows| - 1]
  }

  /** Every row holds `n` bytes. */
  predicate Uniform(rows: seq<seq<byte>>, n: nat) {
    forall i :: 0 <= i < |rows| ==> |rows[i]| == n
  }

  /** Rows of `n` bytes each flatten to `|rows| * n` bytes. */
  lemma {:induction false} FlattenLength(rows: seq<seq<byte>>, n: nat)
    requires Uniform(rows, n)
    ensures |Flatten(rows)| == |rows| * n
  {
    if |rows| > 0 {
      FlattenLength(rows[..|rows| - 1], n);
      assert |rows| * n == (|rows| - 1) * n + n;
    }
  }

  /** The layout is row-major: byte `m` of row `i` sits at offset `i * n + m`
      of the flattened rows. */
  lemma {:induction false} FlattenAt(rows: seq<seq<byte>>, n: nat, i: int, m: int)
    requires Uniform(rows, n) && 0 <= i < |rows| && 0 <= m < n
    ensures i * n + m < |Flatten(rows)| && Flatten(rows)[i * n + m] == rows[i][m]
  {
    var last := |rows| - 1;
    var init := rows[..last];
    FlattenLength(init, n);
    if i < last {
      FlattenAt(init, n, i, m);
    } else {
      assert i * n == |Flatten(init)|;
    }
  }
}
