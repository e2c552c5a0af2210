/**
 * Shape normalisation of one recording: `extend_ts` (pad with zero rows or
 * truncate to a fixed number of rows, always two leads) and the transpose to
 * the channel-first layout the network consumes.
 */
module Signal {
  import opened Util

  /** A recording as rows of lead values: samples x leads. */
  type Matrix<T> = seq<seq<T>>

  /** Every normalised recording has two leads (columns). */
  const Leads := 2

  /** Every row of `m` has exactly `width` entries. */
  predicate HasWidth<T>(m: Matrix<T>, width: nat)
  {
    forall i :: 0 <= i < |m| ==> |m[i]| == width
  }

  /**
   * A row NumPy can assign into a two-lead row: it already has two values,
   * or it has one value, which broadcasting copies into both leads.
   */
  predicate Broadcastable<T>(row: seq<T>)
  {
    |row| == 1 || |row| == Leads
  }

  /** The rows of `ts` can be slice-assigned into a two-lead buffer. */
  predicate Assignable<T>(ts: Matrix<T>)
  {
    forall i :: 0 <= i < |ts| ==> Broadcastable(ts[i])
  }

  /** The two-lead row NumPy stores for `row`. */
  function AsLeads<T>(row: seq<T>): (r: seq<T>)
    requires Broadcastable(row)
    ensures |r| == Leads
  {
    if |row| == 1 then [row[0], row[0]] else row
  }

  /** `n` rows of two zero leads (the part of `np.zeros` nothing is assigned to). */
  function ZeroRows<T>(n: nat, zero: T): (r: Matrix<T>)
    ensures |r| == n
    ensures forall i :: 0 <= i < n ==> r[i] == [zero, zero]
  {
    if n == 0 then [] else ZeroRows(n - 1, zero) + [[zero, zero]]
  }

  /** The rows of `rows` as they are stored in the two-lead buffer. */
  function Assigned<T>(rows: Matrix<T>): (r: Matrix<T>)
    requires Assignable(rows)
    ensures |r| == |rows| && HasWidth(r, Leads)
  {
    seq(|rows|, i requires 0 <= i < |rows| && Assignable(rows) => AsLeads(rows[i]))
  }

  /**
   * `extend_ts(ts, length)` on values: a zero buffer of `length` two-lead rows
   * whose first `min(length, |ts|)` rows are replaced by those of `ts`.
   * Whatever the number of input rows (zero included), the result has exactly
   * `length` rows of two leads.
   */
  function Extended<T>(ts: Matrix<T>, length: nat, zero: T): (r: Matrix<T>)
    requires Assignable(ts)
    ensures |r| == length && HasWidth(r, Leads)
  {
    var kept := Min(length, |ts|);
    assert Assignable(ts[..kept]) by {
      forall i | 0 <= i < kept ensures Broadcastable(ts[..kept][i]) {
        assert ts[..kept][i] == ts[i];
      }
    }
    Assigned(ts[..kept]) + ZeroRows(length - kept, zero)
  }

  /** Row `i` of the extension is input row `i` for every row that is kept. */
  lemma ExtendedKeepsPrefix<T>(ts: Matrix<T>, length: nat, zero: T)
    requires Assignable(ts)
    ensures forall i :: 0 <= i < length && i < |ts| ==>
      Extended(ts, length, zero)[i] == AsLeads(ts[i])
    ensures HasWidth(ts, Leads) ==>
      forall i :: 0 <= i < length && i < |ts| ==> Extended(ts, length, zero)[i] == ts[i]
  {
    var kept := Min(length, |ts|);
    forall i | 0 <= i < kept
      ensures Extended(ts, length, zero)[i] == AsLeads(ts[i])
    {
      assert ts[..kept][i] == ts[i];
    }
  }

  /** Every row at an index the input does not reach is all zeros. */
  lemma ExtendedPadsWithZeros<T>(ts: Matrix<T>, length: nat, zero: T)
    requires Assignable(ts)
    ensures forall i :: |ts| <= i < length ==> Extended(ts, length, zero)[i] == [zero, zero]
  {
    var kept := Min(length, |ts|);
    var r := Extended(ts, length, zero);
    forall i | |ts| <= i < length
      ensures r[i] == [zero, zero]
    {
      assert kept == |ts|;
      assert r[i] == ZeroRows(length - kept, zero)[i - kept];
    }
  }

  /** Input rows beyond `length` are discarded: they have no influence on the result. */
  lemma ExtendedDiscardsTail<T>(ts: Matrix<T>, length: nat, zero: T)
    requires Assignable(ts) && length <= |ts|
    ensures Assignable(ts[..length])
    ensures Extended(ts, length, zero) == Extended(ts[..length], length, zero)
  {
  }

  /** On an input that already has `length` rows of two leads, extension is the identity. */
  lemma ExtendedIdentity<T>(ts: Matrix<T>, length: nat, zero: T)
    requires |ts| == length && HasWidth(ts, Leads)
    ensures Assignable(ts)
    ensures Extended(ts, length, zero) == ts
  {
  }

  /** Extending an already extended recording to the same length changes nothing. */
  lemma ExtendedIdempotent<T>(ts: Matrix<T>, length: nat, zero: T)
    requires Assignable(ts)
    ensures Assignable(Extended(ts, length, zero))
    ensures Extended(Extended(ts, length, zero), length, zero) == Extended(ts, length, zero)
  {
  }

  /**
   * `extend_ts(ts, length)` as the source runs it: allocate a zero buffer of
   * `length` x 2 and assign the first `min(length, |ts|)` rows into it.
   */
  method ExtendTs<T>(ts: Matrix<T>, length: nat, zero: T) returns (extended: array2<T>)
    requires Assignable(ts)
    ensures extended.Length0 == length && extended.Length1 == Leads
    ensures forall i, j :: 0 <= i < length && 0 <= j < Leads ==>
      extended[i, j] == Extended(ts, length, zero)[i][j]
  {
    extended := new T[length, Leads]((i, j) => zero);
    var siglength := Min(length, |ts|);
    var i := 0;
    while i < siglength
      invariant 0 <= i <= siglength
      invariant forall r, c :: 0 <= r < i && 0 <= c < Leads ==> extended[r, c] == AsLeads(ts[r])[c]
      invariant forall r, c :: i <= r < length && 0 <= c < Leads ==> extended[r, c] == zero
    {
      var row := AsLeads(ts[i]);
      extended[i, 0] := row[0];
      extended[i, 1] := row[1];
      i := i + 1;
    }
    ExtendedKeepsPrefix(ts, length, zero);
    ExtendedPadsWithZeros(ts, length, zero);
  }

  /** The `.T` of a matrix whose rows all have `width` entries. */
  function Transposed<T>(m: Matrix<T>, width: nat): (r: Matrix<T>)
    requires HasWidth(m, width)
    ensures |r| == width && HasWidth(r, |m|)
  {
    seq(width, j requires 0 <= j < width => seq(|m|, i requires 0 <= i < |m| => m[i][j]))
  }

  /** Entry (j, i) of the transpose is entry (i, j) of the matrix. */
  lemma TransposedAt<T>(m: Matrix<T>, width: nat, i: nat, j: nat)
    requires HasWidth(m, width) && i < |m| && j < width
    ensures Transposed(m, width)[j][i] == m[i][j]
  {
  }

  /** Transposing twice gives the matrix back: the transpose loses nothing. */
  lemma TransposedInvolution<T>(m: Matrix<T>, width: nat)
    requires HasWidth(m, width)
    ensures Transposed(Transposed(m, width), |m|) == m
  {
    var t := Transposed(m, width);
    var tt := Transposed(t, |m|);
    forall i | 0 <= i < |m|
      ensures tt[i] == m[i]
    {
      forall j | 0 <= j < width
        ensures tt[i][j] == m[i][j]
      {
        TransposedAt(t, |m|, j, i);
        TransposedAt(m, width, i, j);
      }
    }
  }
}
