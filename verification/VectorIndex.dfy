/** The resident int8 vector index (`VectorIndex`): parallel vectors of keys, codes and scales
    with a position map, standing for one map from key to quantised row. */
module VectorIndex {
  import opened Arithmetic
  import opened Options
  import opened Quantise
  import opened TopK

  /** A float as a caller may hand it in. */
  datatype Float = Finite(value: real) | NonFinite

  datatype Failure =
    | ZeroDimension
    | DimMismatch(expected: nat, got: nat)
    | Corrupt(key: int, at: nat)
    | CorruptQuery(at: nat)
    | BadShape(floats: nat, keys: nat)

  datatype Outcome<+T> = Ok(value: T) | Err(error: Failure)

  // ---------------------------------------------------------------- floats

  ghost predicate AllFinite(vec: seq<Float>)
  {
    forall i :: 0 <= i < |vec| ==> vec[i].Finite?
  }

  /** The first component that is not finite. */
  function FirstBad(vec: seq<Float>, from: nat): (r: Option<nat>)
    requires from <= |vec|
    ensures r.None? <==> AllFinite(vec[from..])
    ensures r.Some? ==> from <= r.value < |vec| && vec[r.value].NonFinite?
    ensures r.Some? ==> forall i :: from <= i < r.value ==> vec[i].Finite?
    decreases |vec| - from
  {
    if from == |vec| then None
    else if vec[from].NonFinite? then assert vec[from..][0].NonFinite?; Some(from)
    else assert vec[from..] == [vec[from]] + vec[from + 1..]; FirstBad(vec, from + 1)
  }

  /** Position `p` holds the first component that is not finite. */
  ghost predicate FirstCorrupt(flat: seq<Float>, p: nat)
  {
    p < |flat| && flat[p].NonFinite? && forall q :: 0 <= q < p ==> flat[q].Finite?
  }

  function Values(vec: seq<Float>): (r: seq<real>)
    requires AllFinite(vec)
    ensures |r| == |vec| && forall i :: 0 <= i < |vec| ==> r[i] == vec[i].value
  {
    seq(|vec|, i requires 0 <= i < |vec| => vec[i].value)
  }

  /** Rejects a vector the index cannot store: wrong length, or a component that is not finite. */
  function Check(dim: nat, key: int, vec: seq<Float>): (r: Outcome<seq<real>>)
    ensures r.Ok? <==> |vec| == dim && AllFinite(vec)
    ensures r.Ok? ==> r.value == Values(vec)
    ensures |vec| != dim ==> r == Err(DimMismatch(dim, |vec|))
    ensures |vec| == dim && r.Err? ==> r.error.Corrupt? && r.error.key == key && FirstCorrupt(vec, r.error.at)
  {
    assert vec[0..] == vec;
    if |vec| != dim then Err(DimMismatch(dim, |vec|))
    else match FirstBad(vec, 0)
      case Some(i) => Err(Corrupt(key, i))
      case None => Ok(Values(vec))
  }

  // ---------------------------------------------------------------- flat storage

  function Slice<T>(s: seq<T>, dim: nat, i: nat): (r: seq<T>)
    requires Times(i + 1, dim) <= |s|
    ensures |r| == dim
  {
    s[Times(i, dim)..Times(i + 1, dim)]
  }

  function RowAt(codes: seq<int>, scales: seq<real>, dim: nat, i: nat): (r: Row)
    requires i < |scales| && |codes| == Times(|scales|, dim)
    ensures |r.codes| == dim
  {
    RowFits(i, |scales|, dim);
    Row(Slice(codes, dim, i), scales[i])
  }

  ghost predicate Aligned(dim: nat, keys: seq<int>, codes: seq<int>, scales: seq<real>)
  {
    dim > 0 && |scales| == |keys| && |codes| == Times(|scales|, dim)
  }

  /** `pos` is the inverse of `keys`; so no key occurs twice. */
  ghost predicate Inverse(keys: seq<int>, pos: map<int, nat>)
  {
    && (forall i :: 0 <= i < |keys| ==> keys[i] in pos && pos[keys[i]] == i)
    && (forall key :: key in pos ==> pos[key] < |keys| && keys[pos[key]] == key)
  }

  /** The map an index stands for. */
  ghost function RowsOf(dim: nat, keys: seq<int>, codes: seq<int>, scales: seq<real>, pos: map<int, nat>):
      (rows: map<int, Row>)
    requires Aligned(dim, keys, codes, scales) && Inverse(keys, pos)
    ensures rows.Keys == pos.Keys
    ensures forall key :: key in rows ==> |rows[key].codes| == dim
  {
    map key | key in pos :: RowAt(codes, scales, dim, pos[key])
  }

  /** `after` is `before` with the row that starts at `base` overwritten. */
  ghost predicate Overwritten(before: seq<int>, after: seq<int>, base: nat, row: seq<int>)
  {
    && base + |row| <= |after| == |before|
    && (forall p :: 0 <= p < |before| && !(base <= p < base + |row|) ==> after[p] == before[p])
    && (forall p :: base <= p < base + |row| ==> after[p] == row[p - base])
  }

  lemma OverwrittenRow(before: seq<int>, after: seq<int>, dim: nat, i: nat, row: seq<int>, j: nat)
    requires Overwritten(before, after, Times(i, dim), row) && |row| == dim && Times(j + 1, dim) <= |before|
    ensures Slice(after, dim, j) == if j == i then row else Slice(before, dim, j)
  {
    RowFits(j, j + 1, dim);
    if j < i { RowFits(j, i, dim); }
    if i < j { RowFits(i, j, dim); }
  }

  lemma ReplacedRow(dim: nat, keys: seq<int>, before: seq<int>, after: seq<int>, scales: seq<real>,
                    newScales: seq<real>, pos: map<int, nat>, key: int, row: Row)
    requires Aligned(dim, keys, before, scales) && Inverse(keys, pos) && key in pos && |row.codes| == dim
    requires Overwritten(before, after, Times(pos[key], dim), row.codes)
    requires newScales == scales[pos[key] := row.scale]
    ensures RowsOf(dim, keys, after, newScales, pos) == RowsOf(dim, keys, before, scales, pos)[key := row]
  {
    var rows, was := RowsOf(dim, keys, after, newScales, pos), RowsOf(dim, keys, before, scales, pos);
    forall k | k in pos ensures rows[k] == if k == key then row else was[k] {
      RowFits(pos[k], |keys|, dim);
      OverwrittenRow(before, after, dim, pos[key], row.codes, pos[k]);
    }
  }

  lemma AppendedRow(dim: nat, before: seq<int>, scales: seq<real>, row: Row, j: nat)
    requires |before| == Times(|scales|, dim) && |row.codes| == dim && j <= |scales|
    requires |before + row.codes| == Times(|scales| + 1, dim)
    ensures RowAt(before + row.codes, scales + [row.scale], dim, j)
      == if j == |scales| then row else RowAt(before, scales, dim, j)
  {
    var n, after := |scales|, before + row.codes;
    RowFits(j, n + 1, dim);
    if j < n {
      RowFits(j, n, dim);
      assert after[Times(j, dim)..Times(j + 1, dim)] == before[Times(j, dim)..Times(j + 1, dim)];
    } else {
      assert after[Times(n, dim)..Times(n + 1, dim)] == row.codes;
    }
  }

  lemma AddedRow(dim: nat, keys: seq<int>, before: seq<int>, after: seq<int>, scales: seq<real>,
                 newScales: seq<real>, pos: map<int, nat>, key: int, row: Row)
    requires Aligned(dim, keys, before, scales) && Inverse(keys, pos) && key !in pos
    requires after == before + row.codes && newScales == scales + [row.scale] && |row.codes| == dim
    ensures Aligned(dim, keys + [key], after, newScales) && Inverse(keys + [key], pos[key := |keys|])
    ensures RowsOf(dim, keys + [key], after, newScales, pos[key := |keys|])
      == RowsOf(dim, keys, before, scales, pos)[key := row]
  {
    var n := |keys|;
    var newKeys, newPos := keys + [key], pos[key := n];
    RowFits(n, n + 1, dim);
    AddedKey(keys, pos, key);
    var rows, was := RowsOf(dim, newKeys, after, newScales, newPos), RowsOf(dim, keys, before, scales, pos);
    forall k | k in newPos ensures rows[k] == if k == key then row else was[k] {
      AppendedRow(dim, before, scales, row, newPos[k]);
    }
  }

  lemma PlaceOf(keys: seq<int>, pos: map<int, nat>, key: int)
    requires Inverse(keys, pos) && key in pos
    ensures pos[key] < |keys| && keys[pos[key]] == key
  {}

  lemma NoRows(keys: seq<int>, pos: map<int, nat>)
    requires Inverse(keys, pos)
    ensures pos.Keys != {} ==> keys != []
  {
    forall key: int ensures key in pos.Keys ==> |keys| > 0 {
      if key in pos { PlaceOf(keys, pos, key); }
    }
  }

  lemma AddedKey(keys: seq<int>, pos: map<int, nat>, key: int)
    requires Inverse(keys, pos) && key !in pos
    ensures Inverse(keys + [key], pos[key := |keys|])
  {}

  /** Which row stands at `j` once the last row has moved into the hole. */
  function MovedFrom(j: nat, hole: nat, last: nat): nat
  {
    if j == hole then last else j
  }

  /** The rows left after the last row has taken the place of the removed one. */
  lemma RemovedRow(dim: nat, keys: seq<int>, before: seq<int>, after: seq<int>, scales: seq<real>,
                   newScales: seq<real>, pos: map<int, nat>, newPos: map<int, nat>, newKeys: seq<int>, key: int)
    requires Aligned(dim, keys, before, scales) && Inverse(keys, pos) && key in pos
    requires Aligned(dim, newKeys, after, newScales) && |newKeys| == |keys| - 1
    requires forall j :: 0 <= j < |newKeys| ==>
      RowAt(after, newScales, dim, j) == RowAt(before, scales, dim, MovedFrom(j, pos[key], |newKeys|))
    requires Inverse(newKeys, newPos) && newPos.Keys == pos.Keys - {key}
    requires forall k :: k in newPos ==> pos[k] == MovedFrom(newPos[k], pos[key], |newKeys|)
    ensures RowsOf(dim, newKeys, after, newScales, newPos) == RowsOf(dim, keys, before, scales, pos) - {key}
  {
    var rows, was := RowsOf(dim, newKeys, after, newScales, newPos), RowsOf(dim, keys, before, scales, pos);
    forall k | k in newPos ensures rows[k] == was[k] {
      var j := newPos[k];
      assert RowAt(after, newScales, dim, j) == RowAt(before, scales, dim, MovedFrom(j, pos[key], |newKeys|));
    }
  }

  /** Dropping the last row after copying it over row `i`. */
  ghost function SwapRemoved(codes: seq<int>, dim: nat, i: nat, last: nat): seq<int>
    requires i <= last && |codes| == Times(last + 1, dim)
  {
    RowFits(i, last + 1, dim);
    RowFits(last, last + 1, dim);
    (codes[..Times(i, dim)] + Slice(codes, dim, last) + codes[Times(i + 1, dim)..])[..Times(last, dim)]
  }

  lemma SwapRemovedAt(codes: seq<int>, dim: nat, i: nat, last: nat, p: nat)
    requires i <= last && |codes| == Times(last + 1, dim) && p < Times(last, dim)
    ensures |SwapRemoved(codes, dim, i, last)| == Times(last, dim) && Times(last, dim) + dim == |codes|
    ensures p < Times(i, dim) || p >= Times(i, dim) + dim ==> SwapRemoved(codes, dim, i, last)[p] == codes[p]
    ensures Times(i, dim) <= p < Times(i, dim) + dim ==>
      SwapRemoved(codes, dim, i, last)[p] == codes[Times(last, dim) + (p - Times(i, dim))]
  {
    RowFits(i, last + 1, dim);
    RowFits(last, last + 1, dim);
    if i < last { RowFits(i, last, dim); }
  }

  lemma MovedRow(codes: seq<int>, dim: nat, i: nat, last: nat, j: nat)
    requires i <= last && j < last && |codes| == Times(last + 1, dim)
    ensures |SwapRemoved(codes, dim, i, last)| == Times(last, dim)
    ensures Times(j + 1, dim) <= Times(last, dim) && Times(MovedFrom(j, i, last) + 1, dim) <= |codes|
    ensures Slice(SwapRemoved(codes, dim, i, last), dim, j) == Slice(codes, dim, MovedFrom(j, i, last))
  {
    var after, from := SwapRemoved(codes, dim, i, last), MovedFrom(j, i, last);
    RowFits(i, last + 1, dim);
    RowFits(j, last, dim);
    RowFits(last, last + 1, dim);
    if j < i { RowFits(j, i, dim); }
    if i < j { RowFits(i, j, dim); }
    if i < last { RowFits(i, last, dim); }
    forall p: nat | Times(j, dim) <= p < Times(j + 1, dim)
      ensures after[p] == codes[Times(from, dim) + (p - Times(j, dim))] {
      SwapRemovedAt(codes, dim, i, last, p);
    }
    SameRow(after, codes, dim, j, from);
  }

  lemma SameRow(a: seq<int>, b: seq<int>, dim: nat, i: nat, j: nat)
    requires Times(i + 1, dim) <= |a| && Times(j + 1, dim) <= |b|
    requires forall p :: Times(i, dim) <= p < Times(i + 1, dim) ==> a[p] == b[Times(j, dim) + (p - Times(i, dim))]
    ensures Slice(a, dim, i) == Slice(b, dim, j)
  {
    forall t | 0 <= t < dim ensures Slice(a, dim, i)[t] == Slice(b, dim, j)[t] {
      assert a[Times(i, dim) + t] == b[Times(j, dim) + t];
    }
  }

  lemma RemovedKey(keys: seq<int>, pos: map<int, nat>, key: int, newKeys: seq<int>, newPos: map<int, nat>)
    requires Inverse(keys, pos) && key in pos && |newKeys| == |keys| - 1
    requires forall j :: 0 <= j < |newKeys| ==> newKeys[j] == keys[MovedFrom(j, pos[key], |newKeys|)]
    requires newPos.Keys == pos.Keys - {key}
    requires forall k :: k in newPos ==> newPos[k] == if pos[k] == |newKeys| then pos[key] else pos[k]
    ensures Inverse(newKeys, newPos)
    ensures forall k :: k in newPos ==> pos[k] == MovedFrom(newPos[k], pos[key], |newKeys|)
  {
    forall k | k in newPos ensures newPos[k] < |newKeys| && newKeys[newPos[k]] == k {
      assert k != key && keys[pos[k]] == k && keys[pos[key]] == key;
    }
    forall j | 0 <= j < |newKeys| ensures newKeys[j] in newPos && newPos[newKeys[j]] == j {
      assert pos[newKeys[j]] == MovedFrom(j, pos[key], |newKeys|);
    }
  }

  lemma RemovedIndex(dim: nat, keys: seq<int>, after: seq<int>, codes: seq<int>, scales: seq<real>,
                     pos: map<int, nat>, key: int, newKeys: seq<int>, newScales: seq<real>, newPos: map<int, nat>)
    requires Aligned(dim, keys, codes, scales) && Inverse(keys, pos) && key in pos
    requires |newKeys| == |newScales| == |keys| - 1 && pos[key] <= |newKeys| && |codes| == Times(|newKeys| + 1, dim)
    requires newKeys == keys[pos[key] := keys[|newKeys|]][..|newKeys|]
    requires newScales == scales[pos[key] := scales[|newKeys|]][..|newKeys|]
    requires after == SwapRemoved(codes, dim, pos[key], |newKeys|)
    requires newPos == if pos[key] == |newKeys| then pos - {key} else (pos - {key})[keys[|newKeys|] := pos[key]]
    ensures Aligned(dim, newKeys, after, newScales) && Inverse(newKeys, newPos)
    ensures RowsOf(dim, newKeys, after, newScales, newPos) == RowsOf(dim, keys, codes, scales, pos) - {key}
  {
    var i, last := pos[key], |newKeys|;
    RemovedPlaces(keys, pos, key, last, newPos);
    RemovedKey(keys, pos, key, newKeys, newPos);
    RowFits(last, last + 1, dim);
    RowFits(i, last + 1, dim);
    if i < last { RowFits(i, last, dim); }
    forall j | 0 <= j < last
      ensures RowAt(after, newScales, dim, j) == RowAt(codes, scales, dim, MovedFrom(j, i, last)) {
      MovedRow(codes, dim, i, last, j);
    }
    RemovedRow(dim, keys, codes, after, scales, newScales, pos, newPos, newKeys, key);
  }

  lemma RemovedPlaces(keys: seq<int>, pos: map<int, nat>, key: int, last: nat, newPos: map<int, nat>)
    requires Inverse(keys, pos) && key in pos && last == |keys| - 1
    requires newPos == if pos[key] == last then pos - {key} else (pos - {key})[keys[last] := pos[key]]
    ensures newPos.Keys == pos.Keys - {key}
    ensures forall k :: k in newPos ==> newPos[k] == if pos[k] == last then pos[key] else pos[k]
  {
    assert keys[last] in pos && pos[keys[last]] == last && keys[pos[key]] == key;
    forall k | k in newPos ensures newPos[k] == if pos[k] == last then pos[key] else pos[k] {
      if pos[k] == last { assert keys[pos[k]] == k; }
    }
  }

  // ---------------------------------------------------------------- batches

  /** The error names the key of row `i` and the place in it of the first component of the
      whole batch that is not finite. */
  ghost predicate RowIsCorrupt(dim: nat, batch: seq<int>, flat: seq<Float>, i: nat, at: nat, error: Failure)
  {
    i < |batch| && at < dim && error == Corrupt(batch[i], at) && FirstCorrupt(flat, Times(i, dim) + at)
  }

  lemma CorruptPlace(flat: seq<Float>, dim: nat, i: nat, at: nat)
    requires Times(i + 1, dim) <= |flat| && FirstBad(Slice(flat, dim, i), 0) == Some(at)
    requires forall p :: 0 <= p < Times(i, dim) ==> flat[p].Finite?
    ensures at < dim && FirstCorrupt(flat, Times(i, dim) + at)
  {
    forall q | 0 <= q < Times(i, dim) + at ensures flat[q].Finite? {
      if q >= Times(i, dim) { assert Slice(flat, dim, i)[q - Times(i, dim)] == flat[q]; }
    }
  }

  lemma RowIsFinite(flat: seq<Float>, dim: nat, i: nat)
    requires Times(i + 1, dim) <= |flat| && AllFinite(Slice(flat, dim, i))
    ensures forall p :: Times(i, dim) <= p < Times(i + 1, dim) ==> flat[p].Finite?
  {
    forall p | Times(i, dim) <= p < Times(i + 1, dim) ensures flat[p].Finite? {
      assert flat[p] == Slice(flat, dim, i)[p - Times(i, dim)];
    }
  }

  lemma SliceIsFinite(flat: seq<Float>, dim: nat, i: nat)
    requires Times(i + 1, dim) <= |flat| && AllFinite(flat)
    ensures AllFinite(Slice(flat, dim, i))
  {}

  /** The stored form of row `i` of a batch. */
  ghost function BatchRow(sqrt: real -> real, dim: nat, flat: seq<Float>, i: nat): (row: Row)
    requires Times(i + 1, dim) <= |flat| && AllFinite(flat)
    ensures |row.codes| == dim
  {
    SliceIsFinite(flat, dim, i);
    Quantised(sqrt, Values(Slice(flat, dim, i)))
  }

  ghost function BatchRows(sqrt: real -> real, dim: nat, flat: seq<Float>, n: nat): (r: seq<Row>)
    requires |flat| == Times(n, dim) && AllFinite(flat)
    ensures |r| == n
  {
    seq(n, i requires 0 <= i < n => RowFits(i, n, dim); BatchRow(sqrt, dim, flat, i))
  }

  /** The map after a batch, row by row in order. */
  ghost function StoredAll(rows: map<int, Row>, batch: seq<int>, added: seq<Row>): map<int, Row>
    requires |batch| == |added|
  {
    if batch == [] then rows
    else
      var n := |batch| - 1;
      StoredAll(rows, batch[..n], added[..n])[batch[n] := added[n]]
  }

  lemma StoredOneMore(rows: map<int, Row>, batch: seq<int>, added: seq<Row>, i: nat)
    requires i < |batch| == |added|
    ensures StoredAll(rows, batch[..i + 1], added[..i + 1])
      == StoredAll(rows, batch[..i], added[..i])[batch[i] := added[i]]
  {
    assert batch[..i + 1][..i] == batch[..i] && added[..i + 1][..i] == added[..i];
  }

  /** A batch leaves alone what it does not name. */
  lemma {:induction false} BatchKeepsOthers(rows: map<int, Row>, batch: seq<int>, added: seq<Row>, key: int)
    requires |batch| == |added| && key !in batch
    ensures var after := StoredAll(rows, batch, added);
            (key in after <==> key in rows) && (key in rows ==> after[key] == rows[key])
  {
    if batch != [] {
      var n := |batch| - 1;
      assert batch[n] in batch;
      BatchKeepsOthers(rows, batch[..n], added[..n], key);
    }
  }

  /** Of the rows of a batch with one key, the last wins. */
  lemma {:induction false} LastRowWins(rows: map<int, Row>, batch: seq<int>, added: seq<Row>, i: nat)
    requires i < |batch| == |added|
    requires forall j :: i < j < |batch| ==> batch[j] != batch[i]
    ensures var after := StoredAll(rows, batch, added);
            batch[i] in after && after[batch[i]] == added[i]
  {
    var n := |batch| - 1;
    if i < n { LastRowWins(rows, batch[..n], added[..n], i); }
  }

  /** `vec` is the `i`-th stretch of `dim` floats. */
  ghost predicate IsStretch(flat: seq<Float>, dim: nat, i: nat, vec: seq<real>)
  {
    |vec| == dim && forall t :: 0 <= t < dim ==> 0 <= i * dim + t < |flat| && flat[i * dim + t] == Finite(vec[t])
  }

  lemma SliceIsStretch(flat: seq<Float>, dim: nat, i: nat, vec: seq<real>)
    requires Times(i + 1, dim) <= |flat| && AllFinite(Slice(flat, dim, i)) && IsStretch(flat, dim, i, vec)
    ensures Values(Slice(flat, dim, i)) == vec
  {
    TimesIsProduct(i, dim);
    forall t | 0 <= t < dim ensures Slice(flat, dim, i)[t].value == vec[t] {
      assert flat[i * dim + t] == Finite(vec[t]);
    }
  }

  lemma BatchRowIs(sqrt: real -> real, dim: nat, flat: seq<Float>, n: nat, i: nat, vec: seq<real>)
    requires |flat| == Times(n, dim) && AllFinite(flat) && i < n && IsStretch(flat, dim, i, vec)
    ensures BatchRows(sqrt, dim, flat, n)[i] == Quantised(sqrt, vec)
  {
    hide Quantised, AllFinite, IsStretch, Slice;
    RowFits(i, n, dim);
    SliceIsFinite(flat, dim, i);
    SliceIsStretch(flat, dim, i, vec);
  }

  /** Of a batch, each key that no later row names ends up with the vector that is its own
      stretch of the floats. */
  lemma BatchStoresRows(sqrt: real -> real, dim: nat, rows: map<int, Row>, batch: seq<int>, flat: seq<Float>, i: nat,
                        vec: seq<real>)
    requires |flat| == Times(|batch|, dim) && AllFinite(flat) && i < |batch| && IsStretch(flat, dim, i, vec)
    requires forall j :: i < j < |batch| ==> batch[j] != batch[i]
    ensures var after := StoredAll(rows, batch, BatchRows(sqrt, dim, flat, |batch|));
            batch[i] in after && after[batch[i]] == Quantised(sqrt, vec)
  {
    hide Quantised, AllFinite, IsStretch, BatchRows, StoredAll;
    LastRowWins(rows, batch, BatchRows(sqrt, dim, flat, |batch|), i);
    BatchRowIs(sqrt, dim, flat, |batch|, i, vec);
  }

  // ---------------------------------------------------------------- searching

  /** The listed keys that are present, in order. */
  function Known(list: seq<int>, present: set<int>): seq<int>
  {
    if list == [] then []
    else
      var before, last := Known(list[..|list| - 1], present), list[|list| - 1];
      if last in present then before + [last] else before
  }

  lemma {:induction false} KnownTwice(list: seq<int>, present: set<int>)
    ensures (forall i :: 0 <= i < |list| ==> list[i] in present) ==> Known(list, present) == list
    ensures forall i :: 0 <= i < |Known(list, present)| ==> Known(list, present)[i] in present
  {
    if list != [] {
      KnownTwice(list[..|list| - 1], present);
      assert list == list[..|list| - 1] + [list[|list| - 1]];
    }
  }

  lemma KnownFits(rows: map<int, Row>, dim: nat, list: seq<int>)
    requires forall key :: key in rows ==> |rows[key].codes| == dim
    ensures forall i :: 0 <= i < |Known(list, rows.Keys)| ==>
      Known(list, rows.Keys)[i] in rows && |rows[Known(list, rows.Keys)[i]].codes| == dim
  {
    KnownTwice(list, rows.Keys);
    forall i | 0 <= i < |Known(list, rows.Keys)| ensures Known(list, rows.Keys)[i] in rows {
      assert Known(list, rows.Keys)[i] in rows.Keys;
    }
  }

  function KeysAt(keys: seq<int>, rows: seq<nat>): (r: seq<int>)
    requires forall j :: 0 <= j < |rows| ==> rows[j] < |keys|
    ensures |r| == |rows|
  {
    seq(|rows|, j requires 0 <= j < |rows| => keys[rows[j]])
  }

  function HitsOver(rows: map<int, Row>, q: seq<real>, list: seq<int>): (hits: seq<Hit>)
    requires forall j :: 0 <= j < |list| ==> list[j] in rows && |rows[list[j]].codes| == |q|
    ensures |hits| == |list|
  {
    seq(|list|, j requires 0 <= j < |list| => Hit(Score(rows[list[j]], q), list[j]))
  }

  /** The hits of the listed keys that are present; a key listed twice is two hits. */
  function HitsFor(rows: map<int, Row>, q: seq<real>, list: seq<int>): seq<Hit>
    requires forall key :: key in rows ==> |rows[key].codes| == |q|
  {
    KnownFits(rows, |q|, list);
    HitsOver(rows, q, Known(list, rows.Keys))
  }

  /** What a search must answer, on the map the index stands for: the `k` greatest of the hits
      of the listed keys, best first. */
  ghost function Answer(sqrt: real -> real, rows: map<int, Row>, query: seq<real>, k: nat, list: seq<int>): seq<Hit>
    requires forall key :: key in rows ==> |rows[key].codes| == |query|
  {
    var norm := sqrt(SumSquares(query));
    if norm == 0.0 then [] else Listing(Top(Sorted(HitsFor(rows, Unit(query, norm), list)), k))
  }

  /** The list names exactly these keys, each once. */
  ghost predicate Lists(list: seq<int>, keys: set<int>)
  {
    multiset(list) == multiset(keys)
  }

  lemma {:induction false} DistinctCounts(list: seq<int>, key: int)
    requires forall i, j :: 0 <= i < j < |list| ==> list[i] != list[j]
    ensures multiset(list)[key] == if key in list then 1 else 0
  {
    if list != [] {
      var n := |list| - 1;
      DistinctCounts(list[..n], key);
      SplitLast(list);
      assert list == list[..n] + [list[n]];
    }
  }

  /** The keys in row order list what the index holds. */
  lemma KeysListRows(keys: seq<int>, pos: map<int, nat>)
    requires Inverse(keys, pos)
    ensures Lists(keys, pos.Keys)
  {
    forall i, j | 0 <= i < j < |keys| ensures keys[i] != keys[j] {
      assert pos[keys[i]] == i && pos[keys[j]] == j;
    }
    forall key: int ensures multiset(keys)[key] == multiset(pos.Keys)[key] {
      DistinctCounts(keys, key);
      if key in pos { PlaceOf(keys, pos, key); }
    }
  }

  lemma AnyListWillDo(sqrt: real -> real, rows: map<int, Row>, query: seq<real>, k: nat, keys: seq<int>)
    requires forall key :: key in rows ==> |rows[key].codes| == |query|
    requires Lists(keys, rows.Keys)
    ensures forall list :: Lists(list, rows.Keys) ==>
      Answer(sqrt, rows, query, k, list) == Answer(sqrt, rows, query, k, keys)
  {
    forall list | Lists(list, rows.Keys)
      ensures Answer(sqrt, rows, query, k, list) == Answer(sqrt, rows, query, k, keys) {
      AnswerForgetsOrder(sqrt, rows, query, k, list, keys);
    }
  }

  lemma {:induction false} KnownCounts(list: seq<int>, present: set<int>, key: int)
    ensures multiset(Known(list, present))[key] == if key in present then multiset(list)[key] else 0
  {
    if list != [] {
      KnownCounts(list[..|list| - 1], present, key);
      SplitLast(list);
    }
  }

  /** The hit of a key. */
  function HitOf(rows: map<int, Row>, q: seq<real>, key: int): Hit
    requires key in rows && |rows[key].codes| == |q|
  {
    Hit(Score(rows[key], q), key)
  }

  lemma {:induction false} HitCounts(rows: map<int, Row>, q: seq<real>, list: seq<int>, h: Hit)
    requires forall j :: 0 <= j < |list| ==> list[j] in rows && |rows[list[j]].codes| == |q|
    ensures multiset(HitsOver(rows, q, list))[h] ==
            if h.key in rows && |rows[h.key].codes| == |q| && h == HitOf(rows, q, h.key) then multiset(list)[h.key]
            else 0
  {
    if list != [] {
      var n := |list| - 1;
      HitCounts(rows, q, list[..n], h);
      SplitLast(list);
      SplitLast(HitsOver(rows, q, list));
      assert HitsOver(rows, q, list)[..n] == HitsOver(rows, q, list[..n]);
    }
  }

  lemma SameHits(rows: map<int, Row>, q: seq<real>, a: seq<int>, b: seq<int>)
    requires forall key :: key in rows ==> |rows[key].codes| == |q|
    requires multiset(a) == multiset(b)
    ensures Sorted(HitsFor(rows, q, a)) == Sorted(HitsFor(rows, q, b))
  {
    KnownFits(rows, |q|, a);
    KnownFits(rows, |q|, b);
    forall h: Hit ensures multiset(HitsFor(rows, q, a))[h] == multiset(HitsFor(rows, q, b))[h] {
      HitCounts(rows, q, Known(a, rows.Keys), h);
      HitCounts(rows, q, Known(b, rows.Keys), h);
      KnownCounts(a, rows.Keys, h.key);
      KnownCounts(b, rows.Keys, h.key);
    }
    SortedMeaning(HitsFor(rows, q, a));
    SortedMeaning(HitsFor(rows, q, b));
    SortedIsUnique(Sorted(HitsFor(rows, q, a)), Sorted(HitsFor(rows, q, b)));
  }

  /** The answer depends on which keys are listed and how often, not on their order. */
  lemma AnswerForgetsOrder(sqrt: real -> real, rows: map<int, Row>, query: seq<real>, k: nat, a: seq<int>, b: seq<int>)
    requires forall key :: key in rows ==> |rows[key].codes| == |query|
    requires multiset(a) == multiset(b)
    ensures Answer(sqrt, rows, query, k, a) == Answer(sqrt, rows, query, k, b)
  {
    hide HitsFor, Sorted, Listing, Top;
    var norm := sqrt(SumSquares(query));
    if norm != 0.0 { SameHits(rows, Unit(query, norm), a, b); }
  }

  /** A hit of a list is the hit of a present key on it. */
  lemma HitIsOfListed(rows: map<int, Row>, q: seq<real>, list: seq<int>, h: Hit)
    requires forall key :: key in rows ==> |rows[key].codes| == |q|
    requires h in HitsFor(rows, q, list)
    ensures h.key in list && h.key in rows && h == HitOf(rows, q, h.key)
  {
    var known := Known(list, rows.Keys);
    KnownFits(rows, |q|, list);
    var j :| 0 <= j < |known| && HitsOver(rows, q, known)[j] == h;
    assert known[j] in multiset(known);
    KnownCounts(list, rows.Keys, known[j]);
    assert known[j] in multiset(list);
  }

  /** A hit in the answer is the hit of a listed key, scored with the unit query. */
  lemma AnswerHit(sqrt: real -> real, rows: map<int, Row>, query: seq<real>, k: nat, list: seq<int>, h: Hit)
    requires IsSqrt(sqrt) && forall key :: key in rows ==> |rows[key].codes| == |query|
    requires h in Answer(sqrt, rows, query, k, list)
    ensures SumSquares(query) > 0.0 && sqrt(SumSquares(query)) > 0.0
    ensures h.key in list && h.key in rows && h == HitOf(rows, Unit(query, sqrt(SumSquares(query))), h.key)
  {
    hide HitsFor, HitOf, Sorted, Listing, Top;
    NonZeroNorm(sqrt, query);
    var hits := HitsFor(rows, Unit(query, sqrt(SumSquares(query))), list);
    AnsweredIsHit(hits, k, h);
    HitIsOfListed(rows, Unit(query, sqrt(SumSquares(query))), list, h);
  }

  lemma NonZeroNorm(sqrt: real -> real, v: seq<real>)
    requires IsSqrt(sqrt)
    ensures sqrt(SumSquares(v)) != 0.0 ==> SumSquares(v) > 0.0 && sqrt(SumSquares(v)) > 0.0
  {
    SquaresAreNonNegative(v);
    assert Square(sqrt(SumSquares(v))) == SumSquares(v);
    SquareSign(sqrt(SumSquares(v)));
  }

  lemma AnsweredIsHit(hits: seq<Hit>, k: nat, h: Hit)
    requires h in Listing(Top(Sorted(hits), k))
    ensures h in hits
  {
    ListingMeaning(Top(Sorted(hits), k));
    var left := TopMeaning(hits, k);
    assert h in multiset(Listing(Top(Sorted(hits), k)));
    assert h in multiset(hits);
  }

  /** A hit outdoes another: a greater score, or the same with a larger key. */
  predicate Beats(a: Hit, b: Hit)
  {
    a.score > b.score || (a.score == b.score && a.key > b.key)
  }

  lemma PresentIsHit(rows: map<int, Row>, q: seq<real>, list: seq<int>, key: int)
    requires forall key :: key in rows ==> |rows[key].codes| == |q|
    requires key in list && key in rows
    ensures HitOf(rows, q, key) in HitsFor(rows, q, list)
  {
    KnownFits(rows, |q|, list);
    KnownCounts(list, rows.Keys, key);
    HitCounts(rows, q, Known(list, rows.Keys), HitOf(rows, q, key));
    assert key in multiset(list);
    assert HitOf(rows, q, key) in multiset(HitsFor(rows, q, list));
  }

  lemma LeftOutIsBeaten(hits: seq<Hit>, k: nat, h: Hit)
    requires h in hits && h !in Listing(Top(Sorted(hits), k))
    ensures |Listing(Top(Sorted(hits), k))| == k
    ensures forall a :: a in Listing(Top(Sorted(hits), k)) ==> Beats(a, h)
  {
    hide Listing, Sorted;
    var top := Top(Sorted(hits), k);
    ListingMeaning(top);
    var left := TopMeaning(hits, k);
    assert h in multiset(hits) && h !in multiset(Listing(top));
    assert h in multiset(left);
    var i :| 0 <= i < |left| && left[i] == h;
    assert |multiset(Listing(top))| == |Listing(top)| && |multiset(top)| == |top|;
    assert |multiset(left)| == |left| && |multiset(hits)| == |hits|;
    forall a | a in Listing(top) ensures Beats(a, h) {
      assert a in multiset(Listing(top));
      var j :| 0 <= j < |top| && top[j] == a;
      assert Ranks(left[i], top[j]);
    }
  }

  /** What a search answers is the best there is: at most `k` hits, each of a listed key that is
      present, by score descending and then key ascending; and a listed present key is left out
      only if `k` hits are answered and each of them outdoes it. */
  lemma AnswerIsBest(sqrt: real -> real, rows: map<int, Row>, query: seq<real>, k: nat, list: seq<int>)
    requires IsSqrt(sqrt) && forall key :: key in rows ==> |rows[key].codes| == |query|
    requires sqrt(SumSquares(query)) != 0.0
    ensures var q, answer := Unit(query, sqrt(SumSquares(query))), Answer(sqrt, rows, query, k, list);
            && |answer| <= k
            && (forall h :: h in answer ==> h.key in list && h.key in rows && h.score == Score(rows[h.key], q))
            && (forall i, j :: 0 <= i < j < |answer| ==>
                  || answer[i].score > answer[j].score
                  || (answer[i].score == answer[j].score && answer[i].key <= answer[j].key))
            && (forall key :: key in list && key in rows ==>
                  || Hit(Score(rows[key], q), key) in answer
                  || (|answer| == k && forall h :: h in answer ==> Beats(h, Hit(Score(rows[key], q), key))))
  {
    hide HitsFor, Sorted, Listing, Score, Beats;
    var q, answer := Unit(query, sqrt(SumSquares(query))), Answer(sqrt, rows, query, k, list);
    var hits := HitsFor(rows, q, list);
    assert answer == Listing(Top(Sorted(hits), k));
    ListingMeaning(Top(Sorted(hits), k));
    assert |multiset(answer)| == |answer| && |multiset(Top(Sorted(hits), k))| == |Top(Sorted(hits), k)|;
    forall h | h in answer ensures h.key in list && h.key in rows && h.score == Score(rows[h.key], q) {
      AnswerHit(sqrt, rows, query, k, list, h);
    }
    forall key | key in list && key in rows && HitOf(rows, q, key) !in answer
      ensures |answer| == k && forall h :: h in answer ==> Beats(h, HitOf(rows, q, key))
    {
      PresentIsHit(rows, q, list, key);
      LeftOutIsBeaten(hits, k, HitOf(rows, q, key));
    }
  }

  /** Every hit answered is near: if its key's row is a stored vector's, the squared error of
      its score against their exact cosine is at most the bound of `SearchScoreError`. */
  lemma AnswerScoresAreNear(sqrt: real -> real, rows: map<int, Row>, query: seq<real>, k: nat, list: seq<int>,
                            h: Hit, v: seq<real>)
    requires IsSqrt(sqrt) && forall key :: key in rows ==> |rows[key].codes| == |query|
    requires h in Answer(sqrt, rows, query, k, list)
    requires h.key in rows ==> rows[h.key] == Quantised(sqrt, v)
    requires |v| == |query| && SumSquares(v) > 0.0
    ensures h.key in list && h.key in rows
    ensures var norm, q := sqrt(SumSquares(v)), sqrt(SumSquares(query));
            && norm > 0.0 && q > 0.0
            && Square(h.score - Dot(Unit(v, norm), Unit(query, q))) <= |v| as real * Square(rows[h.key].scale) / 4.0
  {
    hide Answer, Score, Quantised, Unit, Dot, Square, SumSquares, IsSqrt;
    AnswerHit(sqrt, rows, query, k, list, h);
    SearchScoreError(sqrt, v, query);
  }

  lemma NothingToList(rows: map<int, Row>, sqrt: real -> real, query: seq<real>, k: nat, list: seq<int>)
    requires forall key :: key in rows ==> |rows[key].codes| == |query|
    requires k == 0 || rows.Keys == {}
    ensures Answer(sqrt, rows, query, k, list) == []
  {
    KnownTwice(list, rows.Keys);
    if rows.Keys == {} { NoneKnown(list); }
  }

  lemma {:induction false} NoneKnown(list: seq<int>)
    ensures Known(list, {}) == []
  {
    if list != [] { NoneKnown(list[..|list| - 1]); }
  }

  /** How a parallel reduction cut the rows into chunks and joined their heaps. */
  datatype Reduction = Identity | Chunk(rows: seq<nat>) | Join(left: Reduction, right: Reduction)

  function Leaves(tree: Reduction): seq<nat>
  {
    match tree
    case Identity => []
    case Chunk(rows) => rows
    case Join(left, right) => Leaves(left) + Leaves(right)
  }

  /** Drains one bounded heap into another, in whatever order the heap gives its hits up. */
  method Merge(a: seq<Hit>, b: seq<Hit>, ghost left: seq<Hit>, ghost right: seq<Hit>, k: nat) returns (heap: seq<Hit>)
    requires a == Top(Sorted(left), k) && b == Top(Sorted(right), k)
    ensures heap == Top(Sorted(left + right), k)
  {
    heap := a;
    var rest := b;
    ghost var drained: seq<Hit> := [];
    while rest != []
      invariant multiset(drained) + multiset(rest) == multiset(b)
      invariant heap == PushAll(a, drained, k)
      decreases |rest|
    {
      var i :| 0 <= i < |rest|;
      heap := Push(heap, rest[i], k);
      assert rest == rest[..i] + [rest[i]] + rest[i + 1..];
      assert (drained + [rest[i]])[..|drained|] == drained;
      drained, rest := drained + [rest[i]], rest[..i] + rest[i + 1..];
    }
    MergeIsTop(left, right, drained, k);
  }

  lemma LeavesSplit(keys: seq<int>, rows: map<int, Row>, q: seq<real>, left: Reduction, right: Reduction)
    requires forall j :: 0 <= j < |Leaves(Join(left, right))| ==> Leaves(Join(left, right))[j] < |keys|
    requires forall j :: 0 <= j < |keys| ==> keys[j] in rows && |rows[keys[j]].codes| == |q|
    ensures forall j :: 0 <= j < |Leaves(left)| ==> Leaves(left)[j] < |keys|
    ensures forall j :: 0 <= j < |Leaves(right)| ==> Leaves(right)[j] < |keys|
    ensures HitsOver(rows, q, KeysAt(keys, Leaves(Join(left, right))))
      == HitsOver(rows, q, KeysAt(keys, Leaves(left))) + HitsOver(rows, q, KeysAt(keys, Leaves(right)))
  {
    var l, r, all := Leaves(left), Leaves(right), Leaves(Join(left, right));
    forall j | 0 <= j < |l| ensures l[j] < |keys| { assert all[j] == l[j]; }
    forall j | 0 <= j < |r| ensures r[j] < |keys| { assert all[|l| + j] == r[j]; }
  }

  class VectorIndex {
    const sqrt: real -> real
    const dim: nat
    var keys: seq<int>
    var codes: seq<int>
    var scales: seq<real>
    var pos: map<int, nat>

    ghost predicate Valid()
      reads this
    {
      IsSqrt(sqrt) && Aligned(dim, keys, codes, scales) && Inverse(keys, pos)
    }

    ghost function Rows(): (rows: map<int, Row>)
      reads this
      requires Valid()
      ensures forall key :: key in rows ==> |rows[key].codes| == dim
    {
      RowsOf(dim, keys, codes, scales, pos)
    }

    constructor (sqrt: real -> real, dim: nat)
      requires IsSqrt(sqrt) && dim > 0
      ensures Valid() && Rows() == map[] && this.dim == dim && this.sqrt == sqrt
    {
      this.sqrt, this.dim := sqrt, dim;
      keys, codes, scales, pos := [], [], [], map[];
    }

    /** An index has at least one dimension. */
    static method New(sqrt: real -> real, dim: nat) returns (r: Outcome<VectorIndex>)
      requires IsSqrt(sqrt)
      ensures dim == 0 ==> r == Err(ZeroDimension)
      ensures dim > 0 ==> r.Ok? && fresh(r.value) && r.value.Valid() && r.value.Rows() == map[] && r.value.dim == dim
    {
      if dim == 0 { return Err(ZeroDimension); }
      var index := new VectorIndex(sqrt, dim);
      r := Ok(index);
    }

    /** Overwrites row `i` of the codes, component by component. */
    method WriteRow(i: nat, vec: seq<real>, norm: real, peak: real)
      requires Times(i + 1, dim) <= |codes| && |vec| == dim
      modifies this`codes
      ensures Overwritten(old(codes), codes, Times(i, dim), RowOf(vec, norm, peak).codes)
    {
      var base, t := Times(i, dim), 0;
      while t < dim
        invariant 0 <= t <= dim && |codes| == old(|codes|)
        invariant forall p :: 0 <= p < |codes| && !(base <= p < base + t) ==> codes[p] == old(codes)[p]
        invariant forall p :: base <= p < base + t ==> codes[p] == CodeOf(vec[p - base], norm, peak)
      {
        codes := codes[base + t := CodeOf(vec[t], norm, peak)];
        t := t + 1;
      }
    }

    /** Inserts or replaces one checked vector. */
    method Store(key: int, vec: seq<real>)
      requires Valid() && |vec| == dim
      modifies this`keys, this`codes, this`scales, this`pos
      ensures Valid() && Rows() == old(Rows())[key := Quantised(sqrt, vec)]
    {
      var norm, peak := sqrt(SumSquares(vec)), Peak(vec);
      ghost var row := RowOf(vec, norm, peak);
      if key in pos {
        var i := pos[key];
        RowFits(i, |keys|, dim);
        WriteRow(i, vec, norm, peak);
        scales := scales[i := ScaleOf(norm, peak)];
        ReplacedRow(dim, keys, old(codes), codes, old(scales), scales, pos, key, row);
      } else {
        var i := |keys|;
        RowFits(i, i + 1, dim);
        keys, codes := keys + [key], codes + seq(dim, t => 0);
        WriteRow(i, vec, norm, peak);
        scales, pos := scales + [ScaleOf(norm, peak)], pos[key := i];
        assert codes == old(codes) + row.codes;
        AddedRow(dim, old(keys), old(codes), codes, old(scales), scales, old(pos), key, row);
      }
    }

    method Upsert(key: int, vec: seq<Float>) returns (r: Outcome<()>)
      requires Valid()
      modifies this`keys, this`codes, this`scales, this`pos
      ensures Valid() && (r.Ok? <==> |vec| == dim && AllFinite(vec))
      ensures r.Ok? ==> Rows() == old(Rows())[key := Quantised(sqrt, Values(vec))]
      ensures r.Err? ==> unchanged(this) && r.error == Check(dim, key, vec).error
    {
      var checked := Check(dim, key, vec);
      if checked.Err? { return Err(checked.error); }
      Store(key, checked.value);
      r := Ok(());
    }

    /** The first pass of a batch: every row is checked before any is stored. */
    method CheckAll(batch: seq<int>, flat: seq<Float>) returns (r: Outcome<()>)
      requires |flat| == Times(|batch|, dim)
      ensures r.Ok? <==> AllFinite(flat)
      ensures r.Err? ==> exists i: nat, at: nat :: i < |batch| && RowIsCorrupt(dim, batch, flat, i, at, r.error)
    {
      var i := 0;
      while i < |batch|
        invariant 0 <= i <= |batch|
        invariant forall p :: 0 <= p < Times(i, dim) && p < |flat| ==> flat[p].Finite?
      {
        RowFits(i, |batch|, dim);
        var checked := Check(dim, batch[i], Slice(flat, dim, i));
        if checked.Err? {
          ghost var at := FirstBad(Slice(flat, dim, i), 0).value;
          CorruptPlace(flat, dim, i, at);
          assert RowIsCorrupt(dim, batch, flat, i, at, checked.error);
          return Err(checked.error);
        }
        RowIsFinite(flat, dim, i);
        i := i + 1;
      }
      r := Ok(());
    }

    method StoreRow(key: int, flat: seq<Float>, i: nat)
      requires Valid() && Times(i + 1, dim) <= |flat| && AllFinite(flat)
      modifies this`keys, this`codes, this`scales, this`pos
      ensures Valid() && Rows() == old(Rows())[key := BatchRow(sqrt, dim, flat, i)]
    {
      SliceIsFinite(flat, dim, i);
      Store(key, Values(Slice(flat, dim, i)));
    }

    /** The second pass: the rows are stored in order. */
    method StoreAll(batch: seq<int>, flat: seq<Float>)
      requires Valid() && |flat| == Times(|batch|, dim) && AllFinite(flat)
      modifies this`keys, this`codes, this`scales, this`pos
      ensures Valid() && Rows() == StoredAll(old(Rows()), batch, BatchRows(sqrt, dim, flat, |batch|))
    {
      ghost var added := BatchRows(sqrt, dim, flat, |batch|);
      var i := 0;
      while i < |batch|
        invariant 0 <= i <= |batch| && Valid()
        invariant Rows() == StoredAll(old(Rows()), batch[..i], added[..i])
      {
        RowFits(i, |batch|, dim);
        StoreRow(batch[i], flat, i);
        StoredOneMore(old(Rows()), batch, added, i);
        i := i + 1;
      }
      assert batch[..i] == batch && added[..i] == added;
    }

    /** Inserts or replaces every row of a batch, or none of them. */
    method UpsertMany(batch: seq<int>, flat: seq<Float>) returns (r: Outcome<()>)
      requires Valid()
      modifies this`keys, this`codes, this`scales, this`pos
      ensures Valid() && Times(|batch|, dim) == |batch| * dim
      ensures r.Ok? <==> |flat| == |batch| * dim && AllFinite(flat)
      ensures r.Ok? ==> Rows() == StoredAll(old(Rows()), batch, BatchRows(sqrt, dim, flat, |batch|))
      ensures r.Err? ==> unchanged(this)
      ensures |flat| != |batch| * dim ==> r == Err(BadShape(|flat|, |batch|))
      ensures r.Err? && |flat| == |batch| * dim ==>
        exists i: nat, at: nat :: i < |batch| && RowIsCorrupt(dim, batch, flat, i, at, r.error)
    {
      TimesIsProduct(|batch|, dim);
      if |flat| != |batch| * dim { return Err(BadShape(|flat|, |batch|)); }
      r := CheckAll(batch, flat);
      if r.Ok? { StoreAll(batch, flat); }
    }

    /** Removes a key by moving the last row into its place. */
    method Remove(key: int) returns (present: bool)
      requires Valid()
      modifies this`keys, this`codes, this`scales, this`pos
      ensures Valid() && present == (key in old(Rows())) && Rows() == old(Rows()) - {key}
    {
      if key !in pos { return false; }
      var i := pos[key];
      var last := |keys| - 1;
      pos := pos - {key};
      RowFits(last, |keys|, dim);
      if i != last {
        RowFits(i, last, dim);
        var moved := keys[last];
        keys := keys[i := moved];
        scales := scales[i := scales[last]];
        codes := codes[..Times(i, dim)] + Slice(codes, dim, last) + codes[Times(i + 1, dim)..];
        pos := pos[moved := i];
      }
      keys, scales, codes := keys[..last], scales[..last], codes[..Times(last, dim)];
      assert codes == SwapRemoved(old(codes), dim, i, last);
      RemovedIndex(dim, old(keys), codes, old(codes), old(scales), old(pos), key, keys, scales, pos);
      present := true;
    }

    // -------------------------------------------------------------- search

    /** Approximate cosine of row `i` to the unit query `q`. */
    function ScoreAt(q: seq<real>, i: nat): real
      reads this
      requires Aligned(dim, keys, codes, scales) && i < |keys| && |q| == dim
    {
      Score(RowAt(codes, scales, dim, i), q)
    }

    /** The candidate rows: the allowed keys that are present, in the caller's order and as
        often as the caller names them; or every row. */
    method Candidates(allowed: Option<seq<int>>) returns (rows: seq<nat>)
      requires Valid()
      ensures forall j :: 0 <= j < |rows| ==> rows[j] < |keys|
      ensures allowed.Some? ==> KeysAt(keys, rows) == Known(allowed.value, Rows().Keys)
      ensures allowed.None? ==> KeysAt(keys, rows) == keys
    {
      rows := [];
      if allowed.Some? {
        var list, j := allowed.value, 0;
        while j < |list|
          invariant 0 <= j <= |list|
          invariant forall t :: 0 <= t < |rows| ==> rows[t] < |keys|
          invariant KeysAt(keys, rows) == Known(list[..j], Rows().Keys)
        {
          assert list[..j + 1][..j] == list[..j];
          if list[j] in pos {
            PlaceOf(keys, pos, list[j]);
            rows := rows + [pos[list[j]]];
          }
          j := j + 1;
        }
        assert list[..|list|] == list;
      } else {
        var i := 0;
        while i < |keys|
          invariant 0 <= i <= |keys| == |keys|
          invariant |rows| == i && forall t :: 0 <= t < i ==> rows[t] == t
        {
          rows := rows + [i];
          i := i + 1;
        }
      }
    }

    /** The bounded heap of one chunk of rows. */
    method ChunkHeap(q: seq<real>, rows: seq<nat>, k: nat) returns (heap: seq<Hit>)
      requires Valid() && |q| == dim && forall j :: 0 <= j < |rows| ==> rows[j] < |keys|
      ensures heap == Top(Sorted(HitsOver(Rows(), q, KeysAt(keys, rows))), k)
    {
      heap := [];
      ghost var hits := HitsOver(Rows(), q, KeysAt(keys, rows));
      var j := 0;
      while j < |rows|
        invariant 0 <= j <= |rows|
        invariant heap == PushAll([], hits[..j], k)
      {
        assert hits[..j + 1][..j] == hits[..j];
        heap := Push(heap, Hit(ScoreAt(q, rows[j]), keys[rows[j]]), k);
        j := j + 1;
      }
      assert hits[..|hits|] == hits;
      PushAllIsTop([], hits, k);
    }

    /** One parallel reduction over the chunks, split and joined as `tree` says. */
    method Reduce(q: seq<real>, tree: Reduction, k: nat) returns (heap: seq<Hit>)
      requires Valid() && |q| == dim && forall j :: 0 <= j < |Leaves(tree)| ==> Leaves(tree)[j] < |keys|
      ensures heap == Top(Sorted(HitsOver(Rows(), q, KeysAt(keys, Leaves(tree)))), k)
      decreases tree
    {
      match tree
      case Identity => heap := [];
      case Chunk(rows) =>
        assert Leaves(tree) == rows;
        heap := ChunkHeap(q, rows, k);
      case Join(left, right) =>
        LeavesSplit(keys, Rows(), q, left, right);
        var a := Reduce(q, left, k);
        var b := Reduce(q, right, k);
        heap := Merge(a, b, HitsOver(Rows(), q, KeysAt(keys, Leaves(left))),
                      HitsOver(Rows(), q, KeysAt(keys, Leaves(right))), k);
    }

    /** The `k` best keys by approximate cosine, best first. `schedule` stands for the thread
        pool: it may cut the rows into chunks and join their heaps in any way. */
    method Search(query: seq<Float>, k: nat, allowed: Option<seq<int>>, schedule: seq<nat> -> Reduction)
        returns (r: Outcome<seq<Hit>>)
      requires Valid() && forall rows :: Leaves(schedule(rows)) == rows
      ensures |query| != dim ==> r == Err(DimMismatch(dim, |query|))
      ensures |query| == dim && !AllFinite(query) ==> r.Err? && r.error.CorruptQuery? && FirstCorrupt(query, r.error.at)
      ensures |query| == dim && AllFinite(query) && allowed.Some? ==>
        r == Ok(Answer(sqrt, Rows(), Values(query), k, allowed.value))
      ensures |query| == dim && AllFinite(query) && allowed.None? ==> forall list :: Lists(list, Rows().Keys) ==>
        r == Ok(Answer(sqrt, Rows(), Values(query), k, list))
    {
      if |query| != dim { return Err(DimMismatch(dim, |query|)); }
      assert query[0..] == query;
      var bad := FirstBad(query, 0);
      if bad.Some? { return Err(CorruptQuery(bad.value)); }
      ghost var list := if allowed.Some? then allowed.value else keys;
      KeysListRows(keys, pos);
      AnyListWillDo(sqrt, Rows(), Values(query), k, keys);
      if k == 0 || keys == [] {
        if keys == [] { NoRows(keys, pos); }
        NothingToList(Rows(), sqrt, Values(query), k, list);
        return Ok([]);
      }
      var norm := sqrt(SumSquares(Values(query)));
      if norm == 0.0 { return Ok([]); }
      var q := Unit(Values(query), norm);
      var rows := Candidates(allowed);
      KnownTwice(keys, Rows().Keys);
      var top := Reduce(q, schedule(rows), k);
      r := Ok(Listing(top));
    }
  }
}
