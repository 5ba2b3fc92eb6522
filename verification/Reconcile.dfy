/** Row reconciliation: counting how often each company key occurs, and
    keeping the first "New" row per key in input order. Both are left folds
    over the rows, in the order `forEach` visits them. */
module Reconcile {
  import opened Rows

  /** The set of keys carried by some row. */
  function KeySet(rows: seq<Row>): set<Cell>
  {
    set r | r in rows :: Key(r)
  }

  /** The positions of the rows whose key is `k`. */
  ghost function RowsWithKey(rows: seq<Row>, k: Cell): set<nat>
  {
    set i: nat | i < |rows| && Key(rows[i]) == k
  }

  /** Appending one row adds its key to the key set and its position to the
      positions of that key, and changes nothing else. */
  lemma AppendRow(rows: seq<Row>, r: Row)
    ensures KeySet(rows + [r]) == KeySet(rows) + {Key(r)}
    ensures forall k :: RowsWithKey(rows + [r], k)
                     == RowsWithKey(rows, k) + (if Key(r) == k then {|rows|} else {})
  {
    var rows' := rows + [r];
    assert forall i :: 0 <= i < |rows| ==> rows'[i] == rows[i];
    assert forall x :: x in rows' <==> x in rows || x == r;
    forall k
      ensures RowsWithKey(rows', k) == RowsWithKey(rows, k) + (if Key(r) == k then {|rows|} else {})
    {
    }
  }

  // ---------------------------------------------------------------------
  // Occurrence counts

  /** `map[key] = (map[key] || 0) + 1`. */
  function Bump(m: map<Cell, nat>, k: Cell): map<Cell, nat>
  {
    m[k := (if k in m then m[k] else 0) + 1]
  }

  /** Bumping a key adds it if absent, counts it once more (starting from
      zero when absent) and leaves every other entry alone. */
  lemma BumpCounts(m: map<Cell, nat>, k: Cell)
    ensures var r := Bump(m, k);
      && r.Keys == m.Keys + {k}
      && r[k] == (if k in m then m[k] + 1 else 1)
      && forall x :: x in m && x != k ==> r[x] == m[x]
  {
  }

  /** The occurrence map over all rows: exactly the keys that occur are
      present, each mapped to the number of rows that carry it. */
  function OccurrenceMap(rows: seq<Row>): (m: map<Cell, nat>)
    ensures m.Keys == KeySet(rows)
    ensures forall k :: k in m ==> m[k] == |RowsWithKey(rows, k)|
  {
    if |rows| == 0 then map[]
    else
      var prefix, last := rows[..|rows| - 1], rows[|rows| - 1];
      assert rows == prefix + [last];
      AppendRow(prefix, last);
      Bump(OccurrenceMap(prefix), Key(last))
  }

  /** The keys in the order they are first seen. */
  function FirstSeenKeys(rows: seq<Row>): (ks: seq<Cell>)
  {
    if |rows| == 0 then []
    else
      var ks := FirstSeenKeys(rows[..|rows| - 1]);
      var k := Key(rows[|rows| - 1]);
      if k in ks then ks else ks + [k]
  }

  predicate NoDuplicates<T(==)>(s: seq<T>)
  {
    forall i, j :: 0 <= i < j < |s| ==> s[i] != s[j]
  }

  /** The sum of the counts of the given keys. */
  function SumCounts(m: map<Cell, nat>, ks: seq<Cell>): int
    requires forall k :: k in ks ==> k in m
  {
    if |ks| == 0 then 0
    else SumCounts(m, ks[..|ks| - 1]) + m[ks[|ks| - 1]]
  }

  /** Bumping one key raises the sum over distinct keys by one if the key is
      among them and leaves it alone otherwise. */
  lemma {:induction false} SumAfterBump(m: map<Cell, nat>, ks: seq<Cell>, k: Cell)
    requires NoDuplicates(ks)
    requires forall x :: x in ks ==> x in m
    ensures SumCounts(Bump(m, k), ks) == SumCounts(m, ks) + (if k in ks then 1 else 0)
  {
    if |ks| > 0 {
      var init := ks[..|ks| - 1];
      assert NoDuplicates(init);
      assert forall x :: x in init ==> x in ks;
      SumAfterBump(m, init, k);
      assert k in ks <==> k in init || k == ks[|ks| - 1];
      assert forall i :: 0 <= i < |init| ==> init[i] == ks[i] != ks[|ks| - 1];
      assert ks[|ks| - 1] !in init;
    }
  }

  /** Counting every key once, in first-seen order, the counts add up to
      the number of rows. */
  lemma {:induction false} CountsSumToRowCount(rows: seq<Row>)
    ensures var m, ks := OccurrenceMap(rows), FirstSeenKeys(rows);
      && NoDuplicates(ks)
      && (forall k :: k in m <==> k in ks)
      && SumCounts(m, ks) == |rows|
  {
    if |rows| > 0 {
      var prefix, last := rows[..|rows| - 1], rows[|rows| - 1];
      CountsSumToRowCount(prefix);
      var m, ks := OccurrenceMap(prefix), FirstSeenKeys(prefix);
      SumAfterBump(m, ks, Key(last));
      assert OccurrenceMap(rows) == Bump(m, Key(last));
      if Key(last) !in ks {
        var ks' := ks + [Key(last)];
        assert ks'[..|ks'| - 1] == ks;
        assert SumCounts(Bump(m, Key(last)), ks') == SumCounts(Bump(m, Key(last)), ks) + 1;
      }
    }
  }

  // ---------------------------------------------------------------------
  // Status filter and first-occurrence de-duplication

  /** The positions of the "New" rows, in increasing order: a reference
      for the status filter. */
  function NewIndices(rows: seq<Row>): (idx: seq<nat>)
    ensures forall i :: 0 <= i < |idx| ==> idx[i] < |rows| && IsNew(rows[idx[i]])
    ensures forall i, j :: 0 <= i < j < |idx| ==> idx[i] < idx[j]
    ensures forall j :: 0 <= j < |rows| && IsNew(rows[j]) ==> j in idx
  {
    if |rows| == 0 then []
    else
      var prefix := rows[..|rows| - 1];
      assert forall j :: 0 <= j < |prefix| ==> rows[j] == prefix[j];
      NewIndices(prefix) + (if IsNew(rows[|rows| - 1]) then [|rows| - 1] else [])
  }

  /** `rows.filter(row => row[3] === 'New')`. */
  function NewRows(rows: seq<Row>): (r: seq<Row>)
    ensures forall i :: 0 <= i < |r| ==> IsNew(r[i]) && r[i] in rows
  {
    if |rows| == 0 then []
    else
      var last := rows[|rows| - 1];
      NewRows(rows[..|rows| - 1]) + (if IsNew(last) then [last] else [])
  }

  /** The state of the de-duplicating `forEach`: the rows pushed so far and
      the keys seen so far. */
  datatype DedupState = DedupState(out: seq<Row>, seen: set<Cell>)

  /** The `forEach` that pushes a row only when its key has not been seen.
      The seen set is always the key set of the output, so no two output
      rows share a key. */
  function Dedup(rows: seq<Row>): (st: DedupState)
    ensures st.seen == KeySet(st.out) == KeySet(rows)
    ensures NoDuplicates(Keys(st.out))
    ensures forall i :: 0 <= i < |st.out| ==> st.out[i] in rows
  {
    if |rows| == 0 then DedupState([], {})
    else
      var prefix, last := rows[..|rows| - 1], rows[|rows| - 1];
      assert rows == prefix + [last];
      var st := Dedup(prefix);
      AppendRow(prefix, last);
      if Key(last) !in st.seen then
        AppendRow(st.out, last);
        assert Keys(st.out + [last]) == Keys(st.out) + [Key(last)];
        DedupState(st.out + [last], st.seen + {Key(last)})
      else st
  }

  /** No earlier row carries the key of row `i`. */
  predicate FirstAt(rows: seq<Row>, i: nat)
    requires i < |rows|
  {
    forall j :: 0 <= j < i ==> Key(rows[j]) != Key(rows[i])
  }

  /** The positions of the first row of each key, in increasing order: a
      reference for the de-duplicating fold. */
  function FirstIndices(rows: seq<Row>): (idx: seq<nat>)
    ensures forall i :: 0 <= i < |idx| ==> idx[i] < |rows| && FirstAt(rows, idx[i])
    ensures forall i, j :: 0 <= i < j < |idx| ==> idx[i] < idx[j]
    ensures forall j :: 0 <= j < |rows| && FirstAt(rows, j) ==> j in idx
  {
    if |rows| == 0 then []
    else
      var prefix := rows[..|rows| - 1];
      assert forall j :: 0 <= j < |prefix| ==> (FirstAt(rows, j) <==> FirstAt(prefix, j));
      FirstIndices(prefix) + (if FirstAt(rows, |rows| - 1) then [|rows| - 1] else [])
  }

  /** The last row is the first of its key exactly when its key is not
      among the keys of the earlier rows. */
  lemma FirstAtLast(rows: seq<Row>)
    requires |rows| > 0
    ensures FirstAt(rows, |rows| - 1) <==> Key(rows[|rows| - 1]) !in KeySet(rows[..|rows| - 1])
  {
    var prefix, last := rows[..|rows| - 1], rows[|rows| - 1];
    if Key(last) in KeySet(prefix) {
      var r :| r in prefix && Key(r) == Key(last);
      var j :| 0 <= j < |prefix| && prefix[j] == r;
      assert rows[j] == r;
    }
    if !FirstAt(rows, |rows| - 1) {
      var j :| 0 <= j < |rows| - 1 && Key(rows[j]) == Key(last);
      assert prefix[j] in prefix;
    }
  }

  /** The status filter keeps every "New" row and no other, in input
      order: its output is the input taken at the "New" positions. */
  lemma {:induction false} NewRowsIsFilter(rows: seq<Row>)
    ensures SubsequenceAt(NewRows(rows), rows, NewIndices(rows))
  {
    if |rows| > 0 {
      var prefix, last := rows[..|rows| - 1], rows[|rows| - 1];
      assert rows == prefix + [last];
      NewRowsIsFilter(prefix);
      SubsequenceExtend(NewRows(prefix), prefix, NewIndices(prefix), last);
    }
  }

  /** The de-duplicating fold keeps the first row of each key and drops
      every later one, in input order: its output is the input taken at the
      first positions of the keys. */
  lemma {:induction false} DedupKeepsFirst(rows: seq<Row>)
    ensures SubsequenceAt(Dedup(rows).out, rows, FirstIndices(rows))
  {
    if |rows| > 0 {
      var prefix, last := rows[..|rows| - 1], rows[|rows| - 1];
      assert rows == prefix + [last];
      DedupKeepsFirst(prefix);
      FirstAtLast(rows);
      SubsequenceExtend(Dedup(prefix).out, prefix, FirstIndices(prefix), last);
    }
  }

  /** The keys of the rows, in order. */
  function Keys(rows: seq<Row>): seq<Cell>
  {
    seq(|rows|, i requires 0 <= i < |rows| => Key(rows[i]))
  }

  /** The rows shown and exported: the "New" rows, one per key. */
  function FilteredRows(rows: seq<Row>): (out: seq<Row>)
    ensures forall i :: 0 <= i < |out| ==> IsNew(out[i]) && out[i] in rows
    ensures NoDuplicates(Keys(out))
  {
    Dedup(NewRows(rows)).out
  }

  // ---------------------------------------------------------------------
  // The reference: positions of first "New" occurrences

  /** Row `i` is "New" and no earlier "New" row carries its key. */
  predicate FirstNewAt(rows: seq<Row>, i: nat)
    requires i < |rows|
  {
    IsNew(rows[i]) && forall j :: 0 <= j < i && IsNew(rows[j]) ==> Key(rows[j]) != Key(rows[i])
  }

  /** The positions of all first "New" occurrences, in increasing order. */
  function FirstNewIndices(rows: seq<Row>): (idx: seq<nat>)
    ensures forall i :: 0 <= i < |idx| ==> idx[i] < |rows| && FirstNewAt(rows, idx[i])
    ensures forall i, j :: 0 <= i < j < |idx| ==> idx[i] < idx[j]
    ensures forall j :: 0 <= j < |rows| && FirstNewAt(rows, j) ==> j in idx
  {
    if |rows| == 0 then []
    else
      var prefix := rows[..|rows| - 1];
      assert forall j :: 0 <= j < |prefix| ==> (FirstNewAt(rows, j) <==> FirstNewAt(prefix, j));
      FirstNewIndices(prefix) + (if FirstNewAt(rows, |rows| - 1) then [|rows| - 1] else [])
  }

  /** `a` is the subsequence of `b` at the strictly increasing positions
      `idx`. */
  ghost predicate SubsequenceAt<T>(a: seq<T>, b: seq<T>, idx: seq<nat>)
  {
    && |a| == |idx|
    && (forall i :: 0 <= i < |idx| ==> idx[i] < |b| && a[i] == b[idx[i]])
    && (forall i, j :: 0 <= i < j < |idx| ==> idx[i] < idx[j])
  }

  /** The keys of the "New" rows. */
  ghost function NewKeys(rows: seq<Row>): set<Cell>
  {
    set i | 0 <= i < |rows| && IsNew(rows[i]) :: Key(rows[i])
  }

  /** The filter and the de-duplicating fold, one row at a time. */
  lemma AppendStep(xs: seq<Row>, r: Row)
    ensures NewRows(xs + [r]) == NewRows(xs) + (if IsNew(r) then [r] else [])
    ensures var st := Dedup(xs);
      Dedup(xs + [r]) == if Key(r) !in st.seen then DedupState(st.out + [r], st.seen + {Key(r)}) else st
  {
    assert (xs + [r])[..|xs|] == xs;
  }

  /** The last row is a first "New" occurrence exactly when it is "New"
      and its key is not among the keys of the earlier "New" rows, which it
      then joins. */
  lemma FirstNewAtLast(rows: seq<Row>)
    requires |rows| > 0
    ensures var prefix, last := rows[..|rows| - 1], rows[|rows| - 1];
      && (FirstNewAt(rows, |rows| - 1) <==> IsNew(last) && Key(last) !in NewKeys(prefix))
      && NewKeys(rows) == NewKeys(prefix) + (if IsNew(last) then {Key(last)} else {})
  {
    var prefix, last := rows[..|rows| - 1], rows[|rows| - 1];
    assert forall i :: 0 <= i < |prefix| ==> rows[i] == prefix[i];
    if Key(last) in NewKeys(prefix) {
      var j :| 0 <= j < |prefix| && IsNew(prefix[j]) && Key(prefix[j]) == Key(last);
      assert IsNew(rows[j]) && Key(rows[j]) == Key(rows[|rows| - 1]);
    }
    if IsNew(last) {
      assert Key(rows[|rows| - 1]) in NewKeys(rows);
    }
  }

  /** The de-duplicating fold over the "New" rows keeps the rows at the
      first "New" occurrences, and its seen set holds every "New" key. */
  lemma {:induction false} DedupMatchesReference(rows: seq<Row>)
    ensures DedupAgrees(rows)
  {
    if |rows| > 0 {
      DedupMatchesReference(rows[..|rows| - 1]);
      if FirstNewAt(rows, |rows| - 1) {
        DedupStepKept(rows);
      } else {
        DedupStepDropped(rows);
      }
    }
  }

  /** The fold's state on `rows` is the reference's: its seen set is the
      set of "New" keys and its output the rows at the first "New"
      positions. */
  ghost predicate DedupAgrees(rows: seq<Row>)
  {
    && Dedup(NewRows(rows)).seen == NewKeys(rows)
    && SubsequenceAt(Dedup(NewRows(rows)).out, rows, FirstNewIndices(rows))
  }

  /** A last row that is a first "New" occurrence is pushed by the fold and
      picked by the reference. */
  lemma {:induction false} DedupStepKept(rows: seq<Row>)
    requires |rows| > 0 && FirstNewAt(rows, |rows| - 1)
    requires DedupAgrees(rows[..|rows| - 1])
    ensures DedupAgrees(rows)
  {
    var prefix, last := rows[..|rows| - 1], rows[|rows| - 1];
    assert rows == prefix + [last];
    AppendStep(prefix, last);
    AppendStep(NewRows(prefix), last);
    FirstNewAtLast(rows);
    var st, idx := Dedup(NewRows(prefix)), FirstNewIndices(prefix);
    SubsequenceExtend(st.out, prefix, idx, last);
    assert Dedup(NewRows(rows)).out == st.out + [last];
    assert FirstNewIndices(rows) == idx + [|prefix|];
  }

  /** A last row that is not a first "New" occurrence changes neither the
      fold's output nor the reference. */
  lemma {:induction false} DedupStepDropped(rows: seq<Row>)
    requires |rows| > 0 && !FirstNewAt(rows, |rows| - 1)
    requires DedupAgrees(rows[..|rows| - 1])
    ensures DedupAgrees(rows)
  {
    var prefix, last := rows[..|rows| - 1], rows[|rows| - 1];
    assert rows == prefix + [last];
    AppendStep(prefix, last);
    FirstNewAtLast(rows);
    var st, idx := Dedup(NewRows(prefix)), FirstNewIndices(prefix);
    SubsequenceExtend(st.out, prefix, idx, last);
    assert FirstNewIndices(rows) == idx;
    if IsNew(last) {
      AppendStep(NewRows(prefix), last);
      assert Key(last) in st.seen;
      assert Dedup(NewRows(rows)) == st;
    } else {
      assert NewRows(rows) == NewRows(prefix);
    }
  }

  /** A subsequence of `b` stays one of `b + [x]`, and grows by `x` when
      `x` is picked too. */
  lemma SubsequenceExtend<T>(a: seq<T>, b: seq<T>, idx: seq<nat>, x: T)
    requires SubsequenceAt(a, b, idx)
    ensures SubsequenceAt(a, b + [x], idx)
    ensures SubsequenceAt(a + [x], b + [x], idx + [|b|])
  {
  }

  /** The shown rows are exactly the first "New" row of each key, at their
      positions in the input and in input order. */
  lemma {:induction false} FilteredRowsAreFirstNew(rows: seq<Row>)
    ensures SubsequenceAt(FilteredRows(rows), rows, FirstNewIndices(rows))
  {
    DedupMatchesReference(rows);
  }

  /** The shown rows carry exactly the keys of the "New" rows, each once,
      and the row kept for a key is the first "New" row carrying it. */
  lemma {:induction false} FilteredRowsOnePerKey(rows: seq<Row>)
    ensures var out, idx := FilteredRows(rows), FirstNewIndices(rows);
      && KeySet(out) == NewKeys(rows)
      && NoDuplicates(Keys(out))
      && |idx| == |out|
      && forall i :: 0 <= i < |out| ==> FirstNewAt(rows, idx[i]) && out[i] == rows[idx[i]]
  {
    DedupMatchesReference(rows);
  }

  /** The status filter keeps rows that are all "New" as they are. */
  lemma {:induction false} NewRowsKeepsNew(xs: seq<Row>)
    requires forall i :: 0 <= i < |xs| ==> IsNew(xs[i])
    ensures NewRows(xs) == xs
  {
    if |xs| > 0 {
      NewRowsKeepsNew(xs[..|xs| - 1]);
      assert xs == xs[..|xs| - 1] + [xs[|xs| - 1]];
    }
  }

  /** The de-duplicating fold keeps rows whose keys are already distinct
      as they are. */
  lemma {:induction false} DedupKeepsDistinct(xs: seq<Row>)
    requires NoDuplicates(Keys(xs))
    ensures Dedup(xs).out == xs
  {
    if |xs| > 0 {
      var prefix, last := xs[..|xs| - 1], xs[|xs| - 1];
      assert xs == prefix + [last];
      assert forall i :: 0 <= i < |prefix| ==> Keys(prefix)[i] == Keys(xs)[i];
      DedupKeepsDistinct(prefix);
      assert Key(last) !in KeySet(prefix) by {
        forall r | r in prefix
          ensures Key(r) != Key(last)
        {
          var i :| 0 <= i < |prefix| && prefix[i] == r;
          assert Keys(xs)[i] != Keys(xs)[|xs| - 1];
        }
      }
    }
  }

  /** Filtering and de-duplicating the shown rows again changes nothing. */
  lemma {:induction false} FilteredRowsIdempotent(rows: seq<Row>)
    ensures FilteredRows(FilteredRows(rows)) == FilteredRows(rows)
  {
    var out := FilteredRows(rows);
    NewRowsKeepsNew(out);
    DedupKeepsDistinct(out);
  }

}
