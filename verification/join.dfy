/**
 Attaching measures to the node table: `nodes_df[name] = nodes_df[key].map(measure)`
 in src/main.py and metrics/src/main.py. Each row gets the measure's value
 for its identifier, or NaN when the measure has no entry for it; rows are
 neither added nor dropped.
 */
module Join {
  import opened Wrappers
  import opened Frames
  import opened Graphs

  /** An identifier-keyed measure, its values already cells. */
  type Measure = map<Node, Value>

  /** `Series.map(dict)` on one identifier: a key without entry gives NaN. */
  function Lookup(m: Measure, id: Value): (r: Value)
    ensures id !in m ==> r == Missing
    ensures id in m ==> r == m[id]
  {
    if id in m then m[id] else Missing
  }

  /** One assignment `frame[name] = frame[key].map(m)`. */
  function JoinMeasure(t: Table, key: string, name: string, m: Measure): (r: Result<Table, Error>)
    ensures r.Failure? <==> key !in t.columns
    ensures r.Failure? ==> r.error == KeyError(key)
    ensures r.Success? ==> r.value.columns == t.columns + {name} && |r.value.rows| == |t.rows|
    ensures r.Success? ==> forall i, c :: 0 <= i < |t.rows| && c in t.rows[i] && c != name ==>
              c in r.value.rows[i] && r.value.rows[i][c] == t.rows[i][c]
    ensures r.Success? ==> forall i :: 0 <= i < |t.rows| ==>
              name in r.value.rows[i] && r.value.rows[i][name] == Lookup(m, Cell(t.rows[i], key))
    ensures r.Success? && t.Valid() ==> r.value.Valid()
  {
    if key !in t.columns then Failure(KeyError(key))
    else
      var rows := seq(|t.rows|, i requires 0 <= i < |t.rows| => t.rows[i][name := Lookup(m, Cell(t.rows[i], key))]);
      assert t.Valid() ==> forall row :: row in rows ==> row.Keys == t.columns + {name} by {
        if t.Valid() {
          forall row | row in rows ensures row.Keys == t.columns + {name} {
            var i :| 0 <= i < |rows| && rows[i] == row;
            assert t.rows[i] in t.rows;
          }
        }
      }
      Success(Table(t.columns + {name}, rows))
  }

  /** The column names of a list of named measures. */
  function Names(ms: seq<(string, Measure)>): set<string> {
    set q | 0 <= q < |ms| :: ms[q].0
  }

  lemma NamesOfTwo(a: (string, Measure), b: (string, Measure))
    ensures Names([a, b]) == {a.0, b.0}
  {
    var ms := [a, b];
    assert ms[0] == a && ms[1] == b;
    forall x | x in Names(ms) ensures x == a.0 || x == b.0 {
      var q :| 0 <= q < 2 && ms[q].0 == x;
    }
  }

  predicate DistinctNames(ms: seq<(string, Measure)>) {
    forall p, q :: 0 <= p < q < |ms| ==> ms[p].0 != ms[q].0
  }

  /** The loop over the measure dictionary, in its insertion order. */
  function JoinAll(t: Table, key: string, ms: seq<(string, Measure)>): (r: Result<Table, Error>)
    ensures r.Failure? <==> key !in t.columns && |ms| > 0
    ensures r.Success? ==> r.value.columns == t.columns + Names(ms) && |r.value.rows| == |t.rows|
    ensures r.Success? && t.Valid() ==> r.value.Valid()
    decreases |ms|
  {
    if |ms| == 0 then Success(t)
    else
      var init, last := ms[..|ms| - 1], ms[|ms| - 1];
      assert Names(ms) == Names(init) + {last.0} by {
        assert forall q :: 0 <= q < |init| ==> init[q] == ms[q];
      }
      var u :- JoinAll(t, key, init);
      JoinMeasure(u, key, last.0, last.1)
  }

  /** `r` has the rows of `t` with every cell outside `names` unchanged. */
  predicate KeepsCells(t: Table, r: Table, names: set<string>) {
    && |r.rows| == |t.rows|
    && forall i, c :: 0 <= i < |t.rows| && c in t.rows[i] && c !in names ==>
         c in r.rows[i] && r.rows[i][c] == t.rows[i][c]
  }

  /** Each row of `r` holds, under every measure's name, that measure's value
      for the identifier of the same row of `t`. */
  predicate HoldsMeasures(t: Table, r: Table, key: string, ms: seq<(string, Measure)>)
    requires |r.rows| == |t.rows|
  {
    forall i, q :: 0 <= i < |t.rows| && 0 <= q < |ms| ==>
      ms[q].0 in r.rows[i] && r.rows[i][ms[q].0] == Lookup(ms[q].1, Cell(t.rows[i], key))
  }

  lemma JoinStep(t: Table, u: Table, key: string, init: seq<(string, Measure)>, last: (string, Measure))
    requires key in u.columns
    requires forall i :: 0 <= i < |t.rows| ==> key in t.rows[i]
    requires KeepsCells(t, u, Names(init)) && HoldsMeasures(t, u, key, init)
    requires key !in Names(init) && key != last.0
    requires forall q :: 0 <= q < |init| ==> init[q].0 != last.0
    ensures KeepsCells(t, JoinMeasure(u, key, last.0, last.1).value, Names(init + [last]))
    ensures HoldsMeasures(t, JoinMeasure(u, key, last.0, last.1).value, key, init + [last])
  {
    var ms := init + [last];
    assert Names(ms) == Names(init) + {last.0} by {
      assert forall q :: 0 <= q < |init| ==> ms[q] == init[q];
      assert ms[|init|] == last;
    }
    var r := JoinMeasure(u, key, last.0, last.1).value;
    forall i | 0 <= i < |t.rows|
      ensures Cell(u.rows[i], key) == Cell(t.rows[i], key)
    {
    }
    forall i, q | 0 <= i < |t.rows| && 0 <= q < |ms|
      ensures ms[q].0 in r.rows[i] && r.rows[i][ms[q].0] == Lookup(ms[q].1, Cell(t.rows[i], key))
    {
      if q < |init| {
        assert ms[q] == init[q];
      }
    }
  }

  /** With distinct measure names none of which is the key column, every row
      keeps its other cells, and each measure's column holds that measure's
      value for the row's identifier, or NaN. */
  lemma {:induction false} JoinAllCells(t: Table, key: string, ms: seq<(string, Measure)>)
    requires t.Valid() && key in t.columns
    requires DistinctNames(ms) && key !in Names(ms)
    ensures JoinAll(t, key, ms).Success?
    ensures KeepsCells(t, JoinAll(t, key, ms).value, Names(ms))
    ensures HoldsMeasures(t, JoinAll(t, key, ms).value, key, ms)
    decreases |ms|
  {
    if |ms| > 0 {
      var init, last := ms[..|ms| - 1], ms[|ms| - 1];
      assert ms == init + [last];
      assert Names(init) <= Names(ms) by {
        forall q | 0 <= q < |init| ensures init[q].0 in Names(ms) {
          assert init[q] == ms[q];
        }
      }
      assert last.0 in Names(ms) by { assert ms[|ms| - 1] == last; }
      JoinAllCells(t, key, init);
      assert forall i :: 0 <= i < |t.rows| ==> key in t.rows[i] by {
        forall i | 0 <= i < |t.rows| ensures key in t.rows[i] {
          assert t.rows[i] in t.rows;
        }
      }
      JoinStep(t, JoinAll(t, key, init).value, key, init, last);
    }
  }

  /** A table that keeps its source's cells, the key among them, has no row
      whose identifier the source lacks. */
  lemma KeptIdentifiers(t: Table, r: Table, key: string, names: set<string>)
    requires t.Valid() && key in t.columns && key !in names
    requires KeepsCells(t, r, names)
    ensures forall row :: row in r.rows ==> Cell(row, key) in ColumnValues(t.rows, key)
  {
    forall row | row in r.rows ensures Cell(row, key) in ColumnValues(t.rows, key) {
      var i :| 0 <= i < |r.rows| && r.rows[i] == row;
      assert t.rows[i] in t.rows;
      assert Cell(row, key) == Cell(t.rows[i], key);
    }
  }

  /** Joining two measures with distinct names, neither the key, puts each
      row's lookups under those names and keeps every other cell. */
  lemma JoinTwo(t: Table, key: string, a: (string, Measure), b: (string, Measure))
    requires t.Valid() && key in t.columns
    requires a.0 != b.0 && key != a.0 && key != b.0
    ensures JoinAll(t, key, [a, b]).Success?
    ensures var r := JoinAll(t, key, [a, b]).value;
            && r.columns == t.columns + {a.0, b.0}
            && KeepsCells(t, r, {a.0, b.0})
            && forall i :: 0 <= i < |t.rows| ==>
                 && Cell(r.rows[i], a.0) == Lookup(a.1, Cell(t.rows[i], key))
                 && Cell(r.rows[i], b.0) == Lookup(b.1, Cell(t.rows[i], key))
  {
    var ms := [a, b];
    NamesOfTwo(a, b);
    JoinAllCells(t, key, ms);
    var r := JoinAll(t, key, ms).value;
    forall i | 0 <= i < |t.rows|
      ensures Cell(r.rows[i], a.0) == Lookup(a.1, Cell(t.rows[i], key))
      ensures Cell(r.rows[i], b.0) == Lookup(b.1, Cell(t.rows[i], key))
    {
      assert ms[0] == a && ms[1] == b;
    }
  }
}
