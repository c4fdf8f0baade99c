/**
 The two row filters of `DataCleaner` (src/data_ingestion/cleaner.py and its
 identical copy metrics/src/data_ingestion/cleaner.py).
 */
module Cleaner {
  import opened Wrappers
  import opened Frames
  import opened Sequences

  const DocTypeBranch: string := "doctypebranch"
  const CommunicatedCases: Value := Text("COMMUNICATEDCASES")

  /** The row mask `frame['doctypebranch'] != 'COMMUNICATEDCASES'`; a NaN
      branch compares unequal and is kept. */
  function NotCommunicated(): Row -> bool {
    (r: Row) => Cell(r, DocTypeBranch) != CommunicatedCases
  }

  /** The row mask `frame['target'].isin(valid)`. */
  function TargetIn(valid: set<Value>): Row -> bool {
    (r: Row) => Cell(r, TargetColumn) in valid
  }

  /** `remove_communicated_cases`: drop the rows of branch COMMUNICATEDCASES. */
  function RemoveCommunicatedCases(t: Table): (r: Result<Table, Error>)
    ensures r.Failure? <==> DocTypeBranch !in t.columns
    ensures r.Failure? ==> r.error == KeyError(DocTypeBranch)
    ensures r.Success? ==> r.value.columns == t.columns
    ensures r.Success? && t.Valid() ==> r.value.Valid()
    ensures r.Success? ==> forall row :: row in r.value.rows <==>
              row in t.rows && Cell(row, DocTypeBranch) != CommunicatedCases
  {
    if DocTypeBranch !in t.columns then Failure(KeyError(DocTypeBranch))
    else Success(Table(t.columns, Filter(t.rows, NotCommunicated())))
  }

  /** `filter_targets`: keep the edge rows whose target is a valid identifier.
      The source column is never looked at. */
  function FilterTargets(t: Table, valid: set<Value>): (r: Result<Table, Error>)
    ensures r.Failure? <==> TargetColumn !in t.columns
    ensures r.Failure? ==> r.error == KeyError(TargetColumn)
    ensures r.Success? ==> r.value.columns == t.columns
    ensures r.Success? && t.Valid() ==> r.value.Valid()
    ensures r.Success? ==> forall row :: row in r.value.rows <==>
              row in t.rows && Cell(row, TargetColumn) in valid
  {
    if TargetColumn !in t.columns then Failure(KeyError(TargetColumn))
    else Success(Table(t.columns, Filter(t.rows, TargetIn(valid))))
  }

  /** Each kept row keeps its multiplicity, the rows keep their order, and a
      row whose branch is anything else, NaN or `None` included, survives. */
  lemma KeepsNonCommunicatedInOrder(t: Table, row: Row)
    requires DocTypeBranch in t.columns
    ensures IsSubsequence(RemoveCommunicatedCases(t).value.rows, t.rows)
    ensures multiset(RemoveCommunicatedCases(t).value.rows)[row] ==
            if Cell(row, DocTypeBranch) != CommunicatedCases then multiset(t.rows)[row] else 0
    ensures row in t.rows && Cell(row, DocTypeBranch) in {Missing, Null} ==> row in RemoveCommunicatedCases(t).value.rows
  {
    FilterIsSubsequence(t.rows, NotCommunicated());
    FilterCounts(t.rows, NotCommunicated(), row);
  }

  /** Removing communicated cases a second time removes nothing. */
  lemma RemoveCommunicatedIdempotent(t: Table)
    requires DocTypeBranch in t.columns
    ensures RemoveCommunicatedCases(RemoveCommunicatedCases(t).value) == RemoveCommunicatedCases(t)
  {
    FilterIdempotent(t.rows, NotCommunicated());
  }

  /** Each row with a valid target keeps its multiplicity and the order is
      kept; the multiplicity does not depend on the source cell. */
  lemma KeepsValidTargetsInOrder(t: Table, valid: set<Value>, row: Row)
    requires TargetColumn in t.columns
    ensures IsSubsequence(FilterTargets(t, valid).value.rows, t.rows)
    ensures multiset(FilterTargets(t, valid).value.rows)[row] ==
            if Cell(row, TargetColumn) in valid then multiset(t.rows)[row] else 0
  {
    FilterIsSubsequence(t.rows, TargetIn(valid));
    FilterCounts(t.rows, TargetIn(valid), row);
  }

  /** Filtering targets a second time with the same set removes nothing. */
  lemma FilterTargetsIdempotent(t: Table, valid: set<Value>)
    requires TargetColumn in t.columns
    ensures FilterTargets(FilterTargets(t, valid).value, valid) == FilterTargets(t, valid)
  {
    FilterIdempotent(t.rows, TargetIn(valid));
  }

  /** A larger set of valid targets keeps a super-sequence of the rows. */
  lemma FilterTargetsMonotone(t: Table, valid: set<Value>, larger: set<Value>)
    requires TargetColumn in t.columns
    requires valid <= larger
    ensures IsSubsequence(FilterTargets(t, valid).value.rows, FilterTargets(t, larger).value.rows)
  {
    FilterMonotone(t.rows, TargetIn(valid), TargetIn(larger));
  }
}
