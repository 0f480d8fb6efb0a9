/** The driver of `process_worksheet`: the typed rows of one tube become roots, go through
    the bookkeeping of `Worksheet.ReconcileRows`, and the tube and its roots are annotated
    with the tip statistics. */
module Process {
  import opened Values
  import opened Roots
  import opened Tubes
  import opened Survivorship
  import opened Worksheet

  /** The pipeline of `process_worksheet` once every row has become a root: the bookkeeping
      of `ReconcileRows`, then the tip statistics computed and attached to the tube and to
      every root. */
  function Pipeline(tubeNumber: Value, rows: seq<Row>, roots: seq<Root>): (t: Tube)
    requires RootsOf(roots, rows)
    ensures BuiltFrom(t, tubeNumber, rows)
    ensures Rebuilt(t.roots, roots, tubeNumber, t.maxSessionCount)
    ensures Annotated(t)
  {
    var t := ReconcileRows(tubeNumber, rows, roots);
    AttachKeepsAll(tubeNumber, rows, roots, t);
    AttachTipStats(t)
  }

  /** Setting the tip statistics on a tube built from the rows keeps it built from them and
      its roots the final records, and annotates it. */
  lemma AttachKeepsAll(tubeNumber: Value, rows: seq<Row>, roots: seq<Root>, t: Tube)
    requires BuiltFrom(t, tubeNumber, rows) && Rebuilt(t.roots, roots, tubeNumber, t.maxSessionCount)
    ensures var r := AttachTipStats(t);
            BuiltFrom(r, tubeNumber, rows) && Rebuilt(r.roots, roots, tubeNumber, r.maxSessionCount) && Annotated(r)
  {
    var r := AttachTipStats(t);
    AttachKeepsReconciled(tubeNumber, rows, t, r);
    AnnotationKeepsRebuilt(t.roots, r.roots, roots, tubeNumber, t.maxSessionCount);
    AttachAnnotates(t);
  }

  /** `process_worksheet` from the typed rows: the first row whose status cannot be read
      aborts it; otherwise the roots of all rows go through the pipeline. */
  function ProcessWorksheet(tubeNumber: Value, rows: seq<Row>): (r: Result<Tube, RowError>)
    ensures r.Failure? <==> exists i :: 0 <= i < |rows| && RootFromRow(rows[i]).Failure?
    ensures r.Success? ==> BuiltFrom(r.value, tubeNumber, rows) && Annotated(r.value)
    ensures r.Success? ==>
              RootsFromRows(rows).Success? && Rebuilt(r.value.roots, RootsFromRows(rows).value, tubeNumber, r.value.maxSessionCount)
  {
    RowsFail(rows);
    match RootsFromRows(rows)
    case Failure(e) => Failure(e)
    case Success(roots) =>
      RootsMatchRows(rows, roots);
      Success(Pipeline(tubeNumber, rows, roots))
  }

  /** Building the roots fails exactly when some row cannot become a root. */
  lemma RowsFail(rows: seq<Row>)
    ensures RootsFromRows(rows).Failure? <==> exists i :: 0 <= i < |rows| && RootFromRow(rows[i]).Failure?
  {
  }
}
