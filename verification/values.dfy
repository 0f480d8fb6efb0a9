/** Cell values as the workbook hands them to the program, Python truthiness of
    those values, and the option/result wrappers the rest of the model uses. */
module Values {

  /** A spreadsheet cell value: empty (None), text, or an integer. */
  datatype Value = Empty | Str(s: string) | Num(n: int)

  /** Python truthiness of a cell value: None, '' and 0 are false, everything else true. */
  predicate Truthy(v: Value) {
    match v
    case Empty => false
    case Str(s) => s != ""
    case Num(n) => n != 0
  }

  datatype Option<+T> = None | Some(value: T)

  /** The value held, or `d` when there is none. */
  function OrElse<T>(o: Option<T>, d: T): T {
    if o.Some? then o.value else d
  }

  /** A computation that either produces a value or raises the program's exception `error`. */
  datatype Result<+T, +E> = Success(value: T) | Failure(error: E)

  /** The cell in column `j` of `row`; columns past the end of a short row read as empty,
      as they do in a rectangular worksheet. */
  function CellAt(row: seq<Value>, j: nat): Value {
    if j < |row| then row[j] else Empty
  }

  /** The positions of `s` whose element satisfies `keep`, in increasing order: the
      reference against which the order-keeping filters of the program are stated. */
  function Positions<T>(s: seq<T>, keep: T -> bool): (idx: seq<int>)
    ensures forall j :: 0 <= j < |idx| ==> 0 <= idx[j] < |s| && keep(s[idx[j]])
    ensures forall j, k :: 0 <= j < k < |idx| ==> idx[j] < idx[k]
    ensures forall i :: 0 <= i < |s| && keep(s[i]) ==> i in idx
    decreases |s|
  {
    if |s| == 0 then []
    else
      var n := |s| - 1;
      var prefix := Positions(s[..n], keep);
      assert forall j :: 0 <= j < |prefix| ==> s[..n][prefix[j]] == s[prefix[j]];
      if keep(s[n]) then prefix + [n] else prefix
  }

  /** `r` is the elements of `s` that satisfy `keep`, in their order in `s`. */
  ghost predicate Picks<T>(r: seq<T>, s: seq<T>, keep: T -> bool) {
    var idx := Positions(s, keep);
    |r| == |idx| && forall j :: 0 <= j < |r| ==> r[j] == s[idx[j]]
  }

  /** Extending the input by one element extends the picked elements by it exactly when it
      is kept. */
  lemma PicksStep<T>(r: seq<T>, s: seq<T>, keep: T -> bool)
    requires |s| > 0 && Picks(r, s[..|s| - 1], keep)
    ensures Picks(if keep(s[|s| - 1]) then r + [s[|s| - 1]] else r, s, keep)
  {
    var n := |s| - 1;
    var idx := Positions(s[..n], keep);
    assert forall j :: 0 <= j < |idx| ==> s[..n][idx[j]] == s[idx[j]];
  }
}
