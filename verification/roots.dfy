/** The root record the analyzer works with, and how one observation row of a tube's
    worksheet becomes such a record (`root_from_row`). */
module Roots {
  import opened Values

  /** The living-status code: '' before classification, 'A' alive, 'G' gone. */
  datatype Status = Unclassified | Alive | Gone

  /** The gone-session attribute: never assigned, the empty string '' (cleared when a gone
      root is seen alive again), or a session number; the number 0 is the sentinel that
      finalization stores for a root that never died. */
  datatype GoneSession = Unset | Blank | At(session: int)

  /** Python truthiness of a gone-session value: only a non-zero session number is true. */
  predicate GoneTruthy(g: GoneSession) {
    g.At? && g.session != 0
  }

  /** The identity of a physical root within a tube. */
  datatype RootIdentity = RootIdentity(rootName: Value, location: Value, birthSession: int)

  /** A (session, location) pair: the key of every tip-survivorship count. */
  type TipKey = (int, Value)

  /** One physical root's current state. `tube` is absent until the root is added to a
      tube; `highestOrder` and `censored` read '' until finalization; `isAlive` reads ''
      (`Unclassified`) until a status beginning with 'A' or 'G' sets it, and `goneSession`
      stays unset, which is falsy, until the root is seen gone. The analyzer's root class
      is not part of this model, so these initial values are assumed from the record of
      root.py. The two tip counts are absent until the tip statistics are attached. */
  datatype Root = Root(
    identity: RootIdentity,
    session: int,
    goneSession: GoneSession,
    isAlive: Status,
    anomaly: bool,
    order: Value,
    avgDiameter: Value,
    tube: Option<Value>,
    highestOrder: Value,
    censored: Value,
    aliveTipsAtBirth: Option<int>,
    aliveTipsAtGone: Option<int>)
  {
    /** `tipIdentity`: the (birth session, location) cohort the root belongs to. */
    function TipIdentity(): TipKey {
      (identity.birthSession, identity.location)
    }

    /** The (gone session, location) key under which the root's death is counted. */
    function GoneKey(): TipKey
      requires goneSession.At?
    {
      (goneSession.session, identity.location)
    }
  }

  /** The status and gone session agree: a root is gone exactly when a session number is
      recorded as its gone session. Holds for every root built from a row and is kept by
      reconciliation; finalization then stores the sentinel 0 for alive roots. */
  predicate StatusAgrees(r: Root) {
    (r.isAlive == Gone) == r.goneSession.At?
  }

  /** The columns of one observation row that the analyzer reads. The two session columns
      are integers; the rest are opaque cell values. */
  datatype Row = Row(
    rootName: Value,
    location: Value,
    birthSession: int,
    session: int,
    tipLivStatus: Value,
    numberOfTips: Value,
    rootNotes: Value,
    totAvgDiam: Value,
    date: Value)

  /** The status column of a single-tip row is not text, so `startswith` raises. */
  datatype RowError = StatusNotText(identity: RootIdentity, status: Value)

  /** `root_from_row`. A row whose tip count is not 1 is anomalous and forced alive. Otherwise
      a status text starting with `A` means alive and one starting with `G` means gone, which
      also records the row's session as the gone session; any other text leaves the status
      unclassified. */
  function RootFromRow(row: Row): (r: Result<Root, RowError>)
    ensures r.Failure? <==> row.numberOfTips == Num(1) && !row.tipLivStatus.Str?
    ensures r.Success? ==> var root := r.value;
      && root.identity == RootIdentity(row.rootName, row.location, row.birthSession)
      && root.session == row.session
      && root.order == row.rootNotes && root.avgDiameter == row.totAvgDiam
      && root.tube.None? && root.highestOrder == Str("") && root.censored == Str("")
      && root.aliveTipsAtBirth.None? && root.aliveTipsAtGone.None?
      && (root.anomaly <==> row.numberOfTips != Num(1))
      && (root.anomaly ==> root.isAlive == Alive && root.goneSession == Unset)
      && (!root.anomaly && "A" <= row.tipLivStatus.s ==> root.isAlive == Alive && root.goneSession == Unset)
      && (!root.anomaly && "G" <= row.tipLivStatus.s ==> root.isAlive == Gone && root.goneSession == At(row.session))
      && (!root.anomaly && !("A" <= row.tipLivStatus.s) && !("G" <= row.tipLivStatus.s) ==>
            root.isAlive == Unclassified && root.goneSession == Unset)
      && StatusAgrees(root)
  {
    var identity := RootIdentity(row.rootName, row.location, row.birthSession);
    var anomaly := row.numberOfTips != Num(1);
    if !anomaly && !row.tipLivStatus.Str? then Failure(StatusNotText(identity, row.tipLivStatus))
    else
      var isAlive :=
        if anomaly then Alive
        else if |row.tipLivStatus.s| > 0 && row.tipLivStatus.s[0] == 'A' then Alive
        else if |row.tipLivStatus.s| > 0 && row.tipLivStatus.s[0] == 'G' then Gone
        else Unclassified;
      var goneSession := if isAlive == Gone then At(row.session) else Unset;
      Success(Root(identity, row.session, goneSession, isAlive, anomaly, row.rootNotes, row.totAvgDiam,
                   None, Str(""), Str(""), None, None))
  }
}
