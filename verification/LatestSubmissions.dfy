/**
 Which submission speaks for a device: the fleet's running maximum over the analyses, and the
 dashboard's two stages over analyses and index.
 */
module LatestSubmissions {
  import opened Ordering
  import opened Unicode
  import opened TextSets

  // ----- tuples of strings as sort keys

  function Shift(t: Text): (r: Text)
    ensures |r| == |t| && forall i :: 0 <= i < |t| ==> r[i] == t[i] + 1
  {
    seq(|t|, i requires 0 <= i < |t| => t[i] + 1)
  }

  /** A pair of strings compared field by field: every character is above the separator. */
  function PairKey(a: Text, b: Text): seq<nat> { Shift(a) + [0] + Shift(b) }

  lemma {:induction false} ShiftLess(a: Text, b: Text)
    ensures Less(Shift(a), Shift(b)) <==> Less(a, b)
  {
    if a != [] && b != [] {
      assert Shift(a)[1..] == Shift(a[1..]) && Shift(b)[1..] == Shift(b[1..]);
      ShiftLess(a[1..], b[1..]);
    }
  }

  /** The key orders pairs as Python orders tuples. */
  lemma {:induction false} PairKeyLess(a: Text, b: Text, c: Text, d: Text)
    ensures Less(PairKey(a, b), PairKey(c, d)) <==> Less(a, c) || (a == c && Less(b, d))
    decreases |a|
  {
    var x, y := PairKey(a, b), PairKey(c, d);
    if a == [] && c == [] {
      assert x[1..] == Shift(b) && y[1..] == Shift(d);
      ShiftLess(b, d);
    } else if a != [] && c != [] {
      assert Shift(a)[1..] == Shift(a[1..]) && Shift(c)[1..] == Shift(c[1..]);
      assert x[1..] == PairKey(a[1..], b) && y[1..] == PairKey(c[1..], d);
      PairKeyLess(a[1..], b, c[1..], d);
      assert a == [a[0]] + a[1..] && c == [c[0]] + c[1..];
    }
  }

  lemma PairKeySecond(a: Text, b: Text, c: Text, d: Text)
    requires PairKey(a, b) == PairKey(c, d)
    ensures a == c && b == d
  {
    LessIrreflexive(PairKey(a, b));
    PairKeyLess(a, b, c, d);
    PairKeyLess(c, d, a, b);
    LessTotal(a, c);
    LessTotal(b, d);
  }

  // ----- the maximum per device, two ways

  function RunningMaximum<T>(items: seq<T>, device: T -> Text, key: T -> seq<nat>): map<Text, T> {
    if items == [] then map[]
    else
      var m, x := RunningMaximum(items[..|items| - 1], device, key), items[|items| - 1];
      if device(x) !in m || Less(key(m[device(x)]), key(x)) then m[device(x) := x] else m
  }

  function Overwrite<T>(items: seq<T>, device: T -> Text): map<Text, T> {
    if items == [] then map[]
    else
      var x := items[|items| - 1];
      Overwrite(items[..|items| - 1], device)[device(x) := x]
  }

  /** Each device that has an item is given one of its own that no other is later than. */
  ghost predicate IsLatest<T(!new)>(items: seq<T>, device: T -> Text, key: T -> seq<nat>, m: map<Text, T>) {
    && (forall x :: x in items ==> device(x) in m && !Less(key(m[device(x)]), key(x)))
    && (forall d :: d in m ==> m[d] in items && device(m[d]) == d)
  }

  lemma {:induction false} RunningMaximumIsLatest<T(!new)>(items: seq<T>, device: T -> Text, key: T -> seq<nat>)
    ensures IsLatest(items, device, key, RunningMaximum(items, device, key))
  {
    hide Less;
    if items == [] {
    } else {
      var init, x := items[..|items| - 1], items[|items| - 1];
      RunningMaximumIsLatest(init, device, key);
      var m := RunningMaximum(init, device, key);
      assert items == init + [x];
      LessIrreflexive(key(x));
      if device(x) in m && Less(key(m[device(x)]), key(x)) {
        forall y | y in init && device(y) == device(x)
          ensures !Less(key(x), key(y))
        {
          if Less(key(x), key(y)) {
            LessTransitive(key(m[device(x)]), key(x), key(y));
          }
        }
      }
    }
  }

  lemma SortedInit<T(!new)>(items: seq<T>, key: T -> seq<nat>)
    requires SortedBy(key, items) && items != []
    ensures SortedBy(key, items[..|items| - 1])
    ensures forall y :: y in items ==> !Less(key(items[|items| - 1]), key(y))
  {
    hide Less;
    LessIrreflexive(key(items[|items| - 1]));
  }

  lemma {:induction false} OverwriteIsLatest<T(!new)>(items: seq<T>, device: T -> Text, key: T -> seq<nat>)
    requires SortedBy(key, items)
    ensures IsLatest(items, device, key, Overwrite(items, device))
  {
    hide Less, SortedBy;
    if items == [] {
    } else {
      var init, x := items[..|items| - 1], items[|items| - 1];
      SortedInit(items, key);
      OverwriteIsLatest(init, device, key);
      assert items == init + [x];
      OverwriteStep(init, x, device, key, Overwrite(init, device));
    }
  }

  lemma OverwriteStep<T(!new)>(init: seq<T>, x: T, device: T -> Text, key: T -> seq<nat>, m: map<Text, T>)
    requires IsLatest(init, device, key, m) && forall y :: y in init + [x] ==> !Less(key(x), key(y))
    ensures IsLatest(init + [x], device, key, m[device(x) := x])
  {
    hide Less;
    assert x in init + [x];
  }

  lemma LatestUnique<T(!new)>(a: seq<T>, b: seq<T>, device: T -> Text, key: T -> seq<nat>, m: map<Text, T>,
                       n: map<Text, T>)
    requires IsLatest(a, device, key, m) && IsLatest(b, device, key, n) && KeyInjective(key, a)
    requires forall x :: x in a <==> x in b
    ensures m == n
  {
    hide Less;
    forall d | d in m
      ensures d in n && m[d] == n[d]
    {
      LessTotal(key(m[d]), key(n[d]));
    }
    forall d | d in n
      ensures d in m
    {
      assert device(n[d]) == d;
    }
  }

  /** With distinct keys the running maximum does not depend on the order of the items, and it
      is what sorting them and letting later ones overwrite earlier ones gives. */
  lemma LatestIsOrderFree<T(!new)>(a: seq<T>, b: seq<T>, device: T -> Text, key: T -> seq<nat>)
    requires multiset(a) == multiset(b) && KeyInjective(key, a)
    ensures RunningMaximum(a, device, key) == RunningMaximum(b, device, key)
    ensures RunningMaximum(a, device, key) == Overwrite(SortBy(key, b), device)
  {
    var s := SortBy(key, b);
    forall x
      ensures x in a <==> x in b
    {
      assert x in a <==> x in multiset(a);
      assert x in b <==> x in multiset(b);
    }
    SortByMembers(key, b);
    SortBySorted(key, b);
    RunningMaximumIsLatest(a, device, key);
    RunningMaximumIsLatest(b, device, key);
    OverwriteIsLatest(s, device, key);
    LatestUnique(a, b, device, key, RunningMaximum(a, device, key), RunningMaximum(b, device, key));
    LatestUnique(a, s, device, key, RunningMaximum(a, device, key), Overwrite(s, device));
  }

  // ----- analyses and index

  datatype Finding = Finding(deviceId: Text, submissionId: Text)

  datatype IndexItem = IndexItem(deviceId: Text, submissionId: Text, receivedAt: Text, processingState: Text)

  /** `received_at.get(id, "")`: the last item with that ID counts. */
  function ReceivedAt(index: seq<IndexItem>, id: Text): Text {
    if index == [] then []
    else if index[|index| - 1].submissionId == id then index[|index| - 1].receivedAt
    else ReceivedAt(index[..|index| - 1], id)
  }

  function FindingKey(index: seq<IndexItem>): Finding -> seq<nat> {
    (f: Finding) => PairKey(ReceivedAt(index, f.submissionId), f.submissionId)
  }

  const FINDING_DEVICE: Finding -> Text := (f: Finding) => f.deviceId

  function Latest(findings: seq<Finding>, index: seq<IndexItem>): map<Text, Finding> {
    RunningMaximum(findings, FINDING_DEVICE, FindingKey(index))
  }

  ghost predicate DistinctFindings(findings: seq<Finding>) {
    forall f, g :: f in findings && g in findings && f.submissionId == g.submissionId ==> f == g
  }

  /** The fleet's choice is the same whatever order the analyses are read in. */
  lemma FleetIsOrderFree(a: seq<Finding>, b: seq<Finding>, index: seq<IndexItem>)
    requires multiset(a) == multiset(b) && DistinctFindings(a)
    ensures Latest(a, index) == Latest(b, index)
    ensures Latest(a, index) == Overwrite(SortBy(FindingKey(index), b), FINDING_DEVICE)
  {
    hide Less, PairKey;
    forall f, g | f in a && g in a && FindingKey(index)(f) == FindingKey(index)(g)
      ensures f == g
    {
      PairKeySecond(ReceivedAt(index, f.submissionId), f.submissionId,
                    ReceivedAt(index, g.submissionId), g.submissionId);
    }
    LatestIsOrderFree(a, b, FINDING_DEVICE, FindingKey(index));
  }

  /** The loop of `load_latest_endpoint_data`. */
  method LoadLatest(findings: seq<Finding>, index: seq<IndexItem>) returns (latest: map<Text, Finding>)
    ensures latest == Latest(findings, index)
  {
    latest := map[];
    for i := 0 to |findings|
      invariant latest == Latest(findings[..i], index)
    {
      assert findings[..i + 1][..i] == findings[..i];
      var item := findings[i];
      var order := PairKey(ReceivedAt(index, item.submissionId), item.submissionId);
      if item.deviceId !in latest {
        latest := latest[item.deviceId := item];
      } else {
        var current := latest[item.deviceId];
        if Less(PairKey(ReceivedAt(index, current.submissionId), current.submissionId), order) {
          latest := latest[item.deviceId := item];
        }
      }
    }
    assert findings[..|findings|] == findings;
  }

  // ----- the dashboard

  /** complete rows come from analyses, the others from the index alone. */
  datatype Row = Row(deviceId: Text, submissionId: Text, receivedAt: Text, complete: bool, processingState: Text)

  const ROW_KEY: Row -> seq<nat> := (r: Row) => PairKey(r.receivedAt, r.submissionId)

  const ROW_DEVICE: Row -> Text := (r: Row) => r.deviceId

  function CompleteRow(index: seq<IndexItem>, f: Finding): Row {
    Row(f.deviceId, f.submissionId, ReceivedAt(index, f.submissionId), true, [])
  }

  function PendingRow(x: IndexItem): Row { Row(x.deviceId, x.submissionId, x.receivedAt, false, x.processingState) }

  function CompleteRows(latest: map<Text, Finding>, index: seq<IndexItem>, devices: seq<Text>): seq<Row> {
    if devices == [] then []
    else
      var d := devices[|devices| - 1];
      CompleteRows(latest, index, devices[..|devices| - 1])
      + if d in latest then [CompleteRow(index, latest[d])] else []
  }

  /** Items without an ID, or whose analysis is on show, are passed over. */
  function PendingRows(index: seq<IndexItem>, analyzed: set<Text>): seq<Row> {
    if index == [] then []
    else
      var x := index[|index| - 1];
      PendingRows(index[..|index| - 1], analyzed)
      + if x.submissionId == [] || x.submissionId in analyzed then [] else [PendingRow(x)]
  }

  function Analyzed(latest: map<Text, Finding>): set<Text> { set d | d in latest :: latest[d].submissionId }

  ghost function Rows(findings: seq<Finding>, index: seq<IndexItem>): seq<Row> {
    var latest := Latest(findings, index);
    CompleteRows(latest, index, SortedIds(latest.Keys)) + PendingRows(index, Analyzed(latest))
  }

  ghost function Shown(findings: seq<Finding>, index: seq<IndexItem>): map<Text, Row> {
    Overwrite(SortBy(ROW_KEY, Rows(findings, index)), ROW_DEVICE)
  }

  method BuildComplete(latest: map<Text, Finding>, index: seq<IndexItem>, devices: seq<Text>)
    returns (rows: seq<Row>, analyzed: set<Text>)
    requires forall d :: d in devices <==> d in latest
    ensures rows == CompleteRows(latest, index, devices) && analyzed == Analyzed(latest)
  {
    hide ReceivedAt;
    rows, analyzed := [], {};
    for i := 0 to |devices|
      invariant rows == CompleteRows(latest, index, devices[..i])
      invariant analyzed == set d | d in latest && d in devices[..i] :: latest[d].submissionId
    {
      assert devices[..i + 1][..i] == devices[..i] && devices[i] in devices;
      var endpoint := latest[devices[i]];
      assert devices[..i + 1] == devices[..i] + [devices[i]];
      analyzed := analyzed + {endpoint.submissionId};
      rows := rows + [CompleteRow(index, endpoint)];
    }
    assert devices[..|devices|] == devices;
  }

  method BuildPending(index: seq<IndexItem>, analyzed: set<Text>) returns (rows: seq<Row>)
    ensures rows == PendingRows(index, analyzed)
  {
    rows := [];
    for i := 0 to |index|
      invariant rows == PendingRows(index[..i], analyzed)
    {
      assert index[..i + 1][..i] == index[..i];
      var item := index[i];
      if item.submissionId != [] && item.submissionId !in analyzed {
        rows := rows + [PendingRow(item)];
      }
    }
    assert index[..|index|] == index;
  }

  method KeepLast(rows: seq<Row>) returns (shown: map<Text, Row>)
    ensures shown == Overwrite(rows, ROW_DEVICE)
  {
    shown := map[];
    for i := 0 to |rows|
      invariant shown == Overwrite(rows[..i], ROW_DEVICE)
    {
      assert rows[..i + 1][..i] == rows[..i];
      shown := shown[rows[i].deviceId := rows[i]];
    }
    assert rows[..|rows|] == rows;
  }

  /** `dashboard`: complete rows, pending rows, then the last row per device in time order. */
  method Dashboard(findings: seq<Finding>, index: seq<IndexItem>) returns (shown: map<Text, Row>, order: seq<Text>)
    ensures shown == Shown(findings, index) && order == SortedIds(shown.Keys)
  {
    hide SortBy, Latest, CompleteRows, PendingRows, Overwrite, Analyzed, PairKey;
    var latest := LoadLatest(findings, index);
    var listed := ListOf(latest.Keys);
    SortedIdsIs(latest.Keys, listed);
    var complete, analyzed := BuildComplete(latest, index, SortBy(BY_ID, listed));
    var pending := BuildPending(index, analyzed);
    shown := KeepLast(SortBy(ROW_KEY, complete + pending));
    var keys := ListOf(shown.Keys);
    SortedIdsIs(shown.Keys, keys);
    order := SortBy(BY_ID, keys);
  }

  // ----- what is shown

  lemma {:induction false} CompleteRowsMembers(latest: map<Text, Finding>, index: seq<IndexItem>, devices: seq<Text>)
    ensures forall r :: r in CompleteRows(latest, index, devices) <==>
              exists d :: d in devices && d in latest && r == CompleteRow(index, latest[d])
  {
    if devices == [] {
    } else {
      var init, d := devices[..|devices| - 1], devices[|devices| - 1];
      CompleteRowsMembers(latest, index, init);
      assert devices == init + [d];
    }
  }

  lemma {:induction false} PendingRowsMembers(index: seq<IndexItem>, analyzed: set<Text>)
    ensures forall r :: r in PendingRows(index, analyzed) <==>
              exists x :: x in index && x.submissionId != [] && x.submissionId !in analyzed && r == PendingRow(x)
  {
    if index == [] {
    } else {
      var init, x := index[..|index| - 1], index[|index| - 1];
      PendingRowsMembers(init, analyzed);
      assert index == init + [x];
    }
  }

  ghost predicate DistinctIndex(index: seq<IndexItem>) {
    forall i, j :: 0 <= i < j < |index| ==> index[i].submissionId != index[j].submissionId
  }

  lemma {:induction false} ReceivedIs(index: seq<IndexItem>, x: IndexItem)
    requires DistinctIndex(index) && x in index
    ensures ReceivedAt(index, x.submissionId) == x.receivedAt
  {
    var last := index[|index| - 1];
    if last != x {
      assert index == index[..|index| - 1] + [last];
      var i :| 0 <= i < |index| && index[i] == x;
      assert i < |index| - 1;
      ReceivedIs(index[..|index| - 1], x);
    }
  }

  /** Index and analyses name the same device for a submission. */
  ghost predicate DevicesAgree(findings: seq<Finding>, index: seq<IndexItem>) {
    forall f, x :: f in findings && x in index && f.submissionId == x.submissionId ==> f.deviceId == x.deviceId
  }

  lemma ShownIsLatest(findings: seq<Finding>, index: seq<IndexItem>)
    ensures IsLatest(Rows(findings, index), ROW_DEVICE, ROW_KEY, Shown(findings, index))
  {
    hide Less, SortBy, Rows;
    var rows := Rows(findings, index);
    SortBySorted(ROW_KEY, rows);
    SortByMembers(ROW_KEY, rows);
    OverwriteIsLatest(SortBy(ROW_KEY, rows), ROW_DEVICE, ROW_KEY);
  }

  lemma RowKinds(findings: seq<Finding>, index: seq<IndexItem>, r: Row)
    ensures var latest := Latest(findings, index);
            r in Rows(findings, index) <==>
              || (exists d :: d in latest && r == CompleteRow(index, latest[d]))
              || (exists x ::
                    x in index && x.submissionId != [] && x.submissionId !in Analyzed(latest) && r == PendingRow(x))
  {
    hide CompleteRows, PendingRows, Latest, Analyzed;
    var latest := Latest(findings, index);
    CompleteRowsMembers(latest, index, SortedIds(latest.Keys));
    PendingRowsMembers(index, Analyzed(latest));
  }

  /** In the two-stage dashboard a submission that has been analysed is never shown as merely
      received, not even one that a later analysis of its device has superseded. */
  lemma AnalysedNeverPending(findings: seq<Finding>, index: seq<IndexItem>, d: Text, f: Finding)
    requires DistinctIndex(index) && DevicesAgree(findings, index)
    requires d in Shown(findings, index) && !Shown(findings, index)[d].complete && f in findings
    ensures f.submissionId != Shown(findings, index)[d].submissionId
  {
    hide Less, Rows, Shown, Latest, PairKey, DistinctIndex, Overwrite, SortBy, RunningMaximum;
    var row, latest := Shown(findings, index)[d], Latest(findings, index);
    ShownIsLatest(findings, index);
    RowKinds(findings, index, row);
    if f.submissionId == row.submissionId {
      var x :| x in index && x.submissionId != [] && x.submissionId !in Analyzed(latest) && row == PendingRow(x);
      ReceivedIs(index, x);
      LatestHolds(findings, index, f);
      var best := latest[d];
      assert best.submissionId in Analyzed(latest);
      RowKinds(findings, index, CompleteRow(index, best));
      LessTotal(FindingKey(index)(best), FindingKey(index)(f));
      PairKeySecond(ReceivedAt(index, best.submissionId), best.submissionId,
                    ReceivedAt(index, f.submissionId), f.submissionId);
    }
  }

  lemma LatestHolds(findings: seq<Finding>, index: seq<IndexItem>, f: Finding)
    requires f in findings
    ensures var latest := Latest(findings, index);
            && f.deviceId in latest && latest[f.deviceId].deviceId == f.deviceId
            && !Less(FindingKey(index)(latest[f.deviceId]), FindingKey(index)(f))
  {
    RunningMaximumIsLatest(findings, FINDING_DEVICE, FindingKey(index));
  }

  /** The analysis speaks for its device: none of the same device is later. */
  ghost predicate Speaks(findings: seq<Finding>, index: seq<IndexItem>, g: Finding) {
    g in findings
    && forall h: Finding ::
         h in findings && h.deviceId == g.deviceId ==> !Less(FindingKey(index)(g), FindingKey(index)(h))
  }

  /** The submission has an analysis that speaks for its device. */
  ghost predicate OnShow(findings: seq<Finding>, index: seq<IndexItem>, submissionId: Text) {
    exists g: Finding :: g.submissionId == submissionId && Speaks(findings, index, g)
  }

  lemma FindingKeysDiffer(findings: seq<Finding>, index: seq<IndexItem>, f: Finding, g: Finding)
    requires DistinctFindings(findings) && f in findings && g in findings
    requires FindingKey(index)(f) == FindingKey(index)(g)
    ensures f == g
  {
    hide Less, PairKey;
    PairKeySecond(ReceivedAt(index, f.submissionId), f.submissionId, ReceivedAt(index, g.submissionId), g.submissionId);
  }

  /** With distinct analyses the running maximum is the analysis that speaks. */
  lemma LatestSpeaks(findings: seq<Finding>, index: seq<IndexItem>, g: Finding)
    requires DistinctFindings(findings)
    ensures Speaks(findings, index, g) <==>
              g.deviceId in Latest(findings, index) && Latest(findings, index)[g.deviceId] == g
  {
    hide Less, RunningMaximum;
    RunningMaximumIsLatest(findings, FINDING_DEVICE, FindingKey(index));
    var latest := Latest(findings, index);
    if Speaks(findings, index, g) {
      var best := latest[g.deviceId];
      LessTotal(FindingKey(index)(best), FindingKey(index)(g));
      FindingKeysDiffer(findings, index, best, g);
    }
  }

  lemma AnalyzedOnShow(findings: seq<Finding>, index: seq<IndexItem>, submissionId: Text)
    requires DistinctFindings(findings)
    ensures submissionId in Analyzed(Latest(findings, index)) <==> OnShow(findings, index, submissionId)
  {
    hide Speaks;
    var latest := Latest(findings, index);
    forall g
      ensures Speaks(findings, index, g) <==> g.deviceId in latest && latest[g.deviceId] == g
    {
      LatestSpeaks(findings, index, g);
    }
    if submissionId in Analyzed(latest) {
      var d :| d in latest && latest[d].submissionId == submissionId;
      LatestDevices(findings, index, d);
      assert Speaks(findings, index, latest[d]);
    }
  }

  lemma LatestDevices(findings: seq<Finding>, index: seq<IndexItem>, d: Text)
    requires d in Latest(findings, index)
    ensures Latest(findings, index)[d].deviceId == d && Latest(findings, index)[d] in findings
  {
    RunningMaximumIsLatest(findings, FINDING_DEVICE, FindingKey(index));
  }

  /** Shown as received, not as analysed. */
  ghost predicate ShowsPending(findings: seq<Finding>, index: seq<IndexItem>, submissionId: Text) {
    var shown := Shown(findings, index);
    exists d :: d in shown && !shown[d].complete && shown[d].submissionId == submissionId
  }

  /** Nothing the dashboard could show for the item's device is later than the item: no analysis
      of that device, and no item of it that is not on show itself. */
  ghost predicate LastOfDevice(findings: seq<Finding>, index: seq<IndexItem>, x: IndexItem) {
    && (forall g :: g in findings && g.deviceId == x.deviceId ==> !Less(ROW_KEY(PendingRow(x)), FindingKey(index)(g)))
    && (forall y :: y in index && y.deviceId == x.deviceId && y.submissionId != []
                    && !OnShow(findings, index, y.submissionId) ==>
          !Less(ROW_KEY(PendingRow(x)), ROW_KEY(PendingRow(y))))
  }

  lemma RowKindsOnShow(findings: seq<Finding>, index: seq<IndexItem>, r: Row)
    requires DistinctFindings(findings)
    ensures r in Rows(findings, index) <==>
              || (exists g :: Speaks(findings, index, g) && r == CompleteRow(index, g))
              || (exists x ::
                    && x in index && x.submissionId != [] && !OnShow(findings, index, x.submissionId)
                    && r == PendingRow(x))
  {
    hide Latest, Speaks, OnShow, Analyzed, Rows;
    var latest := Latest(findings, index);
    RowKinds(findings, index, r);
    forall g
      ensures Speaks(findings, index, g) <==> g.deviceId in latest && latest[g.deviceId] == g
    {
      LatestSpeaks(findings, index, g);
    }
    forall s
      ensures s in Analyzed(latest) <==> OnShow(findings, index, s)
    {
      AnalyzedOnShow(findings, index, s);
    }
    forall d | d in latest
      ensures latest[d].deviceId == d
    {
      LatestDevices(findings, index, d);
    }
  }

  /** An item shows as pending exactly when it is not on show as an analysis and is the last of
      its device. */
  lemma ItemPending(findings: seq<Finding>, index: seq<IndexItem>, x: IndexItem)
    requires DistinctIndex(index) && DistinctFindings(findings) && x in index
    ensures ShowsPending(findings, index, x.submissionId) <==>
              x.submissionId != [] && !OnShow(findings, index, x.submissionId) && LastOfDevice(findings, index, x)
  {
    hide Less, Rows, Shown, Speaks, OnShow, PairKey, DistinctIndex, ReceivedAt, LastOfDevice;
    var shown, row := Shown(findings, index), PendingRow(x);
    ShownIsLatest(findings, index);
    RowKindsOnShow(findings, index, row);
    if ShowsPending(findings, index, x.submissionId) {
      var d :| d in shown && !shown[d].complete && shown[d].submissionId == x.submissionId;
      RowKindsOnShow(findings, index, shown[d]);
      var y :| && y in index && y.submissionId != [] && !OnShow(findings, index, y.submissionId)
               && shown[d] == PendingRow(y);
      SameItem(index, x, y);
      NothingLater(findings, index, x);
    }
    if x.submissionId != [] && !OnShow(findings, index, x.submissionId) && LastOfDevice(findings, index, x) {
      LastIsShown(findings, index, x);
    }
  }

  lemma SameItem(index: seq<IndexItem>, x: IndexItem, y: IndexItem)
    requires DistinctIndex(index) && x in index && y in index && x.submissionId == y.submissionId
    ensures x == y
  {
    var i :| 0 <= i < |index| && index[i] == x;
    var j :| 0 <= j < |index| && index[j] == y;
  }

  lemma NothingLater(findings: seq<Finding>, index: seq<IndexItem>, x: IndexItem)
    requires DistinctFindings(findings) && x in index
    requires x.deviceId in Shown(findings, index) && Shown(findings, index)[x.deviceId] == PendingRow(x)
    ensures LastOfDevice(findings, index, x)
  {
    hide Less, Rows, Shown, OnShow, PairKey, ReceivedAt, Latest, Speaks;
    var row := PendingRow(x);
    ShownIsLatest(findings, index);
    forall g | g in findings && g.deviceId == x.deviceId
      ensures !Less(ROW_KEY(row), FindingKey(index)(g))
    {
      LatestHolds(findings, index, g);
      var best := Latest(findings, index)[g.deviceId];
      LatestSpeaks(findings, index, best);
      RowKindsOnShow(findings, index, CompleteRow(index, best));
      assert ROW_KEY(CompleteRow(index, best)) == FindingKey(index)(best);
      NotLess(ROW_KEY(row), FindingKey(index)(best), FindingKey(index)(g));
    }
    forall y | && y in index && y.deviceId == x.deviceId && y.submissionId != []
               && !OnShow(findings, index, y.submissionId)
      ensures !Less(ROW_KEY(row), ROW_KEY(PendingRow(y)))
    {
      RowKindsOnShow(findings, index, PendingRow(y));
    }
  }

  lemma NotLess(a: seq<nat>, b: seq<nat>, c: seq<nat>)
    requires !Less(a, b) && !Less(b, c)
    ensures !Less(a, c)
  {
    if Less(a, c) {
      LessTotal(b, c);
      LessTotal(a, b);
      if Less(c, b) {
        LessTransitive(a, c, b);
      }
    }
  }

  lemma LastIsShown(findings: seq<Finding>, index: seq<IndexItem>, x: IndexItem)
    requires DistinctIndex(index) && DistinctFindings(findings) && x in index
    requires x.submissionId != [] && !OnShow(findings, index, x.submissionId) && LastOfDevice(findings, index, x)
    ensures ShowsPending(findings, index, x.submissionId)
  {
    hide Less, Rows, Shown, OnShow, PairKey, DistinctIndex, ReceivedAt;
    var row := PendingRow(x);
    ShownIsLatest(findings, index);
    RowKindsOnShow(findings, index, row);
    var best := Shown(findings, index)[x.deviceId];
    RowKindsOnShow(findings, index, best);
    LessTotal(ROW_KEY(row), ROW_KEY(best));
    if best.complete {
      var g :| Speaks(findings, index, g) && best == CompleteRow(index, g);
      assert ROW_KEY(best) == FindingKey(index)(g);
      SpeakerOnShow(findings, index, g);
    }
    PairKeySecond(row.receivedAt, row.submissionId, best.receivedAt, best.submissionId);
  }

  lemma SpeakerOnShow(findings: seq<Finding>, index: seq<IndexItem>, g: Finding)
    requires Speaks(findings, index, g)
    ensures OnShow(findings, index, g.submissionId)
  {
  }

  /** Exactly when an analysed submission shows as merely received: the index has it under
      another device, a later analysis of its own device supersedes it, and nothing of that other
      device, neither an analysis nor an item that is not on show, is later. */
  lemma PendingExactly(findings: seq<Finding>, index: seq<IndexItem>, f: Finding)
    requires DistinctIndex(index) && DistinctFindings(findings) && f in findings
    ensures ShowsPending(findings, index, f.submissionId) <==>
              && f.submissionId != [] && !Speaks(findings, index, f)
              && exists x ::
                   && x in index && x.submissionId == f.submissionId && x.deviceId != f.deviceId
                   && LastOfDevice(findings, index, x)
  {
    hide Less, Rows, Shown, PairKey, DistinctIndex, LastOfDevice, Speaks, ShowsPending;
    OwnAnalysis(findings, index, f);
    if ShowsPending(findings, index, f.submissionId) {
      var x := PendingItem(findings, index, f.submissionId);
      ItemPending(findings, index, x);
      if x.deviceId == f.deviceId {
        SupersededItem(findings, index, f, x);
      }
    }
    if x :| && x in index && x.submissionId == f.submissionId && x.deviceId != f.deviceId
            && LastOfDevice(findings, index, x) {
      ItemPending(findings, index, x);
    }
  }

  /** An analysed submission is on show exactly when its own analysis speaks. */
  lemma OwnAnalysis(findings: seq<Finding>, index: seq<IndexItem>, f: Finding)
    requires DistinctFindings(findings) && f in findings
    ensures OnShow(findings, index, f.submissionId) <==> Speaks(findings, index, f)
  {
    hide Less, FindingKey;
  }

  lemma PendingItem(findings: seq<Finding>, index: seq<IndexItem>, submissionId: Text) returns (x: IndexItem)
    requires DistinctFindings(findings) && ShowsPending(findings, index, submissionId)
    ensures x in index && x.submissionId == submissionId
  {
    hide Less, Rows, Shown, PairKey, Speaks, OnShow;
    var shown := Shown(findings, index);
    var d :| d in shown && !shown[d].complete && shown[d].submissionId == submissionId;
    ShownIsLatest(findings, index);
    RowKindsOnShow(findings, index, shown[d]);
    x :| x in index && x.submissionId != [] && !OnShow(findings, index, x.submissionId) && shown[d] == PendingRow(x);
  }

  /** A superseded analysis of the item's own device means that a later one is there. */
  lemma SupersededItem(findings: seq<Finding>, index: seq<IndexItem>, f: Finding, x: IndexItem)
    requires DistinctIndex(index) && DistinctFindings(findings) && f in findings && !Speaks(findings, index, f)
    requires x in index && x.submissionId == f.submissionId && x.deviceId == f.deviceId
    ensures !LastOfDevice(findings, index, x)
  {
    hide Less, PairKey, ReceivedAt;
    ReceivedIs(index, x);
    assert ROW_KEY(PendingRow(x)) == FindingKey(index)(f);
  }

  /** Where index and analysis disagree about the device, it can be: two analyses of device A,
      of which the index ascribes the older to device B. */
  lemma DisagreementShowsAnalysed()
    ensures var findings := [Finding([65], [1]), Finding([65], [2])];
            var index := [IndexItem([66], [1], [1], []), IndexItem([65], [2], [2], [])];
            && DistinctIndex(index) && !DevicesAgree(findings, index)
            && [66] in Shown(findings, index) && !Shown(findings, index)[[66]].complete
            && Shown(findings, index)[[66]].submissionId == findings[0].submissionId
  {
    hide Less, SortBy, Rows, Shown, Overwrite, PairKey, Latest, ReceivedAt;
    var findings := [Finding([65], [1]), Finding([65], [2])];
    var index := [IndexItem([66], [1], [1], []), IndexItem([65], [2], [2], [])];
    assert findings[0] in findings && index[0] in index && findings[0].submissionId == index[0].submissionId;
    var latest := Latest(findings, index);
    LatestOfTwo(findings, index);
    ShownIsLatest(findings, index);
    var pending := PendingRow(index[0]);
    assert pending.submissionId !in Analyzed(latest);
    RowKinds(findings, index, pending);
    RowKinds(findings, index, Shown(findings, index)[[66]]);
    assert ROW_DEVICE(pending) == [66];
  }

  lemma LatestOfTwo(findings: seq<Finding>, index: seq<IndexItem>)
    requires findings == [Finding([65], [1]), Finding([65], [2])]
    requires index == [IndexItem([66], [1], [1], []), IndexItem([65], [2], [2], [])]
    ensures Latest(findings, index) == map[[65] := findings[1]]
  {
    hide Less, PairKey;
    var one, two := findings[0], findings[1];
    assert ReceivedAt(index, [2]) == [2];
    assert index[..1][0].submissionId == [1] && ReceivedAt(index[..1], [1]) == [1];
    assert ReceivedAt(index, [1]) == [1];
    PairKeyLess([1], [1], [2], [2]);
    LessOneTwo();
    assert Less(FindingKey(index)(one), FindingKey(index)(two));
    assert findings[..1] == [one] && [one][..0] == [];
    assert RunningMaximum([one], FINDING_DEVICE, FindingKey(index)) == map[[65] := one];
  }

  lemma LessOneTwo()
    ensures Less([1], [2])
  {
  }
}
