/** The transient notification queue (`useAlert`). Identifiers, which the page derives
    from the clock and a random number, are passed in; the auto-dismiss timer is
    returned as a request for a later `HideAlert` instead of being run. */
module AlertQueue {
  import opened Options
  import opened Seqs

  datatype AlertType = Success | Error | Warning | Info

  datatype Alert = Alert(id: string, kind: AlertType, message: string, duration: int)

  const DefaultDuration := 3000

  /** A pending auto-dismiss: hide the alert `id` after `delay` milliseconds. */
  datatype Dismissal = Dismissal(id: string, delay: int)

  datatype Shown = Shown(alerts: seq<Alert>, dismissal: Option<Dismissal>)

  predicate HasId(alerts: seq<Alert>, id: string) {
    exists i :: 0 <= i < |alerts| && alerts[i].id == id
  }

  /** `showAlert`: one new alert at the end carrying the given type and message, the
      earlier ones untouched. An omitted duration means 3000 ms; a dismissal is
      scheduled only for a positive duration. */
  function ShowAlert(alerts: seq<Alert>, id: string, kind: AlertType, message: string,
                     duration: Option<int>): (r: Shown)
    ensures |r.alerts| == |alerts| + 1 && r.alerts[..|alerts|] == alerts
    ensures r.alerts[|alerts|].id == id && r.alerts[|alerts|].kind == kind
    ensures r.alerts[|alerts|].message == message
    ensures duration.None? ==> r.alerts[|alerts|].duration == DefaultDuration
    ensures duration.Some? ==> r.alerts[|alerts|].duration == duration.value
    ensures r.dismissal.Some? <==> r.alerts[|alerts|].duration > 0
    ensures r.dismissal.Some? ==> r.dismissal.value == Dismissal(id, r.alerts[|alerts|].duration)
  {
    var d := duration.GetOr(DefaultDuration);
    var next := alerts + [Alert(id, kind, message, d)];
    Shown(next, if d > 0 then Some(Dismissal(id, d)) else None)
  }

  function NotId(id: string): Alert -> bool {
    (a: Alert) => a.id != id
  }

  /** `hideAlert`: every alert with that id goes, the others stay in order. */
  function HideAlert(alerts: seq<Alert>, id: string): (r: seq<Alert>)
    ensures IsSubsequence(r, alerts)
    ensures forall a :: a in r <==> a in alerts && a.id != id
    ensures !HasId(r, id)
    ensures forall a :: multiset(r)[a] == if a.id == id then 0 else multiset(alerts)[a]
  {
    FilterCounts(alerts, NotId(id));
    Filter(alerts, NotId(id))
  }

  /** `clearAlerts`: nothing is left. */
  function ClearAlerts(alerts: seq<Alert>): (r: seq<Alert>)
    ensures |r| == 0
  {
    []
  }

  /** Hiding an id nobody carries changes nothing. */
  lemma HideUnknownIdIsNoOp(alerts: seq<Alert>, id: string)
    requires !HasId(alerts, id)
    ensures HideAlert(alerts, id) == alerts
  {
    FilterKeepsAll(alerts, NotId(id));
  }

  /** Hiding the same id twice is hiding it once. */
  lemma HideIdempotent(alerts: seq<Alert>, id: string)
    ensures HideAlert(HideAlert(alerts, id), id) == HideAlert(alerts, id)
  {
    FilterIdempotent(alerts, NotId(id));
  }

  /** When the auto-dismiss of an alert with a fresh id fires, the queue is back to what
      it was before the alert was shown. */
  lemma DismissUndoesShow(alerts: seq<Alert>, id: string, kind: AlertType, message: string,
                          duration: Option<int>)
    requires !HasId(alerts, id)
    ensures HideAlert(ShowAlert(alerts, id, kind, message, duration).alerts, id) == alerts
  {
    var d := duration.GetOr(DefaultDuration);
    HideAppend(alerts, Alert(id, kind, message, d), id);
    HideUnknownIdIsNoOp(alerts, id);
  }

  lemma HideAppend(alerts: seq<Alert>, last: Alert, id: string)
    requires last.id == id
    ensures HideAlert(alerts + [last], id) == HideAlert(alerts, id)
  {
    FilterAppend(alerts, last, NotId(id));
  }

  /** Hiding every id present, one after another, empties the queue just as clearing does. */
  function HideAll(alerts: seq<Alert>, ids: seq<string>): seq<Alert>
    decreases |ids|
  {
    if |ids| == 0 then alerts else HideAll(HideAlert(alerts, ids[0]), ids[1..])
  }

  function Ids(alerts: seq<Alert>): (ids: seq<string>)
    ensures |ids| == |alerts|
    ensures forall i :: 0 <= i < |alerts| ==> ids[i] == alerts[i].id
  {
    seq(|alerts|, i requires 0 <= i < |alerts| => alerts[i].id)
  }

  lemma {:induction false} HideAllIdsClears(alerts: seq<Alert>)
    ensures HideAll(alerts, Ids(alerts)) == ClearAlerts(alerts)
  {
    HideAllCovering(alerts, Ids(alerts));
  }

  /** Hiding a list of ids that covers every alert's id leaves nothing. */
  lemma {:induction false} HideAllCovering(alerts: seq<Alert>, ids: seq<string>)
    requires forall i :: 0 <= i < |alerts| ==> alerts[i].id in ids
    ensures HideAll(alerts, ids) == []
    decreases |ids|
  {
    if |alerts| == 0 {
      HideAllOfEmpty(ids);
    } else {
      assert alerts[0].id in ids;
      var rest := HideAlert(alerts, ids[0]);
      forall i | 0 <= i < |rest| ensures rest[i].id in ids[1..] {
        assert rest[i] in rest;
        var j :| 0 <= j < |alerts| && alerts[j] == rest[i];
        assert alerts[j].id in ids;
        assert rest[i].id != ids[0];
      }
      HideAllCovering(rest, ids[1..]);
    }
  }

  lemma {:induction false} HideAllOfEmpty(ids: seq<string>)
    ensures HideAll([], ids) == []
    decreases |ids|
  {
    if |ids| > 0 {
      HideAllOfEmpty(ids[1..]);
    }
  }
}
