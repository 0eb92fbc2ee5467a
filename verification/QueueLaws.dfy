/** The queue is canonical, and it follows lifecycle and policy changes. */
module QueueLaws {
  import opened Wrappers
  import opened Text
  import opened Sorting
  import opened Runtime
  import opened Alerts
  import opened Runs
  import opened Queue

  ghost predicate DistinctAlertIds(alerts: seq<Alert>)
  {
    forall i, j | 0 <= i < j < |alerts| :: alerts[i].alertId != alerts[j].alertId
  }

  ghost predicate AllValid(h: Host, alerts: seq<Alert>)
  {
    forall i | 0 <= i < |alerts| :: ValidAlert(h, alerts[i])
  }

  lemma QueueOrder()
    ensures KeyOrder(QueueBefore)
  {
    StringOrder();
  }

  /** Alerts with different identifiers are never tied. */
  lemma QueueOrderTotal(a: Alert, b: Alert)
    requires a.alertId != b.alertId
    ensures QueueBefore(a, b) || QueueBefore(b, a)
  {
    StringLessTotal(a.alertId, b.alertId);
  }

  // ---- When listing succeeds ----

  lemma {:induction false} CollectionFailureExact(h: Host, alerts: seq<Alert>, seen: set<string>)
    ensures CollectionFailure(h, alerts, seen).None? <==>
      && AllValid(h, alerts) && DistinctAlertIds(alerts)
      && forall i | 0 <= i < |alerts| :: alerts[i].alertId !in seen
  {
    hide ValidAlert;
    if alerts != [] {
      var tail := alerts[1..];
      CollectionFailureExact(h, tail, seen + {alerts[0].alertId});
      assert forall i | 0 < i < |alerts| :: alerts[i] == tail[i - 1];
      assert forall i | 0 <= i < |tail| :: tail[i] == alerts[i + 1];
    }
  }

  predicate WellFormed<T(==)>(f: Filter<T>) { !f.Malformed? && (f.Selected? ==> f.values != {}) }

  predicate WellFormedFilters(f: Filters)
  {
    WellFormed(f.states) && WellFormed(f.severities) && WellFormed(f.priorities)
  }

  /** What the filters ask for: a state of the selected set, or an active one where none
      is selected, and a severity and a priority of the selected sets, or any. */
  predicate Wanted(f: Filters, a: Alert)
  {
    && (match f.states case Selected(states) => a.state in states case _ => a.state == New || a.state == Acknowledged)
    && (match f.severities case Selected(severities) => a.severity in severities case _ => true)
    && (match f.priorities case Selected(priorities) => a.priority in priorities case _ => true)
  }

  lemma WantedPasses(f: Filters, a: Alert)
    ensures Wanted(f, a) <==> Passes(f, a)
  {
  }

  ghost predicate Listable(h: Host, alerts: seq<Alert>, f: Filters)
  {
    AllValid(h, alerts) && DistinctAlertIds(alerts) && WellFormedFilters(f)
  }

  /** The listing of `alerts` under `f`: exactly the wanted alerts, strictly ordered. */
  ghost predicate IsQueue(alerts: seq<Alert>, f: Filters, queue: seq<Alert>)
  {
    && StrictlyOrdered(queue, QueueBefore)
    && forall a :: a in queue <==> a in alerts && Wanted(f, a)
  }

  lemma {:induction false} MatchingKeysDiffer(f: Filters, alerts: seq<Alert>)
    requires DistinctAlertIds(alerts)
    ensures KeysDiffer(Matching(f, alerts), QueueBefore)
  {
    hide QueueBefore, Passes;
    if alerts != [] {
      var (a, rest) := (alerts[0], Matching(f, alerts[1..]));
      MatchingKeysDiffer(f, alerts[1..]);
      forall b | b in rest ensures QueueBefore(a, b) || QueueBefore(b, a) {
        var k :| 0 <= k < |alerts[1..]| && alerts[1..][k] == b;
        assert alerts[k + 1] == b;
        QueueOrderTotal(a, b);
      }
      assert forall i | 0 <= i < |rest| :: rest[i] in rest;
      assert forall i | 0 < i < |[a] + rest| :: ([a] + rest)[i] == rest[i - 1];
    }
  }

  /** Listing succeeds iff every alert is valid, identifiers differ and the filters are
      well formed; the result is exactly the wanted alerts in strict queue order. */
  lemma QueueExact(h: Host, alerts: seq<Alert>, f: Filters)
    ensures QueueResult(h, alerts, f).Ok? <==> Listable(h, alerts, f)
    ensures QueueResult(h, alerts, f).Ok? ==> IsQueue(alerts, f, QueueResult(h, alerts, f).value)
  {
    hide QueueBefore, Passes, Wanted, AllValid;
    CollectionFailureExact(h, alerts, {});
    forall a ensures Wanted(f, a) <==> Passes(f, a) { WantedPasses(f, a); }
    if Listable(h, alerts, f) {
      MatchingKeysDiffer(f, alerts);
      QueueOrder();
      SortStrict(Matching(f, alerts), QueueBefore);
    }
  }

  /** There is only one such listing. */
  lemma QueueUnique(h: Host, alerts: seq<Alert>, f: Filters, queue: seq<Alert>)
    requires Listable(h, alerts, f) && IsQueue(alerts, f, queue)
    ensures QueueResult(h, alerts, f) == Ok(queue)
  {
    hide QueueBefore, Wanted, AllValid, QueueResult;
    QueueExact(h, alerts, f);
    QueueOrder();
    SameElementsSameSequence(QueueResult(h, alerts, f).value, queue, QueueBefore);
  }

  // ---- Presentation order ----

  const BY_URGENCY: seq<AlertPriority> := [Urgent, HighPriority, Normal, LowPriority]
  const BY_SIGNIFICANCE: seq<AlertSeverity> := [Critical, HighSeverity, Medium, LowSeverity, Informational, Unassigned]

  /** Ranks are positions in the documented lists. */
  lemma RanksArePositions(p: AlertPriority, s: AlertSeverity)
    ensures PriorityRank(p) < |BY_URGENCY| && BY_URGENCY[PriorityRank(p)] == p
    ensures SeverityRank(s) < |BY_SIGNIFICANCE| && BY_SIGNIFICANCE[SeverityRank(s)] == s
  {
  }

  /** `x` is listed no later than `y`. */
  ghost predicate ListedBy<T>(order: seq<T>, x: T, y: T)
  {
    exists i, j | 0 <= i <= j < |order| :: order[i] == x && order[j] == y
  }

  /** Urgency comes first, then significance, then age, then the identifier. */
  ghost predicate PresentedBefore(a: Alert, b: Alert)
  {
    && ListedBy(BY_URGENCY, a.priority, b.priority)
    && (a.priority == b.priority ==> ListedBy(BY_SIGNIFICANCE, a.severity, b.severity))
    && (a.priority == b.priority && a.severity == b.severity ==> a.createdAt <= b.createdAt)
    && (a.priority == b.priority && a.severity == b.severity && a.createdAt == b.createdAt ==>
          StringLess(a.alertId, b.alertId))
  }

  /** A listing presents its alerts in the documented order. */
  lemma QueuePresentation(h: Host, alerts: seq<Alert>, f: Filters, i: nat, j: nat)
    requires QueueResult(h, alerts, f).Ok? && i < j < |QueueResult(h, alerts, f).value|
    ensures PresentedBefore(QueueResult(h, alerts, f).value[i], QueueResult(h, alerts, f).value[j])
  {
    hide QueueResult, StringLess;
    QueueExact(h, alerts, f);
    var (a, b) := (QueueResult(h, alerts, f).value[i], QueueResult(h, alerts, f).value[j]);
    assert QueueBefore(a, b);
    RanksArePositions(a.priority, a.severity);
    RanksArePositions(b.priority, b.severity);
    assert BY_URGENCY[PriorityRank(a.priority)] == a.priority && BY_URGENCY[PriorityRank(b.priority)] == b.priority;
    assert BY_SIGNIFICANCE[SeverityRank(a.severity)] == a.severity && BY_SIGNIFICANCE[SeverityRank(b.severity)] == b.severity;
  }

  // ---- Canonical form ----

  lemma ListablePermutation(h: Host, a: seq<Alert>, b: seq<Alert>, f: Filters)
    requires multiset(a) == multiset(b) && Listable(h, a, f)
    ensures Listable(h, b, f)
  {
    hide ValidAlert;
    forall i | 0 <= i < |b| ensures ValidAlert(h, b[i]) {
      var k := Locate(b[i], b, a);
    }
    forall i, j | 0 <= i < j < |b| ensures b[i].alertId != b[j].alertId {
      if b[i] == b[j] {
        TwiceInMultiset(b, i, j);
        var k, l := TwoPositions(a, b[i]);
        assert false;
      } else {
        var k := Locate(b[i], b, a);
        var l := Locate(b[j], b, a);
        assert k != l;
      }
    }
  }

  /** Whether listing succeeds, and its result, do not depend on iteration order. */
  lemma QueueOrderIndependent(h: Host, a: seq<Alert>, b: seq<Alert>, f: Filters)
    requires multiset(a) == multiset(b)
    ensures QueueResult(h, a, f).Ok? <==> QueueResult(h, b, f).Ok?
    ensures QueueResult(h, a, f).Ok? ==> QueueResult(h, a, f) == QueueResult(h, b, f)
  {
    hide QueueResult, AllValid, DistinctAlertIds;
    QueueExact(h, a, f);
    QueueExact(h, b, f);
    if Listable(h, b, f) { ListablePermutation(h, b, a, f); }
    if Listable(h, a, f) {
      ListablePermutation(h, a, b, f);
      var queue := QueueResult(h, a, f).value;
      forall x ensures x in queue <==> x in b && Wanted(f, x) {
        assert x in a <==> x in multiset(a);
        assert x in b <==> x in multiset(b);
      }
      QueueUnique(h, b, f, queue);
    }
  }

  // ---- Which failure is reported ----

  ghost predicate HoldsInvalid(h: Host, alerts: seq<Alert>)
  {
    exists i | 0 <= i < |alerts| :: !ValidAlert(h, alerts[i])
  }

  /** Two valid alerts at different positions share an identifier. */
  ghost predicate ValidPair(h: Host, alerts: seq<Alert>, i: int, j: int)
  {
    && 0 <= i < j < |alerts| && ValidAlert(h, alerts[i]) && ValidAlert(h, alerts[j])
    && alerts[i].alertId == alerts[j].alertId
  }

  ghost predicate HoldsValidDuplicate(h: Host, alerts: seq<Alert>)
  {
    exists i, j :: ValidPair(h, alerts, i, j)
  }

  /** The first alert along the collection that is invalid or repeats an identifier. */
  ghost predicate FirstBad(h: Host, alerts: seq<Alert>, k: nat)
  {
    && k < |alerts|
    && (forall j | 0 <= j < k :: ValidAlert(h, alerts[j]))
    && (forall i, j | 0 <= i < j < k :: alerts[i].alertId != alerts[j].alertId)
    && (!ValidAlert(h, alerts[k]) || exists j | 0 <= j < k :: alerts[j].alertId == alerts[k].alertId)
  }

  lemma {:induction false} FirstBadFails(h: Host, alerts: seq<Alert>, k: nat, i: nat, seen: set<string>)
    requires FirstBad(h, alerts, k) && i <= k
    requires forall id :: id in seen <==> exists j | 0 <= j < i :: alerts[j].alertId == id
    ensures CollectionFailure(h, alerts[i..], seen) ==
      Some(if ValidAlert(h, alerts[k]) then AlertError("duplicate_alert_id", "alert_id")
           else AlertError("invalid_alert", "alerts"))
    decreases k - i
  {
    hide ValidAlert;
    assert alerts[i..][0] == alerts[i] && alerts[i..][1..] == alerts[i + 1..];
    if i < k {
      assert alerts[i].alertId !in seen;
      FirstBadFails(h, alerts, k, i + 1, seen + {alerts[i].alertId});
    }
  }

  /** A collection that cannot be listed holds a first bad alert. */
  lemma {:induction false} FirstBadExists(h: Host, alerts: seq<Alert>, i: nat) returns (k: nat)
    requires i <= |alerts| && !(AllValid(h, alerts) && DistinctAlertIds(alerts))
    requires forall j | 0 <= j < i :: ValidAlert(h, alerts[j])
    requires forall j, l | 0 <= j < l < i :: alerts[j].alertId != alerts[l].alertId
    ensures FirstBad(h, alerts, k)
    decreases |alerts| - i
  {
    hide ValidAlert;
    assert i < |alerts|;
    if !ValidAlert(h, alerts[i]) || exists j | 0 <= j < i :: alerts[j].alertId == alerts[i].alertId {
      k := i;
    } else {
      k := FirstBadExists(h, alerts, i + 1);
    }
  }

  /** The failure of a listing is that of the first bad alert; when there is none, that
      of the first malformed filter: states, then severities, then priorities. */
  lemma QueueErrorIsFirst(h: Host, alerts: seq<Alert>, f: Filters)
    ensures forall k: nat :: FirstBad(h, alerts, k) ==>
      QueueResult(h, alerts, f) ==
        Err(if ValidAlert(h, alerts[k]) then AlertError("duplicate_alert_id", "alert_id")
            else AlertError("invalid_alert", "alerts"))
    ensures !(AllValid(h, alerts) && DistinctAlertIds(alerts)) ==> exists k: nat :: FirstBad(h, alerts, k)
    ensures AllValid(h, alerts) && DistinctAlertIds(alerts) && !WellFormedFilters(f) ==>
      QueueResult(h, alerts, f) ==
        Err(AlertError("invalid_filter",
          if !WellFormed(f.states) then "states" else if !WellFormed(f.severities) then "severities" else "priorities"))
  {
    hide CollectionFailure, ValidAlert;
    forall k: nat | FirstBad(h, alerts, k)
      ensures CollectionFailure(h, alerts, {}) ==
        Some(if ValidAlert(h, alerts[k]) then AlertError("duplicate_alert_id", "alert_id")
             else AlertError("invalid_alert", "alerts"))
    {
      assert alerts[0..] == alerts;
      FirstBadFails(h, alerts, k, 0, {});
    }
    if !(AllValid(h, alerts) && DistinctAlertIds(alerts)) { var k := FirstBadExists(h, alerts, 0); }
    CollectionFailureExact(h, alerts, {});
  }

  /** Every permutation of the collection meets the same failure, or none. */
  ghost predicate SameFailure(h: Host, alerts: seq<Alert>)
  {
    forall p: seq<Alert> | multiset(p) == multiset(alerts) :: CollectionFailure(h, p, {}) == CollectionFailure(h, alerts, {})
  }

  /** What each failure says about the collection. */
  lemma {:induction false} FailureMeans(h: Host, alerts: seq<Alert>, seen: set<string>)
    ensures CollectionFailure(h, alerts, seen) in {None, Some(INVALID_ALERT), Some(DUPLICATE_ID)}
    ensures CollectionFailure(h, alerts, seen) == Some(INVALID_ALERT) ==> HoldsInvalid(h, alerts)
    ensures CollectionFailure(h, alerts, seen) == Some(DUPLICATE_ID) ==>
      || HoldsValidDuplicate(h, alerts)
      || exists i | 0 <= i < |alerts| :: ValidAlert(h, alerts[i]) && alerts[i].alertId in seen
  {
    hide ValidAlert;
    if alerts != [] {
      var (a, tail) := (alerts[0], alerts[1..]);
      FailureMeans(h, tail, seen + {a.alertId});
      if !ValidAlert(h, a) {
      } else if a.alertId in seen {
        assert ValidAlert(h, alerts[0]) && alerts[0].alertId in seen;
      } else if HoldsInvalid(h, tail) && CollectionFailure(h, alerts, seen) == Some(INVALID_ALERT) {
        var i :| 0 <= i < |tail| && !ValidAlert(h, tail[i]);
        assert !ValidAlert(h, alerts[i + 1]);
      } else if CollectionFailure(h, alerts, seen) == Some(DUPLICATE_ID) {
        DuplicateInTail(h, alerts, seen);
      }
    }
  }

  lemma DuplicateInTail(h: Host, alerts: seq<Alert>, seen: set<string>)
    requires alerts != [] && ValidAlert(h, alerts[0])
    requires
      || HoldsValidDuplicate(h, alerts[1..])
      || exists i | 0 <= i < |alerts[1..]| :: ValidAlert(h, alerts[1..][i]) && alerts[1..][i].alertId in seen + {alerts[0].alertId}
    ensures
      || HoldsValidDuplicate(h, alerts)
      || exists i | 0 <= i < |alerts| :: ValidAlert(h, alerts[i]) && alerts[i].alertId in seen
  {
    hide ValidAlert;
    var tail := alerts[1..];
    if HoldsValidDuplicate(h, tail) {
      var i, j :| ValidPair(h, tail, i, j);
      assert ValidPair(h, alerts, i + 1, j + 1);
    } else {
      var i :| 0 <= i < |tail| && ValidAlert(h, tail[i]) && tail[i].alertId in seen + {alerts[0].alertId};
      assert tail[i] == alerts[i + 1];
      if alerts[i + 1].alertId == alerts[0].alertId { assert ValidPair(h, alerts, 0, i + 1); }
    }
  }

  /** Both conditions are about the alerts, not about their order. */
  lemma HazardsMove(h: Host, a: seq<Alert>, b: seq<Alert>)
    requires multiset(a) == multiset(b)
    ensures HoldsInvalid(h, b) ==> HoldsInvalid(h, a)
    ensures HoldsValidDuplicate(h, b) ==> HoldsValidDuplicate(h, a)
  {
    hide ValidAlert;
    if HoldsInvalid(h, b) {
      var i :| 0 <= i < |b| && !ValidAlert(h, b[i]);
      var k := Locate(b[i], b, a);
    }
    if HoldsValidDuplicate(h, b) {
      var i, j :| ValidPair(h, b, i, j);
      if b[i] == b[j] {
        TwiceInMultiset(b, i, j);
        var k, l := TwoPositions(a, b[i]);
        assert ValidPair(h, a, k, l);
      } else {
        var k := Locate(b[i], b, a);
        var l := Locate(b[j], b, a);
        assert if k < l then ValidPair(h, a, k, l) else ValidPair(h, a, l, k);
      }
    }
  }

  /** Any position can be moved to the front. */
  lemma MovedToFront(s: seq<Alert>, k: nat) returns (p: seq<Alert>)
    requires k < |s|
    ensures multiset(p) == multiset(s) && p == [s[k]] + (s[..k] + s[k + 1..])
  {
    p := [s[k]] + (s[..k] + s[k + 1..]);
    assert s == s[..k] + [s[k]] + s[k + 1..];
  }

  /** An invalid alert can be met first, and so can two valid ones sharing an identifier. */
  lemma WorstOrders(h: Host, s: seq<Alert>) returns (p: seq<Alert>, q: seq<Alert>)
    requires HoldsInvalid(h, s) && HoldsValidDuplicate(h, s)
    ensures multiset(p) == multiset(s) && CollectionFailure(h, p, {}) == Some(INVALID_ALERT)
    ensures multiset(q) == multiset(s) && CollectionFailure(h, q, {}) == Some(DUPLICATE_ID)
  {
    hide ValidAlert;
    var k :| 0 <= k < |s| && !ValidAlert(h, s[k]);
    p := MovedToFront(s, k);
    var i, j :| ValidPair(h, s, i, j);
    var later := MovedToFront(s, j);
    assert later[i + 1] == s[i];
    q := MovedToFront(later, i + 1);
    assert q[0] == s[i] && q[1] == s[j];
    DuplicateFirst(h, q);
  }

  lemma DuplicateFirst(h: Host, alerts: seq<Alert>)
    requires ValidPair(h, alerts, 0, 1)
    ensures CollectionFailure(h, alerts, {}) == Some(DUPLICATE_ID)
  {
    hide ValidAlert;
    var seen: set<string> := {};
    assert alerts[1..][0] == alerts[1];
    assert CollectionFailure(h, alerts[1..], seen + {alerts[0].alertId}) == Some(DUPLICATE_ID);
  }

  /** The failure is the same in every iteration order, unless the collection holds both
      an invalid alert and two valid ones sharing an identifier. */
  lemma FailureOrderExact(h: Host, alerts: seq<Alert>)
    ensures SameFailure(h, alerts) <==> !(HoldsInvalid(h, alerts) && HoldsValidDuplicate(h, alerts))
  {
    hide CollectionFailure, ValidAlert, HoldsInvalid, HoldsValidDuplicate;
    if HoldsInvalid(h, alerts) && HoldsValidDuplicate(h, alerts) {
      var p, q := WorstOrders(h, alerts);
    } else {
      FailureMeans(h, alerts, {});
      forall p: seq<Alert> | multiset(p) == multiset(alerts)
        ensures CollectionFailure(h, p, {}) == CollectionFailure(h, alerts, {})
      {
        FailureMeans(h, p, {});
        HazardsMove(h, alerts, p);
        QueueOrderIndependent(h, p, alerts, NO_FILTERS);
      }
    }
  }

  /** Exactly when the whole outcome of a listing does not depend on iteration order. */
  lemma QueueErrorOrderExact(h: Host, alerts: seq<Alert>, f: Filters)
    ensures
      (forall p: seq<Alert> | multiset(p) == multiset(alerts) :: QueueResult(h, p, f) == QueueResult(h, alerts, f))
      <==> !(HoldsInvalid(h, alerts) && HoldsValidDuplicate(h, alerts))
  {
    hide CollectionFailure, ValidAlert, HoldsInvalid, HoldsValidDuplicate, Matching, FilterFailure;
    if HoldsInvalid(h, alerts) && HoldsValidDuplicate(h, alerts) {
      var p, q := WorstOrders(h, alerts);
      assert QueueResult(h, p, f) != QueueResult(h, q, f);
    } else {
      FailureOrderExact(h, alerts);
      forall p: seq<Alert> | multiset(p) == multiset(alerts)
        ensures QueueResult(h, p, f) == QueueResult(h, alerts, f)
      {
        assert CollectionFailure(h, p, {}) == CollectionFailure(h, alerts, {});
        QueueOrderIndependent(h, alerts, p, f);
      }
    }
  }

  /** An instance in which the failure does depend on iteration order. */
  lemma QueueErrorDependsOnOrder(h: Host, valid: Alert, invalid: Alert)
    requires ValidAlert(h, valid) && !ValidAlert(h, invalid)
    ensures multiset([valid, valid, invalid]) == multiset([invalid, valid, valid])
    ensures QueueResult(h, [valid, valid, invalid], NO_FILTERS) == Err(DUPLICATE_ID)
    ensures QueueResult(h, [invalid, valid, valid], NO_FILTERS) == Err(INVALID_ALERT)
  {
    hide ValidAlert;
    assert [valid, valid, invalid][1..] == [valid, invalid];
    var seen: set<string> := {};
    assert CollectionFailure(h, [valid, invalid], seen + {valid.alertId}) == Some(DUPLICATE_ID);
    assert CollectionFailure(h, [valid, valid, invalid], seen) == CollectionFailure(h, [valid, invalid], seen + {valid.alertId});
  }

  /** Listing a listing again with the same filters gives it back. */
  lemma QueueIdempotent(h: Host, alerts: seq<Alert>, f: Filters)
    requires QueueResult(h, alerts, f).Ok?
    ensures QueueResult(h, QueueResult(h, alerts, f).value, f) == QueueResult(h, alerts, f)
  {
    hide QueueResult, ValidAlert, QueueBefore, Wanted;
    QueueExact(h, alerts, f);
    var queue := QueueResult(h, alerts, f).value;
    QueueIsListable(h, alerts, f, queue);
    QueueUnique(h, queue, f, queue);
  }

  lemma QueueIsListable(h: Host, alerts: seq<Alert>, f: Filters, queue: seq<Alert>)
    requires Listable(h, alerts, f) && IsQueue(alerts, f, queue)
    ensures Listable(h, queue, f)
  {
    hide ValidAlert, Wanted, QueueBefore;
    QueueOrder();
    forall i | 0 <= i < |queue| ensures ValidAlert(h, queue[i]) {
      assert queue[i] in queue;
      var k :| 0 <= k < |alerts| && alerts[k] == queue[i];
    }
    forall i, j | 0 <= i < j < |queue| ensures queue[i].alertId != queue[j].alertId {
      assert queue[i] in queue && queue[j] in queue && QueueBefore(queue[i], queue[j]);
      var k :| 0 <= k < |alerts| && alerts[k] == queue[i];
      var l :| 0 <= l < |alerts| && alerts[l] == queue[j];
      assert k != l;
    }
  }

  // ---- The queue follows the alerts ----

  /** Replacing one alert by a version with the same identifier. */
  lemma MembersAfterUpdate(alerts: seq<Alert>, i: nat, b: Alert)
    requires i < |alerts| && DistinctAlertIds(alerts) && b.alertId == alerts[i].alertId
    ensures DistinctAlertIds(alerts[i := b])
    ensures forall x :: x in alerts[i := b] <==> x == b || (x in alerts && x != alerts[i])
    ensures b in alerts ==> b == alerts[i]
  {
    var updated := alerts[i := b];
    forall x ensures x in updated <==> x == b || (x in alerts && x != alerts[i]) {
      if x in alerts && x != alerts[i] {
        var k :| 0 <= k < |alerts| && alerts[k] == x;
        assert updated[k] == x;
      }
      if x in updated {
        var k :| 0 <= k < |updated| && updated[k] == x;
        assert k != i ==> alerts[k] == x && x.alertId != alerts[i].alertId;
      }
      assert updated[i] == b;
    }
  }

  lemma ListableAfterUpdate(h: Host, alerts: seq<Alert>, i: nat, b: Alert, f: Filters)
    requires Listable(h, alerts, f) && i < |alerts| && b.alertId == alerts[i].alertId && ValidAlert(h, b)
    ensures Listable(h, alerts[i := b], f)
  {
    hide ValidAlert;
    MembersAfterUpdate(alerts, i, b);
  }

  /** An effective request keeps identifier and validity, so the queue stays listable. */
  lemma NextIsListable(h: Host, alerts: seq<Alert>, i: nat, r: Request)
    requires Listable(h, alerts, NO_FILTERS) && i < |alerts|
    requires Effective(h, alerts[i], r)
    ensures Listable(h, alerts[i := Next(h, alerts[i], r)], NO_FILTERS)
  {
    hide Next, AllValid;
    EffectiveRequest(h, alerts[i], r);
    ListableAfterUpdate(h, alerts, i, Next(h, alerts[i], r), NO_FILTERS);
  }

  /** The position of an alert of the collection in its queue. */
  lemma PositionInQueue(h: Host, alerts: seq<Alert>, f: Filters, i: nat) returns (j: nat)
    requires QueueResult(h, alerts, f).Ok? && i < |alerts| && Wanted(f, alerts[i])
    ensures j < |QueueResult(h, alerts, f).value| && QueueResult(h, alerts, f).value[j] == alerts[i]
  {
    hide QueueResult;
    QueueExact(h, alerts, f);
    assert alerts[i] in QueueResult(h, alerts, f).value;
    j :| 0 <= j < |QueueResult(h, alerts, f).value| && QueueResult(h, alerts, f).value[j] == alerts[i];
  }

  /** Acknowledging an alert replaces it in place in the default queue. */
  lemma AcknowledgeInPlace(h: Host, alerts: seq<Alert>, i: nat, at: Moment) returns (j: nat)
    requires QueueResult(h, alerts, NO_FILTERS).Ok? && i < |alerts|
    requires Effective(h, alerts[i], Acknowledge(at))
    ensures
      var queue := QueueResult(h, alerts, NO_FILTERS).value;
      var b := Next(h, alerts[i], Acknowledge(at));
      && j < |queue| && queue[j] == alerts[i]
      && QueueResult(h, alerts[i := b], NO_FILTERS) == Ok(queue[j := b])
  {
    hide QueueResult, Next, AllValid, DistinctAlertIds;
    var b := Next(h, alerts[i], Acknowledge(at));
    EffectiveRequest(h, alerts[i], Acknowledge(at));
    QueueExact(h, alerts, NO_FILTERS);
    j := PositionInQueue(h, alerts, NO_FILTERS, i);
    NextIsListable(h, alerts, i, Acknowledge(at));
    ReplacedQueue(alerts, i, b, QueueResult(h, alerts, NO_FILTERS).value, j);
    QueueUnique(h, alerts[i := b], NO_FILTERS, QueueResult(h, alerts, NO_FILTERS).value[j := b]);
  }

  /** An alert with the same key takes the same place. */
  lemma ReplacedQueue(alerts: seq<Alert>, i: nat, b: Alert, queue: seq<Alert>, j: nat)
    requires i < |alerts| && DistinctAlertIds(alerts) && IsQueue(alerts, NO_FILTERS, queue)
    requires j < |queue| && queue[j] == alerts[i] && b != alerts[i]
    requires b.alertId == alerts[i].alertId && b.createdAt == alerts[i].createdAt
    requires b.severity == alerts[i].severity && b.priority == alerts[i].priority
    requires Wanted(NO_FILTERS, b)
    ensures IsQueue(alerts[i := b], NO_FILTERS, queue[j := b])
  {
    hide QueueBefore;
    SameKey(alerts[i], b);
    MembersAfterUpdate(alerts, i, b);
    OnceInQueue(queue, j);
    var replaced := queue[j := b];
    forall k, l | 0 <= k < l < |replaced| ensures QueueBefore(replaced[k], replaced[l]) {
      assert QueueBefore(queue[k], queue[l]);
    }
    forall x ensures x in replaced <==> x == b || (x in queue && x != queue[j]) {
      if x in queue && x != queue[j] {
        var k :| 0 <= k < |queue| && queue[k] == x;
        assert replaced[k] == x;
      }
      assert replaced[j] == b;
    }
  }

  lemma SameKey(a: Alert, b: Alert)
    requires b.alertId == a.alertId && b.createdAt == a.createdAt && b.severity == a.severity && b.priority == a.priority
    ensures forall x :: QueueBefore(x, a) == QueueBefore(x, b) && QueueBefore(a, x) == QueueBefore(b, x)
  {
  }

  lemma OnceInQueue(queue: seq<Alert>, j: nat)
    requires j < |queue| && StrictlyOrdered(queue, QueueBefore)
    ensures forall k | 0 <= k < |queue| && k != j :: queue[k] != queue[j]
  {
    QueueOrder();
    forall k | 0 <= k < |queue| && k != j ensures queue[k] != queue[j] {
      assert k < j ==> QueueBefore(queue[k], queue[j]);
      assert j < k ==> QueueBefore(queue[j], queue[k]);
    }
  }

  /** Closing an alert removes it and moves nothing else relative to one another. */
  lemma CloseRemoves(h: Host, alerts: seq<Alert>, i: nat, at: Moment) returns (j: nat)
    requires QueueResult(h, alerts, NO_FILTERS).Ok? && i < |alerts|
    requires Effective(h, alerts[i], Close(at))
    ensures
      var queue := QueueResult(h, alerts, NO_FILTERS).value;
      && j < |queue| && queue[j] == alerts[i]
      && QueueResult(h, alerts[i := Next(h, alerts[i], Close(at))], NO_FILTERS) == Ok(queue[..j] + queue[j + 1..])
  {
    hide QueueResult, Next, AllValid, DistinctAlertIds;
    var b := Next(h, alerts[i], Close(at));
    EffectiveRequest(h, alerts[i], Close(at));
    QueueExact(h, alerts, NO_FILTERS);
    j := PositionInQueue(h, alerts, NO_FILTERS, i);
    NextIsListable(h, alerts, i, Close(at));
    var queue := QueueResult(h, alerts, NO_FILTERS).value;
    ShortenedQueue(alerts, i, b, queue, j);
    QueueUnique(h, alerts[i := b], NO_FILTERS, queue[..j] + queue[j + 1..]);
  }

  lemma ShortenedQueue(alerts: seq<Alert>, i: nat, b: Alert, queue: seq<Alert>, j: nat)
    requires i < |alerts| && DistinctAlertIds(alerts) && IsQueue(alerts, NO_FILTERS, queue)
    requires j < |queue| && queue[j] == alerts[i]
    requires b.alertId == alerts[i].alertId && !Wanted(NO_FILTERS, b)
    ensures IsQueue(alerts[i := b], NO_FILTERS, queue[..j] + queue[j + 1..])
  {
    hide QueueBefore;
    MembersAfterUpdate(alerts, i, b);
    OnceInQueue(queue, j);
    var shorter := queue[..j] + queue[j + 1..];
    forall x ensures x in shorter <==> x in queue && x != queue[j] {
      if x in queue && x != queue[j] {
        var k :| 0 <= k < |queue| && queue[k] == x;
        assert shorter[if k < j then k else k - 1] == x;
      }
    }
  }

  /** The alerts that stand before one with the given key. */
  ghost function Ahead(queue: seq<Alert>, a: Alert): set<Alert>
  {
    set x | x in queue && QueueBefore(x, a)
  }

  /** A position counts the alerts ahead. */
  lemma PositionCountsAhead(queue: seq<Alert>, j: nat)
    requires j < |queue| && StrictlyOrdered(queue, QueueBefore)
    ensures |Ahead(queue, queue[j])| == j
  {
    hide QueueBefore;
    QueueOrder();
    forall x ensures x in Ahead(queue, queue[j]) <==> x in queue[..j] {
      if x in queue && QueueBefore(x, queue[j]) {
        var k :| 0 <= k < |queue| && queue[k] == x;
        assert k < j;
        assert queue[..j][k] == x;
      }
    }
    PrefixSize(queue[..j]);
    assert Ahead(queue, queue[j]) == set x | x in queue[..j];
  }

  lemma {:induction false} PrefixSize(s: seq<Alert>)
    requires StrictlyOrdered(s, QueueBefore)
    ensures |set x | x in s| == |s|
  {
    hide QueueBefore;
    if s != [] {
      var init, last := s[..|s| - 1], s[|s| - 1];
      PrefixSize(init);
      QueueOrder();
      assert last !in init by {
        forall k | 0 <= k < |init| ensures init[k] != last { assert QueueBefore(s[k], s[|s| - 1]); }
      }
      assert (set x | x in s) == (set x | x in init) + {last};
    }
  }

  /** Making an alert more urgent never puts more alerts ahead of it. */
  lemma MoreUrgentMovesUp(h: Host, alerts: seq<Alert>, i: nat, priority: AlertPriority, at: Moment) returns (j: nat, k: nat)
    requires QueueResult(h, alerts, NO_FILTERS).Ok? && i < |alerts|
    requires Effective(h, alerts[i], SetPriority(PriorityValue(priority), at))
    requires PriorityRank(priority) < PriorityRank(alerts[i].priority)
    ensures
      var b := Next(h, alerts[i], SetPriority(PriorityValue(priority), at));
      var (before, after) := (QueueResult(h, alerts, NO_FILTERS), QueueResult(h, alerts[i := b], NO_FILTERS));
      && after.Ok? && |after.value| == |before.value|
      && j < |before.value| && before.value[j] == alerts[i]
      && k < |after.value| && after.value[k] == b
      && k <= j
  {
    hide QueueResult, Next, AllValid, DistinctAlertIds, QueueBefore;
    var r := SetPriority(PriorityValue(priority), at);
    var (a, b) := (alerts[i], Next(h, alerts[i], r));
    EffectiveRequest(h, a, r);
    QueueExact(h, alerts, NO_FILTERS);
    NextIsListable(h, alerts, i, r);
    QueueExact(h, alerts[i := b], NO_FILTERS);
    var before, after := QueueResult(h, alerts, NO_FILTERS).value, QueueResult(h, alerts[i := b], NO_FILTERS).value;
    j := PositionInQueue(h, alerts, NO_FILTERS, i);
    k := PositionInQueue(h, alerts[i := b], NO_FILTERS, i);
    MembersAfterUpdate(alerts, i, b);
    AheadShrinks(before, after, a, b);
    PositionCountsAhead(before, j);
    PositionCountsAhead(after, k);
    SameCount(before, after, a, b);
  }

  lemma AheadShrinks(before: seq<Alert>, after: seq<Alert>, a: Alert, b: Alert)
    requires PriorityRank(b.priority) < PriorityRank(a.priority)
    requires forall x :: x in after <==> x == b || (x in before && x != a)
    ensures |Ahead(after, b)| <= |Ahead(before, a)|
  {
    QueueOrder();
    assert forall x | x in Ahead(after, b) :: x in Ahead(before, a);
    Subset(Ahead(after, b), Ahead(before, a));
  }

  lemma Subset<T>(a: set<T>, b: set<T>)
    requires a <= b
    ensures |a| <= |b|
  {
    assert b == a + (b - a);
  }

  lemma SameCount(before: seq<Alert>, after: seq<Alert>, a: Alert, b: Alert)
    requires StrictlyOrdered(before, QueueBefore) && StrictlyOrdered(after, QueueBefore)
    requires a in before && b !in before
    requires forall x :: x in after <==> x == b || (x in before && x != a)
    ensures |after| == |before|
  {
    PrefixSize(before);
    PrefixSize(after);
    assert (set x | x in after) == (set x | x in before) - {a} + {b};
  }
}
