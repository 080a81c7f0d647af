/** One pass over reload logs: attributing every event to a reload, and judging each recovery intent
    from the events collected for it. */
module ReloadAudit {
  import opened Options

  datatype Kind =
    | Persisted | Claimed | Attached | Delivered | DeliveryMismatch | NonPending
    | HistorySnapshot | HistoryQueued | TuiFlow | SendHistory | MemberRunning

  /** The detail text, reduced to what is searched for in it. */
  datatype Detail = Detail(text: string, saysQueued: bool, saysAccepted: bool)

  /** A log line: one that names a reload and a session, one that names only a session, or neither. */
  datatype Line =
    | IdLine(kind: Kind, reload: string, session: string, detail: Option<Detail>)
    | SessionLine(kind: Kind, session: string, detail: Option<Detail>)
    | OtherLine

  type Key = (string, string)

  datatype Event = Event(kind: Kind, line: nat, reload: string, session: string, detail: Option<Detail>)
  {
    function Key(): Key {
      (reload, session)
    }
  }

  datatype Intent = Intent(
    persisted: Option<Event>, claimed: Option<Event>,
    attached: seq<Event>, delivered: seq<Event>, deliveryMismatch: seq<Event>, nonPending: seq<Event>,
    historySnapshot: seq<Event>, historyQueued: seq<Event>, tuiFlows: seq<Event>,
    sendHistory: seq<Event>, memberRunning: seq<Event>, durableStatus: Option<string>)

  const NEW_INTENT := Intent(None, None, [], [], [], [], [], [], [], [], [], None)

  function Put(r: Intent, e: Event): Intent {
    match e.kind
    case Persisted => r.(persisted := Some(e))
    case Claimed => r.(claimed := Some(e))
    case Attached => r.(attached := r.attached + [e])
    case Delivered => r.(delivered := r.delivered + [e])
    case DeliveryMismatch => r.(deliveryMismatch := r.deliveryMismatch + [e])
    case NonPending => r.(nonPending := r.nonPending + [e])
    case HistorySnapshot => r.(historySnapshot := r.historySnapshot + [e])
    case HistoryQueued => r.(historyQueued := r.historyQueued + [e])
    case TuiFlow => r.(tuiFlows := r.tuiFlows + [e])
    case SendHistory => r.(sendHistory := r.sendHistory + [e])
    case MemberRunning => r.(memberRunning := r.memberRunning + [e])
  }

  /** The events of one kind that an intent holds; of the first two kinds it holds only the latest. */
  function Held(r: Intent, k: Kind): seq<Event> {
    match k
    case Persisted => if r.persisted.Some? then [r.persisted.value] else []
    case Claimed => if r.claimed.Some? then [r.claimed.value] else []
    case Attached => r.attached
    case Delivered => r.delivered
    case DeliveryMismatch => r.deliveryMismatch
    case NonPending => r.nonPending
    case HistorySnapshot => r.historySnapshot
    case HistoryQueued => r.historyQueued
    case TuiFlow => r.tuiFlows
    case SendHistory => r.sendHistory
    case MemberRunning => r.memberRunning
  }

  type Records = map<Key, Intent>

  function Find(records: Records, key: Key): Intent {
    if key in records then records[key] else NEW_INTENT
  }

  function Add(records: Records, e: Event): Records {
    if e.reload == "" || e.session == "" then records
    else records[e.Key() := Put(Find(records, e.Key()), e)]
  }

  // ----- attribution

  /** The reload named by the last line before the end that names a reload for the session. */
  function LastReload(lines: seq<Line>, session: string): Option<string> {
    if lines == [] then None
    else
      var last := lines[|lines| - 1];
      if last.IdLine? && last.session == session then Some(last.reload)
      else LastReload(lines[..|lines| - 1], session)
  }

  /** The event that line `i` gives rise to, if any. */
  function EventAt(lines: seq<Line>, i: nat): Option<Event>
    requires i < |lines|
  {
    match lines[i]
    case IdLine(kind, reload, session, detail) => Some(Event(kind, i, reload, session, detail))
    case SessionLine(kind, session, detail) =>
      (match LastReload(lines[..i], session)
       case Some(reload) => if reload != "" then Some(Event(kind, i, reload, session, detail)) else None
       case None => None)
    case OtherLine => None
  }

  /** The events of one kind attributed to one key, in log order. */
  function Attributed(lines: seq<Line>, key: Key, kind: Kind): seq<Event> {
    if lines == [] then []
    else
      var n := |lines| - 1;
      Attributed(lines[..n], key, kind) +
      match EventAt(lines, n)
      case Some(e) => if e.Key() == key && e.kind == kind && e.reload != "" && e.session != "" then [e] else []
      case None => []
  }

  /** List-valued kinds hold all their events; the other two hold the latest. */
  predicate HeldRight(held: seq<Event>, all: seq<Event>, kind: Kind) {
    if kind == Persisted || kind == Claimed then held == (if all == [] then [] else [all[|all| - 1]])
    else held == all
  }

  /** Every intent holds what is attributed to its key. */
  ghost predicate Explains(lines: seq<Line>, records: Records) {
    forall key, kind :: HeldRight(Held(Find(records, key), kind), Attributed(lines, key, kind), kind)
  }

  lemma PutHeld(r: Intent, e: Event, kind: Kind, all: seq<Event>)
    requires HeldRight(Held(r, kind), all, kind)
    ensures HeldRight(Held(Put(r, e), kind), if e.kind == kind then all + [e] else all, kind)
  {
  }

  lemma AttributedNext(lines: seq<Line>, i: nat, key: Key, kind: Kind)
    requires i < |lines|
    ensures Attributed(lines[..i + 1], key, kind) ==
            Attributed(lines[..i], key, kind) +
            match EventAt(lines, i)
            case Some(e) => if e.Key() == key && e.kind == kind && e.reload != "" && e.session != "" then [e] else []
            case None => []
  {
    assert lines[..i + 1][..i] == lines[..i];
  }

  lemma ExplainsNext(lines: seq<Line>, i: nat, records: Records)
    requires i < |lines| && Explains(lines[..i], records)
    ensures var next := match EventAt(lines, i) case Some(e) => Add(records, e) case None => records;
            Explains(lines[..i + 1], next)
  {
    hide Held, Put, HeldRight, EventAt, Attributed;
    var event := EventAt(lines, i);
    var next := match event case Some(e) => Add(records, e) case None => records;
    forall key, kind ensures HeldRight(Held(Find(next, key), kind), Attributed(lines[..i + 1], key, kind), kind) {
      assert HeldRight(Held(Find(records, key), kind), Attributed(lines[..i], key, kind), kind);
      AttributedNext(lines, i, key, kind);
      assert Attributed(lines[..i], key, kind) + [] == Attributed(lines[..i], key, kind);
      if event.Some? {
        PutHeld(Find(records, key), event.value, kind, Attributed(lines[..i], key, kind));
      }
    }
  }

  lemma AddKeepsStatus(records: Records, e: Event)
    ensures forall key :: Find(Add(records, e), key).durableStatus == Find(records, key).durableStatus
  {
  }

  class Parser {
    var records: Records
    var latest: map<string, string>

    constructor ()
      ensures records == map[] && latest == map[]
    {
      records, latest := map[], map[];
    }

    method AddEvent(e: Event)
      modifies `records
      ensures records == Add(old(records), e)
    {
      if e.reload == "" || e.session == "" {
        return;
      }
      if e.Key() !in records {
        records := records[e.Key() := NEW_INTENT];
      }
      records := records[e.Key() := Put(records[e.Key()], e)];
    }

    /** After the pass every intent holds exactly the events attributed to its key. */
    method ParseLogs(lines: seq<Line>)
      requires records == map[] && latest == map[]
      modifies this
      ensures Explains(lines, records) && forall key :: Find(records, key).durableStatus == None
      ensures forall s :: LastReload(lines, s) == if s in latest then Some(latest[s]) else None
    {
      assert Explains([], records);
      for i := 0 to |lines|
        invariant Explains(lines[..i], records) && forall key :: Find(records, key).durableStatus == None
        invariant forall s :: LastReload(lines[..i], s) == if s in latest then Some(latest[s]) else None
      {
        hide Explains, Add;
        assert lines[..i + 1][..i] == lines[..i];
        ghost var before := records;
        ghost var event := EventAt(lines, i);
        match lines[i] {
          case IdLine(kind, reload, session, detail) =>
            latest := latest[session := reload];
            AddEvent(Event(kind, i, reload, session, detail));
          case SessionLine(kind, session, detail) =>
            if session in latest {
              var reload := latest[session];
              if reload != "" {
                AddEvent(Event(kind, i, reload, session, detail));
              }
            }
          case OtherLine =>
        }
        ExplainsNext(lines, i, before);
        if event.Some? {
          AddKeepsStatus(before, event.value);
        }
      }
      assert lines[..|lines|] == lines;
    }
  }

  /** An event is attributed to a key exactly when some line gives rise to it there. */
  lemma {:induction false} AttributedIff(lines: seq<Line>, key: Key, kind: Kind, e: Event)
    ensures e in Attributed(lines, key, kind) <==>
            && e.line < |lines| && EventAt(lines, e.line) == Some(e)
            && e.Key() == key && e.kind == kind && e.reload != "" && e.session != ""
  {
    if lines != [] {
      var n := |lines| - 1;
      AttributedIff(lines[..n], key, kind, e);
      assert lines[..n + 1] == lines;
      AttributedNext(lines, n, key, kind);
      if e.line < n {
        assert lines[..n][..e.line] == lines[..e.line];
      }
    }
  }

  /** Attributed events stand in log order, each once. */
  lemma {:induction false} AttributedInOrder(lines: seq<Line>, key: Key, kind: Kind)
    ensures forall i, j :: 0 <= i < j < |Attributed(lines, key, kind)| ==>
              Attributed(lines, key, kind)[i].line < Attributed(lines, key, kind)[j].line
  {
    if lines != [] {
      var n := |lines| - 1;
      var before := Attributed(lines[..n], key, kind);
      AttributedInOrder(lines[..n], key, kind);
      assert lines[..n + 1] == lines;
      AttributedNext(lines, n, key, kind);
      forall i | 0 <= i < |before| ensures before[i].line < n {
        AttributedIff(lines[..n], key, kind, before[i]);
      }
    }
  }

  predicate Names(line: Line, session: string) {
    line.IdLine? && line.session == session
  }

  /** The reload a session-only line is attributed to is the one named by the closest earlier line
      that names a reload for its session ... */
  lemma {:induction false} LastReloadIsClosest(lines: seq<Line>, session: string, j: nat)
    requires j < |lines| && Names(lines[j], session)
    requires forall k :: j < k < |lines| ==> !Names(lines[k], session)
    ensures LastReload(lines, session) == Some(lines[j].reload)
  {
    if j < |lines| - 1 {
      LastReloadIsClosest(lines[..|lines| - 1], session, j);
    }
  }

  /** ... and without such a line there is none. */
  lemma {:induction false} NoReloadIff(lines: seq<Line>, session: string)
    ensures LastReload(lines, session) == None <==> forall j :: 0 <= j < |lines| ==> !Names(lines[j], session)
  {
    if lines != [] {
      NoReloadIff(lines[..|lines| - 1], session);
    }
  }

  /** Line `j` is the last one before line `i` that names a reload for the session. */
  ghost predicate ClosestBefore(lines: seq<Line>, session: string, i: nat, j: nat)
    requires i <= |lines|
  {
    j < i && Names(lines[j], session) && forall k :: j < k < i ==> !Names(lines[k], session)
  }

  lemma {:induction false} LastNaming(lines: seq<Line>, session: string, i: nat, j: nat) returns (last: nat)
    requires j < i <= |lines| && Names(lines[j], session)
    ensures ClosestBefore(lines, session, i, last)
  {
    last := j;
    for k := j + 1 to i
      invariant j <= last < k && ClosestBefore(lines, session, k, last)
    {
      if Names(lines[k], session) {
        last := k;
      }
    }
  }

  lemma {:induction false} LastReloadIff(lines: seq<Line>, session: string, i: nat, reload: string)
    requires i <= |lines|
    ensures LastReload(lines[..i], session) == Some(reload) <==>
            exists j: nat :: ClosestBefore(lines, session, i, j) && lines[j].reload == reload
  {
    var before := lines[..i];
    if j: nat :| ClosestBefore(lines, session, i, j) {
      LastReloadIsClosest(before, session, j);
      assert forall m: nat :: ClosestBefore(lines, session, i, m) ==> m == j;
    } else {
      forall j | 0 <= j < i ensures !Names(before[j], session) {
        if Names(lines[j], session) {
          var last := LastNaming(lines, session, i, j);
        }
      }
      NoReloadIff(before, session);
    }
  }

  /** The event comes from its line: one that names the reload itself, or one that names only the session
      and follows, as the closest, a line that names the reload for it. */
  ghost predicate ComesFrom(lines: seq<Line>, e: Event) {
    e.line < |lines| &&
    (|| lines[e.line] == IdLine(e.kind, e.reload, e.session, e.detail)
     || (&& lines[e.line] == SessionLine(e.kind, e.session, e.detail)
         && exists j: nat :: ClosestBefore(lines, e.session, e.line, j) && lines[j].reload == e.reload))
  }

  /** What is attributed to a key, in terms of the log lines alone. Nothing is attributed to an empty reload
      or session. */
  lemma AttributedMeaning(lines: seq<Line>, key: Key, kind: Kind, e: Event)
    ensures e in Attributed(lines, key, kind) <==>
            ComesFrom(lines, e) && e.kind == kind && key == (e.reload, e.session) && e.reload != "" && e.session != ""
  {
    AttributedIff(lines, key, kind, e);
    if e.line < |lines| {
      LastReloadIff(lines, e.session, e.line, e.reload);
    }
  }

  ghost function Latest(events: seq<Event>): Option<Event> {
    if events == [] then None else Some(events[|events| - 1])
  }

  lemma HeldAt(lines: seq<Line>, records: Records, key: Key, kind: Kind)
    requires Explains(lines, records)
    ensures HeldRight(Held(Find(records, key), kind), Attributed(lines, key, kind), kind)
  {
  }

  /** What each field of an intent holds. */
  lemma FieldsHold(lines: seq<Line>, records: Records, key: Key)
    requires Explains(lines, records)
    ensures var r := Find(records, key);
            && r.persisted == Latest(Attributed(lines, key, Persisted))
            && r.claimed == Latest(Attributed(lines, key, Claimed))
            && r.attached == Attributed(lines, key, Attached)
            && r.delivered == Attributed(lines, key, Delivered)
            && r.deliveryMismatch == Attributed(lines, key, DeliveryMismatch)
            && r.nonPending == Attributed(lines, key, NonPending)
            && r.historySnapshot == Attributed(lines, key, HistorySnapshot)
            && r.historyQueued == Attributed(lines, key, HistoryQueued)
            && r.tuiFlows == Attributed(lines, key, TuiFlow)
            && r.sendHistory == Attributed(lines, key, SendHistory)
            && r.memberRunning == Attributed(lines, key, MemberRunning)
  {
    hide Explains, Attributed;
    var r := Find(records, key);
    HeldAt(lines, records, key, Persisted);
    HeldAt(lines, records, key, Claimed);
    HeldAt(lines, records, key, Attached);
    HeldAt(lines, records, key, Delivered);
    HeldAt(lines, records, key, DeliveryMismatch);
    HeldAt(lines, records, key, NonPending);
    HeldAt(lines, records, key, HistorySnapshot);
    HeldAt(lines, records, key, HistoryQueued);
    HeldAt(lines, records, key, TuiFlow);
    HeldAt(lines, records, key, SendHistory);
    HeldAt(lines, records, key, MemberRunning);
  }

  // ----- verdicts

  predicate ClientQueued(r: Intent) {
    r.historyQueued != [] || exists e :: e in r.tuiFlows && e.detail.Some? && e.detail.value.saysQueued
  }

  predicate ServerAccepted(r: Intent) {
    r.delivered != [] || exists e :: e in r.tuiFlows && e.detail.Some? && e.detail.value.saysAccepted
  }

  datatype Verdict =
    | OkClientQueued | OkServerAccepted | Pending | SuspectDeliveredWithoutAcceptanceLog
    | AttachedNotAccepted | PersistedNotAttached | ObservedWithoutPersistLog

  function Lower(s: string): string {
    if s == "" then "" else [if 'A' <= s[0] <= 'Z' then s[0] - 'A' + 'a' else s[0]] + Lower(s[1..])
  }

  predicate SaysDelivered(status: Option<string>) {
    status.Some? && Lower(status.value) == "delivered"
  }

  function VerdictOf(r: Intent): Verdict {
    if ClientQueued(r) then OkClientQueued
    else if ServerAccepted(r) then OkServerAccepted
    else if r.durableStatus == Some("pending") || r.durableStatus == Some("Pending") then Pending
    else if r.claimed.Some? || SaysDelivered(r.durableStatus) then SuspectDeliveredWithoutAcceptanceLog
    else if r.attached != [] then AttachedNotAccepted
    else if r.persisted.Some? then PersistedNotAttached
    else ObservedWithoutPersistLog
  }

  // ----- each verdict in terms of the log

  /** The log has an event of the kind for the key. */
  ghost predicate Saw(lines: seq<Line>, key: Key, kind: Kind) {
    exists e :: ComesFrom(lines, e) && e.kind == kind && key == (e.reload, e.session)
  }

  ghost predicate SawQueuedFlow(lines: seq<Line>, key: Key) {
    exists e :: ComesFrom(lines, e) && e.kind == TuiFlow && key == (e.reload, e.session)
      && e.detail.Some? && e.detail.value.saysQueued
  }

  ghost predicate SawAcceptedFlow(lines: seq<Line>, key: Key) {
    exists e :: ComesFrom(lines, e) && e.kind == TuiFlow && key == (e.reload, e.session)
      && e.detail.Some? && e.detail.value.saysAccepted
  }

  /** "delivered" in any mixture of small and capital letters. */
  ghost predicate SpellsDelivered(s: string) {
    |s| == 9 && forall i :: 0 <= i < 9 ==> s[i] == "delivered"[i] || s[i] == "DELIVERED"[i]
  }

  lemma {:induction false} LowerAt(s: string)
    ensures |Lower(s)| == |s|
    ensures forall i :: 0 <= i < |s| ==> Lower(s)[i] == if 'A' <= s[i] <= 'Z' then s[i] - 'A' + 'a' else s[i]
  {
    if s != "" {
      LowerAt(s[1..]);
    }
  }

  lemma SaysDeliveredIff(s: string)
    ensures SaysDelivered(Some(s)) <==> SpellsDelivered(s)
  {
    LowerAt(s);
    if SpellsDelivered(s) {
      assert forall i :: 0 <= i < 9 ==> Lower(s)[i] == "delivered"[i];
    }
    if SaysDelivered(Some(s)) {
      forall i | 0 <= i < 9 ensures s[i] == "delivered"[i] || s[i] == "DELIVERED"[i] {
        assert Lower(s)[i] == "delivered"[i];
      }
    }
  }

  lemma SawIff(lines: seq<Line>, key: Key, kind: Kind)
    requires key.0 != "" && key.1 != ""
    ensures Saw(lines, key, kind) <==> Attributed(lines, key, kind) != []
  {
    if Attributed(lines, key, kind) != [] {
      AttributedMeaning(lines, key, kind, Attributed(lines, key, kind)[0]);
    }
    if e :| ComesFrom(lines, e) && e.kind == kind && key == (e.reload, e.session) {
      AttributedMeaning(lines, key, kind, e);
    }
  }

  lemma SawFlowsIff(lines: seq<Line>, key: Key)
    requires key.0 != "" && key.1 != ""
    ensures SawQueuedFlow(lines, key) <==>
            exists e :: e in Attributed(lines, key, TuiFlow) && e.detail.Some? && e.detail.value.saysQueued
    ensures SawAcceptedFlow(lines, key) <==>
            exists e :: e in Attributed(lines, key, TuiFlow) && e.detail.Some? && e.detail.value.saysAccepted
  {
    forall e ensures e in Attributed(lines, key, TuiFlow) <==>
        ComesFrom(lines, e) && e.kind == TuiFlow && key == (e.reload, e.session) {
      AttributedMeaning(lines, key, TuiFlow, e);
    }
  }

  lemma NoStatus()
    ensures !SaysDelivered(None)
  {
  }

  /** Which of the seven verdicts an intent gets, from the events of the log and the durable status. */
  lemma VerdictMeaning(lines: seq<Line>, records: Records, key: Key)
    requires Explains(lines, records) && key.0 != "" && key.1 != ""
    ensures var (v, status) := (VerdictOf(Find(records, key)), Find(records, key).durableStatus);
            var queued := Saw(lines, key, HistoryQueued) || SawQueuedFlow(lines, key);
            var accepted := Saw(lines, key, Delivered) || SawAcceptedFlow(lines, key);
            var open := status == Some("pending") || status == Some("Pending");
            var suspect := Saw(lines, key, Claimed) || (status.Some? && SpellsDelivered(status.value));
            && (v == OkClientQueued <==> queued)
            && (v == OkServerAccepted <==> !queued && accepted)
            && (v == Pending <==> !queued && !accepted && open)
            && (v == SuspectDeliveredWithoutAcceptanceLog <==> !queued && !accepted && !open && suspect)
            && (v == AttachedNotAccepted <==>
                  !queued && !accepted && !open && !suspect && Saw(lines, key, Attached))
            && (v == PersistedNotAttached <==>
                  && !queued && !accepted && !open && !suspect
                  && !Saw(lines, key, Attached) && Saw(lines, key, Persisted))
            && (v == ObservedWithoutPersistLog <==>
                  && !queued && !accepted && !open && !suspect
                  && !Saw(lines, key, Attached) && !Saw(lines, key, Persisted))
  {
    hide Explains, Attributed, Saw, SawQueuedFlow, SawAcceptedFlow, SaysDelivered, SpellsDelivered;
    var r := Find(records, key);
    FieldsHold(lines, records, key);
    SawIff(lines, key, HistoryQueued);
    SawIff(lines, key, Delivered);
    SawIff(lines, key, Claimed);
    SawIff(lines, key, Attached);
    SawIff(lines, key, Persisted);
    SawFlowsIff(lines, key);
    if r.durableStatus.Some? {
      SaysDeliveredIff(r.durableStatus.value);
    }
    NoStatus();
  }

  predicate IsOk(v: Verdict) {
    v == OkClientQueued || v == OkServerAccepted
  }

  /** Later information: another log or trace event, or the durable record. */
  datatype News = Logged(event: Event) | Durable(key: Key, status: Option<string>)

  function Learn(records: Records, n: News): Records {
    match n
    case Logged(e) => Add(records, e)
    case Durable(key, status) =>
      if key.0 == "" || key.1 == "" then records
      else records[key := Find(records, key).(durableStatus := status)]
  }

  function LearnAll(records: Records, news: seq<News>): Records
    decreases |news|
  {
    if news == [] then records else LearnAll(Learn(records, news[0]), news[1..])
  }

  /** A durable record sets the status of its intent and leaves all events and other statuses alone. */
  lemma DurableSetsStatus(lines: seq<Line>, records: Records, key: Key, status: Option<string>, other: Key)
    requires Explains(lines, records) && key.0 != "" && key.1 != ""
    ensures Explains(lines, Learn(records, Durable(key, status)))
    ensures Find(Learn(records, Durable(key, status)), other).durableStatus ==
            if other == key then status else Find(records, other).durableStatus
  {
    var next := Learn(records, Durable(key, status));
    forall k, kind ensures HeldRight(Held(Find(next, k), kind), Attributed(lines, k, kind), kind) {
      HeldAt(lines, records, k, kind);
      assert Held(Find(next, k), kind) == Held(Find(records, k), kind);
    }
  }

  lemma PutKeepsOk(r: Intent, e: Event)
    requires IsOk(VerdictOf(r))
    ensures IsOk(VerdictOf(Put(r, e)))
    ensures VerdictOf(r) == OkClientQueued ==> VerdictOf(Put(r, e)) == OkClientQueued
  {
    assert forall x :: x in r.tuiFlows ==> x in Put(r, e).tuiFlows;
  }

  lemma LearnKeepsOk(records: Records, n: News, key: Key)
    requires IsOk(VerdictOf(Find(records, key)))
    ensures IsOk(VerdictOf(Find(Learn(records, n), key)))
  {
    if n.Logged? {
      PutKeepsOk(Find(records, key), n.event);
    }
  }

  /** Once an intent is judged to be fine, nothing learnt later takes that back. */
  lemma {:induction false} OkIsFinal(records: Records, news: seq<News>, key: Key)
    requires IsOk(VerdictOf(Find(records, key)))
    ensures IsOk(VerdictOf(Find(LearnAll(records, news), key)))
    decreases |news|
  {
    if news != [] {
      LearnKeepsOk(records, news[0], key);
      OkIsFinal(Learn(records, news[0]), news[1..], key);
    }
  }

  predicate Evidence(e: Event, key: Key) {
    && e.Key() == key && e.reload != "" && e.session != ""
    && (e.kind == HistoryQueued || e.kind == Delivered ||
        (e.kind == TuiFlow && e.detail.Some? && (e.detail.value.saysQueued || e.detail.value.saysAccepted)))
  }

  lemma Witness(r: Intent) returns (e: Event)
    requires IsOk(VerdictOf(r))
    ensures e in r.historyQueued || e in r.delivered ||
            (e in r.tuiFlows && e.detail.Some? && (e.detail.value.saysQueued || e.detail.value.saysAccepted))
  {
    if r.historyQueued != [] {
      e := r.historyQueued[0];
    } else if r.delivered != [] {
      e := r.delivered[0];
    } else {
      e :| e in r.tuiFlows && e.detail.Some? && (e.detail.value.saysQueued || e.detail.value.saysAccepted);
    }
  }

  /** For an intent the log alone explains, the verdict is fine exactly when some line of the log is
      attributed to it as queued or accepted. */
  lemma OkIffEvidence(lines: seq<Line>, records: Records, key: Key)
    requires Explains(lines, records)
    ensures IsOk(VerdictOf(Find(records, key))) <==>
            exists i ::
              && 0 <= i < |lines| && EventAt(lines, i).Some?
              && Evidence(EventAt(lines, i).value, key)
  {
    var r := Find(records, key);
    forall k, e ensures e in Attributed(lines, key, k) <==>
        && e.line < |lines| && EventAt(lines, e.line) == Some(e)
        && e.Key() == key && e.kind == k && e.reload != "" && e.session != "" {
      AttributedIff(lines, key, k, e);
    }
    assert HeldRight(Held(r, HistoryQueued), Attributed(lines, key, HistoryQueued), HistoryQueued);
    assert HeldRight(Held(r, Delivered), Attributed(lines, key, Delivered), Delivered);
    assert HeldRight(Held(r, TuiFlow), Attributed(lines, key, TuiFlow), TuiFlow);
    if IsOk(VerdictOf(r)) {
      var e := Witness(r);
      assert e in Attributed(lines, key, e.kind) by {
        if e in r.historyQueued { AttributedIff(lines, key, HistoryQueued, e); }
        if e in r.delivered { AttributedIff(lines, key, Delivered, e); }
        if e in r.tuiFlows { AttributedIff(lines, key, TuiFlow, e); }
      }
      assert Evidence(EventAt(lines, e.line).value, key);
    }
    if i :| 0 <= i < |lines| && EventAt(lines, i).Some? && Evidence(EventAt(lines, i).value, key) {
      var e := EventAt(lines, i).value;
      assert e.line == i;
      assert e in Attributed(lines, key, e.kind);
    }
  }
}
