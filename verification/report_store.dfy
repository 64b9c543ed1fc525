/** `DisasterManager`: one report store per disaster type, holding a counter
    and the reports of a `LinkedHashMap` from identifier to `Report`, kept here
    as the sequence of its values in insertion order (each is stored under its
    own `id`). */
module ReportStore {
  import opened Results
  import opened Text
  import opened ReportIds
  import opened Disasters

  const Active: string := "Active"

  /** An incident report; `status` is "Active" from construction on. */
  datatype Report = Report(id: string, reporter: string, location: string,
                           description: string, injuryType: string, status: string)

  /** One manager: its disaster type (which fixes the identifier prefix), the
      counter value, and the stored reports in insertion order. */
  datatype Manager = Manager(kind: Disaster, counter: nat, reports: seq<Report>)

  /** `ReportNotFoundException`, one constructor per place it is thrown. */
  datatype ReportError =
    | EmptySearchKey
    | NoReportMatching(key: string)
    | EmptyReportId
    | ReportIdNotFound(id: string)
  {
    function Message(): string {
      match this
      case EmptySearchKey => "Empty search key."
      case NoReportMatching(key) => "No report found matching: " + key
      case EmptyReportId => "Empty report ID."
      case ReportIdNotFound(id) => "Report ID not found: " + id
    }
  }

  /** The sequence number an identifier of this store carries (0 if none). */
  function SeqNo(kind: Disaster, id: string): nat {
    ParseId(CodePrefix(kind), id).GetOr(0)
  }

  /** A stored report carries the number of an identifier this store has
      already issued, and is still active. */
  predicate WellNumbered(kind: Disaster, counter: nat, r: Report) {
    && 1 <= SeqNo(kind, r.id) <= counter
    && r.status == Active
  }

  /** The store invariant: every report is well numbered, and insertion order
      is strictly increasing sequence-number order. */
  predicate Valid(m: Manager) {
    && (forall i :: 0 <= i < |m.reports| ==> WellNumbered(m.kind, m.counter, m.reports[i]))
    && (forall i, j :: 0 <= i < j < |m.reports| ==>
          SeqNo(m.kind, m.reports[i].id) < SeqNo(m.kind, m.reports[j].id))
  }

  /** A freshly constructed manager: counter at zero, no reports. */
  function NewManager(kind: Disaster): (m: Manager)
    ensures Valid(m) && m.kind == kind && m.counter == 0 && |m.reports| == 0
  {
    Manager(kind, 0, [])
  }

  /** In a valid store no two reports have identifiers equal ignoring case. */
  lemma IdsDistinct(m: Manager, i: int, j: int)
    requires Valid(m) && 0 <= i < |m.reports| && 0 <= j < |m.reports| && i != j
    ensures !EqualsIgnoreCase(m.reports[i].id, m.reports[j].id)
  {
    if EqualsIgnoreCase(m.reports[i].id, m.reports[j].id) {
      ParseIdIgnoresCase(CodePrefix(m.kind), m.reports[i].id, m.reports[j].id);
    }
  }

  /** The identifier numbered one past the counter differs, ignoring case, from
      every identifier in a valid store. */
  lemma NextIdFresh(m: Manager)
    ensures Valid(m) ==> forall i :: 0 <= i < |m.reports| ==>
              !EqualsIgnoreCase(m.reports[i].id, FormatId(CodePrefix(m.kind), m.counter + 1))
  {
    if !Valid(m) {
      return;
    }
    var p := CodePrefix(m.kind);
    var id := FormatId(p, m.counter + 1);
    FormatIdRoundTrip(p, m.counter + 1);
    forall i | 0 <= i < |m.reports|
      ensures !EqualsIgnoreCase(m.reports[i].id, id)
    {
      if EqualsIgnoreCase(m.reports[i].id, id) {
        ParseIdIgnoresCase(p, m.reports[i].id, id);
      }
    }
  }

  /** `createId`: advance the counter and format the new value. The identifier
      carries the new counter value, and in a valid store no report has it. */
  function CreateId(m: Manager): (res: (Manager, string))
    ensures res.0.kind == m.kind && res.0.reports == m.reports
    ensures res.0.counter == m.counter + 1
    ensures res.1 == FormatId(CodePrefix(m.kind), res.0.counter)
    ensures ParseId(CodePrefix(m.kind), res.1) == Some(res.0.counter)
    ensures Valid(m) ==> forall i :: 0 <= i < |m.reports| ==> !EqualsIgnoreCase(m.reports[i].id, res.1)
  {
    var n := m.counter + 1;
    FormatIdRoundTrip(CodePrefix(m.kind), n);
    NextIdFresh(m);
    (m.(counter := n), FormatId(CodePrefix(m.kind), n))
  }

  /** `LinkedHashMap.put(r.id, r)`: a new key goes to the end of insertion
      order; an existing key keeps its place and gets the new value. */
  function Put(rs: seq<Report>, r: Report): (out: seq<Report>)
    ensures (forall i :: 0 <= i < |rs| ==> rs[i].id != r.id) ==> out == rs + [r]
    ensures (exists i :: 0 <= i < |rs| && rs[i].id == r.id) ==> |out| == |rs| && r in out
    ensures forall i :: 0 <= i < |rs| && rs[i].id == r.id && (forall j :: 0 <= j < i ==> rs[j].id != r.id) ==> out == rs[i := r]
  {
    if |rs| == 0 then [r]
    else if rs[0].id == r.id then [r] + rs[1..]
    else [rs[0]] + Put(rs[1..], r)
  }

  /** Adding a well-numbered report past every existing number keeps the store valid. */
  lemma AppendKeepsValid(m: Manager, r: Report)
    requires r.id == FormatId(CodePrefix(m.kind), m.counter + 1) && r.status == Active
    ensures Valid(m) ==> Valid(Manager(m.kind, m.counter + 1, m.reports + [r]))
  {
    if !Valid(m) {
      return;
    }
    FormatIdRoundTrip(CodePrefix(m.kind), m.counter + 1);
    AppendKeepsNumbered(m, r);
    AppendKeepsOrder(m, r);
  }

  lemma AppendKeepsNumbered(m: Manager, r: Report)
    requires Valid(m) && SeqNo(m.kind, r.id) == m.counter + 1 && r.status == Active
    ensures forall i :: 0 <= i < |m.reports| + 1 ==> WellNumbered(m.kind, m.counter + 1, (m.reports + [r])[i])
  {
    var rs := m.reports + [r];
    forall i | 0 <= i < |rs|
      ensures WellNumbered(m.kind, m.counter + 1, rs[i])
    {
      if i < |m.reports| {
        assert rs[i] == m.reports[i];
      }
    }
  }

  lemma AppendKeepsOrder(m: Manager, r: Report)
    requires Valid(m) && SeqNo(m.kind, r.id) == m.counter + 1
    ensures forall i, j :: 0 <= i < j < |m.reports| + 1 ==>
              SeqNo(m.kind, (m.reports + [r])[i].id) < SeqNo(m.kind, (m.reports + [r])[j].id)
  {
    var rs := m.reports + [r];
    forall i, j | 0 <= i < j < |rs|
      ensures SeqNo(m.kind, rs[i].id) < SeqNo(m.kind, rs[j].id)
    {
      assert rs[i] == m.reports[i];
      if j < |m.reports| {
        assert rs[j] == m.reports[j];
      }
    }
  }

  /** In a valid store the next identifier is fresh, so `put` appends the
      new report and the store stays valid. */
  lemma PutFresh(m: Manager, r: Report)
    requires r.id == FormatId(CodePrefix(m.kind), m.counter + 1) && r.status == Active
    ensures Valid(m) ==> && Put(m.reports, r) == m.reports + [r]
                         && Valid(Manager(m.kind, m.counter + 1, m.reports + [r]))
  {
    if Valid(m) {
      NextIdFresh(m);
      forall i | 0 <= i < |m.reports|
        ensures m.reports[i].id != r.id
      {
        if m.reports[i].id == r.id {
          assert EqualsIgnoreCase(m.reports[i].id, r.id);
        }
      }
      AppendKeepsValid(m, r);
    }
  }

  /** `insertReport`: the new report gets the next identifier and status
      "Active"; in a valid store it is appended after all existing reports,
      which are unchanged, and the store stays valid. */
  function InsertReport(m: Manager, reporter: string, location: string,
                        description: string, injuryType: string): (res: (Manager, Report))
    ensures res.1.id == FormatId(CodePrefix(m.kind), m.counter + 1)
    ensures res.1 == Report(res.1.id, reporter, location, description, injuryType, Active)
    ensures res.0.kind == m.kind && res.0.counter == m.counter + 1
    ensures Valid(m) ==> Valid(res.0) && res.0.reports == m.reports + [res.1]
  {
    var (m1, id) := CreateId(m);
    var r := Report(id, reporter, location, description, injuryType, Active);
    PutFresh(m, r);
    (m1.(reports := Put(m1.reports, r)), r)
  }

  /** The three matching tiers of `searchByIdOrName`, in priority order. */
  datatype Tier = ById | ByReporter | ByReporterPart

  /** Report `r` matches the trimmed `key` under tier `t`. */
  predicate Hit(t: Tier, r: Report, key: string) {
    match t
    case ById => EqualsIgnoreCase(r.id, key)
    case ByReporter => EqualsIgnoreCase(r.reporter, key)
    case ByReporterPart => ContainsIgnoreCase(r.reporter, key)
  }

  /** `i` is the first position whose report matches under `t`. */
  predicate FirstHitAt(rs: seq<Report>, t: Tier, key: string, i: int) {
    && 0 <= i < |rs|
    && Hit(t, rs[i], key)
    && forall j :: 0 <= j < i ==> !Hit(t, rs[j], key)
  }

  /** No report matches under `t`. */
  predicate NoHit(rs: seq<Report>, t: Tier, key: string) {
    forall j :: 0 <= j < |rs| ==> !Hit(t, rs[j], key)
  }

  /** `i` is the report the search policy picks: the first match of the first
      tier that matches anything. */
  predicate Selected(rs: seq<Report>, key: string, i: int) {
    || FirstHitAt(rs, ById, key, i)
    || (NoHit(rs, ById, key) && FirstHitAt(rs, ByReporter, key, i))
    || (NoHit(rs, ById, key) && NoHit(rs, ByReporter, key) && FirstHitAt(rs, ByReporterPart, key, i))
  }

  /** A key no tier matches matches under every tier. */
  lemma NoHitInAnyTier(rs: seq<Report>, key: string)
    requires NoHit(rs, ById, key) && NoHit(rs, ByReporter, key) && NoHit(rs, ByReporterPart, key)
    ensures forall t :: NoHit(rs, t, key)
  {
    forall t ensures NoHit(rs, t, key) {
      match t
      case ById =>
      case ByReporter =>
      case ByReporterPart =>
    }
  }

  /** One of the `for` loops over the map: the first position at or after
      `from` that matches under `t`. */
  function FindFirst(rs: seq<Report>, t: Tier, key: string, from: nat): (r: Option<nat>)
    requires from <= |rs|
    ensures r.Some? ==> from <= r.value < |rs| && Hit(t, rs[r.value], key)
    ensures r.Some? ==> forall j :: from <= j < r.value ==> !Hit(t, rs[j], key)
    ensures r.None? ==> forall j :: from <= j < |rs| ==> !Hit(t, rs[j], key)
    decreases |rs| - from
  {
    if from == |rs| then None
    else if Hit(t, rs[from], key) then Some(from)
    else FindFirst(rs, t, key, from + 1)
  }

  /** `searchByIdOrName`: a blank key is rejected; otherwise the trimmed key
      selects by the three-tier policy, and a key no tier matches is reported
      as not found. The store is not touched. */
  function SearchByIdOrName(m: Manager, key: string): (r: Result<Report, ReportError>)
    ensures IsBlank(key) ==> r == Failure(EmptySearchKey)
    ensures !IsBlank(key) && r.Failure? ==>
              r.error == NoReportMatching(key) && forall t :: NoHit(m.reports, t, Trim(key))
    ensures r.Success? ==>
              !IsBlank(key) && exists i :: Selected(m.reports, Trim(key), i) && r.value == m.reports[i]
    ensures r.Success? ==> r.value in m.reports
  {
    if |Trim(key)| == 0 then Failure(EmptySearchKey)
    else
      var k := Trim(key);
      var rs := m.reports;
      match FindFirst(rs, ById, k, 0)
      case Some(i) => assert Selected(rs, k, i); Success(rs[i])
      case None =>
        match FindFirst(rs, ByReporter, k, 0)
        case Some(i) => assert Selected(rs, k, i); Success(rs[i])
        case None =>
          match FindFirst(rs, ByReporterPart, k, 0)
          case Some(i) => assert Selected(rs, k, i); Success(rs[i])
          case None =>
            NoHitInAnyTier(rs, k);
            Failure(NoReportMatching(key))
  }

  /** At most one position is selected for a key. */
  lemma SelectedUnique(rs: seq<Report>, key: string, i: int, j: int)
    requires Selected(rs, key, i) && Selected(rs, key, j)
    ensures i == j
  {
  }

  /** `getAllReports`: every stored report, each once, in insertion order,
      which in a valid store is increasing identifier order, all active. */
  function GetAllReports(m: Manager): (all: seq<Report>)
    ensures |all| == |m.reports| && forall r :: r in all <==> r in m.reports
    ensures Valid(m) ==> forall i, j :: 0 <= i < j < |all| ==> SeqNo(m.kind, all[i].id) < SeqNo(m.kind, all[j].id)
    ensures Valid(m) ==> forall i :: 0 <= i < |all| ==> all[i].status == Active
  {
    m.reports
  }

  /** `deleteReport`: a blank identifier is rejected; otherwise the first
      report whose identifier equals the trimmed argument ignoring case is
      removed, the rest keep their order and the counter is untouched; an
      identifier nothing matches is reported and leaves the store as it was. */
  function DeleteReport(m: Manager, id: string): (res: (Manager, Result<bool, ReportError>))
    ensures IsBlank(id) ==> res == (m, Failure(EmptyReportId))
    ensures !IsBlank(id) && NoHit(m.reports, ById, Trim(id)) ==> res == (m, Failure(ReportIdNotFound(id)))
    ensures res.1.Failure? ==> res.0 == m
    ensures !IsBlank(id) && !NoHit(m.reports, ById, Trim(id)) ==> res.1.Success?
    ensures res.1.Success? ==>
              && res.1.value
              && res.0.kind == m.kind && res.0.counter == m.counter
              && exists i :: FirstHitAt(m.reports, ById, Trim(id), i)
                             && res.0.reports == m.reports[..i] + m.reports[i + 1..]
  {
    if |Trim(id)| == 0 then (m, Failure(EmptyReportId))
    else
      match FindFirst(m.reports, ById, Trim(id), 0)
      case None => (m, Failure(ReportIdNotFound(id)))
      case Some(i) =>
        assert FirstHitAt(m.reports, ById, Trim(id), i);
        (m.(reports := m.reports[..i] + m.reports[i + 1..]), Success(true))
  }

  /** Where position `p` of a sequence with position `i` removed comes from. */
  lemma RemovedAt(rs: seq<Report>, i: int, p: int)
    requires 0 <= i < |rs| && 0 <= p < |rs| - 1
    ensures (rs[..i] + rs[i + 1..])[p] == if p < i then rs[p] else rs[p + 1]
  {
  }

  /** Removing one report keeps a store valid. */
  lemma RemoveKeepsValid(m: Manager, i: int)
    requires Valid(m) && 0 <= i < |m.reports|
    ensures Valid(m.(reports := m.reports[..i] + m.reports[i + 1..]))
  {
    var rs := m.reports;
    var out := rs[..i] + rs[i + 1..];
    forall p | 0 <= p < |out|
      ensures WellNumbered(m.kind, m.counter, out[p])
    {
      RemovedAt(rs, i, p);
    }
    forall p, q | 0 <= p < q < |out|
      ensures SeqNo(m.kind, out[p].id) < SeqNo(m.kind, out[q].id)
    {
      RemovedAt(rs, i, p);
      RemovedAt(rs, i, q);
    }
  }

  /** Deletion keeps a store valid. */
  lemma DeleteKeepsValid(m: Manager, id: string)
    requires Valid(m)
    ensures Valid(DeleteReport(m, id).0)
  {
    var res := DeleteReport(m, id);
    if res.1.Success? {
      var i :| FirstHitAt(m.reports, ById, Trim(id), i) && res.0.reports == m.reports[..i] + m.reports[i + 1..];
      RemoveKeepsValid(m, i);
    }
  }

  /** In a valid store, removing the report at `i` that matches `key` by
      identifier leaves no report matching it and removes no other report. */
  lemma RemoveOnlyMatch(m: Manager, key: string, i: int)
    requires Valid(m) && FirstHitAt(m.reports, ById, key, i)
    ensures var out := m.reports[..i] + m.reports[i + 1..];
            && NoHit(out, ById, key)
            && m.reports[i] !in out
            && (forall j :: 0 <= j < |m.reports| && j != i ==> m.reports[j] in out)
            && (forall p :: 0 <= p < |out| ==> out[p] in m.reports)
  {
    var rs := m.reports;
    var out := rs[..i] + rs[i + 1..];
    forall p | 0 <= p < |out|
      ensures !Hit(ById, out[p], key) && out[p] != rs[i]
    {
      RemovedAt(rs, i, p);
      IdsDistinct(m, i, if p < i then p else p + 1);
    }
    forall j | 0 <= j < |rs| && j != i
      ensures rs[j] in out
    {
      if j < i {
        RemovedAt(rs, i, j);
      } else {
        RemovedAt(rs, i, j - 1);
      }
    }
  }

  /** After a successful delete in a valid store, exactly the matching report
      is gone: nothing left matches the identifier, the removed report is no
      longer listed, and every other report still is. */
  lemma DeleteRemovesExactlyTheMatch(m: Manager, id: string)
    requires Valid(m)
    requires DeleteReport(m, id).1.Success?
    ensures var out := GetAllReports(DeleteReport(m, id).0);
            && NoHit(out, ById, Trim(id))
            && exists i :: && FirstHitAt(m.reports, ById, Trim(id), i)
                           && m.reports[i] !in out
                           && forall j :: 0 <= j < |m.reports| && j != i ==> m.reports[j] in out
  {
    var res := DeleteReport(m, id);
    var i :| FirstHitAt(m.reports, ById, Trim(id), i) && res.0.reports == m.reports[..i] + m.reports[i + 1..];
    RemoveOnlyMatch(m, Trim(id), i);
  }

  /** A search for a key no identifier matches can only succeed by reporter. */
  lemma SearchWithoutIdMatch(m: Manager, key: string)
    requires NoHit(m.reports, ById, Trim(key))
    ensures var r := SearchByIdOrName(m, key);
            r.Success? ==> !EqualsIgnoreCase(r.value.id, Trim(key))
  {
    var r := SearchByIdOrName(m, key);
    if r.Success? {
      var p :| 0 <= p < |m.reports| && m.reports[p] == r.value;
      assert !Hit(ById, m.reports[p], Trim(key));
    }
  }

  /** After a report is deleted, searching for its identifier never returns
      it: the search either fails or matches another report by reporter. */
  lemma SearchAfterDeleteMissesIt(m: Manager, id: string)
    requires Valid(m)
    requires DeleteReport(m, id).1.Success?
    ensures var r := SearchByIdOrName(DeleteReport(m, id).0, id);
            r.Success? ==> !EqualsIgnoreCase(r.value.id, Trim(id)) && r.value in m.reports
  {
    var m' := DeleteReport(m, id).0;
    var j :| FirstHitAt(m.reports, ById, Trim(id), j) && m'.reports == m.reports[..j] + m.reports[j + 1..];
    RemoveOnlyMatch(m, Trim(id), j);
    SearchWithoutIdMatch(m', id);
  }

  /** Identifiers are never reissued: after deleting a report, the next
      insert gets a larger sequence number than the deleted one had, and an
      identifier different from it and from every remaining one. */
  lemma DeletedIdNeverReissued(m: Manager, id: string, reporter: string, location: string,
                               description: string, injuryType: string)
    requires Valid(m)
    requires DeleteReport(m, id).1.Success?
    ensures var m' := DeleteReport(m, id).0;
            var next := InsertReport(m', reporter, location, description, injuryType).1;
            && (forall i :: 0 <= i < |m.reports| ==>
                  SeqNo(m.kind, m.reports[i].id) < SeqNo(m.kind, next.id)
                  && !EqualsIgnoreCase(m.reports[i].id, next.id))
  {
    NextIdFresh(m);
    var m' := DeleteReport(m, id).0;
    assert m'.kind == m.kind && m'.counter == m.counter;
  }

  /** Identifiers issued by stores of different disaster types never coincide,
      even ignoring case. */
  lemma IdsOfDifferentStoresDiffer(d: Disaster, e: Disaster, n: nat, k: nat)
    requires d != e
    ensures !EqualsIgnoreCase(FormatId(CodePrefix(d), n), FormatId(CodePrefix(e), k))
  {
    PrefixesDiffer(d, e);
    DifferentPrefixesDiffer(CodePrefix(d), CodePrefix(e), n, k);
  }

  /** A mutating request a user can make of one store. */
  datatype Command =
    | Insert(reporter: string, location: string, description: string, injuryType: string)
    | Delete(id: string)

  function Inserts(cmds: seq<Command>): nat {
    if |cmds| == 0 then 0 else (if cmds[0].Insert? then 1 else 0) + Inserts(cmds[1..])
  }

  /** Applies the commands in order, collecting the identifiers the inserts
      hand out; a failed delete leaves the store as it was. */
  function Run(m: Manager, cmds: seq<Command>): (Manager, seq<string>)
    decreases |cmds|
  {
    if |cmds| == 0 then (m, [])
    else
      match cmds[0]
      case Insert(reporter, location, description, injuryType) =>
        var (m1, r) := InsertReport(m, reporter, location, description, injuryType);
        var (m2, ids) := Run(m1, cmds[1..]);
        (m2, [r.id] + ids)
      case Delete(id) =>
        Run(DeleteReport(m, id).0, cmds[1..])
  }

  /** What a run from a valid store guarantees: the store stays valid and of
      the same kind, the counter advances once per insert and never
      otherwise, and the k-th insert (from 0) gets the identifier numbered
      counter + k + 1. */
  predicate RunSpec(m: Manager, cmds: seq<Command>) {
    var (m', ids) := Run(m, cmds);
    && Valid(m') && m'.kind == m.kind
    && |ids| == Inserts(cmds) && m'.counter == m.counter + |ids|
    && NumberedFrom(ids, CodePrefix(m.kind), m.counter + 1)
  }

  /** The k-th identifier (from 0) is the one numbered `first + k`. */
  predicate NumberedFrom(ids: seq<string>, prefix: string, first: nat) {
    forall k :: 0 <= k < |ids| ==> ids[k] == FormatId(prefix, first + k)
  }

  /** Prepending the identifier numbered `first` extends a numbered run. */
  lemma NumberedCons(id: string, ids: seq<string>, prefix: string, first: nat)
    requires id == FormatId(prefix, first) && NumberedFrom(ids, prefix, first + 1)
    ensures NumberedFrom([id] + ids, prefix, first)
  {
    forall k | 0 <= k < |ids| + 1
      ensures ([id] + ids)[k] == FormatId(prefix, first + k)
    {
      if k > 0 {
        assert ([id] + ids)[k] == ids[k - 1];
      }
    }
  }

  lemma RunInsertStep(m: Manager, cmds: seq<Command>)
    requires Valid(m) && |cmds| > 0 && cmds[0].Insert?
    requires RunSpec(InsertReport(m, cmds[0].reporter, cmds[0].location, cmds[0].description, cmds[0].injuryType).0, cmds[1..])
    ensures RunSpec(m, cmds)
  {
    var c := cmds[0];
    var res := InsertReport(m, c.reporter, c.location, c.description, c.injuryType);
    var m1 := res.0;
    assert m1.kind == m.kind && m1.counter == m.counter + 1;
    var tail := Run(m1, cmds[1..]);
    assert Run(m, cmds) == (tail.0, [res.1.id] + tail.1);
    assert Inserts(cmds) == 1 + Inserts(cmds[1..]);
    NumberedCons(res.1.id, tail.1, CodePrefix(m.kind), m.counter + 1);
  }

  lemma RunDeleteStep(m: Manager, cmds: seq<Command>)
    requires Valid(m) && |cmds| > 0 && cmds[0].Delete?
    requires RunSpec(DeleteReport(m, cmds[0].id).0, cmds[1..])
    ensures RunSpec(m, cmds)
  {
    var m1 := DeleteReport(m, cmds[0].id).0;
    assert m1.kind == m.kind && m1.counter == m.counter;
    assert Run(m, cmds) == Run(m1, cmds[1..]);
    assert Inserts(cmds) == Inserts(cmds[1..]);
  }

  /** Over any mix of inserts and deletes, the k-th insert (from 0) gets the
      identifier numbered counter + k + 1, the counter advances once per
      insert and never otherwise, and the store stays valid. */
  lemma {:induction false} RunNumbersInsertsConsecutively(m: Manager, cmds: seq<Command>)
    requires Valid(m)
    ensures RunSpec(m, cmds)
    decreases |cmds|
  {
    if |cmds| > 0 {
      match cmds[0]
      case Insert(reporter, location, description, injuryType) =>
        RunNumbersInsertsConsecutively(InsertReport(m, reporter, location, description, injuryType).0, cmds[1..]);
        RunInsertStep(m, cmds);
      case Delete(id) =>
        DeleteKeepsValid(m, id);
        RunNumbersInsertsConsecutively(DeleteReport(m, id).0, cmds[1..]);
        RunDeleteStep(m, cmds);
    } else {
      assert Run(m, cmds) == (m, []);
    }
  }

  /** Starting from a fresh store, the n-th insert gets prefix + n padded to
      three digits, and no identifier is handed out twice. */
  lemma FreshStoreIssuesSequentialIds(kind: Disaster, cmds: seq<Command>)
    ensures var ids := Run(NewManager(kind), cmds).1;
            && (forall k :: 0 <= k < |ids| ==> ids[k] == FormatId(CodePrefix(kind), k + 1))
            && (forall a, b :: 0 <= a < b < |ids| ==> !EqualsIgnoreCase(ids[a], ids[b]))
  {
    var m0 := NewManager(kind);
    RunNumbersInsertsConsecutively(m0, cmds);
    var ids := Run(m0, cmds).1;
    assert NumberedFrom(ids, CodePrefix(kind), 1);
    NumberedDistinct(ids, CodePrefix(kind), 1);
  }

  /** Identifiers of a numbered run are pairwise distinct ignoring case. */
  lemma NumberedDistinct(ids: seq<string>, prefix: string, first: nat)
    requires NumberedFrom(ids, prefix, first)
    ensures forall a, b :: 0 <= a < b < |ids| ==> !EqualsIgnoreCase(ids[a], ids[b])
  {
    forall a, b | 0 <= a < b < |ids|
      ensures !EqualsIgnoreCase(ids[a], ids[b])
    {
      FormatIdInjective(prefix, first + a, first + b);
    }
  }

  /** Two inserts into a valid store append two active reports numbered
      counter + 1 and counter + 2, in that order. */
  lemma TwoInserts(m: Manager, r1: string, l1: string, r2: string, l2: string,
                   description: string, injuryType: string)
    requires Valid(m)
    ensures var a := InsertReport(m, r1, l1, description, injuryType);
            var b := InsertReport(a.0, r2, l2, description, injuryType);
            && a.1.id == FormatId(CodePrefix(m.kind), m.counter + 1) && a.1.status == Active
            && b.1.id == FormatId(CodePrefix(m.kind), m.counter + 2) && b.1.status == Active
            && b.0.reports == m.reports + [a.1, b.1]
  {
    var a := InsertReport(m, r1, l1, description, injuryType);
    var b := InsertReport(a.0, r2, l2, description, injuryType);
    assert b.0.reports == (m.reports + [a.1]) + [b.1];
  }

  /** The Flood store from fresh: the first two inserts get "FLD001" and
      "FLD002", both active, in insertion order. */
  lemma FloodInsertsExample(first: string, firstLocation: string, second: string, location: string, description: string, injuryType: string)
    ensures var a := InsertReport(NewManager(Flood), first, firstLocation, description, injuryType);
            var b := InsertReport(a.0, second, location, description, injuryType);
            && a.1.id == "FLD001" && a.1.status == Active
            && b.1.id == "FLD002" && b.1.status == Active
            && b.0.reports == [a.1, b.1]
  {
    var m0 := NewManager(Flood);
    TwoInserts(m0, first, firstLocation, second, location, description, injuryType);
    assert m0.counter == 0 && m0.reports == [];
    FloodIdExamples();
  }

  /** Continuing the example: deleting "FLD001" succeeds and leaves only the
      second report listed. */
  lemma FloodDeleteExample(first: string, firstLocation: string, second: string, location: string, description: string, injuryType: string)
    ensures var a := InsertReport(NewManager(Flood), first, firstLocation, description, injuryType);
            var b := InsertReport(a.0, second, location, description, injuryType);
            var c := DeleteReport(b.0, "FLD001");
            c.1 == Success(true) && GetAllReports(c.0) == [b.1]
  {
    FloodInsertsExample(first, firstLocation, second, location, description, injuryType);
    var a := InsertReport(NewManager(Flood), first, firstLocation, description, injuryType);
    var b := InsertReport(a.0, second, location, description, injuryType);
    var key := "FLD001";
    assert Trimmed(key) by { assert key[0] == 'F' && key[5] == '1'; }
    TrimmedIffFixed(key);
    assert !IsBlank(key) by { assert key[0] == 'F'; }
    DeleteFirst(b.0, key);
  }

  /** Deleting by an identifier the first report carries removes that report. */
  lemma DeleteFirst(m: Manager, id: string)
    requires |m.reports| > 0 && !IsBlank(id) && EqualsIgnoreCase(m.reports[0].id, Trim(id))
    ensures DeleteReport(m, id) == (m.(reports := m.reports[1..]), Success(true))
  {
    assert FindFirst(m.reports, ById, Trim(id), 0) == Some(0);
    assert m.reports[..0] + m.reports[1..] == m.reports[1..];
  }
}
