/** The status of a managed profile: conditions by type, their transition times, and the patch that is
    skipped when nothing changes. */
module StatusConditions {
  import opened Prelude
  import opened Keyed
  import opened Images

  datatype ConditionFields = ConditionFields(
    status: string, observedGeneration: int, lastTransitionTime: Time, reason: string, message: string)

  /** A condition is an `Entry` whose key is its type. */
  type Condition = Entry<string, ConditionFields>

  const ZERO_TIME: Time := 0
  const ZERO := ConditionFields("", 0, ZERO_TIME, "", "")

  /** An outcome to report: the status and a condition, whose transition time does not matter. */
  datatype Report = Report(status: string, condition: Condition)

  datatype Status = Status(status: string, conditions: seq<Condition>)

  function Stamp(existing: ConditionFields, cond: ConditionFields, now: Time): ConditionFields {
    cond.(lastTransitionTime := if existing.status != cond.status then now else existing.lastTransitionTime)
  }

  /** A type that is not there yet starts from the zero condition. */
  function ConditionWrite(cond: Condition, now: Time): Write<string, ConditionFields> {
    Write(cond.key, Some(Stamp(ZERO, cond.body, now)), existing => Stamp(existing, cond.body, now))
  }

  method ApplyCondition(conditions: seq<Condition>, cond: Condition, now: Time) returns (r: seq<Condition>)
    ensures r == Put(conditions, ConditionWrite(cond, now), First)
  {
    r := conditions;
    var idx := Locate(r, cond.key, First);
    if idx == -1 {
      idx := |r|;
      r := r + [Entry("", ZERO)];
    }
    var lastTransition := r[idx].body.lastTransitionTime;
    if r[idx].body.status != cond.body.status {
      lastTransition := now;
    }
    r := r[idx := Entry(cond.key, ConditionFields(
      cond.body.status, cond.body.observedGeneration, lastTransition, cond.body.reason, cond.body.message))];
  }

  /** The status after reporting; an empty condition type reports no condition. */
  function Reported(st: Status, r: Report, now: Time): Status {
    Status(
      r.status,
      if r.condition.key == "" then st.conditions else Put(st.conditions, ConditionWrite(r.condition, now), First))
  }

  /** The stored status, and how many patches were issued. */
  class StatusStore {
    var status: Status
    var patches: nat

    constructor ()
      ensures status == Status("", []) && patches == 0
    {
      status, patches := Status("", []), 0;
    }

    /** `accepted` is the API server's answer to the patch, if one is issued. */
    method PatchStatusAndCondition(r: Report, now: Time, accepted: bool) returns (ok: bool)
      modifies this
      ensures var next := Reported(old(status), r, now);
              && patches == old(patches) + (if next == old(status) then 0 else 1)
              && (ok <==> next == old(status) || accepted)
              && status == if ok then next else old(status)
    {
      var next := status.(status := r.status);
      if r.condition.key != "" {
        var conditions := ApplyCondition(next.conditions, r.condition, now);
        next := next.(conditions := conditions);
      }
      if next == status {
        return true;
      }
      patches := patches + 1;
      if !accepted {
        return false;
      }
      status := next;
      return true;
    }
  }

  // ---------------------------------------------------------------- when a patch is issued

  /** Two conditions with the same contents, whenever they came about. */
  predicate SameContents(a: ConditionFields, b: ConditionFields) {
    a == b.(lastTransitionTime := a.lastTransitionTime)
  }

  /** A report changes nothing, and so issues no patch, exactly when the status is as stored and the
      condition of its type is stored with the same contents. */
  lemma NoPatchExactly(st: Status, r: Report, now: Time)
    ensures Reported(st, r, now) == st <==>
              && r.status == st.status
              && (r.condition.key == "" ||
                  (Find(st.conditions, r.condition.key, First).Some? &&
                   SameContents(Find(st.conditions, r.condition.key, First).value, r.condition.body)))
  {
    if r.condition.key != "" {
      var i := Locate(st.conditions, r.condition.key, First);
      var after := Put(st.conditions, ConditionWrite(r.condition, now), First);
      if i != -1 {
        assert after[i] == Entry(r.condition.key, Stamp(st.conditions[i].body, r.condition.body, now));
        assert after == st.conditions <==> after[i] == st.conditions[i];
      }
    }
  }

  /** Reporting an identical outcome again, at any time, issues no patch. */
  lemma RepeatIssuesNoPatch(st: Status, r: Report, now: Time, later: Time)
    ensures Reported(Reported(st, r, now), r, later) == Reported(st, r, now)
  {
    NoPatchExactly(Reported(st, r, now), r, later);
    if r.condition.key != "" {
      PutFind(st.conditions, ConditionWrite(r.condition, now), First, r.condition.key);
    }
  }

  // ---------------------------------------------------------------- histories

  /** One report, its time, and the API server's answer if a patch is issued. */
  datatype Event = Event(report: Report, now: Time, accepted: bool)

  function After(st: Status, events: seq<Event>): Status
    decreases |events|
  {
    if events == [] then st
    else After(if events[0].accepted then Reported(st, events[0].report, events[0].now) else st, events[1..])
  }

  /** The accepted events that report a condition of a type. */
  function About(events: seq<Event>, kind: string): (r: seq<Event>)
    ensures forall e :: e in r <==> e in events && e.accepted && e.report.condition.key == kind
  {
    Select(events, (e: Event) => e.accepted && e.report.condition.key == kind)
  }

  function Evolved(c: Option<ConditionFields>, events: seq<Event>): Option<ConditionFields> {
    if events == [] then c
    else
      var last := events[|events| - 1];
      var before := Evolved(c, events[..|events| - 1]);
      Some(Stamp(if before.Some? then before.value else ZERO, last.report.condition.body, last.now))
  }

  lemma {:induction false} EvolvedFront(c: Option<ConditionFields>, e: Event, rest: seq<Event>)
    ensures Evolved(c, [e] + rest) ==
            Evolved(Some(Stamp(if c.Some? then c.value else ZERO, e.report.condition.body, e.now)), rest)
  {
    var all := [e] + rest;
    if rest == [] {
      assert all == [e] && all[..0] == [];
    } else {
      var n := |rest| - 1;
      assert all[..|all| - 1] == [e] + rest[..n];
      EvolvedFront(c, e, rest[..n]);
    }
  }

  /** The list of conditions refines one history per type: each type occurs at most once if it did
      before, and its condition evolves by just the reports about it. */
  lemma {:induction false} TypesEvolveAlone(st: Status, events: seq<Event>, kind: string)
    requires kind != ""
    ensures Distinct(Keys(st.conditions)) ==> Distinct(Keys(After(st, events).conditions))
    ensures Find(After(st, events).conditions, kind, First) ==
              Evolved(Find(st.conditions, kind, First), About(events, kind))
    decreases |events|
  {
    if events != [] {
      var e := events[0];
      var next := if e.accepted then Reported(st, e.report, e.now) else st;
      TypesEvolveAlone(next, events[1..], kind);
      if e.accepted && e.report.condition.key != "" {
        var w := ConditionWrite(e.report.condition, e.now);
        PutFind(st.conditions, w, First, kind);
        if Distinct(Keys(st.conditions)) {
          PutAllDistinct(st.conditions, [w], First);
          assert PutAll(st.conditions, [w], First) == PutAll(next.conditions, [w][1..], First) == next.conditions;
        }
      }
      if e.accepted && e.report.condition.key == kind {
        assert About(events, kind) == [e] + About(events[1..], kind);
        EvolvedFront(Find(st.conditions, kind, First), e, About(events[1..], kind));
      } else {
        assert About(events, kind) == About(events[1..], kind);
      }
    }
  }

  /** Where the current unbroken stretch of equal status begins. */
  function StretchStart(events: seq<Event>): (i: nat)
    requires events != []
    ensures i < |events|
    ensures forall k :: i <= k < |events| ==>
              events[k].report.condition.body.status == events[|events| - 1].report.condition.body.status
    ensures i > 0 ==> events[i - 1].report.condition.body.status != events[|events| - 1].report.condition.body.status
  {
    var n := |events| - 1;
    var before, last := events[if n == 0 then 0 else n - 1].report.condition.body, events[n].report.condition.body;
    if n > 0 && before.status == last.status then StretchStart(events[..n]) else n
  }

  /** A condition reported at least once has the contents of the last report, and its transition time is
      the time of the first report in the current unbroken stretch of equal status, unless that
      stretch goes back to the condition it started from, whose time it then keeps. */
  lemma {:induction false} TransitionTime(c: Option<ConditionFields>, events: seq<Event>)
    requires events != []
    ensures var r, initial := Evolved(c, events), if c.Some? then c.value else ZERO;
            var first, last := StretchStart(events), events[|events| - 1].report.condition.body;
            && r.Some? && SameContents(r.value, last)
            && r.value.lastTransitionTime ==
               if first == 0 && initial.status == last.status then initial.lastTransitionTime else events[first].now
  {
    var n := |events| - 1;
    if n > 0 {
      TransitionTime(c, events[..n]);
    }
  }

  /** The stored status is that of the last accepted report. */
  lemma {:induction false} StatusHistory(st: Status, events: seq<Event>)
    ensures (forall e :: e in events ==> !e.accepted) ==> After(st, events) == st
    ensures forall i :: 0 <= i < |events| && LastAccepted(events, i) ==>
              After(st, events).status == events[i].report.status
    decreases |events|
  {
    if events != [] {
      var next := if events[0].accepted then Reported(st, events[0].report, events[0].now) else st;
      StatusHistory(next, events[1..]);
      forall i | 0 <= i < |events| && LastAccepted(events, i)
        ensures After(st, events).status == events[i].report.status {
        if i > 0 {
          assert forall j :: i - 1 < j < |events[1..]| ==> events[1..][j] == events[j + 1];
          assert LastAccepted(events[1..], i - 1);
        } else {
          forall e | e in events[1..] ensures !e.accepted {
            var j :| 0 <= j < |events[1..]| && events[1..][j] == e;
            assert events[j + 1] == e;
          }
        }
      }
      assert forall e :: e in events[1..] ==> e in events;
    }
  }

  predicate LastAccepted(events: seq<Event>, i: nat) {
    i < |events| && events[i].accepted && forall j :: i < j < |events| ==> !events[j].accepted
  }

  /** The condition history of the stored profile, over any sequence of reports of which the API server
      accepts some, from any stored status. A condition about which nothing was accepted is as it was; any
      other has the contents of the last accepted report and the time of the first accepted one in the
      current unbroken stretch of equal status, or of the condition it started from if the stretch goes
      back to that. */
  lemma ConditionHistory(st: Status, events: seq<Event>, kind: string)
    requires kind != "" && Distinct(Keys(st.conditions))
    ensures var about, before := About(events, kind), Find(st.conditions, kind, First);
            var after := Find(After(st, events).conditions, kind, First);
            && Distinct(Keys(After(st, events).conditions))
            && (about == [] ==> after == before)
            && (about != [] ==>
                  var initial, last := if before.Some? then before.value else ZERO,
                      about[|about| - 1].report.condition.body;
                  var first := StretchStart(about);
                  && after.Some? && SameContents(after.value, last)
                  && after.value.lastTransitionTime ==
                     if first == 0 && initial.status == last.status then initial.lastTransitionTime
                     else about[first].now)
  {
    TypesEvolveAlone(st, events, kind);
    if About(events, kind) != [] {
      TransitionTime(Find(st.conditions, kind, First), About(events, kind));
    }
  }
}
