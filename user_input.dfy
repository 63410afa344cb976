/**
 * The event-application core of the "User Input" page: the chain of checks a
 * proposed infection or intervention goes through, the infection probability,
 * the one row an accepted event produces, and the read-append-write of that
 * row to interactions.csv.
 */
module UserInput {
  import opened Data
  import opened Text
  import opened State

  /** Baseline probability that an infection attempt succeeds. */
  const Baseline: real := 0.5
  /** The reserved user that can never be the audience. */
  const ReservedUser: string := "exp626"
  /** Minimum spacing, in seconds, between two events of the same pair. */
  const CooldownSeconds: real := 60.0
  const SecondsPerDay: int := 86400
  /** The intervention_type the infection form passes (the integer -1). */
  const InfectionSentinel: string := "-1"
  /** The options of the intervention form's select box. */
  const InterventionLabels: seq<string> := ["Intervention 01", "Intervention 02", "Intervention 03"]

  datatype Reason =
    | MissingField          // one or both usernames empty
    | SelfTarget            // actor and audience are the same user
    | Reserved              // the audience is exp626, in any letter case
    | InvalidAudience       // the audience fails validate_input
    | InvalidActor          // the actor fails validate_input
    | Cooldown              // the same pair met less than a minute ago
    | ActorNotContagious    // the actor has never been infected
    | AlreadyInfected       // the audience is already infected
    | DuplicateIntervention // the audience already received this intervention
    | TooLate               // the audience is already infected: no intervention

  datatype Outcome = Rejected(reason: Reason) | Accepted(row: Row)

  // ---------------------------------------------------------------------
  // Queries over the log

  /** The latest timestamp of the rows of the ordered pair (actor, audience). */
  function LastPairTimestamp(log: seq<Row>, actor: string, audience: string): Option<int> {
    MaxTimestamp(log, (row: Row) => row.actor == actor && row.audience == audience)
  }

  /**
   * The `.seconds` attribute of the timedelta `now - then`: a timedelta keeps
   * whole days apart, so this is the elapsed time with the days dropped.
   */
  function TimedeltaSeconds(now: int, earlier: int): (s: int)
    ensures 0 <= s < SecondsPerDay
    ensures exists days :: now - earlier == days * SecondsPerDay + s
  {
    var s := (now - earlier) % SecondsPerDay;
    assert now - earlier == ((now - earlier) / SecondsPerDay) * SecondsPerDay + s;
    s
  }

  /** The cooldown test: `(now - last).seconds / 60 < 1.` for the pair's latest row. */
  predicate InCooldown(log: seq<Row>, actor: string, audience: string, now: int)
    ensures InCooldown(log, actor, audience, now) <==>
              LastPairTimestamp(log, actor, audience).Some? &&
              TimedeltaSeconds(now, LastPairTimestamp(log, actor, audience).value) < 60
  {
    match LastPairTimestamp(log, actor, audience)
    case None => false
    case Some(last) => (TimedeltaSeconds(now, last) as real) / CooldownSeconds < 1.0
  }

  /** The audience already has an intervention row of this type. */
  predicate HadIntervention(log: seq<Row>, audience: string, itype: string) {
    exists i :: 0 <= i < |log| && log[i].audience == audience && !log[i].infection && log[i].itype == Some(itype)
  }

  /** The intervention_value column of the interventions `audience` received, in log order. */
  function InterventionValues(log: seq<Row>, audience: string): seq<Option<real>> {
    if log == [] then []
    else
      var last := log[|log| - 1];
      InterventionValues(log[..|log| - 1], audience)
        + (if last.audience == audience && !last.infection then [last.value] else [])
  }

  /** One factor of the product: `p` discounted by an intervention of effectiveness `v`. */
  function Discount(p: real, v: real): real {
    p * (1.0 - v)
  }

  /** `np.prod(1. - values)`; a missing value (NaN) makes the whole product NaN (None). */
  function ProductOfComplements(vs: seq<Option<real>>): (p: Option<real>)
    ensures p.None? <==> None in vs
  {
    if vs == [] then Some(1.0)
    else
      var p := ProductOfComplements(vs[..|vs| - 1]);
      var v := vs[|vs| - 1];
      assert vs == vs[..|vs| - 1] + [v];
      if p.Some? && v.Some? then Some(Discount(p.value, v.value)) else None
  }

  /** The probability that an infection of `audience` succeeds; None stands for NaN. */
  function InfectionProbability(log: seq<Row>, audience: string): (p: Option<real>)
    ensures p.None? <==> None in InterventionValues(log, audience)
  {
    var vs := InterventionValues(log, audience);
    if |vs| > 0 then
      match ProductOfComplements(vs)
      case Some(p) => Some(Baseline * p)
      case None => None
    else Some(Baseline)
  }

  /** `r < p`, which is false when p is NaN. */
  predicate InfectionSucceeds(p: Option<real>, r: real) {
    p.Some? && r < p.value
  }

  // ---------------------------------------------------------------------
  // The decision

  /**
   * add_user_data_to_database after the refresh: the outcome of proposing an
   * event against the log `log`, at time `now`, with the uniform draw `r`.
   */
  function Decide(log: seq<Row>, actor: string, audience: string, infection: bool, itype: string, now: int, r: real): (o: Outcome)
    ensures o.Accepted? ==>
      && o.row.actor == actor && o.row.audience == audience && o.row.infection == infection
      && o.row.itype == Some(itype) && o.row.timestamp == now
      && actor != "" && audience != "" && ValidateInput(audience) && Lower(audience) != ReservedUser
      && audience !in InfectedSet(log)
    ensures o.Accepted? && infection ==>
      && actor != audience && ValidateInput(actor) && !InCooldown(log, actor, audience, now)
      && actor in InfectedSet(log)
      && (o.row.success <==> InfectionSucceeds(InfectionProbability(log, audience), r))
      && o.row.value == (if o.row.success then Some(Baseline) else None)
    ensures o.Accepted? && !infection ==>
      && o.row.success && o.row.value == Some(r) && !HadIntervention(log, audience, itype)
    ensures o == Rejected(Cooldown) ==> infection && InCooldown(log, actor, audience, now)
    ensures o == Rejected(MissingField) <==> actor == "" || audience == ""
  {
    if infection then
      if audience == "" || actor == "" then Rejected(MissingField)
      else if audience == actor then Rejected(SelfTarget)
      else if Lower(audience) == ReservedUser then Rejected(Reserved)
      else if !ValidateInput(audience) then Rejected(InvalidAudience)
      else if !ValidateInput(actor) then Rejected(InvalidActor)
      else if InCooldown(log, actor, audience, now) then Rejected(Cooldown)
      else if actor !in InfectedSet(log) then Rejected(ActorNotContagious)
      else if audience in InfectedSet(log) then Rejected(AlreadyInfected)
      else if InfectionSucceeds(InfectionProbability(log, audience), r) then
        Accepted(Row(actor, audience, true, true, Some(Baseline), Some(itype), now))
      else
        Accepted(Row(actor, audience, true, false, None, Some(itype), now))
    else
      if audience == "" || actor == "" then Rejected(MissingField)
      else if Lower(audience) == ReservedUser then Rejected(Reserved)
      else if !ValidateInput(audience) then Rejected(InvalidAudience)
      else if HadIntervention(log, audience, itype) then Rejected(DuplicateIntervention)
      else if audience in InfectedSet(log) then Rejected(TooLate)
      else Accepted(Row(actor, audience, false, true, Some(r), Some(itype), now))
  }

  /** A check of the chain: whether it fails, and the reason it then reports. */
  datatype Check = Check(fails: bool, reason: Reason)

  /** The reason of the first failing check from position `k` on, if any. */
  function FirstFailure(checks: seq<Check>, k: nat := 0): Option<Reason>
    decreases |checks| - k
  {
    if k >= |checks| then None
    else if checks[k].fails then Some(checks[k].reason)
    else FirstFailure(checks, k + 1)
  }

  /** The infection branch's checks, in the order the page runs them. */
  function InfectionChecks(log: seq<Row>, actor: string, audience: string, now: int): seq<Check> {
    [ Check(audience == "" || actor == "", MissingField),
      Check(audience == actor, SelfTarget),
      Check(Lower(audience) == ReservedUser, Reserved),
      Check(!ValidateInput(audience), InvalidAudience),
      Check(!ValidateInput(actor), InvalidActor),
      Check(InCooldown(log, actor, audience, now), Cooldown),
      Check(actor !in InfectedSet(log), ActorNotContagious),
      Check(audience in InfectedSet(log), AlreadyInfected) ]
  }

  /** The intervention branch's checks: no self-target, actor-format, cooldown or contagion check. */
  function InterventionChecks(log: seq<Row>, actor: string, audience: string, itype: string): seq<Check> {
    [ Check(audience == "" || actor == "", MissingField),
      Check(Lower(audience) == ReservedUser, Reserved),
      Check(!ValidateInput(audience), InvalidAudience),
      Check(HadIntervention(log, audience, itype), DuplicateIntervention),
      Check(audience in InfectedSet(log), TooLate) ]
  }

  /** An event is rejected exactly when a check fails, and for the first failing check's reason. */
  lemma DecideFollowsChecks(log: seq<Row>, actor: string, audience: string, infection: bool, itype: string, now: int, r: real)
    ensures var checks := if infection then InfectionChecks(log, actor, audience, now)
                          else InterventionChecks(log, actor, audience, itype);
            var o := Decide(log, actor, audience, infection, itype, now, r);
            && (o.Rejected? <==> FirstFailure(checks).Some?)
            && (o.Rejected? ==> FirstFailure(checks) == Some(o.reason))
  {
    if infection {
      InfectionFollowsChecks(log, actor, audience, itype, now, r);
    } else {
      InterventionFollowsChecks(log, actor, audience, itype, now, r);
    }
  }

  lemma InfectionFollowsChecks(log: seq<Row>, actor: string, audience: string, itype: string, now: int, r: real)
    ensures var checks := InfectionChecks(log, actor, audience, now);
            var o := Decide(log, actor, audience, true, itype, now, r);
            && (o.Rejected? <==> FirstFailure(checks).Some?)
            && (o.Rejected? ==> FirstFailure(checks) == Some(o.reason))
  {
    var checks := InfectionChecks(log, actor, audience, now);
    assert FirstFailure(checks, 8) == None;
    assert FirstFailure(checks, 7) == (if checks[7].fails then Some(checks[7].reason) else None);
    assert FirstFailure(checks, 6) == (if checks[6].fails then Some(checks[6].reason) else FirstFailure(checks, 7));
    assert FirstFailure(checks, 5) == (if checks[5].fails then Some(checks[5].reason) else FirstFailure(checks, 6));
    assert FirstFailure(checks, 4) == (if checks[4].fails then Some(checks[4].reason) else FirstFailure(checks, 5));
    assert FirstFailure(checks, 3) == (if checks[3].fails then Some(checks[3].reason) else FirstFailure(checks, 4));
    assert FirstFailure(checks, 2) == (if checks[2].fails then Some(checks[2].reason) else FirstFailure(checks, 3));
    assert FirstFailure(checks, 1) == (if checks[1].fails then Some(checks[1].reason) else FirstFailure(checks, 2));
  }

  lemma InterventionFollowsChecks(log: seq<Row>, actor: string, audience: string, itype: string, now: int, r: real)
    ensures var checks := InterventionChecks(log, actor, audience, itype);
            var o := Decide(log, actor, audience, false, itype, now, r);
            && (o.Rejected? <==> FirstFailure(checks).Some?)
            && (o.Rejected? ==> FirstFailure(checks) == Some(o.reason))
  {
    var checks := InterventionChecks(log, actor, audience, itype);
    assert FirstFailure(checks, 5) == None;
    assert FirstFailure(checks, 4) == (if checks[4].fails then Some(checks[4].reason) else None);
    assert FirstFailure(checks, 3) == (if checks[3].fails then Some(checks[3].reason) else FirstFailure(checks, 4));
    assert FirstFailure(checks, 2) == (if checks[2].fails then Some(checks[2].reason) else FirstFailure(checks, 3));
    assert FirstFailure(checks, 1) == (if checks[1].fails then Some(checks[1].reason) else FirstFailure(checks, 2));
  }

  // ---------------------------------------------------------------------
  // Properties of the cooldown

  /** The cooldown holds exactly when the pair has a row and its latest one is, modulo whole days, under a minute old. */
  lemma CooldownMeaning(log: seq<Row>, actor: string, audience: string, now: int)
    ensures InCooldown(log, actor, audience, now) <==>
      exists i :: 0 <= i < |log| && log[i].actor == actor && log[i].audience == audience
        && (forall j :: 0 <= j < |log| && log[j].actor == actor && log[j].audience == audience ==> log[j].timestamp <= log[i].timestamp)
        && (now - log[i].timestamp) % SecondsPerDay < 60
  {
    var m := LastPairTimestamp(log, actor, audience);
    if InCooldown(log, actor, audience, now) {
      var i :| 0 <= i < |log| && log[i].actor == actor && log[i].audience == audience && log[i].timestamp == m.value;
      assert (now - log[i].timestamp) % SecondsPerDay < 60;
    }
  }

  /** Exactly sixty seconds after the pair's last event, the pair may meet again. */
  lemma CooldownBoundary(log: seq<Row>, actor: string, audience: string, last: int)
    requires LastPairTimestamp(log, actor, audience) == Some(last)
    ensures InCooldown(log, actor, audience, last + 59)
    ensures !InCooldown(log, actor, audience, last + 60)
  {
  }

  /** Because only the `.seconds` part is compared, a pair last seen a day and 30 s ago is still cooling down. */
  lemma CooldownWrapsAfterADay()
    ensures var log := [Row("thm220", "abc123", true, false, None, Some(InfectionSentinel), 0)];
            InCooldown(log, "thm220", "abc123", SecondsPerDay + 30)
  {
    var log := [Row("thm220", "abc123", true, false, None, Some(InfectionSentinel), 0)];
    assert LastPairTimestamp(log, "thm220", "abc123") == Some(0);
  }

  // ---------------------------------------------------------------------
  // Properties of the infection probability

  /** Every intervention row carries a value in [0, 1]. */
  ghost predicate InterventionValuesInRange(log: seq<Row>) {
    forall i :: 0 <= i < |log| && !log[i].infection ==> log[i].value.Some? && 0.0 <= log[i].value.value <= 1.0
  }

  lemma {:induction false} ValuesOfInRangeLog(log: seq<Row>, audience: string)
    requires InterventionValuesInRange(log)
    ensures forall k :: 0 <= k < |InterventionValues(log, audience)| ==>
      InterventionValues(log, audience)[k].Some? && 0.0 <= InterventionValues(log, audience)[k].value <= 1.0
  {
    if log != [] {
      var init := log[..|log| - 1];
      assert forall i :: 0 <= i < |init| ==> init[i] == log[i];
      ValuesOfInRangeLog(init, audience);
    }
  }

  lemma DiscountBounds(p: real, v: real)
    requires 0.0 <= p && 0.0 <= v <= 1.0
    ensures 0.0 <= Discount(p, v) <= p
  {
    assert p * (1.0 - v) + p * v == p;
    assert 0.0 <= p * v;
    assert 0.0 <= p * (1.0 - v);
  }

  lemma {:induction false} ProductInUnitInterval(vs: seq<Option<real>>)
    requires forall k :: 0 <= k < |vs| ==> vs[k].Some? && 0.0 <= vs[k].value <= 1.0
    ensures ProductOfComplements(vs).Some?
    ensures 0.0 <= ProductOfComplements(vs).value <= 1.0
  {
    if vs != [] {
      var init := vs[..|vs| - 1];
      ProductInUnitInterval(init);
      DiscountBounds(ProductOfComplements(init).value, vs[|vs| - 1].value);
    }
  }

  /** With intervention values in [0, 1] the infection probability is a number in [0, 0.5]. */
  lemma ProbabilityBounds(log: seq<Row>, audience: string)
    requires InterventionValuesInRange(log)
    ensures InfectionProbability(log, audience).Some?
    ensures 0.0 <= InfectionProbability(log, audience).value <= Baseline
  {
    ValuesOfInRangeLog(log, audience);
    ProductInUnitInterval(InterventionValues(log, audience));
  }

  /** An audience that never received an intervention is infected with probability 0.5. */
  lemma {:induction false} ProbabilityWithoutInterventions(log: seq<Row>, audience: string)
    requires forall i :: 0 <= i < |log| ==> log[i].audience != audience || log[i].infection
    ensures InterventionValues(log, audience) == []
    ensures InfectionProbability(log, audience) == Some(Baseline)
  {
    if log != [] {
      var init := log[..|log| - 1];
      assert forall i :: 0 <= i < |init| ==> init[i] == log[i];
      ProbabilityWithoutInterventions(init, audience);
    }
  }

  /** One more intervention with value v multiplies the probability by 1 - v: interventions never raise it. */
  lemma ProductAppend(vs: seq<Option<real>>, v: real)
    ensures ProductOfComplements(vs + [Some(v)])
         == if ProductOfComplements(vs).Some? then Some(Discount(ProductOfComplements(vs).value, v)) else None
  {
    assert (vs + [Some(v)])[..|vs|] == vs;
  }

  /** One more intervention with value v multiplies the probability by 1 - v: interventions never raise it. */
  lemma InterventionScalesProbability(log: seq<Row>, row: Row)
    requires !row.infection && row.value.Some?
    requires InfectionProbability(log, row.audience).Some?
    ensures InfectionProbability(log + [row], row.audience)
         == Some(Discount(InfectionProbability(log, row.audience).value, row.value.value))
  {
    var log' := log + [row];
    assert log'[..|log'| - 1] == log;
    var vs := InterventionValues(log, row.audience);
    assert InterventionValues(log', row.audience) == vs + [row.value];
    var v := row.value.value;
    ProductAppend(vs, v);
    if |vs| == 0 {
      assert ProductOfComplements(vs) == Some(1.0);
    } else {
      var p := ProductOfComplements(vs).value;
      assert Baseline * Discount(p, v) == Discount(Baseline * p, v);
    }
  }

  /** The values gathered for the two-intervention example. */
  lemma ExampleValues(r0: Row, r1: Row)
    requires r0 == Row("Intervention 01", "abc123", false, true, Some(0.3), Some("Intervention 01"), 0)
    requires r1 == Row("Intervention 02", "abc123", false, true, Some(0.2), Some("Intervention 02"), 100)
    ensures InterventionValues([r0, r1], "abc123") == [Some(0.3), Some(0.2)]
  {
    assert InterventionValues([r0], "abc123") == [Some(0.3)] by {
      assert [r0][..0] == [];
    }
    assert [r0, r1][..1] == [r0];
  }

  /** (1 - 0.3) · (1 - 0.2) = 0.56. */
  lemma ExampleProduct()
    ensures ProductOfComplements([Some(0.3), Some(0.2)]) == Some(0.56)
  {
    assert [Some(0.3), Some(0.2)][..1] == [Some(0.3)];
    assert [Some(0.3)][..0] == [];
  }

  /** The probabilities of the documented examples: 0.5 · 0.7 · 0.8 = 0.28, and draws 0.49 / 0.50 against 0.5. */
  lemma ProbabilityExamples()
    ensures var log := [Row("Intervention 01", "abc123", false, true, Some(0.3), Some("Intervention 01"), 0),
                        Row("Intervention 02", "abc123", false, true, Some(0.2), Some("Intervention 02"), 100)];
            InfectionProbability(log, "abc123") == Some(0.28)
    ensures InfectionSucceeds(InfectionProbability([], "abc123"), 0.49)
    ensures !InfectionSucceeds(InfectionProbability([], "abc123"), 0.5)
  {
    var r0 := Row("Intervention 01", "abc123", false, true, Some(0.3), Some("Intervention 01"), 0);
    var r1 := Row("Intervention 02", "abc123", false, true, Some(0.2), Some("Intervention 02"), 100);
    ExampleValues(r0, r1);
    ExampleProduct();
  }

  // ---------------------------------------------------------------------
  // The invariant the checks keep

  /** After a user's successful infection, no later row has that user as its audience. */
  ghost predicate NothingAfterInfection(log: seq<Row>) {
    forall i, j :: 0 <= i < j < |log| && IsSuccessfulInfection(log[i]) ==> log[j].audience != log[i].audience
  }

  /** No user receives the same intervention type twice. */
  ghost predicate InterventionsDistinct(log: seq<Row>) {
    forall i, j :: 0 <= i < j < |log| && !log[i].infection && !log[j].infection && log[i].audience == log[j].audience
      ==> log[i].itype != log[j].itype
  }

  /** The log invariant that accepted events preserve. */
  ghost predicate WellFormed(log: seq<Row>) {
    NothingAfterInfection(log) && InterventionsDistinct(log) && InterventionValuesInRange(log)
  }

  /** In a well-formed log every user has at most one successful infection. */
  lemma AtMostOneInfection(log: seq<Row>, i: nat, j: nat)
    requires WellFormed(log)
    requires i < |log| && j < |log| && i != j
    requires IsSuccessfulInfection(log[i]) && IsSuccessfulInfection(log[j])
    ensures log[i].audience != log[j].audience
  {
  }

  /** Appending the row of an accepted event to the log it was decided on keeps the log well formed. */
  lemma DecidePreservesWellFormed(log: seq<Row>, actor: string, audience: string, infection: bool, itype: string, now: int, r: real)
    requires WellFormed(log)
    requires 0.0 <= r < 1.0
    requires Decide(log, actor, audience, infection, itype, now, r).Accepted?
    ensures WellFormed(log + [Decide(log, actor, audience, infection, itype, now, r).row])
  {
    var row := Decide(log, actor, audience, infection, itype, now, r).row;
    var log' := log + [row];
    assert forall i :: 0 <= i < |log| ==> log'[i] == log[i];
    assert log'[|log|] == row;
    forall i, j | 0 <= i < j < |log'| && IsSuccessfulInfection(log'[i])
      ensures log'[j].audience != log'[i].audience
    {
      if j == |log| {
        assert log'[i].audience in InfectedSet(log);
      }
    }
    forall i, j | 0 <= i < j < |log'| && !log'[i].infection && !log'[j].infection && log'[i].audience == log'[j].audience
      ensures log'[i].itype != log'[j].itype
    {
      if j == |log| {
        assert !HadIntervention(log, audience, itype);
        assert log[i].audience == audience && !log[i].infection;
      }
    }
  }

  /** The log the bucket is seeded with: exp626 infected thm220, who infected gms221. */
  function SeedLog(t: int): seq<Row> {
    [ Row("exp626", "thm220", true, true, None, Some(InfectionSentinel), t),
      Row("thm220", "gms221", true, true, None, Some(InfectionSentinel), t) ]
  }

  lemma SeedLogWellFormed(t: int)
    ensures WellFormed(SeedLog(t))
    ensures InfectedSet(SeedLog(t)) == {"thm220", "gms221"}
  {
    var log := SeedLog(t);
    assert log[0].audience == "thm220" && log[1].audience == "gms221";
    assert "thm220" in InfectedSet(log);
    assert "gms221" in InfectedSet(log);
  }

  // ---------------------------------------------------------------------
  // The stateful part: refresh, decide, read-append-write

  /**
   * save_dataset_to_csv_and_s3: read the latest interactions.csv, append the
   * row, write the whole table back, and only then replace the session copy.
   * A failed read or write raises inside the try block and is swallowed.
   */
  method SaveDatasetToCsvAndS3(session: Session, bucket: Bucket, row: Row, readOk: bool, writeOk: bool)
    modifies session`dataset, bucket`interactions
    ensures bucket.interactions == if readOk && writeOk then old(bucket.interactions) + [row] else old(bucket.interactions)
    ensures session.dataset == if readOk && writeOk then Some(bucket.interactions) else old(session.dataset)
  {
    if !readOk {
      return;
    }
    var latest := bucket.interactions;
    var updated := latest + [row];
    if !writeOk {
      return;
    }
    bucket.interactions := updated;
    session.dataset := Some(updated);
  }

  /**
   * add_user_data_to_database: refresh the session copy from the bucket
   * (keeping the old copy when the read fails), decide on that copy, and on
   * acceptance save the one new row.
   */
  method AddUserDataToDatabase(session: Session, bucket: Bucket, actor: string, audience: string, infection: bool,
                               itype: string, now: int, r: real, refreshOk: bool, readOk: bool, writeOk: bool)
    returns (o: Outcome)
    requires session.dataset.Some?
    modifies session`dataset, bucket`interactions
    ensures o == Decide(if refreshOk then old(bucket.interactions) else old(session.dataset.value),
                        actor, audience, infection, itype, now, r)
    ensures bucket.interactions ==
      if o.Accepted? && readOk && writeOk then old(bucket.interactions) + [o.row] else old(bucket.interactions)
    ensures session.dataset ==
      if o.Accepted? && readOk && writeOk then Some(bucket.interactions)
      else if refreshOk then Some(old(bucket.interactions))
      else old(session.dataset)
    ensures (refreshOk || old(session.dataset) == Some(old(bucket.interactions)))
            && WellFormed(old(bucket.interactions)) && 0.0 <= r < 1.0
            ==> WellFormed(bucket.interactions)
  {
    if refreshOk {
      session.dataset := Some(bucket.interactions);
    }
    var interactions := session.dataset.value;
    o := Decide(interactions, actor, audience, infection, itype, now, r);
    if o.Accepted? {
      if WellFormed(interactions) && 0.0 <= r < 1.0 {
        DecidePreservesWellFormed(interactions, actor, audience, infection, itype, now, r);
      }
      SaveDatasetToCsvAndS3(session, bucket, o.row, readOk, writeOk);
    }
  }

  // ---------------------------------------------------------------------
  // The two forms

  /** What the user chose on the page, with the raw text of the form fields. */
  datatype Action =
    | Infect(infector: string, infectee: string)
    | Intervene(choice: string, audienceInput: string)

  /**
   * The page: nothing happens unless the session is logged in and Submit is
   * pressed (`pressed`); the infection form lower-cases and strips both
   * usernames and passes the sentinel type; the intervention form passes its
   * label as both actor and type.
   */
  method Show(session: Session, bucket: Bucket, action: Action, pressed: bool, now: int, r: real,
              refreshOk: bool, readOk: bool, writeOk: bool)
    returns (o: Option<Outcome>)
    requires session.dataset.Some?
    requires action.Intervene? ==> action.choice in InterventionLabels
    modifies session`dataset, bucket`interactions
    ensures o.Some? <==> old(session.loggedIn) && pressed
    ensures o.Some? ==>
      var log := if refreshOk then old(bucket.interactions) else old(session.dataset.value);
      match action
      case Infect(infector, infectee) =>
        o.value == Decide(log, Normalise(infector), Normalise(infectee), true, InfectionSentinel, now, r)
      case Intervene(choice, input) =>
        o.value == Decide(log, choice, Normalise(input), false, choice, now, r)
    ensures bucket.interactions ==
      if o.Some? && o.value.Accepted? && readOk && writeOk then old(bucket.interactions) + [o.value.row]
      else old(bucket.interactions)
    ensures session.dataset ==
      if o.None? then old(session.dataset)
      else if o.value.Accepted? && readOk && writeOk then Some(bucket.interactions)
      else if refreshOk then Some(old(bucket.interactions))
      else old(session.dataset)
  {
    if !session.loggedIn || !pressed {
      return None;
    }
    var outcome;
    match action {
      case Infect(infector, infectee) =>
        outcome := AddUserDataToDatabase(session, bucket, Normalise(infector), Normalise(infectee), true,
                                         InfectionSentinel, now, r, refreshOk, readOk, writeOk);
      case Intervene(choice, input) =>
        outcome := AddUserDataToDatabase(session, bucket, choice, Normalise(input), false,
                                         choice, now, r, refreshOk, readOk, writeOk);
    }
    o := Some(outcome);
  }

  /** A username box holding only whitespace is a missing field once normalised. */
  lemma BlankInputIsMissing(log: seq<Row>, infector: string, infectee: string, now: int, r: real)
    requires AllSpace(Lower(infectee))
    ensures Decide(log, Normalise(infector), Normalise(infectee), true, InfectionSentinel, now, r) == Rejected(MissingField)
  {
    StripEmptyIff(Lower(infectee));
  }

  /** No intervention label is a valid username: each has a space after its letters. */
  lemma LabelIsNotUsername(choice: string)
    requires choice in InterventionLabels
    ensures !ValidateInput(choice)
  {
    ScanRun(choice, 0, 12, Letters);
    ScanRun(choice, 12, 12, Digits);
  }

  /** The intervention form records its label as the actor and the type. */
  lemma InterventionFormRecordsLabel(log: seq<Row>, choice: string, input: string, now: int, r: real)
    requires choice in InterventionLabels
    requires Decide(log, choice, Normalise(input), false, choice, now, r).Accepted?
    ensures var row := Decide(log, choice, Normalise(input), false, choice, now, r).row;
            row.actor == choice && row.itype == Some(choice) && row.itype != Some(InfectionSentinel)
            && !ValidateInput(row.actor)
  {
    LabelIsNotUsername(choice);
  }
}
