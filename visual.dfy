/**
 * The dashboard page: the contact network built from the interaction log,
 * the search for one user's neighbourhood in it, and the hourly cumulative
 * counts of infections and interventions.
 */
module Visual {
  import opened Data
  import opened State
  import UserInput

  // ---------------------------------------------------------------------
  // The contact network

  /** The `infected` attribute of a node: 0, 1 or 2. */
  datatype Status = NotInfected | Infected | Contacted

  /** The attribute a row gives to the nodes it labels. */
  function StatusOf(row: Row): Status {
    if row.infection && row.success then Infected
    else if row.infection then Contacted
    else NotInfected
  }

  predicate Mentions(row: Row, x: string) {
    row.actor == x || row.audience == x
  }

  /** An infection attempt aimed at x, successful or not. */
  predicate InfectionOn(row: Row, x: string) {
    row.infection && row.audience == x
  }

  ghost predicate Mentioned(rows: seq<Row>, x: string) {
    exists k :: 0 <= k < |rows| && Mentions(rows[k], x)
  }

  /** The first row that mentions x. */
  ghost function FirstMention(rows: seq<Row>, x: string): (i: nat)
    requires Mentioned(rows, x)
    ensures i < |rows| && Mentions(rows[i], x)
    ensures forall k :: 0 <= k < i ==> !Mentions(rows[k], x)
    decreases |rows|
  {
    var init := rows[..|rows| - 1];
    assert forall k :: 0 <= k < |init| ==> init[k] == rows[k];
    if Mentioned(init, x) then FirstMention(init, x) else |rows| - 1
  }

  /** The last infection attempt aimed at x, if any. */
  ghost function LastInfectionOn(rows: seq<Row>, x: string): (r: Option<nat>)
    ensures r.None? <==> forall k :: 0 <= k < |rows| ==> !InfectionOn(rows[k], x)
    ensures r.Some? ==> r.value < |rows| && InfectionOn(rows[r.value], x)
    ensures r.Some? ==> forall k :: r.value < k < |rows| ==> !InfectionOn(rows[k], x)
    decreases |rows|
  {
    if rows == [] then None
    else if InfectionOn(rows[|rows| - 1], x) then Some(|rows| - 1)
    else
      var init := rows[..|rows| - 1];
      assert forall k :: 0 <= k < |init| ==> init[k] == rows[k];
      LastInfectionOn(init, x)
  }

  /**
   * The attribute node x ends up with: the one given by the last infection
   * attempt aimed at x when there is one, otherwise the one given by the
   * first row that mentions x (a later row that merely mentions a known node
   * does not relabel it).
   */
  ghost function ExpectedStatus(rows: seq<Row>, x: string): Status
    requires Mentioned(rows, x)
  {
    match LastInfectionOn(rows, x)
    case Some(i) => StatusOf(rows[i])
    case None => StatusOf(rows[FirstMention(rows, x)])
  }

  /** One directed edge per row, from actor to audience (parallel edges merge). */
  ghost function EdgeSet(rows: seq<Row>): set<(string, string)> {
    set k | 0 <= k < |rows| :: (rows[k].actor, rows[k].audience)
  }

  /** A directed graph: its nodes with their attribute, and its edges. */
  datatype Graph = Graph(status: map<string, Status>, edges: set<(string, string)>)

  lemma MentionedAppend(p: seq<Row>, row: Row, x: string)
    ensures Mentioned(p + [row], x) <==> Mentioned(p, x) || Mentions(row, x)
  {
    var q := p + [row];
    if Mentioned(q, x) && !Mentions(row, x) {
      var k :| 0 <= k < |q| && Mentions(q[k], x);
      assert q[k] == p[k];
    }
    if Mentioned(p, x) {
      var k :| 0 <= k < |p| && Mentions(p[k], x);
      assert q[k] == p[k];
    }
    if Mentions(row, x) {
      assert q[|p|] == row;
    }
  }

  lemma EdgeSetAppend(p: seq<Row>, row: Row)
    ensures EdgeSet(p + [row]) == EdgeSet(p) + {(row.actor, row.audience)}
  {
    var q := p + [row];
    forall e | e in EdgeSet(q) ensures e in EdgeSet(p) + {(row.actor, row.audience)} {
      var k :| 0 <= k < |q| && e == (q[k].actor, q[k].audience);
      if k < |p| { assert q[k] == p[k]; }
    }
    forall e | e in EdgeSet(p) ensures e in EdgeSet(q) {
      var k :| 0 <= k < |p| && e == (p[k].actor, p[k].audience);
      assert q[k] == p[k];
    }
    assert q[|p|] == row;
  }

  /** What one more row does to the attribute of x. */
  lemma ExpectedStatusAppend(p: seq<Row>, row: Row, x: string)
    requires Mentioned(p + [row], x)
    ensures ExpectedStatus(p + [row], x) ==
            if InfectionOn(row, x) || !Mentioned(p, x) then StatusOf(row) else ExpectedStatus(p, x)
  {
    var q := p + [row];
    assert q[..|q| - 1] == p;
    if !InfectionOn(row, x) && !Mentioned(p, x) {
      var l := LastInfectionOn(p, x);
      if l.Some? {
        assert Mentions(p[l.value], x);
      }
    }
  }

  /** `status` labels exactly the users named in `p`, each with its ExpectedStatus. */
  ghost predicate LabelsOf(status: map<string, Status>, p: seq<Row>) {
    && (forall x :: x in status <==> Mentioned(p, x))
    && (forall x :: x in status ==> status[x] == ExpectedStatus(p, x))
  }

  /**
   * The node updates of one loop pass: a row labels the users it names for
   * the first time, and relabels the target of an infection attempt.
   */
  method AddNodes(status: map<string, Status>, row: Row) returns (after: map<string, Status>)
    ensures forall x :: x in after <==> x in status || Mentions(row, x)
    ensures forall x :: x in after ==>
              after[x] == if InfectionOn(row, x) || x !in status then StatusOf(row) else status[x]
  {
    after := status;
    if row.actor !in after {
      after := after[row.actor := StatusOf(row)];
    }
    if row.audience !in after || row.infection {
      after := after[row.audience := StatusOf(row)];
    }
  }

  /** One loop pass keeps the labels equal to ExpectedStatus. */
  lemma LabelsAfterRow(p: seq<Row>, row: Row, before: map<string, Status>, after: map<string, Status>)
    requires LabelsOf(before, p)
    requires forall x :: x in after <==> x in before || Mentions(row, x)
    requires forall x :: x in after ==>
               after[x] == if InfectionOn(row, x) || x !in before then StatusOf(row) else before[x]
    ensures LabelsOf(after, p + [row])
  {
    forall x ensures x in after <==> Mentioned(p + [row], x) {
      MentionedAppend(p, row, x);
    }
    forall x | x in after ensures after[x] == ExpectedStatus(p + [row], x) {
      MentionedAppend(p, row, x);
      ExpectedStatusAppend(p, row, x);
    }
  }

  /**
   * contact_network, the graph-building loop: every row adds its actor if
   * new, (re)labels its audience when new or when the row is an infection
   * attempt, and adds the edge actor -> audience.
   */
  method ContactNetwork(rows: seq<Row>) returns (g: Graph)
    ensures forall x :: x in g.status <==> Mentioned(rows, x)
    ensures forall x :: x in g.status ==> g.status[x] == ExpectedStatus(rows, x)
    ensures g.edges == EdgeSet(rows)
  {
    var status: map<string, Status> := map[];
    var edges: set<(string, string)> := {};
    var i := 0;
    while i < |rows|
      invariant 0 <= i <= |rows|
      invariant LabelsOf(status, rows[..i])
      invariant edges == EdgeSet(rows[..i])
    {
      var row := rows[i];
      var after := AddNodes(status, row);
      LabelsAfterRow(rows[..i], row, status, after);
      status := after;
      edges := edges + {(row.actor, row.audience)};
      assert rows[..i + 1] == rows[..i] + [row];
      EdgeSetAppend(rows[..i], row);
      i := i + 1;
    }
    assert rows[..i] == rows;
    g := Graph(status, edges);
  }

  /** The node colours of the full network. */
  datatype Colour = Gray | Red | Blue

  function NodeColour(s: Status): (c: Colour)
    ensures c == Red <==> s == Infected
    ensures c == Gray <==> s == Contacted
  {
    match s
    case Contacted => Gray
    case Infected => Red
    case NotInfected => Blue
  }

  /**
   * In a log where no row names a user after their successful infection, a
   * node is labelled infected exactly when the user was successfully
   * infected, or when the user never was the target of an infection attempt
   * and first appears as the infector of a successful infection (patient
   * zero of the seed log).
   */
  lemma InfectedNodes(rows: seq<Row>, x: string)
    requires UserInput.NothingAfterInfection(rows)
    requires Mentioned(rows, x)
    ensures ExpectedStatus(rows, x) == Infected <==>
            x in InfectedSet(rows) ||
            (LastInfectionOn(rows, x).None? && IsSuccessfulInfection(rows[FirstMention(rows, x)]))
  {
    if x in InfectedSet(rows) {
      var j :| 0 <= j < |rows| && IsSuccessfulInfection(rows[j]) && rows[j].audience == x;
      var i := LastInfectionOn(rows, x).value;
      assert InfectionOn(rows[j], x);
      assert j <= i;
      assert j == i;
    }
    match LastInfectionOn(rows, x)
    case Some(i) =>
      if StatusOf(rows[i]) == Infected {
        assert IsSuccessfulInfection(rows[i]) && rows[i].audience == x;
      }
    case None =>
  }

  /** The seed log's patient zero is drawn red although nobody infected them. */
  lemma PatientZeroIsRed(t: int)
    ensures Mentioned(UserInput.SeedLog(t), UserInput.ReservedUser)
    ensures ExpectedStatus(UserInput.SeedLog(t), UserInput.ReservedUser) == Infected
    ensures UserInput.ReservedUser !in InfectedSet(UserInput.SeedLog(t))
  {
    var log := UserInput.SeedLog(t);
    assert Mentions(log[0], UserInput.ReservedUser);
    assert !InfectionOn(log[0], UserInput.ReservedUser) && !InfectionOn(log[1], UserInput.ReservedUser);
    assert LastInfectionOn(log, UserInput.ReservedUser) == None;
  }

  // ---------------------------------------------------------------------
  // Searching for a user

  /** `G.successors(u)`: the users u has an edge to. */
  function Successors(g: Graph, u: string): (s: set<string>)
    ensures forall y :: y in s <==> (u, y) in g.edges
  {
    set e | e in g.edges && e.0 == u :: e.1
  }

  /** The successors of u's successors, other than u itself. */
  function SecondaryContacts(g: Graph, u: string): (s: set<string>)
    ensures forall y :: y in s <==> y != u && exists p :: (u, p) in g.edges && (p, y) in g.edges
  {
    set e | e in g.edges && e.0 in Successors(g, u) && e.1 != u :: e.1
  }

  /**
   * What the search shows: nothing without a name or a network, a warning
   * for an unknown name, otherwise the neighbourhood, the number of direct
   * contacts and the earliest successful infection made by the user.
   */
  datatype SearchResult =
    | NoSearch
    | NotFound
    | Found(nodes: set<string>, directCount: nat, firstInfection: Option<int>)

  predicate InfectedBy(row: Row, u: string) {
    row.actor == u && IsSuccessfulInfection(row)
  }

  function SearchUser(name: string, g: Option<Graph>, rows: seq<Row>): (r: SearchResult)
    ensures r.NoSearch? <==> name == "" || g.None?
    ensures r.NotFound? <==> name != "" && g.Some? && name !in g.value.status
    ensures r.Found? ==> forall y :: y in r.nodes <==>
              y == name || (name, y) in g.value.edges ||
              (y != name && exists p :: (name, p) in g.value.edges && (p, y) in g.value.edges)
    ensures r.Found? ==> r.directCount == |Successors(g.value, name)|
    ensures r.Found? ==> (r.firstInfection.None? <==> forall k :: 0 <= k < |rows| ==> !InfectedBy(rows[k], name))
    ensures r.Found? && r.firstInfection.Some? ==>
              (exists k :: 0 <= k < |rows| && InfectedBy(rows[k], name) && rows[k].timestamp == r.firstInfection.value) &&
              (forall k :: 0 <= k < |rows| && InfectedBy(rows[k], name) ==> r.firstInfection.value <= rows[k].timestamp)
  {
    if name == "" || g.None? then NoSearch
    else if name !in g.value.status then NotFound
    else
      var direct := Successors(g.value, name);
      Neighbourhood(g.value, name);
      Found({name} + direct + SecondaryContacts(g.value, name), |direct|,
            MinTimestamp(rows, (row: Row) => InfectedBy(row, name)))
  }

  /** The search's subgraph nodes: u, its successors, and theirs other than u. */
  lemma Neighbourhood(g: Graph, u: string)
    ensures forall y :: y in {u} + Successors(g, u) + SecondaryContacts(g, u) <==>
              y == u || (u, y) in g.edges || (y != u && exists p :: (u, p) in g.edges && (p, y) in g.edges)
  {
    var direct := Successors(g, u);
    assert forall y :: (u, y) in g.edges ==> y in direct;
    assert forall p, y :: (u, p) in g.edges && (p, y) in g.edges && y != u ==>
             p in direct && y in SecondaryContacts(g, u);
  }

  /**
   * On the network built from the log, the users counted as "directly
   * infected" are all the audiences of the user's rows, successful or not.
   */
  lemma SuccessorsFromLog(rows: seq<Row>, g: Graph, u: string)
    requires g.edges == EdgeSet(rows)
    ensures Successors(g, u) == set k | 0 <= k < |rows| && rows[k].actor == u :: rows[k].audience
  {
    var s := set k | 0 <= k < |rows| && rows[k].actor == u :: rows[k].audience;
    forall y | y in Successors(g, u) ensures y in s {
      var k :| 0 <= k < |rows| && (u, y) == (rows[k].actor, rows[k].audience);
    }
    forall y | y in s ensures y in Successors(g, u) {
      var k :| 0 <= k < |rows| && rows[k].actor == u && rows[k].audience == y;
      assert (rows[k].actor, rows[k].audience) in g.edges;
    }
  }

  /** One failed attempt: the search reports one person directly infected and no infection. */
  lemma FailedAttemptCountsAsDirect(g: Graph)
    requires g.edges == EdgeSet([Row("abc1", "def2", true, false, None, Some("-1"), 0)])
    requires "abc1" in g.status
    ensures SearchUser("abc1", Some(g), [Row("abc1", "def2", true, false, None, Some("-1"), 0)]) ==
            Found({"abc1", "def2"}, 1, None)
  {
    var row := Row("abc1", "def2", true, false, None, Some("-1"), 0);
    assert g.edges == {("abc1", "def2")} by {
      assert [row][0] == row;
    }
    assert "abc1" != "def2" by {
      assert "abc1"[0] != "def2"[0];
    }
    assert Successors(g, "abc1") == {"def2"};
    assert SecondaryContacts(g, "abc1") == {};
    assert !InfectedBy(row, "abc1");
  }

  // ---------------------------------------------------------------------
  // Hourly cumulative counts

  /** `dt.floor('H')`, on whole seconds: the hour that contains t. */
  function HourOf(t: int): (h: int)
    ensures h * 3600 <= t < h * 3600 + 3600
  {
    t / 3600
  }

  /** One row of `groupby('hour').size()`. */
  datatype HourCount = HourCount(hour: int, count: nat)

  ghost predicate StrictlyIncreasing(bs: seq<HourCount>) {
    forall j, k :: 0 <= j < k < |bs| ==> bs[j].hour < bs[k].hour
  }

  ghost predicate Positive(bs: seq<HourCount>) {
    forall k :: 0 <= k < |bs| ==> bs[k].count > 0
  }

  /** The count recorded for hour h (summed, in case h recurs). */
  function CountAt(bs: seq<HourCount>, h: int): nat {
    if bs == [] then 0 else (if bs[0].hour == h then bs[0].count else 0) + CountAt(bs[1..], h)
  }

  function Total(bs: seq<HourCount>): nat {
    if bs == [] then 0 else bs[0].count + Total(bs[1..])
  }

  /** Counts one more event in hour h, keeping the hours sorted. */
  function Insert(bs: seq<HourCount>, h: int): seq<HourCount> {
    if bs == [] then [HourCount(h, 1)]
    else if bs[0].hour == h then [HourCount(h, bs[0].count + 1)] + bs[1..]
    else if h < bs[0].hour then [HourCount(h, 1)] + bs
    else [bs[0]] + Insert(bs[1..], h)
  }

  /** Counting one event adds one to its hour's count and to the total. */
  lemma {:induction false} InsertCounts(bs: seq<HourCount>, h: int)
    ensures Total(Insert(bs, h)) == Total(bs) + 1
    ensures forall h' :: CountAt(Insert(bs, h), h') == CountAt(bs, h') + (if h' == h then 1 else 0)
  {
    var r := Insert(bs, h);
    if bs == [] {
    } else if bs[0].hour == h {
      assert r[1..] == bs[1..];
    } else if h < bs[0].hour {
      assert r[1..] == bs;
    } else {
      InsertCounts(bs[1..], h);
      assert r[1..] == Insert(bs[1..], h);
    }
  }

  /** Some bar of `bs` is for hour x. */
  ghost predicate HasHour(bs: seq<HourCount>, x: int) {
    exists j :: 0 <= j < |bs| && bs[j].hour == x
  }

  /** Insert creates no bar but hour h's. */
  lemma {:induction false} InsertHours(bs: seq<HourCount>, h: int)
    ensures forall k :: 0 <= k < |Insert(bs, h)| ==> Insert(bs, h)[k].hour == h || HasHour(bs, Insert(bs, h)[k].hour)
  {
    var r := Insert(bs, h);
    if bs == [] {
    } else if bs[0].hour == h {
      forall k | 0 <= k < |r| ensures r[k].hour == h || HasHour(bs, r[k].hour) {
        if k > 0 { assert r[k] == bs[k]; }
      }
    } else if h < bs[0].hour {
      forall k | 0 <= k < |r| ensures r[k].hour == h || HasHour(bs, r[k].hour) {
        if k > 0 { assert r[k] == bs[k - 1]; }
      }
    } else {
      var rest := Insert(bs[1..], h);
      InsertHours(bs[1..], h);
      assert r == [bs[0]] + rest;
      forall k | 0 <= k < |r| ensures r[k].hour == h || HasHour(bs, r[k].hour) {
        if k == 0 {
          assert bs[0].hour == r[0].hour;
        } else if rest[k - 1].hour != h {
          var j :| 0 <= j < |bs[1..]| && bs[1..][j].hour == rest[k - 1].hour;
          assert bs[j + 1].hour == r[k].hour;
        }
      }
    }
  }

  /** A positive bar before every bar of sorted, positive counts keeps them so. */
  lemma ConsKeepsOrder(c: HourCount, rest: seq<HourCount>)
    requires StrictlyIncreasing(rest) && Positive(rest) && c.count > 0
    requires forall k :: 0 <= k < |rest| ==> c.hour < rest[k].hour
    ensures StrictlyIncreasing([c] + rest) && Positive([c] + rest)
  {
    var r := [c] + rest;
    forall j, k | 0 <= j < k < |r| ensures r[j].hour < r[k].hour {
      assert r[k] == rest[k - 1];
      if j > 0 { assert r[j] == rest[j - 1]; }
    }
    forall k | 0 < k < |r| ensures r[k].count > 0 {
      assert r[k] == rest[k - 1];
    }
  }

  /** Insert keeps the hours strictly increasing and every count positive. */
  lemma {:induction false} InsertKeepsOrder(bs: seq<HourCount>, h: int)
    requires StrictlyIncreasing(bs) && Positive(bs)
    ensures StrictlyIncreasing(Insert(bs, h)) && Positive(Insert(bs, h))
  {
    if bs == [] {
    } else if bs[0].hour == h {
      assert forall k :: 0 <= k < |bs[1..]| ==> bs[1..][k] == bs[k + 1];
      ConsKeepsOrder(HourCount(h, bs[0].count + 1), bs[1..]);
    } else if h < bs[0].hour {
      ConsKeepsOrder(HourCount(h, 1), bs);
    } else {
      var rest := Insert(bs[1..], h);
      InsertKeepsOrder(bs[1..], h);
      InsertHours(bs[1..], h);
      forall k | 0 <= k < |rest| ensures bs[0].hour < rest[k].hour {
        if rest[k].hour != h {
          var j :| 0 <= j < |bs[1..]| && bs[1..][j].hour == rest[k].hour;
          assert bs[j + 1].hour == rest[k].hour;
        }
      }
      ConsKeepsOrder(bs[0], rest);
    }
  }

  /** The rows whose timestamp falls in hour h. */
  function InHour(rows: seq<Row>, h: int): seq<Row> {
    Select(rows, (row: Row) => HourOf(row.timestamp) == h)
  }

  /** `groupby('hour').size()` followed by `sort_values('hour')`. */
  function HourlyCounts(rows: seq<Row>): (r: seq<HourCount>)
    ensures StrictlyIncreasing(r) && Positive(r)
    ensures Total(r) == |rows|
    ensures forall h :: CountAt(r, h) == |InHour(rows, h)|
  {
    if rows == [] then []
    else
      var init := rows[..|rows| - 1];
      var last := rows[|rows| - 1];
      assert rows == init + [last];
      InsertKeepsOrder(HourlyCounts(init), HourOf(last.timestamp));
      InsertCounts(HourlyCounts(init), HourOf(last.timestamp));
      Insert(HourlyCounts(init), HourOf(last.timestamp))
  }

  lemma {:induction false} CountAtIndex(bs: seq<HourCount>, k: nat)
    requires StrictlyIncreasing(bs) && k < |bs|
    ensures CountAt(bs, bs[k].hour) == bs[k].count
  {
    if k == 0 {
      CountAtAbsent(bs[1..], bs[0].hour);
    } else {
      CountAtIndex(bs[1..], k - 1);
    }
  }

  lemma {:induction false} CountAtAbsent(bs: seq<HourCount>, h: int)
    requires StrictlyIncreasing(bs)
    requires forall k :: 0 <= k < |bs| ==> bs[k].hour > h
    ensures CountAt(bs, h) == 0
  {
    if bs != [] {
      CountAtAbsent(bs[1..], h);
    }
  }

  /**
   * Each bar of an hourly count is the number of rows in that hour, and
   * every hour holding a row has a bar.
   */
  lemma HourlyCountsMeaning(rows: seq<Row>)
    ensures forall k :: 0 <= k < |HourlyCounts(rows)| ==>
              HourlyCounts(rows)[k].count == |InHour(rows, HourlyCounts(rows)[k].hour)|
    ensures forall row :: row in rows ==>
              exists k :: 0 <= k < |HourlyCounts(rows)| && HourlyCounts(rows)[k].hour == HourOf(row.timestamp)
  {
    var r := HourlyCounts(rows);
    forall k | 0 <= k < |r| ensures r[k].count == |InHour(rows, r[k].hour)| {
      CountAtIndex(r, k);
    }
    forall row | row in rows ensures exists k :: 0 <= k < |r| && r[k].hour == HourOf(row.timestamp) {
      var h := HourOf(row.timestamp);
      assert row in InHour(rows, h);
      CountAtNonZero(r, h);
    }
  }

  lemma {:induction false} CountAtNonZero(bs: seq<HourCount>, h: int)
    requires CountAt(bs, h) > 0
    ensures exists k :: 0 <= k < |bs| && bs[k].hour == h
  {
    if bs[0].hour != h {
      CountAtNonZero(bs[1..], h);
      var k :| 0 <= k < |bs[1..]| && bs[1..][k].hour == h;
      assert bs[k + 1].hour == h;
    }
  }

  /** One bar or marker of a cumulative chart. */
  datatype Point = Point(hour: int, cumulative: nat)

  /** `cumsum()` of the counts, starting from `before`. */
  function Cumulate(bs: seq<HourCount>, before: nat): (r: seq<Point>)
    ensures |r| == |bs|
    ensures forall k :: 0 <= k < |r| ==> r[k].hour == bs[k].hour
    ensures forall k :: 0 <= k < |r| ==> before <= r[k].cumulative
    ensures forall j, k :: 0 <= j <= k < |r| ==> r[j].cumulative <= r[k].cumulative
    ensures |r| > 0 ==> r[|r| - 1].cumulative == before + Total(bs)
    ensures forall k :: 0 <= k < |r| ==> r[k].cumulative == before + Total(bs[..k + 1])
  {
    if bs == [] then []
    else
      TotalPrefixes(bs);
      [Point(bs[0].hour, before + bs[0].count)] + Cumulate(bs[1..], before + bs[0].count)
  }

  /** The total of a non-empty prefix is the first count plus the total of the rest of the prefix. */
  lemma TotalPrefixes(bs: seq<HourCount>)
    requires bs != []
    ensures forall k :: 0 <= k < |bs| ==> Total(bs[..k + 1]) == bs[0].count + Total(bs[1..][..k])
  {
    forall k | 0 <= k < |bs| ensures Total(bs[..k + 1]) == bs[0].count + Total(bs[1..][..k]) {
      assert bs[..k + 1][1..] == bs[1..][..k];
    }
  }

  /** The chart of cumulative successful infections, one bar per hour. */
  function InfectionSeries(rows: seq<Row>): (r: seq<Point>)
    ensures r == [] <==> Select(rows, IsSuccessfulInfection) == []
    ensures r != [] ==> r[|r| - 1].cumulative == |Select(rows, IsSuccessfulInfection)|
  {
    var bs := HourlyCounts(Select(rows, IsSuccessfulInfection));
    assert bs == [] ==> Total(bs) == 0;
    Cumulate(bs, 0)
  }

  /** The intervention types of the intervention rows, missing ones skipped, in log order. */
  function TypesOf(rows: seq<Row>): (ts: seq<string>)
    ensures forall t :: t in ts <==> exists k :: 0 <= k < |rows| && !rows[k].infection && rows[k].itype == Some(t)
  {
    if rows == [] then []
    else
      var init := rows[..|rows| - 1];
      var last := rows[|rows| - 1];
      assert forall k :: 0 <= k < |init| ==> init[k] == rows[k];
      if !last.infection && last.itype.Some? then TypesOf(init) + [last.itype.value] else TypesOf(init)
  }

  predicate IsInterventionOfType(row: Row, t: string) {
    !row.infection && row.itype == Some(t)
  }

  /** The interventions column: one trace per intervention type, or the reason there is none. */
  datatype InterventionChart =
    | NoInterventions
    | NoValidTypes
    | Traces(traces: seq<(string, seq<Point>)>)

  /** The intervention rows of type t. */
  function OfType(rows: seq<Row>, t: string): seq<Row> {
    Select(rows, (row: Row) => IsInterventionOfType(row, t))
  }

  function InterventionCharts(rows: seq<Row>): (c: InterventionChart)
    ensures c.NoInterventions? <==> forall k :: 0 <= k < |rows| ==> rows[k].infection
    ensures c.NoValidTypes? <==>
              (exists k :: 0 <= k < |rows| && !rows[k].infection) &&
              (forall k :: 0 <= k < |rows| && !rows[k].infection ==> rows[k].itype.None?)
  {
    var interventions := Select(rows, (row: Row) => !row.infection);
    assert interventions == [] <==> forall k :: 0 <= k < |rows| ==> rows[k].infection by {
      if interventions != [] {
        assert interventions[0] in rows;
      }
      if exists k :: 0 <= k < |rows| && !rows[k].infection {
        var k :| 0 <= k < |rows| && !rows[k].infection;
        assert rows[k] in interventions;
      }
    }
    assert Unique(TypesOf(rows)) == [] <==>
             forall k :: 0 <= k < |rows| && !rows[k].infection ==> rows[k].itype.None? by {
      if Unique(TypesOf(rows)) != [] {
        assert Unique(TypesOf(rows))[0] in TypesOf(rows);
      }
      if exists k :: 0 <= k < |rows| && !rows[k].infection && rows[k].itype.Some? {
        var k :| 0 <= k < |rows| && !rows[k].infection && rows[k].itype.Some?;
        assert rows[k].itype.value in TypesOf(rows);
      }
    }
    if interventions == [] then NoInterventions
    else
      var types := Unique(TypesOf(rows));
      if types == [] then NoValidTypes
      else Traces(seq(|types|, k requires 0 <= k < |types| => TraceOf(rows, types[k])))
  }

  /** The trace of one intervention type: its name and its cumulative hourly counts. */
  function TraceOf(rows: seq<Row>, t: string): (tr: (string, seq<Point>))
    ensures tr.0 == t
    ensures tr.1 == [] <==> !Occurs(rows, t)
    ensures tr.1 != [] ==> tr.1[|tr.1| - 1].cumulative == |OfType(rows, t)|
  {
    var bs := HourlyCounts(OfType(rows, t));
    assert bs != [] <==> Occurs(rows, t) by {
      if Occurs(rows, t) {
        var i :| 0 <= i < |rows| && IsInterventionOfType(rows[i], t);
        assert rows[i] in OfType(rows, t);
        assert Total(bs) > 0;
      }
      if bs != [] {
        assert OfType(rows, t) != [];
        assert OfType(rows, t)[0] in rows;
      }
    }
    (t, Cumulate(bs, 0))
  }

  /** The two charts; NoData when the log is empty. */
  datatype Plots = NoData | Plots(infections: seq<Point>, interventions: InterventionChart)

  function CumulativePlots(rows: seq<Row>): (p: Plots)
    ensures p.NoData? <==> rows == []
  {
    if rows == [] then NoData else Plots(InfectionSeries(rows), InterventionCharts(rows))
  }

  /**
   * The infection chart is empty exactly when there is no successful
   * infection; otherwise its bars rise with the hours and the last one is
   * the number of successful infections.
   */
  lemma InfectionChartMeaning(rows: seq<Row>)
    ensures InfectionSeries(rows) == [] <==> forall k :: 0 <= k < |rows| ==> !IsSuccessfulInfection(rows[k])
    ensures forall j, k :: 0 <= j < k < |InfectionSeries(rows)| ==>
              InfectionSeries(rows)[j].hour < InfectionSeries(rows)[k].hour
    ensures InfectionSeries(rows) != [] ==>
              InfectionSeries(rows)[|InfectionSeries(rows)| - 1].cumulative == |Select(rows, IsSuccessfulInfection)|
  {
    var sel := Select(rows, IsSuccessfulInfection);
    var bs := HourlyCounts(sel);
    if exists k :: 0 <= k < |rows| && IsSuccessfulInfection(rows[k]) {
      var k :| 0 <= k < |rows| && IsSuccessfulInfection(rows[k]);
      assert rows[k] in sel;
    }
    if sel != [] {
      assert sel[0] in rows;
    }
    if bs == [] {
      assert Total(bs) == 0;
    }
  }

  /**
   * In a log where no row names a user after their successful infection,
   * the last bar of the infection chart is the number of infected users.
   */
  lemma {:induction false} InfectionCountIsInfectedUsers(rows: seq<Row>)
    requires UserInput.NothingAfterInfection(rows)
    ensures |Select(rows, IsSuccessfulInfection)| == |InfectedSet(rows)|
    decreases |rows|
  {
    if rows == [] {
      assert InfectedSet(rows) == {};
    } else {
      var init := rows[..|rows| - 1];
      var last := rows[|rows| - 1];
      assert rows == init + [last];
      assert forall k :: 0 <= k < |init| ==> init[k] == rows[k];
      InfectionCountIsInfectedUsers(init);
      InfectedSetAppend(init, last);
      if IsSuccessfulInfection(last) {
        forall i | 0 <= i < |init| && IsSuccessfulInfection(init[i]) ensures init[i].audience != last.audience {
          assert rows[i].audience != rows[|rows| - 1].audience;
        }
        assert last.audience !in InfectedSet(init);
      }
    }
  }

  /** The traces are named by `Unique(TypesOf(rows))`, in that order. */
  lemma TraceNames(rows: seq<Row>)
    requires InterventionCharts(rows).Traces?
    ensures var tr := InterventionCharts(rows).traces;
            var types := Unique(TypesOf(rows));
            |tr| == |types| && forall k :: 0 <= k < |tr| ==> tr[k].0 == types[k]
  {
  }

  /** Each trace is the cumulative hourly count of its type. */
  lemma TraceSeries(rows: seq<Row>)
    requires InterventionCharts(rows).Traces?
    ensures var tr := InterventionCharts(rows).traces;
            forall k :: 0 <= k < |tr| ==> tr[k] == TraceOf(rows, tr[k].0)
  {
  }

  ghost predicate HasTrace(tr: seq<(string, seq<Point>)>, t: string) {
    exists k :: 0 <= k < |tr| && tr[k].0 == t
  }

  ghost predicate Occurs(rows: seq<Row>, t: string) {
    exists i :: 0 <= i < |rows| && IsInterventionOfType(rows[i], t)
  }

  /**
   * The intervention chart has one trace per intervention type that occurs,
   * each type once.
   */
  lemma InterventionTraceNames(rows: seq<Row>)
    requires InterventionCharts(rows).Traces?
    ensures var tr := InterventionCharts(rows).traces;
            (forall j, k :: 0 <= j < k < |tr| ==> tr[j].0 != tr[k].0) &&
            (forall t :: HasTrace(tr, t) <==> Occurs(rows, t))
  {
    var types := Unique(TypesOf(rows));
    var tr := InterventionCharts(rows).traces;
    TraceNames(rows);
    forall t | Occurs(rows, t) ensures HasTrace(tr, t) {
      assert t in types;
      var k :| 0 <= k < |types| && types[k] == t;
      assert tr[k].0 == t;
    }
    forall t | HasTrace(tr, t) ensures Occurs(rows, t) {
      var k :| 0 <= k < |tr| && tr[k].0 == t;
      assert types[k] in TypesOf(rows);
    }
  }

  /** Every trace is non-empty and ends at the number of interventions of its type. */
  lemma InterventionTraceTotals(rows: seq<Row>)
    requires InterventionCharts(rows).Traces?
    ensures var tr := InterventionCharts(rows).traces;
            forall k :: 0 <= k < |tr| ==>
              tr[k].1 != [] && tr[k].1[|tr[k].1| - 1].cumulative == |OfType(rows, tr[k].0)|
  {
    var types := Unique(TypesOf(rows));
    var tr := InterventionCharts(rows).traces;
    TraceNames(rows);
    TraceSeries(rows);
    forall k | 0 <= k < |tr| ensures Occurs(rows, tr[k].0) {
      assert types[k] in TypesOf(rows);
    }
  }

  // ---------------------------------------------------------------------
  // The page

  /** refresh_data_from_s3: reload the cached log; when the read fails the old cache stays. */
  method RefreshDataFromS3(session: Session, bucket: Bucket, readOk: bool)
    modifies session`dataset
    ensures session.dataset == if readOk then Some(bucket.interactions) else old(session.dataset)
  {
    if readOk {
      session.dataset := Some(bucket.interactions);
    }
  }

  /** `st.session_state.get("dataset", pd.DataFrame())`. */
  function CachedRows(d: Option<seq<Row>>): seq<Row> {
    if d.Some? then d.value else []
  }

  ghost predicate IsNetworkOf(g: Graph, rows: seq<Row>) {
    (forall x :: x in g.status <==> Mentioned(rows, x)) &&
    (forall x :: x in g.status ==> g.status[x] == ExpectedStatus(rows, x)) &&
    g.edges == EdgeSet(rows)
  }

  /**
   * What the page shows: nothing past the login gate, the charts alone to an
   * interventionalist, and the charts with the contact network to everyone
   * else.  The network is None where drawing it fails: with no cached log
   * (the lookup raises) or an empty one (the drawing is never set up).
   */
  datatype Dashboard =
    | Blocked
    | InterventionView(plots: Plots)
    | InfectionView(plots: Plots, network: Option<Graph>)

  method Show(session: Session, bucket: Bucket, readOk: bool) returns (d: Dashboard)
    modifies session`dataset
    ensures !session.loggedIn ==> d == Blocked && session.dataset == old(session.dataset)
    ensures session.loggedIn ==> session.dataset == if readOk then Some(bucket.interactions) else old(session.dataset)
    ensures session.loggedIn && session.interventionalist ==>
              d == InterventionView(CumulativePlots(CachedRows(session.dataset)))
    ensures session.loggedIn && !session.interventionalist ==>
              d.InfectionView? && d.plots == CumulativePlots(CachedRows(session.dataset))
    ensures d.InfectionView? ==> (d.network.Some? <==> session.dataset.Some? && session.dataset.value != [])
    ensures d.InfectionView? && d.network.Some? ==> IsNetworkOf(d.network.value, session.dataset.value)
  {
    if !session.loggedIn {
      return Blocked;
    }
    RefreshDataFromS3(session, bucket, readOk);
    var plots := CumulativePlots(CachedRows(session.dataset));
    if session.interventionalist {
      d := InterventionView(plots);
    } else if session.dataset.Some? && session.dataset.value != [] {
      var g := ContactNetwork(session.dataset.value);
      d := InfectionView(plots, Some(g));
    } else {
      d := InfectionView(plots, None);
    }
  }
}
