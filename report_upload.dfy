/**
 * The report page: interventionalists upload PDF reports, each upload is
 * recorded in the submission log, and the page shows the user's most recent
 * report and the list of their submissions.
 */
module ReportUpload {
  import opened Data
  import opened State

  const ReportsPrefix: string := "reports/"
  const SubmissionLogKey: string := "reports/report_submissions.csv"

  // ---------------------------------------------------------------------
  // Fixed-width decimal fields

  function Pow10(w: nat): (p: nat)
    ensures p >= 1
  {
    if w == 0 then 1 else 10 * Pow10(w - 1)
  }

  function DigitChar(d: nat): (c: char)
    requires d < 10
    ensures '0' <= c <= '9'
  {
    ('0' as int + d) as char
  }

  function DigitValue(c: char): int {
    c as int - '0' as int
  }

  /** `n` in decimal with exactly `w` digits, zero-padded on the left (`%02d`, `%04d`). */
  function Pad(n: nat, w: nat): (s: string)
    requires n < Pow10(w)
    ensures |s| == w
    ensures forall k :: 0 <= k < |s| ==> '0' <= s[k] <= '9'
  {
    if w == 0 then "" else Pad(n / 10, w - 1) + [DigitChar(n % 10)]
  }

  /** The value of a string of decimal digits. */
  function ParseDigits(s: string): int {
    if s == [] then 0 else 10 * ParseDigits(s[..|s| - 1]) + DigitValue(s[|s| - 1])
  }

  lemma {:induction false} ParsePad(n: nat, w: nat)
    requires n < Pow10(w)
    ensures ParseDigits(Pad(n, w)) == n
  {
    if w > 0 {
      var s := Pad(n, w);
      assert s[..|s| - 1] == Pad(n / 10, w - 1);
      ParsePad(n / 10, w - 1);
    }
  }

  lemma PadInjective(n: nat, m: nat, w: nat)
    requires n < Pow10(w) && m < Pow10(w)
    ensures Pad(n, w) == Pad(m, w) <==> n == m
  {
    ParsePad(n, w);
    ParsePad(m, w);
  }

  // ---------------------------------------------------------------------
  // String order

  /** Python's `<` on strings: lexicographic by code point, a proper prefix first. */
  predicate LexLess(a: string, b: string) {
    |b| > 0 && (|a| == 0 || a[0] < b[0] || (a[0] == b[0] && LexLess(a[1..], b[1..])))
  }

  /** `a` and `b` agree on their first k characters, and there `a` ends or has the smaller character. */
  ghost predicate DivergesAt(a: string, b: string, k: nat) {
    k <= |a| && k < |b| && a[..k] == b[..k] && (k == |a| || a[k] < b[k])
  }

  /**
   * LexLess is Python's string order: `a < b` exactly when, at the first
   * position where they differ, `a` has ended or has the smaller code point.
   */
  lemma {:induction false} LexLessMeaning(a: string, b: string)
    ensures LexLess(a, b) <==> exists k: nat :: DivergesAt(a, b, k)
    decreases |a|
  {
    if |b| == 0 {
    } else if |a| == 0 || a[0] < b[0] {
      assert DivergesAt(a, b, 0);
    } else if a[0] > b[0] {
      forall k: nat | 0 < k <= |a| && k <= |b| ensures a[..k] != b[..k] {
        assert a[..k][0] != b[..k][0];
      }
    } else {
      LexLessMeaning(a[1..], b[1..]);
      if exists k: nat :: DivergesAt(a[1..], b[1..], k) {
        var k: nat :| DivergesAt(a[1..], b[1..], k);
        assert a[..k + 1] == [a[0]] + a[1..][..k];
        assert b[..k + 1] == [b[0]] + b[1..][..k];
        assert DivergesAt(a, b, k + 1);
      }
      if exists k: nat :: DivergesAt(a, b, k) {
        var k: nat :| DivergesAt(a, b, k);
        assert k > 0;
        assert a[1..][..k - 1] == a[..k][1..];
        assert b[1..][..k - 1] == b[..k][1..];
        assert DivergesAt(a[1..], b[1..], k - 1);
      }
    }
  }

  lemma {:induction false} LexIrreflexive(a: string)
    ensures !LexLess(a, a)
  {
    if |a| > 0 {
      LexIrreflexive(a[1..]);
    }
  }

  lemma {:induction false} LexTotal(a: string, b: string)
    ensures a == b || LexLess(a, b) || LexLess(b, a)
  {
    if |a| > 0 && |b| > 0 && a[0] == b[0] {
      LexTotal(a[1..], b[1..]);
      if a[1..] == b[1..] {
        assert a == [a[0]] + a[1..] && b == [b[0]] + b[1..];
      }
    }
  }

  lemma {:induction false} LexTransitive(a: string, b: string, c: string)
    requires LexLess(a, b) && LexLess(b, c)
    ensures LexLess(a, c)
  {
    if |a| > 0 && a[0] == b[0] && b[0] == c[0] {
      LexTransitive(a[1..], b[1..], c[1..]);
    }
  }

  lemma LexAsymmetric(a: string, b: string)
    requires LexLess(a, b)
    ensures !LexLess(b, a)
  {
    if LexLess(b, a) {
      LexTransitive(a, b, a);
      LexIrreflexive(a);
    }
  }

  /** Comparing two strings that start with fields of equal length compares those first. */
  lemma {:induction false} LexAppend(a1: string, a2: string, b1: string, b2: string)
    requires |a1| == |b1|
    ensures LexLess(a1 + a2, b1 + b2) <==> LexLess(a1, b1) || (a1 == b1 && LexLess(a2, b2))
  {
    if a1 == [] {
      assert a1 + a2 == a2 && b1 + b2 == b2;
      LexIrreflexive(a1);
    } else {
      assert (a1 + a2)[0] == a1[0] && (b1 + b2)[0] == b1[0];
      assert (a1 + a2)[1..] == a1[1..] + a2 && (b1 + b2)[1..] == b1[1..] + b2;
      LexAppend(a1[1..], a2, b1[1..], b2);
      if a1[0] == b1[0] {
        assert a1 == b1 <==> a1[1..] == b1[1..] by {
          assert a1 == [a1[0]] + a1[1..] && b1 == [b1[0]] + b1[1..];
        }
      }
    }
  }

  /** A common prefix does not change the comparison. */
  lemma LexCommonPrefix(sep: string, a: string, b: string)
    ensures LexLess(sep + a, sep + b) <==> LexLess(a, b)
  {
    LexAppend(sep, a, sep, b);
    LexIrreflexive(sep);
  }

  /** Zero-padded fields of one width compare like the numbers. */
  lemma {:induction false} PadOrder(n: nat, m: nat, w: nat)
    requires n < Pow10(w) && m < Pow10(w)
    ensures LexLess(Pad(n, w), Pad(m, w)) <==> n < m
  {
    if w > 0 {
      LexAppend(Pad(n / 10, w - 1), [DigitChar(n % 10)], Pad(m / 10, w - 1), [DigitChar(m % 10)]);
      PadOrder(n / 10, m / 10, w - 1);
      PadInjective(n / 10, m / 10, w - 1);
      DigitOrder(n % 10, m % 10);
      DecimalOrder(n, m);
    }
  }

  /** One-digit strings compare as their digits do. */
  lemma DigitOrder(a: nat, b: nat)
    requires a < 10 && b < 10
    ensures LexLess([DigitChar(a)], [DigitChar(b)]) <==> a < b
  {
    assert [DigitChar(a)][1..] == [] && [DigitChar(b)][1..] == [];
  }

  /** Numbers compare by their leading digits first, then by their last digit. */
  lemma DecimalOrder(n: nat, m: nat)
    ensures n < m <==> n / 10 < m / 10 || (n / 10 == m / 10 && n % 10 < m % 10)
  {
  }

  // ---------------------------------------------------------------------
  // Timestamps and file names

  /** A wall-clock reading, as `datetime.now()` returns it (whole seconds). */
  datatype DateTime = DateTime(year: nat, month: nat, day: nat, hour: nat, minute: nat, second: nat)

  /** The ranges of the fields; years are taken to have four digits. */
  predicate ValidDateTime(d: DateTime) {
    1000 <= d.year <= 9999 && 1 <= d.month <= 12 && 1 <= d.day <= 31 &&
    d.hour < 24 && d.minute < 60 && d.second < 60
  }

  /** Chronological order. */
  predicate Before(d1: DateTime, d2: DateTime) {
    d1.year < d2.year || (d1.year == d2.year &&
    (d1.month < d2.month || (d1.month == d2.month &&
    (d1.day < d2.day || (d1.day == d2.day &&
    (d1.hour < d2.hour || (d1.hour == d2.hour &&
    (d1.minute < d2.minute || (d1.minute == d2.minute && d1.second < d2.second)))))))))
  }

  /** `strftime("%Y-%m-%d %H:%M:%S")`, the timestamp written to the submission log. */
  function LogStamp(d: DateTime): (s: string)
    requires ValidDateTime(d)
    ensures |s| == 19
  {
    Pad(d.year, 4) + ("-" + (Pad(d.month, 2) + ("-" + (Pad(d.day, 2) + (" " +
    (Pad(d.hour, 2) + (":" + (Pad(d.minute, 2) + (":" + Pad(d.second, 2))))))))))
  }

  /** `strftime("%Y%m%d_%H%M%S")`, the timestamp in a report's file name. */
  function CompactStamp(d: DateTime): (s: string)
    requires ValidDateTime(d)
    ensures |s| == 15
  {
    Pad(d.year, 4) + (Pad(d.month, 2) + (Pad(d.day, 2) + ("_" +
    (Pad(d.hour, 2) + (Pad(d.minute, 2) + Pad(d.second, 2))))))
  }

  /**
   * Comparing field `a` then the rest equals comparing field `b` then the
   * rest, when the fields are zero-padded numbers of one width.
   */
  lemma FieldThen(n: nat, m: nat, w: nat, a: string, b: string)
    requires n < Pow10(w) && m < Pow10(w)
    ensures LexLess(Pad(n, w) + a, Pad(m, w) + b) <==> n < m || (n == m && LexLess(a, b))
  {
    LexAppend(Pad(n, w), a, Pad(m, w), b);
    PadOrder(n, m, w);
    PadInjective(n, m, w);
  }

  /**
   * The submission log's timestamps sort as strings exactly as the readings
   * sort in time, so the string sort finds the latest submission.
   */
  lemma LogStampOrder(d1: DateTime, d2: DateTime)
    requires ValidDateTime(d1) && ValidDateTime(d2)
    ensures LexLess(LogStamp(d1), LogStamp(d2)) <==> Before(d1, d2)
  {
    var s1 := Pad(d1.second, 2);
    var s2 := Pad(d2.second, 2);
    PadOrder(d1.second, d2.second, 2);
    var mi1 := Pad(d1.minute, 2) + (":" + s1);
    var mi2 := Pad(d2.minute, 2) + (":" + s2);
    LexCommonPrefix(":", s1, s2);
    FieldThen(d1.minute, d2.minute, 2, ":" + s1, ":" + s2);
    var h1 := Pad(d1.hour, 2) + (":" + mi1);
    var h2 := Pad(d2.hour, 2) + (":" + mi2);
    LexCommonPrefix(":", mi1, mi2);
    FieldThen(d1.hour, d2.hour, 2, ":" + mi1, ":" + mi2);
    var dd1 := Pad(d1.day, 2) + (" " + h1);
    var dd2 := Pad(d2.day, 2) + (" " + h2);
    LexCommonPrefix(" ", h1, h2);
    FieldThen(d1.day, d2.day, 2, " " + h1, " " + h2);
    var mo1 := Pad(d1.month, 2) + ("-" + dd1);
    var mo2 := Pad(d2.month, 2) + ("-" + dd2);
    LexCommonPrefix("-", dd1, dd2);
    FieldThen(d1.month, d2.month, 2, "-" + dd1, "-" + dd2);
    LexCommonPrefix("-", mo1, mo2);
    FieldThen(d1.year, d2.year, 4, "-" + mo1, "-" + mo2);
  }

  /** The compact stamps of a report's file name also sort in time. */
  lemma CompactStampOrder(d1: DateTime, d2: DateTime)
    requires ValidDateTime(d1) && ValidDateTime(d2)
    ensures LexLess(CompactStamp(d1), CompactStamp(d2)) <==> Before(d1, d2)
  {
    var s1 := Pad(d1.second, 2);
    var s2 := Pad(d2.second, 2);
    PadOrder(d1.second, d2.second, 2);
    var mi1 := Pad(d1.minute, 2) + s1;
    var mi2 := Pad(d2.minute, 2) + s2;
    FieldThen(d1.minute, d2.minute, 2, s1, s2);
    var h1 := Pad(d1.hour, 2) + mi1;
    var h2 := Pad(d2.hour, 2) + mi2;
    FieldThen(d1.hour, d2.hour, 2, mi1, mi2);
    LexCommonPrefix("_", h1, h2);
    var dd1 := Pad(d1.day, 2) + ("_" + h1);
    var dd2 := Pad(d2.day, 2) + ("_" + h2);
    FieldThen(d1.day, d2.day, 2, "_" + h1, "_" + h2);
    var mo1 := Pad(d1.month, 2) + dd1;
    var mo2 := Pad(d2.month, 2) + dd2;
    FieldThen(d1.month, d2.month, 2, dd1, dd2);
    FieldThen(d1.year, d2.year, 4, mo1, mo2);
  }

  lemma BeforeTotal(d1: DateTime, d2: DateTime)
    ensures d1 == d2 || Before(d1, d2) || Before(d2, d1)
  {
  }

  /** Distinct readings give distinct compact stamps. */
  lemma CompactStampInjective(d1: DateTime, d2: DateTime)
    requires ValidDateTime(d1) && ValidDateTime(d2)
    ensures CompactStamp(d1) == CompactStamp(d2) ==> d1 == d2
  {
    BeforeTotal(d1, d2);
    CompactStampOrder(d1, d2);
    CompactStampOrder(d2, d1);
    LexIrreflexive(CompactStamp(d1));
  }

  /** `f"{username}_{timestamp}.pdf"`, the name a report is stored under. */
  function ReportFilename(username: string, d: DateTime): (f: string)
    requires ValidDateTime(d)
    ensures |f| == |username| + 20
    ensures f[..|username|] == username && f[|username|] == '_'
    ensures f[|f| - 4..] == ".pdf"
  {
    username + "_" + CompactStamp(d) + ".pdf"
  }

  /** `f"reports/{filename}"`, the storage key of a report. */
  function ReportKey(filename: string): (k: string)
    ensures |k| == |filename| + 8 && k[8..] == filename
  {
    ReportsPrefix + filename
  }

  /**
   * Two uploads get the same file name only when the same user uploads twice
   * within one second; since the name's length fixes the username's length,
   * this holds even for usernames containing '_' or digits.
   */
  lemma ReportFilenameInjective(u1: string, d1: DateTime, u2: string, d2: DateTime)
    requires ValidDateTime(d1) && ValidDateTime(d2)
    requires ReportFilename(u1, d1) == ReportFilename(u2, d2)
    ensures u1 == u2 && d1 == d2
  {
    var f := ReportFilename(u1, d1);
    assert u1 == f[..|u1|] == u2;
    assert CompactStamp(d1) == f[|u1| + 1..|u1| + 16] == CompactStamp(d2);
    CompactStampInjective(d1, d2);
  }

  /** A report's key never collides with the submission log's key. */
  lemma ReportKeyIsNotLogKey(username: string, d: DateTime)
    requires ValidDateTime(d)
    ensures ReportKey(ReportFilename(username, d)) != SubmissionLogKey
  {
    var k := ReportKey(ReportFilename(username, d));
    assert k[|k| - 1] == 'f';
  }

  // ---------------------------------------------------------------------
  // The submission log

  /** The log entry for an upload of `sizeBytes` bytes made at `now`. */
  function NewEntry(username: string, filename: string, sizeBytes: nat, now: DateTime): (e: Entry)
    requires ValidDateTime(now)
    ensures e.username == username && e.filename == filename
    ensures e.sizeKb * 1024.0 == sizeBytes as real
    ensures e.timestamp == LogStamp(now)
  {
    Entry(username, filename, sizeBytes as real / 1024.0, LogStamp(now))
  }

  /**
   * The log that log_submission writes: the stored log with the entry
   * appended when it could be read, otherwise the entry alone (whether the
   * log was missing or the read failed).
   */
  function NextLog(stored: Option<seq<Entry>>, readOk: bool, entry: Entry): (log: seq<Entry>)
    ensures |log| > 0 && log[|log| - 1] == entry
    ensures readOk && stored.Some? ==> log[..|log| - 1] == stored.value
    ensures !(readOk && stored.Some?) ==> log == [entry]
  {
    if readOk && stored.Some? then stored.value + [entry] else [entry]
  }

  /**
   * log_submission.  Without a storage client nothing happens; a failed
   * write is swallowed and leaves the stored log as it was.
   */
  method LogSubmission(bucket: Bucket, username: string, filename: string, sizeBytes: nat, now: DateTime,
                       clientOk: bool, readOk: bool, writeOk: bool)
    requires ValidDateTime(now)
    modifies bucket`reportLog
    ensures bucket.reportLog ==
            if clientOk && writeOk then Some(NextLog(old(bucket.reportLog), readOk, NewEntry(username, filename, sizeBytes, now)))
            else old(bucket.reportLog)
  {
    if !clientOk {
      return;
    }
    var entry := NewEntry(username, filename, sizeBytes, now);
    var log: seq<Entry>;
    if readOk && bucket.reportLog.Some? {
      log := bucket.reportLog.value + [entry];
    } else {
      log := [entry];
    }
    if writeOk {
      bucket.reportLog := Some(log);
    }
  }

  /** The user's entries, in log order: `log_df[log_df['username'] == username]`. */
  function OfUser(entries: seq<Entry>, username: string): (r: seq<Entry>)
    ensures forall k :: 0 <= k < |r| ==> r[k].username == username
    ensures forall e :: e in r <==> e in entries && e.username == username
  {
    Select(entries, (e: Entry) => e.username == username)
  }

  /** Appending an entry extends its own user's list and leaves every other user's list alone. */
  lemma OfUserAppend(entries: seq<Entry>, entry: Entry, username: string)
    ensures OfUser(entries + [entry], username) ==
            OfUser(entries, username) + (if entry.username == username then [entry] else [])
  {
    SelectAppend(entries, [entry], (e: Entry) => e.username == username);
    assert [entry][..0] == [];
  }

  /**
   * The user's most recent entry: the greatest timestamp string (a later
   * entry wins a tie), or None when the user has no entry.
   */
  function MostRecent(entries: seq<Entry>, username: string): (r: Option<Entry>)
    ensures r.None? <==> forall k :: 0 <= k < |entries| ==> entries[k].username != username
    ensures r.Some? ==> r.value in entries && r.value.username == username
    ensures r.Some? ==> forall k :: 0 <= k < |entries| && entries[k].username == username ==>
                          !LexLess(r.value.timestamp, entries[k].timestamp)
  {
    if entries == [] then None
    else
      var init := entries[..|entries| - 1];
      var last := entries[|entries| - 1];
      var best := MostRecent(init, username);
      assert forall k :: 0 <= k < |init| ==> init[k] == entries[k];
      if last.username != username then best
      else if best.None? then
        LexIrreflexive(last.timestamp);
        Some(last)
      else if LexLess(last.timestamp, best.value.timestamp) then
        LexAsymmetric(last.timestamp, best.value.timestamp);
        best
      else
        LatestStaysLatest(init, username, best.value, last);
        Some(last)
  }

  lemma LatestStaysLatest(init: seq<Entry>, username: string, best: Entry, last: Entry)
    requires forall k :: 0 <= k < |init| && init[k].username == username ==> !LexLess(best.timestamp, init[k].timestamp)
    requires !LexLess(last.timestamp, best.timestamp)
    ensures forall k :: 0 <= k < |init| && init[k].username == username ==> !LexLess(last.timestamp, init[k].timestamp)
    ensures !LexLess(last.timestamp, last.timestamp)
  {
    LexIrreflexive(last.timestamp);
    forall k | 0 <= k < |init| && init[k].username == username
      ensures !LexLess(last.timestamp, init[k].timestamp)
    {
      LexTotal(last.timestamp, best.timestamp);
      if LexLess(last.timestamp, init[k].timestamp) && LexLess(best.timestamp, last.timestamp) {
        LexTransitive(best.timestamp, last.timestamp, init[k].timestamp);
      }
    }
  }

  /**
   * An entry logged at `now`, when every earlier entry of the user was
   * logged no later, is the one shown as most recent.
   */
  lemma NewEntryIsMostRecent(entries: seq<Entry>, username: string, filename: string, sizeBytes: nat, now: DateTime)
    requires ValidDateTime(now)
    requires forall k :: 0 <= k < |entries| && entries[k].username == username ==>
               exists d :: ValidDateTime(d) && entries[k].timestamp == LogStamp(d) && !Before(now, d)
    ensures MostRecent(entries + [NewEntry(username, filename, sizeBytes, now)], username) ==
            Some(NewEntry(username, filename, sizeBytes, now))
  {
    var e := NewEntry(username, filename, sizeBytes, now);
    var all := entries + [e];
    assert all[..|all| - 1] == entries;
    var best := MostRecent(entries, username);
    if best.Some? {
      var k :| 0 <= k < |entries| && entries[k] == best.value;
      var d :| ValidDateTime(d) && entries[k].timestamp == LogStamp(d) && !Before(now, d);
      LogStampOrder(now, d);
    }
  }

  // ---------------------------------------------------------------------
  // What the page shows

  /** show_most_recent_report: nothing, the report, or a warning that its PDF could not be read. */
  datatype RecentView = NoRecent | RecentShown(entry: Entry) | RecentLoadFailed(entry: Entry)

  function MostRecentView(stored: Option<seq<Entry>>, username: string, keys: set<string>,
                          clientOk: bool, readOk: bool): (v: RecentView)
    ensures v.NoRecent? <==>
              !clientOk || !readOk || stored.None? || MostRecent(stored.value, username).None?
    ensures !v.NoRecent? ==> v.entry == MostRecent(stored.value, username).value
    ensures v.RecentShown? <==> !v.NoRecent? && ReportKey(v.entry.filename) in keys
  {
    if !clientOk || !readOk || stored.None? then NoRecent
    else match MostRecent(stored.value, username)
      case None => NoRecent
      case Some(e) => if ReportKey(e.filename) in keys then RecentShown(e) else RecentLoadFailed(e)
  }

  /** One listed submission and whether its download button appears. */
  datatype Listed = Listed(entry: Entry, downloadable: bool)

  /** show_previous_submissions. */
  datatype PreviousView = NoConnection | NoPrevious | Listing(items: seq<Listed>)

  function Listings(entries: seq<Entry>, keys: set<string>): (items: seq<Listed>)
    ensures |items| == |entries|
    ensures forall k :: 0 <= k < |items| ==>
              items[k].entry == entries[k] && (items[k].downloadable <==> ReportKey(entries[k].filename) in keys)
  {
    if entries == [] then []
    else [Listed(entries[0], ReportKey(entries[0].filename) in keys)] + Listings(entries[1..], keys)
  }

  function PreviousSubmissionsView(stored: Option<seq<Entry>>, username: string, keys: set<string>,
                                   clientOk: bool, readOk: bool): (v: PreviousView)
    ensures v.NoConnection? <==> !clientOk
    ensures v.NoPrevious? <==> clientOk && (!readOk || stored.None? || OfUser(stored.value, username) == [])
    ensures v.Listing? ==> v.items == Listings(OfUser(stored.value, username), keys) && v.items != []
  {
    if !clientOk then NoConnection
    else if !readOk || stored.None? then NoPrevious
    else
      var mine := OfUser(stored.value, username);
      if mine == [] then NoPrevious else Listing(Listings(mine, keys))
  }

  /**
   * After an upload whose log update went through, the listing shows the
   * user's earlier submissions followed by the new one, downloadable.
   */
  lemma SubmissionIsListed(stored: seq<Entry>, entry: Entry, keys: set<string>)
    ensures var v := PreviousSubmissionsView(Some(stored + [entry]), entry.username,
                                             keys + {ReportKey(entry.filename)}, true, true);
            v.Listing? && |v.items| == |OfUser(stored, entry.username)| + 1 &&
            v.items[|v.items| - 1] == Listed(entry, true) &&
            forall k :: 0 <= k < |v.items| - 1 ==> v.items[k].entry == OfUser(stored, entry.username)[k]
  {
    OfUserAppend(stored, entry, entry.username);
  }

  // ---------------------------------------------------------------------
  // The page

  /** The outcome of the upload form. */
  datatype Upload = NotSubmitted | NoStorage | UploadFailed | Uploaded(filename: string)

  /**
   * The page: the login gate, the intervention-group gate, then the most
   * recent report, the upload form and (unless the form returned early) the
   * list of submissions.
   */
  datatype ReportPage =
    | LoginRequired
    | GroupOnly
    | ReportPage(recent: RecentView, upload: Upload, previous: Option<PreviousView>)

  /**
   * show.  `submitted` is the size in bytes of the chosen PDF when the submit
   * button was pressed; `clientOk` whether a storage client could be made,
   * `readOk` whether reading the submission log succeeds, `uploadOk` whether
   * storing the PDF succeeds, `writeOk` whether storing the log succeeds.
   */
  method Show(session: Session, bucket: Bucket, submitted: Option<nat>, now: DateTime,
              clientOk: bool, readOk: bool, uploadOk: bool, writeOk: bool) returns (p: ReportPage)
    requires ValidDateTime(now)
    modifies bucket`reportLog, bucket`reportKeys
    ensures !session.loggedIn ==> p == LoginRequired
    ensures session.loggedIn && !session.interventionalist ==> p == GroupOnly
    ensures !(session.loggedIn && session.interventionalist && submitted.Some? && clientOk && uploadOk) ==>
              bucket.reportLog == old(bucket.reportLog) && bucket.reportKeys == old(bucket.reportKeys)
    ensures session.loggedIn && session.interventionalist ==>
              p.ReportPage? &&
              p.recent == MostRecentView(old(bucket.reportLog), session.username, old(bucket.reportKeys), clientOk, readOk)
    ensures session.loggedIn && session.interventionalist && submitted.None? ==>
              p.upload == NotSubmitted &&
              p.previous == Some(PreviousSubmissionsView(bucket.reportLog, session.username, bucket.reportKeys, clientOk, readOk))
    ensures session.loggedIn && session.interventionalist && submitted.Some? && !clientOk ==>
              p.upload == NoStorage && p.previous == None
    ensures session.loggedIn && session.interventionalist && submitted.Some? && clientOk && !uploadOk ==>
              p.upload == UploadFailed &&
              p.previous == Some(PreviousSubmissionsView(bucket.reportLog, session.username, bucket.reportKeys, clientOk, readOk))
    ensures session.loggedIn && session.interventionalist && submitted.Some? && clientOk && uploadOk ==>
              var name := ReportFilename(session.username, now);
              p.upload == Uploaded(name) &&
              bucket.reportKeys == old(bucket.reportKeys) + {ReportKey(name)} &&
              bucket.reportLog == (if writeOk then Some(NextLog(old(bucket.reportLog), readOk,
                                                                NewEntry(session.username, name, submitted.value, now)))
                                   else old(bucket.reportLog)) &&
              p.previous == Some(PreviousSubmissionsView(bucket.reportLog, session.username, bucket.reportKeys, clientOk, readOk))
  {
    if !session.loggedIn {
      return LoginRequired;
    }
    if !session.interventionalist {
      return GroupOnly;
    }
    var username := session.username;
    var recent := MostRecentView(bucket.reportLog, username, bucket.reportKeys, clientOk, readOk);
    var upload := NotSubmitted;
    if submitted.Some? {
      var name := ReportFilename(username, now);
      if !clientOk {
        return ReportPage(recent, NoStorage, None);
      }
      if uploadOk {
        bucket.reportKeys := bucket.reportKeys + {ReportKey(name)};
        upload := Uploaded(name);
        LogSubmission(bucket, username, name, submitted.value, now, clientOk, readOk, writeOk);
      } else {
        upload := UploadFailed;
      }
    }
    var previous := PreviousSubmissionsView(bucket.reportLog, username, bucket.reportKeys, clientOk, readOk);
    p := ReportPage(recent, upload, Some(previous));
  }
}
