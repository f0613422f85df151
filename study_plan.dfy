/**
 * The study planner: the focus text is split at commas into trimmed,
 * non-empty topics, and the plan gives each topic, in input order, a block of
 * days out of `weeks * 7` days and the requested hours per day.
 *
 * Python's `str.split(",")` and `str.strip()` are written out here, so that
 * the topic list is exactly the one the list comprehension builds.
 */
module StudyPlan {
  import opened Wrappers

  // ---------------------------------------------------------------------------
  // Python's str.strip() and str.split(",")
  // ---------------------------------------------------------------------------

  /** Python's `str.isspace()` for one character: the Unicode whitespace code points. */
  predicate IsSpace(c: char) {
    var n := c as int;
    (9 <= n <= 13) || (28 <= n <= 32) || n == 0x85 || n == 0xA0 || n == 0x1680
    || (0x2000 <= n <= 0x200A) || n == 0x2028 || n == 0x2029 || n == 0x202F
    || n == 0x205F || n == 0x3000
  }

  /** Every character of `s` is whitespace. */
  predicate AllSpace(s: string) {
    forall k :: 0 <= k < |s| ==> IsSpace(s[k])
  }

  /** `s.lstrip()`: the leading whitespace removed. */
  function LStrip(s: string): (r: string)
    ensures |r| <= |s|
    decreases |s|
  {
    if s != [] && IsSpace(s[0]) then LStrip(s[1..]) else s
  }

  /** `lstrip` cuts a whitespace prefix and leaves a text that does not start with whitespace. */
  lemma {:induction false} LStripSpec(s: string)
    ensures var r := LStrip(s);
            && r == s[|s| - |r|..]
            && AllSpace(s[..|s| - |r|])
            && (r == [] || !IsSpace(r[0]))
    decreases |s|
  {
    if s != [] && IsSpace(s[0]) {
      var r := LStrip(s[1..]);
      LStripSpec(s[1..]);
      assert s[1..][|s| - 1 - |r|..] == s[|s| - |r|..];
      var cut := s[..|s| - |r|];
      forall k | 0 <= k < |cut| ensures IsSpace(cut[k]) {
        if k > 0 {
          assert cut[k] == s[1..][..|s| - 1 - |r|][k - 1];
        }
      }
    } else {
      assert s[0..] == s;
    }
  }

  /** `s.rstrip()`: the trailing whitespace removed. */
  function RStrip(s: string): (r: string)
    ensures |r| <= |s|
    decreases |s|
  {
    if s != [] && IsSpace(s[|s| - 1]) then RStrip(s[..|s| - 1]) else s
  }

  /** `rstrip` cuts a whitespace suffix and leaves a text that does not end with whitespace. */
  lemma {:induction false} RStripSpec(s: string)
    ensures var r := RStrip(s);
            && r == s[..|r|]
            && AllSpace(s[|r|..])
            && (r == [] || !IsSpace(r[|r| - 1]))
    decreases |s|
  {
    if s != [] && IsSpace(s[|s| - 1]) {
      var r := RStrip(s[..|s| - 1]);
      RStripSpec(s[..|s| - 1]);
      assert s[..|s| - 1][..|r|] == s[..|r|];
      var cut := s[|r|..];
      forall k | 0 <= k < |cut| ensures IsSpace(cut[k]) {
        if k < |s| - 1 - |r| {
          assert cut[k] == s[..|s| - 1][|r|..][k];
        }
      }
    } else {
      assert s[..|s|] == s;
    }
  }

  /** `s.strip()`: leading and trailing whitespace removed. */
  function Strip(s: string): (r: string)
    ensures |r| <= |s|
  {
    RStrip(LStrip(s))
  }

  /**
   * What `strip` promises: the result is the slice `s[i..i + |r|]` of the
   * input, with only whitespace cut off on either side, and it neither starts
   * nor ends with whitespace.
   */
  lemma StripSlice(s: string) returns (i: nat)
    ensures var r := Strip(s);
            && i + |r| <= |s| && r == s[i..i + |r|]
            && AllSpace(s[..i]) && AllSpace(s[i + |r|..])
            && (r == [] || (!IsSpace(r[0]) && !IsSpace(r[|r| - 1])))
  {
    var l := LStrip(s);
    var r := RStrip(l);
    LStripSpec(s);
    RStripSpec(l);
    i := |s| - |l|;
    assert r == s[i..i + |r|];
    assert s[i + |r|..] == l[|r|..];
    if r != [] {
      assert r[0] == l[0];
    }
  }

  /** `s.strip()` is empty exactly when `s` is all whitespace. */
  lemma StripEmpty(s: string)
    ensures Strip(s) == [] <==> AllSpace(s)
  {
    var l := LStrip(s);
    var i := |s| - |l|;
    LStripSpec(s);
    RStripSpec(l);
    if Strip(s) == [] {
      assert l[0..] == l;
      assert l == [];
      assert s[..i] == s;
    }
  }

  /** Stripping twice is stripping once. */
  lemma StripIdempotent(s: string)
    ensures Strip(Strip(s)) == Strip(s)
  {
    var i := StripSlice(s);
    var r := Strip(s);
    assert LStrip(r) == r;
    assert RStrip(r) == r;
  }

  /** Stripping a comma-free text leaves it comma-free. */
  lemma StripNoComma(s: string)
    requires ',' !in s
    ensures ',' !in Strip(s)
  {
    var i := StripSlice(s);
    var r := Strip(s);
    forall k | 0 <= k < |r| ensures r[k] != ',' {
      assert r[k] == s[i + k];
    }
  }

  /** `s.split(",")`: the pieces between commas; an empty string gives one empty piece. */
  function Split(s: string): (r: seq<string>)
    ensures |r| >= 1
    decreases |s|
  {
    if s == [] then [[]]
    else
      var rest := Split(s[1..]);
      if s[0] == ',' then [[]] + rest
      else [[s[0]] + rest[0]] + rest[1..]
  }

  /** No piece of a split holds a comma. */
  lemma {:induction false} SplitNoCommaInPieces(s: string)
    ensures forall k :: 0 <= k < |Split(s)| ==> ',' !in Split(s)[k]
    decreases |s|
  {
    if s != [] {
      SplitNoCommaInPieces(s[1..]);
      var rest := Split(s[1..]);
      if s[0] != ',' {
        assert ',' !in [s[0]] + rest[0];
        assert forall k :: 1 <= k < |rest| ==> rest[1..][k - 1] == rest[k];
      }
    }
  }

  /** `",".join(pieces)`: the partner of `Split`. */
  function Join(pieces: seq<string>): string
    requires |pieces| >= 1
    decreases |pieces|
  {
    if |pieces| == 1 then pieces[0] else pieces[0] + [','] + Join(pieces[1..])
  }

  /** Joining the pieces of a split gives the text back. */
  lemma {:induction false} JoinSplit(s: string)
    ensures Join(Split(s)) == s
    decreases |s|
  {
    if s != [] {
      var rest := Split(s[1..]);
      JoinSplit(s[1..]);
      if s[0] == ',' {
        assert ([[]] + rest)[1..] == rest;
      } else {
        assert ([[s[0]] + rest[0]] + rest[1..])[1..] == rest[1..];
        if |rest| > 1 {
          assert Join(rest) == rest[0] + [','] + Join(rest[1..]);
        }
      }
    }
  }

  /** A comma-free text is one piece. */
  lemma {:induction false} SplitNoComma(p: string)
    requires ',' !in p
    ensures Split(p) == [p]
    decreases |p|
  {
    if p != [] {
      SplitNoComma(p[1..]);
      assert [p[0]] + p[1..] == p;
    }
  }

  /** Splitting a text that starts with character `c`. */
  lemma SplitCons(c: char, t: string)
    ensures Split([c] + t)
         == if c == ',' then [[]] + Split(t) else [[c] + Split(t)[0]] + Split(t)[1..]
  {
    assert ([c] + t)[0] == c && ([c] + t)[1..] == t;
  }

  /** Appending to a non-empty sequence keeps its head and appends to its tail. */
  lemma AppendHeadTail<T>(r: seq<T>, q: seq<T>)
    requires |r| >= 1
    ensures (r + q)[0] == r[0] && (r + q)[1..] == r[1..] + q
  {
  }

  /** Sequence concatenation is associative. */
  lemma AppendAssoc<T>(a: seq<T>, b: seq<T>, c: seq<T>)
    ensures a + (b + c) == (a + b) + c
  {
  }

  /** One step of `SplitConcat`, from `t` to `[c] + t`, for a comma `c`. */
  lemma SplitConcatComma(t: string, y: string)
    requires Split(t + [','] + y) == Split(t) + Split(y)
    ensures Split([','] + t + [','] + y) == Split([','] + t) + Split(y)
  {
    assert [','] + t + [','] + y == [','] + (t + [','] + y);
    SplitCons(',', t + [','] + y);
    SplitCons(',', t);
    AppendAssoc([[]], Split(t), Split(y));
  }

  /** One step of `SplitConcat`, from `t` to `[c] + t`, for a character `c` other than a comma. */
  lemma SplitConcatChar(c: char, t: string, y: string)
    requires c != ','
    requires Split(t + [','] + y) == Split(t) + Split(y)
    ensures Split([c] + t + [','] + y) == Split([c] + t) + Split(y)
  {
    assert [c] + t + [','] + y == [c] + (t + [','] + y);
    SplitCons(c, t + [','] + y);
    SplitCons(c, t);
    var rt, ry := Split(t), Split(y);
    AppendHeadTail(rt, ry);
    AppendAssoc([[c] + rt[0]], rt[1..], ry);
  }

  /** Splitting at a comma splits the two sides independently. */
  lemma {:induction false} SplitConcat(x: string, y: string)
    ensures Split(x + [','] + y) == Split(x) + Split(y)
    decreases |x|
  {
    if x == [] {
      assert x + [','] + y == [','] + y;
      SplitCons(',', y);
    } else {
      assert x == [x[0]] + x[1..];
      SplitConcat(x[1..], y);
      if x[0] == ',' {
        SplitConcatComma(x[1..], y);
      } else {
        SplitConcatChar(x[0], x[1..], y);
      }
    }
  }

  /** Splitting comma-free pieces joined by commas gives the pieces back. */
  lemma {:induction false} SplitJoin(pieces: seq<string>)
    requires |pieces| >= 1
    requires forall k :: 0 <= k < |pieces| ==> ',' !in pieces[k]
    ensures Split(Join(pieces)) == pieces
    decreases |pieces|
  {
    SplitNoComma(pieces[0]);
    if |pieces| > 1 {
      SplitJoin(pieces[1..]);
      SplitConcat(pieces[0], Join(pieces[1..]));
      assert [pieces[0]] + pieces[1..] == pieces;
    }
  }

  // ---------------------------------------------------------------------------
  // Topics
  // ---------------------------------------------------------------------------

  /** The stripped pieces that are not empty, in order. */
  function KeepStripped(pieces: seq<string>): (topics: seq<string>)
    ensures |topics| <= |pieces|
    ensures forall k :: 0 <= k < |topics| ==> topics[k] != []
    decreases |pieces|
  {
    if pieces == [] then []
    else
      var t := Strip(pieces[0]);
      (if t != [] then [t] else []) + KeepStripped(pieces[1..])
  }

  /** `[t.strip() for t in focus.split(",") if t.strip()]`. */
  function Topics(focus: string): (ts: seq<string>)
    ensures |ts| <= |Split(focus)|
    ensures forall k :: 0 <= k < |ts| ==> ts[k] != []
  {
    KeepStripped(Split(focus))
  }

  /** Filtering a concatenation filters each part. */
  lemma {:induction false} KeepStrippedConcat(a: seq<string>, b: seq<string>)
    ensures KeepStripped(a + b) == KeepStripped(a) + KeepStripped(b)
    decreases |a|
  {
    if a == [] {
      assert a + b == b;
    } else {
      var t := Strip(a[0]);
      var head := if t != [] then [t] else [];
      assert (a + b)[0] == a[0];
      assert (a + b)[1..] == a[1..] + b;
      KeepStrippedConcat(a[1..], b);
      assert KeepStripped(a + b) == head + (KeepStripped(a[1..]) + KeepStripped(b));
      assert head + (KeepStripped(a[1..]) + KeepStripped(b)) == (head + KeepStripped(a[1..])) + KeepStripped(b);
    }
  }

  /** A topic as the comprehension keeps it: non-empty, comma-free, with no whitespace at either end. */
  predicate CleanTopic(t: string) {
    t != [] && ',' !in t && Strip(t) == t
  }

  /** Every kept topic of comma-free pieces is clean. */
  lemma {:induction false} KeepStrippedClean(pieces: seq<string>, k: nat)
    requires forall j :: 0 <= j < |pieces| ==> ',' !in pieces[j]
    requires k < |KeepStripped(pieces)|
    ensures CleanTopic(KeepStripped(pieces)[k])
    decreases |pieces|
  {
    var tail := pieces[1..];
    var t := Strip(pieces[0]);
    var head := if t != [] then [t] else [];
    assert KeepStripped(pieces) == head + KeepStripped(tail);
    if k < |head| {
      StripIdempotent(pieces[0]);
      StripNoComma(pieces[0]);
      assert KeepStripped(pieces)[k] == t;
    } else {
      assert forall j :: 0 <= j < |tail| ==> tail[j] == pieces[j + 1];
      KeepStrippedClean(tail, k - |head|);
      assert KeepStripped(pieces)[k] == KeepStripped(tail)[k - |head|];
    }
  }

  /** The topics are clean: non-empty, comma-free and already stripped. */
  lemma TopicsClean(focus: string)
    ensures var ts := Topics(focus);
            forall k :: 0 <= k < |ts| ==> ts[k] != [] && ',' !in ts[k] && Strip(ts[k]) == ts[k]
  {
    SplitNoCommaInPieces(focus);
    forall k | 0 <= k < |Topics(focus)| ensures CleanTopic(Topics(focus)[k]) {
      KeepStrippedClean(Split(focus), k);
    }
  }

  /** Topics keep input order: the topics of `x,y` are those of `x` followed by those of `y`. */
  lemma TopicsConcat(x: string, y: string)
    ensures Topics(x + [','] + y) == Topics(x) + Topics(y)
  {
    SplitConcat(x, y);
    KeepStrippedConcat(Split(x), Split(y));
  }

  /** A comma-free piece gives its stripped text as one topic, or none when it is blank. */
  lemma TopicsOfPiece(p: string)
    requires ',' !in p
    ensures Topics(p) == if AllSpace(p) then [] else [Strip(p)]
  {
    SplitNoComma(p);
    StripEmpty(p);
  }

  /** A blank focus text has no topics. */
  lemma BlankFocusNoTopics(focus: string)
    requires AllSpace(focus)
    ensures Topics(focus) == []
  {
    assert ',' !in focus by {
      assert !IsSpace(',');
    }
    TopicsOfPiece(focus);
  }

  // ---------------------------------------------------------------------------
  // Day allocation
  // ---------------------------------------------------------------------------

  /** One row of the plan: the topic, its day range (the `Days` column) and `Hours/Day`. */
  datatype Row = Row(topic: string, startDay: nat, endDay: nat, hoursPerDay: nat)

  /** Why no plan is produced. */
  datatype PlanError = MissingFields | ZeroDivisionError

  /** `max(1, total_days // len(topics))`. */
  function DaysPerTopic(total: nat, n: nat): (d: nat)
    requires n >= 1
    ensures d >= 1
    ensures n <= total ==> d * n <= total < d * n + n
    ensures n > total ==> d == 1
  {
    var q := total / n;
    if q > 1 then q else 1
  }

  /** The first day of the topic at zero-based position `k` (Python's `i - 1`). */
  function StartDay(k: nat, d: nat): (s: nat)
    ensures s >= 1
  {
    k * d + 1
  }

  /** The last day of that topic, `min(start + d - 1, total)`: the block's last day, clamped to the total. */
  function EndDay(k: nat, d: nat, total: nat): (e: nat)
    ensures e <= total && e <= StartDay(k, d) + d - 1
    ensures e == total || e == StartDay(k, d) + d - 1
  {
    if StartDay(k, d) + d - 1 < total then StartDay(k, d) + d - 1 else total
  }

  /** The row of the topic at zero-based position `k`. */
  function RowFor(k: nat, topic: string, d: nat, total: nat, hours: nat): Row {
    Row(topic, StartDay(k, d), EndDay(k, d, total), hours)
  }

  /** The rows for `topics` over `total` days, one per topic, in order. */
  function PlanRows(topics: seq<string>, total: nat, hours: nat): (rows: seq<Row>)
    requires |topics| >= 1
    ensures |rows| == |topics|
  {
    var d := DaysPerTopic(total, |topics|);
    seq(|topics|, k requires 0 <= k < |topics| => RowFor(k, topics[k], d, total, hours))
  }

  /** `k * d` grows with `k`. */
  lemma {:induction false} MulMono(a: nat, b: nat, d: nat)
    requires a <= b
    ensures a * d <= b * d
    decreases b - a
  {
    if a < b {
      MulMono(a + 1, b, d);
    }
  }

  /**
   * The layout of the rows: row `k` starts on day `k * d + 1` with
   * `d = days_per_topic >= 1` and ends no later than the last day. With at
   * most as many topics as days every range is non-empty and the next one
   * starts the day after it ends; with more topics than days the rows from
   * position `total` on are empty ranges (start after end), and only those.
   */
  lemma PlanLayout(topics: seq<string>, total: nat, hours: nat, k: nat)
    requires |topics| >= 1 && k < |topics|
    ensures var rows := PlanRows(topics, total, hours);
            var d := DaysPerTopic(total, |topics|);
            && d >= 1
            && rows[k].startDay == k * d + 1
            && rows[k].endDay == (if (k + 1) * d <= total then (k + 1) * d else total)
            && rows[k].endDay <= total
            && (|topics| <= total ==> rows[k].startDay <= rows[k].endDay)
            && (|topics| <= total && k + 1 < |topics| ==> rows[k + 1].startDay == rows[k].endDay + 1)
            && (|topics| > total ==> (rows[k].startDay > rows[k].endDay <==> k >= total))
  {
    var n := |topics|;
    var d := DaysPerTopic(total, n);
    if n <= total {
      MulMono(k + 1, n, d);
      assert (k + 1) * d == k * d + d;
      assert StartDay(k, d) + d - 1 <= total;
    } else {
      assert (k + 1) * d == k * d + d;
    }
  }

  /**
   * With at most as many topics as days, the last topic ends on day `n * d`
   * and the fewer than `n` days after it are given to no topic.
   */
  lemma PlanUnplannedTail(topics: seq<string>, total: nat, hours: nat)
    requires 1 <= |topics| <= total
    ensures var rows := PlanRows(topics, total, hours);
            var n := |topics|;
            var d := DaysPerTopic(total, n);
            && rows[n - 1].endDay == n * d
            && total - n * d < n
            && forall k :: 0 <= k < n ==> rows[k].endDay <= n * d
  {
    var n := |topics|;
    var d := DaysPerTopic(total, n);
    var rows := PlanRows(topics, total, hours);
    forall k | 0 <= k < n ensures rows[k].endDay <= n * d {
      PlanLayout(topics, total, hours, k);
      MulMono(k + 1, n, d);
    }
    PlanLayout(topics, total, hours, n - 1);
  }

  /** Four weeks and three topics: the last topic gets days 19 to 27, and day 28 no topic. */
  lemma ThreeTopicsFourWeeks()
    ensures PlanRows(["a", "b", "c"], 28, 2)
         == [Row("a", 1, 9, 2), Row("b", 10, 18, 2), Row("c", 19, 27, 2)]
  {
    var rows := PlanRows(["a", "b", "c"], 28, 2);
    assert DaysPerTopic(28, 3) == 9;
  }

  /** The rows are the topics in order, each with the requested hours per day. */
  lemma PlanRowsTopics(topics: seq<string>, total: nat, hours: nat)
    requires |topics| >= 1
    ensures var rows := PlanRows(topics, total, hours);
            && |rows| == |topics|
            && forall k :: 0 <= k < |rows| ==> rows[k].topic == topics[k] && rows[k].hoursPerDay == hours
  {
  }

  /**
   * The row loop: row `i` (counting from 1, as `enumerate(topics, 1)` does) is
   * appended with its day range and the hours per day.
   */
  method BuildRows(topics: seq<string>, totalDays: nat, hours: nat) returns (rows: seq<Row>)
    requires |topics| >= 1
    ensures rows == PlanRows(topics, totalDays, hours)
  {
    var daysPerTopic := DaysPerTopic(totalDays, |topics|);
    rows := [];
    var i := 1;
    while i <= |topics|
      invariant 1 <= i <= |topics| + 1 && |rows| == i - 1
      invariant forall k :: 0 <= k < i - 1 ==> rows[k] == RowFor(k, topics[k], daysPerTopic, totalDays, hours)
    {
      var startDay := (i - 1) * daysPerTopic + 1;
      var endDay := if startDay + daysPerTopic - 1 < totalDays then startDay + daysPerTopic - 1 else totalDays;
      assert Row(topics[i - 1], startDay, endDay, hours) == RowFor(i - 1, topics[i - 1], daysPerTopic, totalDays, hours);
      rows := rows + [Row(topics[i - 1], startDay, endDay, hours)];
      i := i + 1;
    }
    assert forall k :: 0 <= k < |topics| ==> rows[k] == PlanRows(topics, totalDays, hours)[k];
  }

  // ---------------------------------------------------------------------------
  // The plan
  // ---------------------------------------------------------------------------

  /**
   * The plan as the handler computes it: a missing name, goal or (after
   * stripping) focus gives the warning; otherwise the topics are split out and
   * `total_days // len(topics)` is evaluated, which raises when the focus holds
   * no topic (only commas and whitespace, such as `","`).
   */
  function PlanAsWritten(name: string, goal: string, focus: string, weeks: nat, hours: nat)
    : (r: Result<seq<Row>, PlanError>)
    ensures r.Ok? ==> |r.value| == |Topics(focus)| >= 1
  {
    if name == [] || goal == [] || Strip(focus) == [] then Err(MissingFields)
    else
      var topics := Topics(focus);
      if |topics| == 0 then Err(ZeroDivisionError)
      else Ok(PlanRows(topics, weeks * 7, hours))
  }

  /** The plan with the guard the handler evidently intends: no topic is a missing field. */
  function Plan(name: string, goal: string, focus: string, weeks: nat, hours: nat)
    : (r: Result<seq<Row>, PlanError>)
    ensures r.Ok? ==> |r.value| == |Topics(focus)| >= 1
    ensures r.Err? ==> r.error == MissingFields
  {
    if name == [] || goal == [] || Strip(focus) == [] then Err(MissingFields)
    else
      var topics := Topics(focus);
      if |topics| == 0 then Err(MissingFields)
      else Ok(PlanRows(topics, weeks * 7, hours))
  }

  /** The focus text `","` passes the handler's guard and then divides by zero. */
  lemma CommaFocusDividesByZero()
    ensures PlanAsWritten("Ana", "Pass", ",", 4, 2) == Err(ZeroDivisionError)
  {
    var focus := ",";
    assert focus[0] == ',' && !IsSpace(',');
    assert Strip(focus) == focus by {
      assert LStrip(focus) == focus;
      assert RStrip(focus) == focus;
    }
    assert Split(focus) == [[], []] by {
      assert focus[1..] == [];
    }
    assert Topics(focus) == [] by {
      var e: string := [];
      assert Strip(e) == [];
      assert [e, e][1..] == [e];
      assert KeepStripped([e]) == [];
    }
  }

  /**
   * The as-written handler fails with a division by zero exactly when name,
   * goal and stripped focus are filled in but there is no topic; on every
   * other input it agrees with the corrected plan.
   */
  lemma PlanAgreesAsWritten(name: string, goal: string, focus: string, weeks: nat, hours: nat)
    ensures PlanAsWritten(name, goal, focus, weeks, hours) == Err(ZeroDivisionError)
            <==> name != [] && goal != [] && Strip(focus) != [] && Topics(focus) == []
    ensures PlanAsWritten(name, goal, focus, weeks, hours) != Err(ZeroDivisionError)
            ==> Plan(name, goal, focus, weeks, hours) == PlanAsWritten(name, goal, focus, weeks, hours)
  {
  }

  /**
   * The corrected plan is produced exactly when name and goal are given and
   * the focus has a topic; it then has one row per topic, in order, with the
   * requested hours, laid out over `weeks * 7` days.
   */
  lemma PlanOutcome(name: string, goal: string, focus: string, weeks: nat, hours: nat)
    ensures Plan(name, goal, focus, weeks, hours).Ok? <==> name != [] && goal != [] && Topics(focus) != []
    ensures var r := Plan(name, goal, focus, weeks, hours);
            r.Ok? ==> r.value == PlanRows(Topics(focus), weeks * 7, hours)
  {
    if Strip(focus) == [] {
      StripEmpty(focus);
      BlankFocusNoTopics(focus);
    }
  }

  /** The planner handler with the corrected guard: validate, split the topics, build the rows. */
  method GeneratePlan(name: string, goal: string, focus: string, weeks: nat, hours: nat)
    returns (r: Result<seq<Row>, PlanError>)
    ensures r == Plan(name, goal, focus, weeks, hours)
  {
    if name == [] || goal == [] || Strip(focus) == [] {
      return Err(MissingFields);
    }
    var topics := Topics(focus);
    if |topics| == 0 {
      return Err(MissingFields);
    }
    var totalDays := weeks * 7;
    var rows := BuildRows(topics, totalDays, hours);
    r := Ok(rows);
  }
}
