/** Aggregating check results: the one-pass loop against counts, minima and a first failing name. */
module Checks {
  import opened Common
  import opened Timestamp

  datatype Check = Check(status: Option<string>, conclusion: Option<string>,
                         name: Option<string>, startedAt: Option<string>)

  datatype CheckState =
    | Success
    | Failure(passed: nat, total: nat)
    | Pending(passed: nat, total: nat)

  datatype CheckMeta = CheckMeta(startedAt: Option<int>, durationSecs: Option<int>, failingName: Option<string>)

  datatype Kind = Passed | Failed | Skipped | Running | Ignored

  function OrEmpty(s: Option<string>): string {
    if s.Some? then s.value else ""
  }

  /** The first rule that matches decides. */
  function KindOf(c: Check): Kind {
    var status, conclusion := OrEmpty(c.status), OrEmpty(c.conclusion);
    if conclusion == "SUCCESS" || status == "SUCCESS" then Passed
    else if conclusion == "FAILURE" || conclusion == "CANCELLED" || conclusion == "TIMED_OUT"
      || conclusion == "STARTUP_FAILURE" || conclusion == "ACTION_REQUIRED"
      || status == "FAILURE" || status == "ERROR" then Failed
    else if conclusion == "NEUTRAL" || conclusion == "SKIPPED" then Skipped
    else if status == "IN_PROGRESS" || status == "QUEUED" || status == "PENDING"
      || status == "REQUESTED" || status == "WAITING" then Running
    else Ignored
  }

  // ----- What the statuses and conclusions mean -----

  predicate Succeeds(c: Check) {
    c.conclusion == Some("SUCCESS") || c.status == Some("SUCCESS")
  }

  predicate Fails(c: Check) {
    && !Succeeds(c)
    && (c.conclusion in {Some("FAILURE"), Some("CANCELLED"), Some("TIMED_OUT"), Some("STARTUP_FAILURE"),
                         Some("ACTION_REQUIRED")}
        || c.status in {Some("FAILURE"), Some("ERROR")})
  }

  predicate Skips(c: Check) {
    !Succeeds(c) && !Fails(c) && c.conclusion in {Some("NEUTRAL"), Some("SKIPPED")}
  }

  predicate Runs(c: Check) {
    && !Succeeds(c) && !Fails(c) && !Skips(c)
    && c.status in {Some("IN_PROGRESS"), Some("QUEUED"), Some("PENDING"), Some("REQUESTED"), Some("WAITING")}
  }

  /** Which statuses and conclusions are of which kind. */
  lemma KindIs(c: Check)
    ensures KindOf(c) == Passed <==> Succeeds(c)
    ensures KindOf(c) == Failed <==> Fails(c)
    ensures KindOf(c) == Skipped <==> Skips(c)
    ensures KindOf(c) == Running <==> Runs(c)
    ensures KindOf(c) == Ignored <==> !Succeeds(c) && !Fails(c) && !Skips(c) && !Runs(c)
  {
  }

  function StartOf(c: Check): Option<int> {
    if c.startedAt.Some? then TimestampOf(c.startedAt.value) else None
  }

  // ----- The specification -----

  function Count(checks: seq<Check>, kind: Kind): nat {
    if checks == [] then 0
    else Count(checks[..|checks| - 1], kind) + (if KindOf(checks[|checks| - 1]) == kind then 1 else 0)
  }

  function Smaller(a: Option<int>, b: Option<int>): Option<int> {
    if a.None? then b else if b.None? then a else if b.value < a.value then b else a
  }

  /** The earliest start among all checks, or among the running ones only. */
  function Earliest(checks: seq<Check>, runningOnly: bool): Option<int> {
    if checks == [] then None
    else
      var last := checks[|checks| - 1];
      var before := Earliest(checks[..|checks| - 1], runningOnly);
      if runningOnly && KindOf(last) != Running then before else Smaller(before, StartOf(last))
  }

  function FirstFailingName(checks: seq<Check>): Option<string> {
    if checks == [] then None
    else
      var before := FirstFailingName(checks[..|checks| - 1]);
      var last := checks[|checks| - 1];
      if before.None? && KindOf(last) == Failed then last.name else before
  }

  function StateOf(checks: seq<Check>): Option<CheckState> {
    var passed, failed, running := Count(checks, Passed), Count(checks, Failed), Count(checks, Running);
    var total := passed + failed + running;
    if total == 0 then (if Count(checks, Skipped) > 0 then Some(Success) else None)
    else if failed > 0 then Some(Failure(passed, total))
    else if running > 0 then Some(Pending(passed, total))
    else Some(Success)
  }

  function Elapsed(start: Option<int>, now: Option<int>): Option<int> {
    if start.None? || now.None? then None
    else Some(if now.value > start.value then now.value - start.value else 0)
  }

  function MetaOf(checks: seq<Check>, now: Option<int>): Option<CheckMeta> {
    var name := FirstFailingName(checks);
    var any := Earliest(checks, false);
    if Count(checks, Running) > 0 then
      var running := Earliest(checks, true);
      var started := if running.Some? then running else any;
      if started.Some? || name.Some? then Some(CheckMeta(started, None, name)) else None
    else if Count(checks, Failed) > 0 then
      var duration := Elapsed(any, now);
      if name.Some? || duration.Some? then Some(CheckMeta(any, duration, name)) else None
    else None
  }

  function Indices(checks: seq<Check>, kind: Kind): set<int> {
    set i | 0 <= i < |checks| && KindOf(checks[i]) == kind
  }

  lemma IndicesOneMore(init: seq<Check>, last: Check, kind: Kind)
    ensures Indices(init + [last], kind)
      == Indices(init, kind) + if KindOf(last) == kind then {|init|} else {}
  {
    hide KindOf;
  }

  lemma {:induction false} CountIsCardinality(checks: seq<Check>, kind: Kind)
    ensures Count(checks, kind) == |Indices(checks, kind)|
  {
    hide KindOf;
    if checks == [] {
      assert Indices(checks, kind) == {};
    } else {
      var n := |checks| - 1;
      var before := Indices(checks[..n], kind);
      CountIsCardinality(checks[..n], kind);
      assert checks == checks[..n] + [checks[n]];
      IndicesOneMore(checks[..n], checks[n], kind);
      assert n !in before;
      hide Indices;
      assert |before + {n}| == |before| + 1 && before + {} == before;
    }
  }

  /** The counts are how many checks have which statuses and conclusions. */
  lemma CountsAre(checks: seq<Check>)
    ensures Count(checks, Passed) == |set i | 0 <= i < |checks| && Succeeds(checks[i])|
    ensures Count(checks, Failed) == |set i | 0 <= i < |checks| && Fails(checks[i])|
    ensures Count(checks, Skipped) == |set i | 0 <= i < |checks| && Skips(checks[i])|
    ensures Count(checks, Running) == |set i | 0 <= i < |checks| && Runs(checks[i])|
  {
    hide KindOf, Count, Succeeds, Fails, Skips, Runs;
    forall c ensures (KindOf(c) == Passed <==> Succeeds(c)) && (KindOf(c) == Failed <==> Fails(c))
      && (KindOf(c) == Skipped <==> Skips(c)) && (KindOf(c) == Running <==> Runs(c))
    {
      KindIs(c);
    }
    CountIsCardinality(checks, Passed);
    CountIsCardinality(checks, Failed);
    CountIsCardinality(checks, Skipped);
    CountIsCardinality(checks, Running);
    assert (set i | 0 <= i < |checks| && KindOf(checks[i]) == Passed)
      == set i | 0 <= i < |checks| && Succeeds(checks[i]);
    assert (set i | 0 <= i < |checks| && KindOf(checks[i]) == Failed)
      == set i | 0 <= i < |checks| && Fails(checks[i]);
    assert (set i | 0 <= i < |checks| && KindOf(checks[i]) == Skipped)
      == set i | 0 <= i < |checks| && Skips(checks[i]);
    assert (set i | 0 <= i < |checks| && KindOf(checks[i]) == Running)
      == set i | 0 <= i < |checks| && Runs(checks[i]);
  }

  // ----- The loop -----

  method AggregateChecks(checks: seq<Check>, now: Option<int>)
      returns (state: Option<CheckState>, meta: Option<CheckMeta>)
    ensures state == StateOf(checks)
    ensures meta == MetaOf(checks, now)
    ensures var passed := |set i | 0 <= i < |checks| && Succeeds(checks[i])|;
      var failed := |set i | 0 <= i < |checks| && Fails(checks[i])|;
      var pending := |set i | 0 <= i < |checks| && Runs(checks[i])|;
      var skipped := |set i | 0 <= i < |checks| && Skips(checks[i])|;
      state == if failed > 0 then Some(Failure(passed, passed + failed + pending))
               else if pending > 0 then Some(Pending(passed, passed + pending))
               else if passed + skipped > 0 then Some(Success)
               else None
  {
    hide KindOf, StartOf, Succeeds, Fails, Skips, Runs;
    CountsAre(checks);
    if checks == [] {
      return None, None;
    }
    var passed, failed, pending, skipped := 0, 0, 0, 0;
    var earliestPendingStart: Option<int> := None;
    var earliestAnyStart: Option<int> := None;
    var failingName: Option<string> := None;
    for i := 0 to |checks|
      invariant passed == Count(checks[..i], Passed) && failed == Count(checks[..i], Failed)
      invariant pending == Count(checks[..i], Running) && skipped == Count(checks[..i], Skipped)
      invariant earliestPendingStart == Earliest(checks[..i], true)
      invariant earliestAnyStart == Earliest(checks[..i], false)
      invariant failingName == FirstFailingName(checks[..i])
    {
      var check := checks[i];
      assert checks[..i + 1][..i] == checks[..i];
      var start := StartOf(check);
      if start.Some? {
        earliestAnyStart := Some(if earliestAnyStart.Some? && earliestAnyStart.value <= start.value
                                 then earliestAnyStart.value else start.value);
      }
      match KindOf(check) {
        case Passed => passed := passed + 1;
        case Failed =>
          failed := failed + 1;
          if failingName.None? {
            failingName := check.name;
          }
        case Skipped => skipped := skipped + 1;
        case Running =>
          pending := pending + 1;
          if start.Some? {
            earliestPendingStart := Some(if earliestPendingStart.Some? && earliestPendingStart.value <= start.value
                                         then earliestPendingStart.value else start.value);
          }
        case Ignored =>
      }
    }
    assert checks[..|checks|] == checks;
    var total := passed + failed + pending;
    if total == 0 {
      return if skipped > 0 then Some(Success) else None, None;
    }
    state := Some(if failed > 0 then Failure(passed, total)
                  else if pending > 0 then Pending(passed, total)
                  else Success);
    meta := None;
    if pending > 0 {
      var started := if earliestPendingStart.Some? then earliestPendingStart else earliestAnyStart;
      if started.Some? || failingName.Some? {
        meta := Some(CheckMeta(started, None, failingName));
      }
    } else if failed > 0 {
      var duration := Elapsed(earliestAnyStart, now);
      if failingName.Some? || duration.Some? {
        meta := Some(CheckMeta(earliestAnyStart, duration, failingName));
      }
    }
  }

  // ----- What the counts say -----

  lemma {:induction false} EveryCheckCountedOnce(checks: seq<Check>)
    ensures Count(checks, Passed) + Count(checks, Failed) + Count(checks, Running)
      + Count(checks, Skipped) + Count(checks, Ignored) == |checks|
  {
    hide KindOf;
    if checks == [] {
    } else {
      EveryCheckCountedOnce(checks[..|checks| - 1]);
    }
  }

  lemma {:induction false} CountsAdd(a: seq<Check>, b: seq<Check>, kind: Kind)
    ensures Count(a + b, kind) == Count(a, kind) + Count(b, kind)
  {
    hide KindOf;
    if b == [] {
      assert a + b == a;
    } else {
      assert (a + b)[..|a + b| - 1] == a + b[..|b| - 1];
      CountsAdd(a, b[..|b| - 1], kind);
    }
  }

  ghost predicate Occurs(checks: seq<Check>, kind: Kind) {
    exists c :: c in checks && KindOf(c) == kind
  }

  lemma {:induction false} CountedIffOccurs(checks: seq<Check>, kind: Kind)
    ensures Count(checks, kind) > 0 <==> Occurs(checks, kind)
  {
    hide KindOf;
    if checks == [] {
    } else {
      var n := |checks| - 1;
      CountedIffOccurs(checks[..n], kind);
      assert checks == checks[..n] + [checks[n]];
      if Occurs(checks[..n], kind) {
        var c :| c in checks[..n] && KindOf(c) == kind;
        assert c in checks;
      }
    }
  }

  /** Failure beats pending beats success; only when every check is ignored is there no state. */
  lemma StatePrecedence(checks: seq<Check>)
    ensures var s := StateOf(checks);
      && (s.Some? && s.value.Failure? <==> Occurs(checks, Failed))
      && (s.Some? && s.value.Pending? <==> Occurs(checks, Running) && !Occurs(checks, Failed))
      && (s == Some(Success) <==> !Occurs(checks, Failed) && !Occurs(checks, Running)
                                  && (Occurs(checks, Passed) || Occurs(checks, Skipped)))
      && (s.None? <==> forall c :: c in checks ==> KindOf(c) == Ignored)
  {
    hide KindOf;
    CountedIffOccurs(checks, Passed);
    CountedIffOccurs(checks, Failed);
    CountedIffOccurs(checks, Running);
    CountedIffOccurs(checks, Skipped);
  }

  // ----- Order does not matter, except for the name -----

  function Without(checks: seq<Check>, i: nat): seq<Check>
    requires i < |checks|
  {
    checks[..i] + checks[i + 1..]
  }

  lemma WithoutMultiset(checks: seq<Check>, i: nat)
    requires i < |checks|
    ensures multiset(Without(checks, i)) == multiset(checks) - multiset{checks[i]}
  {
    assert checks == checks[..i] + [checks[i]] + checks[i + 1..];
  }

  lemma {:induction false} CountWithout(checks: seq<Check>, i: nat, kind: Kind)
    requires i < |checks|
    ensures Count(checks, kind) == Count(Without(checks, i), kind) + (if KindOf(checks[i]) == kind then 1 else 0)
  {
    hide KindOf;
    CountsAdd(checks[..i], checks[i + 1..], kind);
    CountsAdd(checks[..i], [checks[i]], kind);
    CountsAdd(checks[..i] + [checks[i]], checks[i + 1..], kind);
    assert checks == checks[..i] + [checks[i]] + checks[i + 1..];
    assert [checks[i]][..0] == [];
  }

  lemma {:induction false} EarliestConcat(a: seq<Check>, b: seq<Check>, runningOnly: bool)
    ensures Earliest(a + b, runningOnly) == Smaller(Earliest(a, runningOnly), Earliest(b, runningOnly))
  {
    hide KindOf, StartOf;
    if b == [] {
      assert a + b == a;
    } else {
      assert (a + b)[..|a + b| - 1] == a + b[..|b| - 1];
      EarliestConcat(a, b[..|b| - 1], runningOnly);
    }
  }

  lemma EarliestWithout(checks: seq<Check>, i: nat, runningOnly: bool)
    requires i < |checks|
    ensures Earliest(checks, runningOnly)
      == Smaller(Earliest(Without(checks, i), runningOnly), Earliest([checks[i]], runningOnly))
  {
    hide KindOf, StartOf, Earliest;
    EarliestConcat(checks[..i], checks[i + 1..], runningOnly);
    EarliestConcat(checks[..i], [checks[i]], runningOnly);
    EarliestConcat(checks[..i] + [checks[i]], checks[i + 1..], runningOnly);
    assert checks == checks[..i] + [checks[i]] + checks[i + 1..];
  }

  lemma {:induction false} PermutationsAgree(a: seq<Check>, b: seq<Check>, kind: Kind, runningOnly: bool)
    requires multiset(a) == multiset(b)
    ensures Count(a, kind) == Count(b, kind)
    ensures Earliest(a, runningOnly) == Earliest(b, runningOnly)
    decreases |a|
  {
    hide KindOf, StartOf, Count, Earliest;
    if a == [] {
      assert |multiset(b)| == |multiset(a)| == 0;
      assert b == [];
    } else {
      var n := |a| - 1;
      assert a[n] in multiset(b);
      var i :| 0 <= i < |b| && b[i] == a[n];
      WithoutMultiset(a, n);
      WithoutMultiset(b, i);
      PermutationsAgree(Without(a, n), Without(b, i), kind, runningOnly);
      CountWithout(a, n, kind);
      CountWithout(b, i, kind);
      EarliestWithout(a, n, runningOnly);
      EarliestWithout(b, i, runningOnly);
    }
  }

  // ----- Minima and the first name -----

  predicate Considered(c: Check, runningOnly: bool) {
    !runningOnly || KindOf(c) == Running
  }

  /** `Earliest` is a lower bound of the considered starts, is one of them, and is missing exactly
      when there are none. */
  lemma {:induction false} EarliestIsMinimum(checks: seq<Check>, runningOnly: bool)
    ensures var e := Earliest(checks, runningOnly);
      && (forall c :: c in checks && Considered(c, runningOnly) && StartOf(c).Some? ==>
            e.Some? && e.value <= StartOf(c).value)
      && (e.Some? ==> exists c :: c in checks && Considered(c, runningOnly) && StartOf(c) == e)
  {
    hide KindOf, StartOf;
    if checks == [] {
    } else {
      var n := |checks| - 1;
      EarliestIsMinimum(checks[..n], runningOnly);
      assert checks == checks[..n] + [checks[n]];
      var e, e0 := Earliest(checks, runningOnly), Earliest(checks[..n], runningOnly);
      if e.Some? {
        if e == e0 {
          var c :| c in checks[..n] && Considered(c, runningOnly) && StartOf(c) == e;
          assert c in checks;
        } else {
          assert StartOf(checks[n]) == e;
        }
      }
    }
  }

  predicate FirstNamedFailure(checks: seq<Check>, i: nat)
    requires i < |checks|
  {
    && KindOf(checks[i]) == Failed && checks[i].name.Some?
    && forall j :: 0 <= j < i && KindOf(checks[j]) == Failed ==> checks[j].name.None?
  }

  /** The failing name is the name of the first failed check that has one. */
  lemma {:induction false} FirstFailingNameIsFirst(checks: seq<Check>)
    ensures var name := FirstFailingName(checks);
      if name.None? then forall i :: 0 <= i < |checks| && KindOf(checks[i]) == Failed ==> checks[i].name.None?
      else exists i :: 0 <= i < |checks| && FirstNamedFailure(checks, i) && checks[i].name == name
  {
    hide KindOf;
    if checks == [] {
    } else {
      var n := |checks| - 1;
      var before := checks[..n];
      FirstFailingNameIsFirst(before);
      if FirstFailingName(before).Some? {
        var i :| 0 <= i < |before| && FirstNamedFailure(before, i) && before[i].name == FirstFailingName(before);
        assert checks[i] == before[i];
        forall j | 0 <= j < i && KindOf(checks[j]) == Failed ensures checks[j].name.None? {
          assert checks[j] == before[j];
        }
        assert FirstNamedFailure(checks, i);
      } else {
        forall j | 0 <= j < n && KindOf(checks[j]) == Failed ensures checks[j].name.None? {
          assert checks[j] == before[j];
        }
        if KindOf(checks[n]) == Failed && checks[n].name.Some? {
          assert FirstNamedFailure(checks, n);
        }
      }
    }
  }

  // ----- Exactly when the name ignores the order -----

  predicate NamedFailure(c: Check) {
    KindOf(c) == Failed && c.name.Some?
  }

  /** All failed checks that have a name have the same one. */
  ghost predicate OneFailingName(checks: seq<Check>) {
    forall x, y :: x in checks && y in checks && NamedFailure(x) && NamedFailure(y) ==> x.name == y.name
  }

  lemma SameMembers(a: seq<Check>, b: seq<Check>, c: Check)
    requires multiset(a) == multiset(b)
    ensures c in a <==> c in b
  {
    assert c in a <==> c in multiset(a);
    assert c in b <==> c in multiset(b);
  }

  /** The failing name is some named failure's, and missing exactly when there is none. */
  lemma FailingNameIsSomeones(checks: seq<Check>)
    ensures var name := FirstFailingName(checks);
      if name.None? then forall c :: c in checks ==> !NamedFailure(c)
      else exists c :: c in checks && NamedFailure(c) && c.name == name
  {
    hide KindOf, FirstFailingName;
    FirstFailingNameIsFirst(checks);
    if FirstFailingName(checks).Some? {
      var i :| 0 <= i < |checks| && FirstNamedFailure(checks, i) && checks[i].name == FirstFailingName(checks);
      assert checks[i] in checks;
    }
  }

  lemma {:induction false} FirstFailingNameOfHead(x: Check, rest: seq<Check>)
    requires NamedFailure(x)
    ensures FirstFailingName([x] + rest) == x.name
  {
    hide KindOf;
    var all := [x] + rest;
    if rest == [] {
      assert all[..0] == [];
    } else {
      FirstFailingNameOfHead(x, rest[..|rest| - 1]);
      assert all[..|all| - 1] == [x] + rest[..|rest| - 1];
    }
  }

  /** The state depends only on which checks there are, and so does all of the metadata but the name. */
  lemma StateIgnoresOrder(a: seq<Check>, b: seq<Check>, now: Option<int>)
    requires multiset(a) == multiset(b)
    ensures StateOf(a) == StateOf(b)
    ensures MetaOf(a, now).None? <==> MetaOf(b, now).None?
    ensures MetaOf(a, now).Some? ==>
      MetaOf(a, now).value == MetaOf(b, now).value.(failingName := FirstFailingName(a))
  {
    hide Count, Earliest, FirstFailingName, NamedFailure;
    PermutationsAgree(a, b, Passed, true);
    PermutationsAgree(a, b, Failed, false);
    PermutationsAgree(a, b, Running, true);
    PermutationsAgree(a, b, Skipped, true);
    FailingNameIsSomeones(a);
    FailingNameIsSomeones(b);
    forall c ensures c in a <==> c in b {
      SameMembers(a, b, c);
    }
  }

  lemma SameNameInEveryOrder(a: seq<Check>, b: seq<Check>)
    requires multiset(a) == multiset(b) && OneFailingName(a)
    ensures FirstFailingName(a) == FirstFailingName(b)
  {
    hide NamedFailure, FirstFailingName;
    FailingNameIsSomeones(a);
    FailingNameIsSomeones(b);
    forall c ensures c in a <==> c in b {
      SameMembers(a, b, c);
    }
  }

  /** Any named failure can come first. */
  lemma MovedToFront(a: seq<Check>, x: Check) returns (b: seq<Check>)
    requires x in a && NamedFailure(x)
    ensures multiset(b) == multiset(a) && FirstFailingName(b) == x.name
  {
    hide NamedFailure, FirstFailingName;
    var i :| 0 <= i < |a| && a[i] == x;
    b := [x] + Without(a, i);
    WithoutMultiset(a, i);
    FirstFailingNameOfHead(x, Without(a, i));
    assert multiset(a)[x] > 0;
    assert multiset(b) == multiset{x} + multiset(Without(a, i));
  }

  /** Two orders that give two different failing names, if the named failures do not agree. */
  lemma TwoOrders(a: seq<Check>) returns (b: seq<Check>, c: seq<Check>)
    requires !OneFailingName(a)
    ensures multiset(b) == multiset(c) == multiset(a)
    ensures FirstFailingName(b).Some? && FirstFailingName(c).Some?
    ensures FirstFailingName(b) != FirstFailingName(c)
  {
    hide KindOf, FirstFailingName;
    var x, y :| x in a && y in a && NamedFailure(x) && NamedFailure(y) && x.name != y.name;
    b := MovedToFront(a, x);
    c := MovedToFront(a, y);
  }

  /** Every order of the checks gives the same failing name exactly when all named failures share it. */
  lemma NameIgnoresOrderIff(a: seq<Check>)
    ensures (forall b :: multiset(b) == multiset(a) ==> FirstFailingName(b) == FirstFailingName(a))
      <==> OneFailingName(a)
  {
    hide FirstFailingName, OneFailingName;
    if OneFailingName(a) {
      forall b | multiset(b) == multiset(a) ensures FirstFailingName(b) == FirstFailingName(a) {
        SameNameInEveryOrder(a, b);
      }
    } else {
      var b, c := TwoOrders(a);
      assert FirstFailingName(b) != FirstFailingName(a) || FirstFailingName(c) != FirstFailingName(a);
    }
  }

  /** Metadata carries the failing name, and there is some whenever there is such a name. */
  lemma MetaShowsName(checks: seq<Check>, now: Option<int>)
    ensures FirstFailingName(checks).Some? ==> MetaOf(checks, now).Some?
    ensures MetaOf(checks, now).Some? ==> MetaOf(checks, now).value.failingName == FirstFailingName(checks)
  {
    hide KindOf, FirstFailingName, Count, Earliest;
    FailingNameIsSomeones(checks);
    CountedIffOccurs(checks, Failed);
  }

  /** ... and so the metadata ignores the order in exactly the same case. */
  lemma MetaIgnoresOrderIff(a: seq<Check>, now: Option<int>)
    ensures (forall b :: multiset(b) == multiset(a) ==> MetaOf(b, now) == MetaOf(a, now)) <==> OneFailingName(a)
  {
    hide FirstFailingName, OneFailingName, MetaOf;
    if OneFailingName(a) {
      forall b | multiset(b) == multiset(a) ensures MetaOf(b, now) == MetaOf(a, now) {
        SameNameInEveryOrder(a, b);
        StateIgnoresOrder(b, a, now);
        MetaShowsName(a, now);
        MetaShowsName(b, now);
      }
    } else {
      var b, c := TwoOrders(a);
      MetaShowsName(b, now);
      MetaShowsName(c, now);
      assert MetaOf(b, now) != MetaOf(a, now) || MetaOf(c, now) != MetaOf(a, now);
    }
  }

  // ----- What the metadata says -----

  function Started(c: Check): Option<int> {
    if c.startedAt.Some? then TimestampOf(c.startedAt.value) else None
  }

  /** `start` is the least start of the checks, or of the pending ones only; missing if none has one. */
  ghost predicate IsEarliest(checks: seq<Check>, pendingOnly: bool, start: Option<int>) {
    if start.None? then forall c :: c in checks && (pendingOnly ==> Runs(c)) ==> Started(c) == None
    else
      && (exists c :: c in checks && (pendingOnly ==> Runs(c)) && Started(c) == start)
      && (forall c :: c in checks && (pendingOnly ==> Runs(c)) && Started(c).Some? ==> start.value <= Started(c).value)
  }

  lemma EarliestIs(checks: seq<Check>, pendingOnly: bool)
    ensures IsEarliest(checks, pendingOnly, Earliest(checks, pendingOnly))
  {
    hide KindOf, Earliest, Runs, TimestampOf;
    EarliestIsMinimum(checks, pendingOnly);
    forall c ensures Considered(c, pendingOnly) <==> (pendingOnly ==> Runs(c)) {
      KindIs(c);
    }
  }

  ghost predicate Any(checks: seq<Check>, p: Check -> bool) {
    exists c :: c in checks && p(c)
  }

  lemma AnyIsCounted(checks: seq<Check>)
    ensures Count(checks, Failed) > 0 <==> Any(checks, Fails)
    ensures Count(checks, Running) > 0 <==> Any(checks, Runs)
  {
    hide KindOf, Count, Fails, Runs;
    CountedIffOccurs(checks, Failed);
    CountedIffOccurs(checks, Running);
    forall c ensures (KindOf(c) == Failed <==> Fails(c)) && (KindOf(c) == Running <==> Runs(c)) {
      KindIs(c);
    }
  }

  /** While a check is pending the metadata is about when: the earliest start of a pending check, or of any
      if no pending one has a start.  Once none is and one failed, it has the earliest start of all and the
      time since, never negative.  Otherwise there is none; nor is there any with nothing to tell. */
  lemma MetaIs(checks: seq<Check>, now: Option<int>)
    ensures var meta := MetaOf(checks, now); var name := FirstFailingName(checks);
      && (meta.Some? ==> meta.value.failingName == name)
      && (Any(checks, Runs) ==>
            && (meta.Some? <==> name.Some? || !IsEarliest(checks, false, None))
            && (meta.Some? ==>
                  && meta.value.durationSecs == None
                  && IsEarliest(checks, !IsEarliest(checks, true, None), meta.value.startedAt)))
      && (!Any(checks, Runs) && Any(checks, Fails) ==>
            && (meta.Some? <==> name.Some? || (!IsEarliest(checks, false, None) && now.Some?))
            && (meta.Some? ==>
                  && IsEarliest(checks, false, meta.value.startedAt)
                  && Lasted(meta.value.durationSecs, meta.value.startedAt, now)))
      && (!Any(checks, Runs) && !Any(checks, Fails) ==> meta.None?)
  {
    hide KindOf, Count, Earliest, FirstFailingName, Any, Fails, Runs, TimestampOf;
    AnyIsCounted(checks);
    EarliestIs(checks, true);
    EarliestIs(checks, false);
  }

  /** The time from `start` to `now`, if both are known; none at all if the clock went back. */
  predicate Lasted(duration: Option<int>, start: Option<int>, now: Option<int>) {
    && (duration.Some? <==> start.Some? && now.Some?)
    && (duration.Some? ==>
          && duration.value >= 0
          && (start.value + duration.value == now.value || (duration.value == 0 && now.value < start.value)))
  }

  /** One check that failed, for the example below. */
  function FailedCheck(name: string): Check {
    Check(Some("FAILURE"), None, Some(name), None)
  }

  lemma NameDependsOnOrder()
    ensures var x, y := FailedCheck("x"), FailedCheck("y");
      && multiset([x, y]) == multiset([y, x])
      && FirstFailingName([x, y]) == Some("x") && FirstFailingName([y, x]) == Some("y")
  {
    var x, y := FailedCheck("x"), FailedCheck("y");
    FirstFailingNameOfHead(x, [y]);
    FirstFailingNameOfHead(y, [x]);
    assert [x] + [y] == [x, y] && [y] + [x] == [y, x];
  }
}
