/**
 The on-disk status cache: what one save computes (`Apply`), what a sequence of committed saves
 leaves behind (`Fold`), and the protocol by which any number of processes save and read it at once.

 A save takes an exclusive lock, loads the file, merges, writes a temporary file, renames it over the
 target and drops the lock; readers take no lock.  Both caches (pull requests, checks) use the same
 protocol on different files, so the entry type is a parameter.
 */
module CacheProtocol {
  import opened Common

  type Cache<E> = map<string, map<string, E>>

  /** What the path names.  `Garbage` is any content that does not decode. */
  datatype File<E> = Absent | Garbage | Encoded(cache: Cache<E>)

  /** Loading never fails: a missing or undecodable file reads as the empty cache. */
  function Load<E>(f: File<E>): Cache<E> {
    if f.Encoded? then f.cache else map[]
  }

  /** One save's effect: a repository's entry is replaced, or removed when its new map is empty. */
  function Apply<E>(base: Cache<E>, update: Cache<E>): Cache<E> {
    map r | r in base.Keys + update.Keys && (r in update ==> update[r].Keys != {})
      :: if r in update then update[r] else base[r]
  }

  /** A committed save.  It is `blind` when reading the existing file failed, so it merged onto nothing. */
  datatype Commit<E> = Commit(update: Cache<E>, blind: bool)

  function Fold<E>(initial: Cache<E>, log: seq<Commit<E>>): Cache<E> {
    if log == [] then initial
    else
      var last := log[|log| - 1];
      Apply(if last.blind then map[] else Fold(initial, log[..|log| - 1]), last.update)
  }

  /** The merge loop of a save, in whatever order the update's repositories are visited. */
  method MergeStatuses<E>(base: Cache<E>, update: Cache<E>) returns (merged: Cache<E>)
    ensures merged == Apply(base, update)
  {
    merged := base;
    var todo := update.Keys;
    while todo != {}
      invariant todo <= update.Keys
      invariant forall r :: r in merged <==>
        if r in update && r !in todo then update[r].Keys != {} else r in base
      invariant forall r :: r in merged ==>
        merged[r] == if r in update && r !in todo then update[r] else base[r]
      decreases todo
    {
      var repo :| repo in todo;
      if update[repo].Keys == {} {
        merged := merged - {repo};
      } else {
        merged := merged[repo := update[repo]];
      }
      todo := todo - {repo};
    }
  }

  /** What can go wrong inside one save; each makes the source return early or fall back. */
  datatype Faults = Faults(lockFails: bool, readFails: bool, encodeFails: bool, writeFails: bool)

  /** One cache file as a single process sees it. */
  class Store<E> {
    var file: File<E>

    constructor (f: File<E>)
      ensures file == f
    {
      file := f;
    }

    method LoadFile(readFails: bool) returns (cache: Cache<E>)
      ensures cache == if readFails then map[] else Load(file)
    {
      if file.Absent? || readFails {
        return map[];
      }
      cache := if file.Garbage? then map[] else file.cache;
    }

    /** A save either leaves the file alone or replaces it by the merge onto what it could load. */
    method Save(update: Cache<E>, faults: Faults)
      modifies this
      ensures file == if faults.lockFails || faults.encodeFails || faults.writeFails then old(file)
                      else Encoded(Apply(if faults.readFails then map[] else Load(old(file)), update))
    {
      if faults.lockFails {
        return;
      }
      var loaded := LoadFile(faults.readFails);
      var merged := MergeStatuses(loaded, update);
      if faults.encodeFails {
        return;
      }
      // Writing the temporary file can fail; only the rename touches the target.
      if !faults.writeFails {
        file := Encoded(merged);
      }
    }
  }

  // ----- What a log of commits means for one repository -----

  lemma {:induction false} LastWriterWins<E>(initial: Cache<E>, log: seq<Commit<E>>, repo: string, i: nat)
    requires i < |log| && repo in log[i].update
    requires forall j :: i < j < |log| ==> repo !in log[j].update && !log[j].blind
    ensures repo in Fold(initial, log) <==> log[i].update[repo].Keys != {}
    ensures repo in Fold(initial, log) ==> Fold(initial, log)[repo] == log[i].update[repo]
  {
    if i == |log| - 1 {
    } else {
      LastWriterWins(initial, log[..|log| - 1], repo, i);
    }
  }

  lemma {:induction false} UntouchedKeepsInitial<E>(initial: Cache<E>, log: seq<Commit<E>>, repo: string)
    requires forall j :: 0 <= j < |log| ==> repo !in log[j].update && !log[j].blind
    ensures repo in Fold(initial, log) <==> repo in initial
    ensures repo in initial ==> Fold(initial, log)[repo] == initial[repo]
  {
    if log == [] {
    } else {
      UntouchedKeepsInitial(initial, log[..|log| - 1], repo);
    }
  }

  /** A blind commit wipes every repository that nobody writes from then on. */
  lemma {:induction false} BlindCommitWipes<E>(initial: Cache<E>, log: seq<Commit<E>>, repo: string, i: nat)
    requires i < |log| && log[i].blind
    requires forall j :: i <= j < |log| ==> repo !in log[j].update
    ensures repo !in Fold(initial, log)
  {
    if i == |log| - 1 {
    } else {
      BlindCommitWipes(initial, log[..|log| - 1], repo, i);
    }
  }

  /** An entry that nobody rewrites stays exactly until a blind commit, which removes it. */
  lemma EntryStaysIff<E>(initial: Cache<E>, log: seq<Commit<E>>, repo: string, i: nat)
    requires i < |log| && repo in log[i].update && log[i].update[repo].Keys != {}
    requires forall j :: i < j < |log| ==> repo !in log[j].update
    ensures repo in Fold(initial, log) <==> forall j :: i < j < |log| ==> !log[j].blind
    ensures repo in Fold(initial, log) ==> Fold(initial, log)[repo] == log[i].update[repo]
  {
    hide Fold;
    if j :| i < j < |log| && log[j].blind {
      BlindCommitWipes(initial, log, repo, j);
    } else {
      LastWriterWins(initial, log, repo, i);
    }
  }

  // ----- The protocol -----

  /** Where one saver is.  Every phase but `Idle` holds the lock. */
  datatype Phase<E> =
    | Idle
    | Holding(update: Cache<E>)
    | Probed(update: Cache<E>, found: bool)
    | Loaded(update: Cache<E>, base: Cache<E>, blind: bool)
    | Staging(update: Cache<E>, blind: bool, content: Cache<E>, temp: nat)
    | Staged(update: Cache<E>, blind: bool, content: Cache<E>, temp: nat)
    | Saved

  /** Where one reader is.  `start` and `at` are log lengths, kept to say which commits a read saw. */
  datatype ReadPhase<E> =
    | Checked(start: nat)
    | Opened(snapshot: File<E>, start: nat, at: nat)

  datatype ReadResult<E> = ReadResult(value: Cache<E>, start: nat, at: nat, end: nat, failed: bool)

  datatype State<E> = State(
    file: File<E>,
    lock: Option<nat>,
    temps: map<nat, File<E>>,
    savers: map<nat, Phase<E>>,
    readers: map<nat, ReadPhase<E>>,
    initial: Cache<E>,
    log: seq<Commit<E>>,
    results: seq<ReadResult<E>>)

  datatype Step<E> =
    | Lock(p: nat, update: Cache<E>)
    | Probe(p: nat)
    | Read(p: nat)
    | ReadFails(p: nat)
    | Stage(p: nat, temp: nat, victims: set<nat>)
    | Finish(p: nat)
    | Rename(p: nat)
    | Release(p: nat)
    | Crash(p: nat)
    | ReaderChecks(p: nat)
    | ReaderOpens(p: nat)
    | ReaderReturns(p: nat)
    | ReaderFails(p: nat)

  function PhaseOf<E>(s: State<E>, p: nat): Phase<E> {
    if p in s.savers then s.savers[p] else Idle
  }

  function InitialState<E>(f: File<E>): State<E> {
    State(f, None, map[], map[], map[], Load(f), [], [])
  }

  predicate Enabled<E>(s: State<E>, step: Step<E>) {
    match step
    case Lock(p, _) => s.lock == None && PhaseOf(s, p) == Idle
    case Probe(p) => PhaseOf(s, p).Holding?
    case Read(p) => PhaseOf(s, p).Probed?
    case ReadFails(p) => PhaseOf(s, p).Probed? && PhaseOf(s, p).found
    case Stage(p, temp, victims) => PhaseOf(s, p).Loaded? && (temp in s.temps ==> temp in victims)
    case Finish(p) => PhaseOf(s, p).Staging?
    case Rename(p) => PhaseOf(s, p).Staged? && PhaseOf(s, p).temp in s.temps
    case Release(p) => PhaseOf(s, p) != Idle
    case Crash(p) => PhaseOf(s, p) != Idle
    case ReaderChecks(p) => p !in s.readers
    case ReaderOpens(p) => p in s.readers && s.readers[p].Checked?
    case ReaderReturns(p) => p in s.readers && s.readers[p].Opened?
    case ReaderFails(p) => p in s.readers
  }

  /** A step's effect.  Renaming installs whatever the temporary file really holds. */
  function Do<E>(s: State<E>, step: Step<E>): State<E>
    requires Enabled(s, step)
  {
    match step
    case Lock(p, update) =>
      s.(lock := Some(p), savers := s.savers[p := Holding(update)])
    case Probe(p) =>
      s.(savers := s.savers[p := Probed(PhaseOf(s, p).update, !s.file.Absent?)])
    case Read(p) =>
      var ph := PhaseOf(s, p);
      s.(savers := s.savers[p := Loaded(ph.update, if ph.found then Load(s.file) else map[], false)])
    case ReadFails(p) =>
      s.(savers := s.savers[p := Loaded(PhaseOf(s, p).update, map[], true)])
    case Stage(p, temp, victims) =>
      var ph := PhaseOf(s, p);
      s.(temps := (s.temps - victims)[temp := Garbage],
         savers := s.savers[p := Staging(ph.update, ph.blind, Apply(ph.base, ph.update), temp)])
    case Finish(p) =>
      var ph := PhaseOf(s, p);
      s.(temps := s.temps[ph.temp := Encoded(ph.content)],
         savers := s.savers[p := Staged(ph.update, ph.blind, ph.content, ph.temp)])
    case Rename(p) =>
      var ph := PhaseOf(s, p);
      s.(file := s.temps[ph.temp],
         temps := s.temps - {ph.temp},
         savers := s.savers[p := Saved],
         log := s.log + [Commit(ph.update, ph.blind)])
    case Release(p) =>
      // The temporary file, if any, is deleted on the way out, then the lock is dropped.
      var ph := PhaseOf(s, p);
      s.(lock := if s.lock == Some(p) then None else s.lock,
         temps := if ph.Staging? || ph.Staged? then s.temps - {ph.temp} else s.temps,
         savers := s.savers[p := Idle])
    case Crash(p) =>
      // The kernel drops the lock; a temporary file stays behind.
      s.(lock := if s.lock == Some(p) then None else s.lock, savers := s.savers[p := Idle])
    case ReaderChecks(p) =>
      var n := |s.log|;
      if s.file.Absent?
      then s.(results := s.results + [ReadResult(map[], n, n, n, false)])
      else s.(readers := s.readers[p := Checked(n)])
    case ReaderOpens(p) =>
      s.(readers := s.readers[p := Opened(s.file, s.readers[p].start, |s.log|)])
    case ReaderReturns(p) =>
      var r := s.readers[p];
      s.(readers := s.readers - {p},
         results := s.results + [ReadResult(Load(r.snapshot), r.start, r.at, |s.log|, false)])
    case ReaderFails(p) =>
      var r := s.readers[p];
      s.(readers := s.readers - {p},
         results := s.results + [ReadResult(map[], r.start, r.start, |s.log|, true)])
  }

  predicate Possible<E>(s: State<E>, steps: seq<Step<E>>)
    decreases |steps|
  {
    steps == [] || (Enabled(s, steps[0]) && Possible(Do(s, steps[0]), steps[1..]))
  }

  function Run<E>(s: State<E>, steps: seq<Step<E>>): State<E>
    requires Possible(s, steps)
    decreases |steps|
  {
    if steps == [] then s else Run(Do(s, steps[0]), steps[1..])
  }

  // ----- The invariant -----

  ghost predicate SaverOk<E>(s: State<E>, p: nat) {
    var ph := PhaseOf(s, p);
    && (ph != Idle <==> s.lock == Some(p))
    && (ph.Probed? ==> ph.found == !s.file.Absent?)
    && (ph.Loaded? ==> ph.base == if ph.blind then map[] else Load(s.file))
    && (ph.Staging? || ph.Staged? ==>
          && ph.content == Apply(if ph.blind then map[] else Load(s.file), ph.update)
          && ph.temp in s.temps)
    && (ph.Staged? ==> s.temps[ph.temp] == Encoded(ph.content))
  }

  ghost predicate ReaderOk<E>(s: State<E>, p: nat)
    requires p in s.readers
  {
    match s.readers[p]
    case Checked(start) => start <= |s.log|
    case Opened(snapshot, start, at) =>
      start <= at <= |s.log| && Load(snapshot) == Fold(s.initial, s.log[..at])
  }

  ghost predicate ResultOk<E>(s: State<E>, r: ReadResult<E>) {
    && r.start <= r.at <= r.end <= |s.log|
    && (if r.failed then r.value == map[] else r.value == Fold(s.initial, s.log[..r.at]))
  }

  ghost predicate Inv<E>(s: State<E>) {
    && Load(s.file) == Fold(s.initial, s.log)
    && (forall p :: SaverOk(s, p))
    && (forall p :: p in s.readers ==> ReaderOk(s, p))
    && (forall i :: 0 <= i < |s.results| ==> ResultOk(s, s.results[i]))
  }

  lemma WholeLog<E>(log: seq<Commit<E>>)
    ensures log[..|log|] == log
  {
  }

  /** The file a rename installs is the fold of the log it leaves. */
  lemma RenameFolds<E>(s: State<E>, p: nat)
    requires Load(s.file) == Fold(s.initial, s.log) && SaverOk(s, p) && Enabled(s, Rename(p))
    ensures var s' := Do(s, Rename(p)); Load(s'.file) == Fold(s'.initial, s'.log)
  {
    hide ReaderOk, ResultOk, Apply;
    var s' := Do(s, Rename(p));
    assert s'.log[..|s'.log| - 1] == s.log;
  }

  lemma RenameKeepsSavers<E>(s: State<E>, p: nat, q: nat)
    requires SaverOk(s, p) && SaverOk(s, q) && Enabled(s, Rename(p))
    ensures SaverOk(Do(s, Rename(p)), q)
  {
    hide Fold, Apply, ReaderOk, ResultOk;
  }

  lemma RenameKeepsInv<E>(s: State<E>, p: nat)
    requires Inv(s) && Enabled(s, Rename(p))
    ensures Inv(Do(s, Rename(p)))
  {
    hide Fold, Apply, SaverOk;
    var s' := Do(s, Rename(p));
    RenameFolds(s, p);
    forall q ensures SaverOk(s', q) {
      RenameKeepsSavers(s, p, q);
    }
    forall n: nat | n <= |s.log| ensures s'.log[..n] == s.log[..n] {
    }
    forall q | q in s'.readers ensures ReaderOk(s', q) {
      assert ReaderOk(s, q);
    }
    forall i | 0 <= i < |s'.results| ensures ResultOk(s', s'.results[i]) {
      assert ResultOk(s, s.results[i]);
    }
  }

  lemma SaverStepKeepsInv<E>(s: State<E>, step: Step<E>)
    requires Inv(s) && Enabled(s, step)
    requires step.Lock? || step.Probe? || step.Read? || step.ReadFails? || step.Stage? || step.Finish?
             || step.Release? || step.Crash?
    ensures Inv(Do(s, step))
  {
    var s' := Do(s, step);
    assert SaverOk(s, step.p);
    forall q ensures SaverOk(s', q) {
      assert SaverOk(s, q);
    }
    forall q | q in s'.readers ensures ReaderOk(s', q) {
      assert ReaderOk(s, q);
    }
    forall i | 0 <= i < |s'.results| ensures ResultOk(s', s'.results[i]) {
      assert ResultOk(s, s.results[i]);
    }
  }

  lemma SaverIgnoresReaders<E>(s: State<E>, s': State<E>, p: nat)
    requires SaverOk(s, p)
    requires s'.file == s.file && s'.lock == s.lock && s'.temps == s.temps && s'.savers == s.savers
    ensures SaverOk(s', p)
  {
  }

  lemma ReaderStepKeepsInv<E>(s: State<E>, step: Step<E>)
    requires Inv(s) && Enabled(s, step)
    requires step.ReaderChecks? || step.ReaderOpens? || step.ReaderReturns? || step.ReaderFails?
    ensures Inv(Do(s, step))
  {
    hide Fold, Apply, SaverOk;
    var s' := Do(s, step);
    WholeLog(s.log);
    if !step.ReaderChecks? {
      assert ReaderOk(s, step.p);
    }
    forall q ensures SaverOk(s', q) {
      SaverIgnoresReaders(s, s', q);
    }
    forall q | q in s'.readers ensures ReaderOk(s', q) {
      assert q != step.p ==> ReaderOk(s, q);
    }
    forall i | 0 <= i < |s'.results| ensures ResultOk(s', s'.results[i]) {
      assert i < |s.results| ==> ResultOk(s, s.results[i]);
    }
  }

  lemma StepKeepsInv<E>(s: State<E>, step: Step<E>)
    requires Inv(s) && Enabled(s, step)
    ensures Inv(Do(s, step))
  {
    if step.Rename? {
      RenameKeepsInv(s, step.p);
    } else if step.ReaderChecks? || step.ReaderOpens? || step.ReaderReturns? || step.ReaderFails? {
      ReaderStepKeepsInv(s, step);
    } else {
      SaverStepKeepsInv(s, step);
    }
  }

  lemma {:induction false} RunKeepsInv<E>(s: State<E>, steps: seq<Step<E>>)
    requires Inv(s) && Possible(s, steps)
    ensures Inv(Run(s, steps)) && Run(s, steps).initial == s.initial
    decreases |steps|
  {
    if steps == [] {
    } else {
      StepKeepsInv(s, steps[0]);
      RunKeepsInv(Do(s, steps[0]), steps[1..]);
    }
  }

  // ----- Main results: every interleaving, from any starting file -----

  /** However savers, readers, failures and crashes interleave, the file is the fold of the commits. */
  lemma EveryRunFolds<E>(f: File<E>, steps: seq<Step<E>>)
    requires Possible(InitialState(f), steps)
    ensures var s := Run(InitialState(f), steps);
      Load(s.file) == Fold(Load(f), s.log)
  {
    RunKeepsInv(InitialState(f), steps);
  }

  /** Every read that does not fail returns the state after some commit that falls inside the read. */
  lemma EveryReadIsCommitted<E>(f: File<E>, steps: seq<Step<E>>, i: nat)
    requires Possible(InitialState(f), steps)
    requires i < |Run(InitialState(f), steps).results|
    ensures var s := Run(InitialState(f), steps); var r := s.results[i];
      && r.start <= r.at <= r.end <= |s.log|
      && (!r.failed ==> r.value == Fold(Load(f), s.log[..r.at]))
      && (r.failed ==> r.value == map[])
  {
    RunKeepsInv(InitialState(f), steps);
    var s := Run(InitialState(f), steps);
    assert ResultOk(s, s.results[i]);
  }

  /** At most one saver is past taking the lock. */
  lemma SaversExcludeEachOther<E>(f: File<E>, steps: seq<Step<E>>, p: nat, q: nat)
    requires Possible(InitialState(f), steps)
    requires var s := Run(InitialState(f), steps);
      PhaseOf(s, p) != Idle && PhaseOf(s, q) != Idle
    ensures p == q
  {
    RunKeepsInv(InitialState(f), steps);
    var s := Run(InitialState(f), steps);
    assert SaverOk(s, p) && SaverOk(s, q);
  }

  /** A saver that has finished writing can always rename: no clean-up of stale files has removed its
      own.  What it installs is its merge onto the file as it is at that moment. */
  lemma RenameInstallsMerge<E>(f: File<E>, steps: seq<Step<E>>, p: nat)
    requires Possible(InitialState(f), steps)
    requires PhaseOf(Run(InitialState(f), steps), p).Staged?
    ensures var s := Run(InitialState(f), steps); var ph := PhaseOf(s, p);
      && Enabled(s, Rename(p))
      && Do(s, Rename(p)).file
         == Encoded(Apply(if ph.blind then map[] else Load(s.file), ph.update))
  {
    RunKeepsInv(InitialState(f), steps);
    assert SaverOk(Run(InitialState(f), steps), p);
  }

  /** No update is lost: without a failed load, each repository holds its last committed writer's entry. */
  lemma NoUpdateLost<E>(f: File<E>, steps: seq<Step<E>>, repo: string, i: nat)
    requires Possible(InitialState(f), steps)
    requires var log := Run(InitialState(f), steps).log;
      && i < |log| && repo in log[i].update
      && (forall j :: i < j < |log| ==> repo !in log[j].update && !log[j].blind)
    ensures var s := Run(InitialState(f), steps); var entry := s.log[i].update[repo];
      && (repo in Load(s.file) <==> entry.Keys != {})
      && (repo in Load(s.file) ==> Load(s.file)[repo] == entry)
  {
    EveryRunFolds(f, steps);
    LastWriterWins(Load(f), Run(InitialState(f), steps).log, repo, i);
  }

  /** Exactly when an update is lost: after any run, an entry that no later commit rewrites is in the
      file if and only if no later commit's load failed. */
  lemma UpdateKeptIff<E>(f: File<E>, steps: seq<Step<E>>, repo: string, i: nat)
    requires Possible(InitialState(f), steps)
    requires var log := Run(InitialState(f), steps).log;
      && i < |log| && repo in log[i].update && log[i].update[repo].Keys != {}
      && (forall j :: i < j < |log| ==> repo !in log[j].update)
    ensures var s := Run(InitialState(f), steps);
      && (repo in Load(s.file) <==> forall j :: i < j < |s.log| ==> !s.log[j].blind)
      && (repo in Load(s.file) ==> Load(s.file)[repo] == s.log[i].update[repo])
  {
    EveryRunFolds(f, steps);
    EntryStaysIff(Load(f), Run(InitialState(f), steps).log, repo, i);
  }

  /** Two saves, the second of which cannot read the file the first one wrote. */
  function LosingSteps<E>(e: E): seq<Step<E>> {
    SaveSteps(0, map["a" := map["main" := e]], 0)
    + [Lock(1, map["b" := map["main" := e]]), Probe(1), ReadFails(1), Stage(1, 0, {}), Finish(1), Rename(1)]
  }

  /** ... and a failed load does lose: a saver that cannot read the file erases another's entry. */
  lemma FailedLoadLosesUpdates<E>(e: E)
    ensures Possible(InitialState(Absent), LosingSteps(e))
    ensures var s := Run(InitialState(Absent), LosingSteps(e));
      && |s.log| == 2
      && s.log[0].update == map["a" := map["main" := e]]
      && "a" !in s.log[1].update
      && "a" !in Load(s.file)
  {
    var first: Cache<E> := map["a" := map["main" := e]];
    var second: Cache<E> := map["b" := map["main" := e]];
    var s0: State<E> := InitialState(Absent);
    var a := SaveSteps(0, first, 0);
    var b := [Lock(1, second), Probe(1), ReadFails(1), Stage(1, 0, {}), Finish(1), Rename(1)];
    SoloSave(s0, 0, first, 0);
    BlindSave(Run(s0, a), 1, second, 0);
    RunAppend(s0, a, b);
  }

  /** A save whose load fails installs its own update and nothing else. */
  lemma BlindSave<E>(s: State<E>, p: nat, update: Cache<E>, temp: nat)
    requires s.lock == None && PhaseOf(s, p) == Idle && temp !in s.temps && !s.file.Absent?
    ensures var steps := [Lock(p, update), Probe(p), ReadFails(p), Stage(p, temp, {}), Finish(p), Rename(p)];
      && Possible(s, steps)
      && Run(s, steps).file == Encoded(Apply(map[], update))
      && Run(s, steps).log == s.log + [Commit(update, true)]
  {
    hide Apply;
    var s3 := s.(lock := Some(p), savers := s.savers[p := Loaded(update, map[], true)]);
    assert Do(Do(Do(s, Lock(p, update)), Probe(p)), ReadFails(p)) == s3;
    var write := [Stage(p, temp, {}), Finish(p), Rename(p)];
    WriteHalf(s3, p, temp);
    ThreeMore(s, Lock(p, update), Probe(p), ReadFails(p), write);
    assert [Lock(p, update), Probe(p), ReadFails(p)] + write
      == [Lock(p, update), Probe(p), ReadFails(p), Stage(p, temp, {}), Finish(p), Rename(p)];
  }

  /** From a loaded saver: stage, finish, rename. */
  lemma WriteHalf<E>(s: State<E>, p: nat, temp: nat)
    requires PhaseOf(s, p).Loaded? && temp !in s.temps
    ensures var ph := PhaseOf(s, p); var steps := [Stage(p, temp, {}), Finish(p), Rename(p)];
      && Possible(s, steps)
      && Run(s, steps) == s.(file := Encoded(Apply(ph.base, ph.update)),
                             savers := s.savers[p := Saved],
                             log := s.log + [Commit(ph.update, ph.blind)])
  {
    hide Apply, Do, Enabled;
    FinishedState(s, p, temp);
    RenamedState(s, p, temp);
    ThreeMore(s, Stage(p, temp, {}), Finish(p), Rename(p), []);
    var steps: seq<Step<E>> := [Stage(p, temp, {}), Finish(p), Rename(p)];
    assert steps + [] == steps;
  }

  function Finished<E>(s: State<E>, p: nat, temp: nat): State<E>
    requires PhaseOf(s, p).Loaded?
  {
    var ph := PhaseOf(s, p);
    var merged := Apply(ph.base, ph.update);
    s.(temps := s.temps[temp := Encoded(merged)],
       savers := s.savers[p := Staged(ph.update, ph.blind, merged, temp)])
  }

  lemma FinishedState<E>(s: State<E>, p: nat, temp: nat)
    requires PhaseOf(s, p).Loaded? && temp !in s.temps
    ensures Enabled(s, Stage(p, temp, {})) && Enabled(Do(s, Stage(p, temp, {})), Finish(p))
    ensures Do(Do(s, Stage(p, temp, {})), Finish(p)) == Finished(s, p, temp)
  {
    hide Apply;
    assert Do(s, Stage(p, temp, {})).temps == s.temps[temp := Garbage];
  }

  lemma RenamedState<E>(s: State<E>, p: nat, temp: nat)
    requires PhaseOf(s, p).Loaded? && temp !in s.temps
    ensures var ph := PhaseOf(s, p); var s' := Finished(s, p, temp);
      && Enabled(s', Rename(p))
      && Do(s', Rename(p)) == s.(file := Encoded(Apply(ph.base, ph.update)),
                                 savers := s.savers[p := Saved],
                                 log := s.log + [Commit(ph.update, ph.blind)])
  {
    hide Apply;
    assert Finished(s, p, temp).temps - {temp} == s.temps;
  }

  lemma OneMore<E>(s: State<E>, a: Step<E>, rest: seq<Step<E>>)
    requires Enabled(s, a) && Possible(Do(s, a), rest)
    ensures Possible(s, [a] + rest) && Run(s, [a] + rest) == Run(Do(s, a), rest)
  {
    assert ([a] + rest)[1..] == rest;
  }

  lemma ThreeMore<E>(s: State<E>, a: Step<E>, b: Step<E>, c: Step<E>, rest: seq<Step<E>>)
    requires Enabled(s, a) && Enabled(Do(s, a), b) && Enabled(Do(Do(s, a), b), c)
    requires Possible(Do(Do(Do(s, a), b), c), rest)
    ensures Possible(s, [a, b, c] + rest)
    ensures Run(s, [a, b, c] + rest) == Run(Do(Do(Do(s, a), b), c), rest)
  {
    OneMore(Do(Do(s, a), b), c, rest);
    OneMore(Do(s, a), b, [c] + rest);
    OneMore(s, a, [b] + ([c] + rest));
    assert [a, b, c] + rest == [a] + ([b] + ([c] + rest));
  }

  lemma {:induction false} RunAppend<E>(s: State<E>, a: seq<Step<E>>, b: seq<Step<E>>)
    requires Possible(s, a) && Possible(Run(s, a), b)
    ensures Possible(s, a + b) && Run(s, a + b) == Run(Run(s, a), b)
    decreases |a|
  {
    if a == [] {
      assert a + b == b;
    } else {
      assert (a + b)[1..] == a[1..] + b;
      RunAppend(Do(s, a[0]), a[1..], b);
    }
  }

  /** The steps of one save that nothing disturbs. */
  function SaveSteps<E>(p: nat, update: Cache<E>, temp: nat): seq<Step<E>> {
    [Lock(p, update), Probe(p), Read(p), Stage(p, temp, {}), Finish(p), Rename(p), Release(p)]
  }

  /** Whenever the lock is free and nobody is inside, a save runs through and adds exactly its update. */
  lemma SoloSave<E>(s: State<E>, p: nat, update: Cache<E>, temp: nat)
    requires s.lock == None && PhaseOf(s, p) == Idle && temp !in s.temps
    ensures Possible(s, SaveSteps(p, update, temp))
    ensures var s' := Run(s, SaveSteps(p, update, temp));
      && s' == s.(file := Encoded(Apply(Load(s.file), update)),
                  savers := s.savers[p := Idle],
                  log := s.log + [Commit(update, false)])
  {
    hide Apply, Load, Do, Enabled, Run, Possible;
    var s3 := s.(lock := Some(p), savers := s.savers[p := Loaded(update, Load(s.file), false)]);
    LoadHalf(s, p, update);
    var load := [Lock(p, update), Probe(p), Read(p)];
    var write := [Stage(p, temp, {}), Finish(p), Rename(p)];
    var release: seq<Step<E>> := [Release(p)];
    WriteHalf(s3, p, temp);
    ReleaseRuns(Run(s3, write), p);
    RunAppend(s3, write, release);
    RunAppend(s, load, write + release);
    assert load + (write + release) == SaveSteps(p, update, temp);
  }

  lemma ReleaseRuns<E>(s: State<E>, p: nat)
    requires PhaseOf(s, p) == Saved && s.lock == Some(p)
    ensures Possible(s, [Release(p)])
    ensures Run(s, [Release(p)]) == s.(lock := None, savers := s.savers[p := Idle])
  {
    var steps: seq<Step<E>> := [Release(p)];
    assert steps[1..] == [];
  }

  /** From outside: lock, probe, read. */
  lemma LoadHalf<E>(s: State<E>, p: nat, update: Cache<E>)
    requires s.lock == None && PhaseOf(s, p) == Idle
    ensures var steps := [Lock(p, update), Probe(p), Read(p)];
      && Possible(s, steps)
      && Run(s, steps) == s.(lock := Some(p), savers := s.savers[p := Loaded(update, Load(s.file), false)])
  {
    assert Do(Do(Do(s, Lock(p, update)), Probe(p)), Read(p))
      == s.(lock := Some(p), savers := s.savers[p := Loaded(update, Load(s.file), false)]);
    ThreeMore(s, Lock(p, update), Probe(p), Read(p), []);
    var steps := [Lock(p, update), Probe(p), Read(p)];
    assert steps + [] == steps;
  }
}
