/**
 From local requests to local answers: grouping by remote, sorting and deduplicating the merged
 branch lists, grouping by host, packing, executing, and handing every local its own share.
 */
module Batch {
  import opened Common
  import opened Text
  import opened BatchBody
  import opened Packing
  import opened Execute

  datatype Request = Request(repoKey: string, repoRoot: string, branches: seq<string>)

  /** What `gh repo view` says about a local repository. */
  datatype Context = Context(owner: string, name: string, hostname: string)

  datatype Key = Key(host: string, owner: string, name: string)

  datatype BranchOutcome<S> = BranchOutcome(requested: set<string>, answered: map<string, S>)

  type Resolver = string -> Option<Context>

  function ContextKey(c: Context): Key {
    Key(Lower(c.hostname), Lower(c.owner), Lower(c.name))
  }

  function RemoteKey(r: Remote): Key {
    Key(Lower(r.hostname), Lower(r.owner), Lower(r.name))
  }

  /** Two repositories are one remote exactly when host, owner and name agree but for the letters' case. */
  lemma OneRemoteIff(a: Context, b: Context)
    ensures ContextKey(a) == ContextKey(b)
      <==> SameIgnoringCase(a.hostname, b.hostname) && SameIgnoringCase(a.owner, b.owner)
           && SameIgnoringCase(a.name, b.name)
  {
    hide Lower, SameIgnoringCase;
    LowerEqualIff(a.hostname, b.hostname);
    LowerEqualIff(a.owner, b.owner);
    LowerEqualIff(a.name, b.name);
  }

  function LocalOf(q: Request): Local {
    Local(q.repoKey, set b | b in q.branches)
  }

  /** `q` asks for the remote `key`. */
  predicate AsksFor(resolve: Resolver, q: Request, key: Key) {
    resolve(q.repoRoot).Some? && ContextKey(resolve(q.repoRoot).value) == key
  }

  ghost predicate Asked(resolve: Resolver, requests: seq<Request>, key: Key, l: Local) {
    exists q :: q in requests && AsksFor(resolve, q, key) && l == LocalOf(q)
  }

  // ----- Grouping by remote -----

  ghost predicate UnionOfLocals(r: Remote) {
    forall b :: b in r.branches <==> exists l :: l in r.locals && b in l.branches
  }

  /** The merged branch list is sorted, free of duplicates, and the union of its locals' requests. */
  ghost predicate Merged(r: Remote) {
    StrictlySorted(r.branches) && UnionOfLocals(r)
  }

  lemma UnionGrows(r: Remote, l: Local)
    requires UnionOfLocals(r)
    ensures UnionOfLocals(r.(locals := r.locals + [l], branches := r.branches + InOrder(l.branches)))
  {
    var r' := r.(locals := r.locals + [l], branches := r.branches + InOrder(l.branches));
    forall b ensures b in r'.branches <==> exists x :: x in r'.locals && b in x.branches {
      if b in l.branches {
        assert l in r'.locals;
      }
      if b in r.branches {
        var x :| x in r.locals && b in x.branches;
        assert x in r'.locals;
      }
    }
  }

  predicate Holds(remotes: map<Key, Remote>, key: Key, l: Local) {
    key in remotes && l in remotes[key].locals
  }

  /** What stands under `key` is that remote, with at least one local. */
  ghost predicate IsEntry(key: Key, r: Remote) {
    RemoteKey(r) == key && UnionOfLocals(r) && r.locals != []
  }

  predicate SameName(a: Remote, b: Remote) {
    a.hostname == b.hostname && a.owner == b.owner && a.name == b.name
  }

  /** `q` asks for the remote that `r` is, spelled as `q`'s repository says. */
  predicate SpelledBy(resolve: Resolver, q: Request, key: Key, r: Remote) {
    AsksFor(resolve, q, key) && SameName(r, RemoteOf(resolve(q.repoRoot).value))
  }

  function RemoteOf(c: Context): Remote {
    Remote(c.hostname, c.owner, c.name, [], [])
  }

  /** A remote is spelled as the first request for it says. */
  ghost predicate FirstSpelling(resolve: Resolver, requests: seq<Request>, key: Key, r: Remote) {
    exists i :: 0 <= i < |requests| && SpelledBy(resolve, requests[i], key, r)
      && forall j :: 0 <= j < i ==> !AsksFor(resolve, requests[j], key)
  }

  /** A request whose repository cannot be resolved is skipped; the others join their remote's entry. */
  method AddRequest(resolve: Resolver, before: map<Key, Remote>, request: Request)
      returns (remotes: map<Key, Remote>)
    requires forall key :: key in before ==> IsEntry(key, before[key])
    ensures forall key :: key in remotes ==> IsEntry(key, remotes[key])
    ensures forall key, l ::
      Holds(remotes, key, l) <==> Holds(before, key, l) || (AsksFor(resolve, request, key) && l == LocalOf(request))
    ensures forall key :: key in before ==> key in remotes && SameName(before[key], remotes[key])
    ensures forall key :: key in remotes && key !in before ==> SpelledBy(resolve, request, key, remotes[key])
  {
    hide Lower, UnionOfLocals;
    remotes := before;
    var context := resolve(request.repoRoot);
    if context.Some? {
      var c := context.value;
      var key := ContextKey(c);
      var empty := RemoteOf(c);
      var remote := if key in remotes then remotes[key] else empty;
      var local := LocalOf(request);
      assert UnionOfLocals(empty) by { EmptyUnion(empty); }
      UnionGrows(remote, local);
      remotes := remotes[key := remote.(locals := remote.locals + [local],
                                        branches := remote.branches + InOrder(local.branches))];
      forall k, l ensures Holds(remotes, k, l)
        <==> Holds(before, k, l) || (AsksFor(resolve, request, k) && l == LocalOf(request))
      {
        assert AsksFor(resolve, request, k) <==> k == key;
      }
    }
  }

  lemma EmptyUnion(r: Remote)
    requires r.branches == [] && r.locals == []
    ensures UnionOfLocals(r)
  {
  }

  method GroupByRemote(resolve: Resolver, requests: seq<Request>) returns (remotes: map<Key, Remote>)
    ensures forall key :: key in remotes ==> IsEntry(key, remotes[key])
    ensures forall key, l ::
      Holds(remotes, key, l) <==> Asked(resolve, requests, key, l)
    ensures forall key :: key in remotes ==> FirstSpelling(resolve, requests, key, remotes[key])
  {
    hide IsEntry, LocalOf, AsksFor, SpelledBy, FirstSpelling, SameName;
    remotes := map[];
    for i := 0 to |requests|
      invariant forall key :: key in remotes ==> FirstSpelling(resolve, requests[..i], key, remotes[key])
      invariant forall key :: key in remotes ==> IsEntry(key, remotes[key])
      invariant forall key, l ::
        Holds(remotes, key, l) <==> Asked(resolve, requests[..i], key, l)
    {
      assert requests[..i + 1] == requests[..i] + [requests[i]];
      ghost var before := remotes;
      remotes := AddRequest(resolve, remotes, requests[i]);
      forall key | key in remotes ensures FirstSpelling(resolve, requests[..i + 1], key, remotes[key]) {
        if key in before {
          SpellingStays(resolve, requests[..i], requests[i], key, before[key], remotes[key]);
        } else {
          SpellingStarts(resolve, requests[..i], requests[i], key, remotes[key], before);
        }
      }
      forall key, l
        ensures Holds(remotes, key, l) <==> Asked(resolve, requests[..i + 1], key, l)
      {
        AskedOneMore(resolve, requests[..i], requests[i], key, l);
      }
    }
    assert requests[..|requests|] == requests;
  }

  lemma SpellingStays(resolve: Resolver, requests: seq<Request>, q: Request, key: Key, was: Remote, r: Remote)
    requires FirstSpelling(resolve, requests, key, was) && SameName(was, r)
    ensures FirstSpelling(resolve, requests + [q], key, r)
  {
    hide AsksFor;
    var all := requests + [q];
    var i :| 0 <= i < |requests| && SpelledBy(resolve, requests[i], key, was)
      && forall j :: 0 <= j < i ==> !AsksFor(resolve, requests[j], key);
    assert SpelledBy(resolve, all[i], key, r);
    assert forall j :: 0 <= j < i ==> all[j] == requests[j];
  }

  lemma SpellingStarts(resolve: Resolver, requests: seq<Request>, q: Request, key: Key, r: Remote,
                       before: map<Key, Remote>)
    requires SpelledBy(resolve, q, key, r) && key !in before
    requires forall k, l :: Holds(before, k, l) <==> Asked(resolve, requests, k, l)
    ensures FirstSpelling(resolve, requests + [q], key, r)
  {
    hide AsksFor, SpelledBy;
    var all := requests + [q];
    forall j | 0 <= j < |requests| ensures !AsksFor(resolve, all[j], key) {
      assert !Holds(before, key, LocalOf(requests[j]));
    }
    assert SpelledBy(resolve, all[|requests|], key, r);
  }

  lemma AskedOneMore(resolve: Resolver, requests: seq<Request>, q: Request, key: Key, l: Local)
    ensures Asked(resolve, requests + [q], key, l)
      <==> Asked(resolve, requests, key, l) || (AsksFor(resolve, q, key) && l == LocalOf(q))
  {
    if Asked(resolve, requests, key, l) {
      var p :| p in requests && AsksFor(resolve, p, key) && l == LocalOf(p);
      assert p in requests + [q];
    }
    if AsksFor(resolve, q, key) && l == LocalOf(q) {
      assert q in requests + [q];
    }
  }

  // ----- Sorting the branch lists and grouping by host -----

  function Prepared(r: Remote): Remote {
    r.(branches := SortUnique(r.branches))
  }

  lemma PreparedIsMerged(r: Remote)
    requires UnionOfLocals(r)
    ensures Merged(Prepared(r)) && RemoteKey(Prepared(r)) == RemoteKey(r)
  {
    hide SortUnique, StrictlySorted, Lower;
    SortUniqueSorts(r.branches);
    var p := Prepared(r);
    forall b ensures b in p.branches <==> exists l :: l in p.locals && b in l.branches {
      assert b in p.branches <==> b in r.branches;
      if b in r.branches {
        var l :| l in r.locals && b in l.branches;
        assert l in p.locals;
      }
    }
  }

  ghost predicate OnHost(byHost: map<string, seq<Remote>>, r: Remote) {
    var host := Lower(r.hostname);
    host in byHost && r in byHost[host]
  }

  /** `r` belongs under `host`: it is one of the remotes, prepared. */
  ghost predicate BelongsTo(remotes: map<Key, Remote>, host: string, r: Remote) {
    && Lower(r.hostname) == host && Merged(r)
    && exists key :: key in remotes && r == Prepared(remotes[key])
  }

  lemma PreparedBelongs(remotes: map<Key, Remote>, key: Key)
    requires key in remotes && UnionOfLocals(remotes[key])
    ensures BelongsTo(remotes, Lower(Prepared(remotes[key]).hostname), Prepared(remotes[key]))
  {
    hide Lower, Merged, UnionOfLocals, Prepared;
    PreparedIsMerged(remotes[key]);
  }

  predicate DistinctKeys(remotes: seq<Remote>) {
    forall i, j :: 0 <= i < j < |remotes| ==> RemoteKey(remotes[i]) != RemoteKey(remotes[j])
  }

  lemma DistinctKeysGrow(remotes: seq<Remote>, r: Remote)
    requires DistinctKeys(remotes) && forall x :: x in remotes ==> RemoteKey(x) != RemoteKey(r)
    ensures DistinctKeys(remotes + [r])
  {
    hide RemoteKey;
    var all := remotes + [r];
    forall i, j | 0 <= i < j < |all| ensures RemoteKey(all[i]) != RemoteKey(all[j]) {
      assert all[i] in remotes;
    }
  }

  /** Whatever order the sorted map is walked in, each remote stands once, in its host's list. */
  method GroupByHost(remotes: map<Key, Remote>) returns (byHost: map<string, seq<Remote>>)
    requires forall key :: key in remotes ==> IsEntry(key, remotes[key])
    ensures forall host, r :: host in byHost && r in byHost[host] ==> BelongsTo(remotes, host, r)
    ensures forall key :: key in remotes ==> OnHost(byHost, Prepared(remotes[key]))
    ensures forall host :: host in byHost ==> DistinctKeys(byHost[host])
  {
    hide Merged, Lower, UnionOfLocals, SortUnique, BelongsTo, DistinctKeys, RemoteKey;
    byHost := map[];
    var todo := remotes.Keys;
    while todo != {}
      invariant todo <= remotes.Keys
      invariant forall host :: host in byHost ==> DistinctKeys(byHost[host])
      invariant forall host, r :: host in byHost && r in byHost[host] ==> RemoteKey(r) !in todo
      invariant forall host, r :: host in byHost && r in byHost[host] ==> BelongsTo(remotes, host, r)
      invariant forall key :: key in remotes && key !in todo ==> OnHost(byHost, Prepared(remotes[key]))
    {
      var key :| key in todo;
      PreparedBelongs(remotes, key);
      PreparedIsMerged(remotes[key]);
      var remote := Prepared(remotes[key]);
      var host := Lower(remote.hostname);
      ghost var before := byHost;
      var group := if host in byHost then byHost[host] else [];
      assert DistinctKeys([]) by { NoKeys(); }
      DistinctKeysGrow(group, remote);
      byHost := byHost[host := group + [remote]];
      todo := todo - {key};
      forall k | k in remotes && k !in todo ensures OnHost(byHost, Prepared(remotes[k])) {
        assert k != key ==> OnHost(before, Prepared(remotes[k]));
      }
    }
  }

  lemma NoKeys()
    ensures DistinctKeys([])
  {
  }

  // ----- The server -----

  /** What the server knows, by remote and branch. */
  datatype Directory<!S> = Directory(known: Key -> bool, lookup: (Key, string) -> Option<S>)

  function LocalAnswer<S>(dir: Directory<S>, key: Key, branches: set<string>): map<string, S> {
    if dir.known(key) then map b | b in branches && dir.lookup(key, b).Some? :: dir.lookup(key, b).value
    else map[]
  }

  ghost predicate OneHost(chunk: seq<Remote>) {
    chunk != [] && (forall r :: r in chunk ==> Merged(r) && Lower(r.hostname) == Lower(chunk[0].hostname))
  }

  function BranchSet(r: Remote): set<string> {
    set b | b in r.branches
  }

  /** What the server fails to do at a given call, for a repository asked about given branches: it may
      refuse it, and with it the whole query; drop it, and it alone; or lose the answer about a branch. */
  datatype Faults = Faults(refused: (nat, Key, set<string>) -> bool,
                           dropped: (nat, Key, set<string>) -> bool,
                           lost: (nat, Key, set<string>, string) -> bool)

  predicate Hindered(faults: Faults, call: nat, key: Key, asked: set<string>) {
    faults.refused(call, key, asked) || faults.dropped(call, key, asked)
  }

  ghost predicate HoldsRefused(faults: Faults, call: nat, chunk: seq<Remote>) {
    exists r :: r in chunk && faults.refused(call, RemoteKey(r), BranchSet(r))
  }

  /** What the server has to say about each repository, call by call. */
  type World = (nat, Remote) -> RepoAnswer

  function At(world: World, call: nat): Remote -> RepoAnswer {
    r => world(call, r)
  }

  /** A query that holds a refused repository is rejected as a whole.  Any other is answered repository
      by repository, or, for several, may be rejected as a whole too. */
  ghost predicate RepliesTo(sel: Selections, run: Runner, call: nat, chunk: seq<Remote>, world: World,
                            faults: Faults)
    requires chunk != []
  {
    var reply := run(call, chunk[0].hostname, Body(sel, chunk, 0));
    if HoldsRefused(faults, call, chunk) then Rejected(reply, |chunk|)
    else AnswersAll(reply, chunk, At(world, call)) || (|chunk| > 1 && Rejected(reply, |chunk|))
  }

  /** The directory's answers for some of the branches a remote is asked about, but for those lost. */
  function AnswerAt<S>(dir: Directory<S>, faults: Faults, call: nat, key: Key, asked: set<string>,
                       branches: set<string>): map<string, S>
  {
    map b | b in branches && dir.lookup(key, b).Some? && !faults.lost(call, key, asked, b)
      :: dir.lookup(key, b).value
  }

  /** What an answered repository is told at a call. */
  function Told<S>(dir: Directory<S>, faults: Faults, call: nat, r: Remote): Outcome<S> {
    var key, asked := RemoteKey(r), BranchSet(r);
    if !dir.known(key) || faults.dropped(call, key, asked) then None
    else Some(AnswerAt(dir, faults, call, key, asked, asked))
  }

  ghost predicate SpeaksFor<S>(parse: Parser<S>, world: World, dir: Directory<S>, faults: Faults, call: nat,
                               r: Remote)
  {
    ValidAnswer(world(call, r), r) && Meaning(parse, world(call, r), r) == Told(dir, faults, call, r)
  }

  ghost predicate FaithfulServer<S>(parse: Parser<S>, sel: Selections, run: Runner, world: World,
                                    faults: Faults, dir: Directory<S>)
  {
    && (forall call: nat, chunk :: OneHost(chunk) ==> RepliesTo(sel, run, call, chunk, world, faults))
    && (forall call: nat, r: Remote :: Merged(r) ==> SpeaksFor(parse, world, dir, faults, call, r))
  }

  /** An outcome is what the repository is told at some call that does not hinder it; none needs a cause. */
  ghost predicate Fits<S>(dir: Directory<S>, faults: Faults, r: Remote, outcome: Outcome<S>) {
    var key, asked := RemoteKey(r), BranchSet(r);
    if outcome.None? then !dir.known(key) || exists call: nat :: Hindered(faults, call, key, asked)
    else exists call: nat :: ToldAt(dir, faults, call, r, outcome)
  }

  ghost predicate ToldAt<S>(dir: Directory<S>, faults: Faults, call: nat, r: Remote, outcome: Outcome<S>) {
    !Hindered(faults, call, RemoteKey(r), BranchSet(r)) && outcome == Told(dir, faults, call, r)
  }

  lemma ToldFits<S>(dir: Directory<S>, faults: Faults, call: nat, r: Remote)
    requires !faults.refused(call, RemoteKey(r), BranchSet(r))
    ensures Fits(dir, faults, r, Told(dir, faults, call, r))
  {
    hide RemoteKey, BranchSet, AnswerAt;
    var outcome := Told(dir, faults, call, r);
    if outcome.Some? {
      assert ToldAt(dir, faults, call, r, outcome);
    } else {
      assert !dir.known(RemoteKey(r)) || Hindered(faults, call, RemoteKey(r), BranchSet(r));
    }
  }

  lemma RefusedFits<S>(dir: Directory<S>, faults: Faults, call: nat, r: Remote)
    requires faults.refused(call, RemoteKey(r), BranchSet(r))
    ensures Fits(dir, faults, r, None)
  {
    hide RemoteKey, BranchSet;
    assert Hindered(faults, call, RemoteKey(r), BranchSet(r));
  }

  /** Whatever goes wrong for one repository of a chunk, the others get what they are told. */
  lemma ChunkAnswers<S>(parse: Parser<S>, sel: Selections, run: Runner, world: World, faults: Faults,
                        dir: Directory<S>, call: nat, chunk: seq<Remote>, i: nat)
    requires FaithfulServer(parse, sel, run, world, faults, dir) && OneHost(chunk) && i < |chunk|
    ensures Fits(dir, faults, chunk[i], ExecuteChunk(parse, sel, run, call, chunk).outcomes[i])
  {
    hide Body, Merged, AnswersAll, Rejected, ExecuteChunk, Meaning, ValidAnswer, Lower, Told, RemoteKey, BranchSet,
         Fits;
    var r := chunk[i];
    assert r in chunk;
    var one, retry := [r], call + 1 + i;
    assert OneHost(one);
    assert RepliesTo(sel, run, call, chunk, world, faults);
    assert RepliesTo(sel, run, retry, one, world, faults);
    assert one[0] == r && (|chunk| == 1 ==> chunk == one);
    assert SpeaksFor(parse, world, dir, faults, call, r);
    assert SpeaksFor(parse, world, dir, faults, retry, r);
    var reply := run(call, chunk[0].hostname, Body(sel, chunk, 0));
    assert HoldsRefused(faults, retry, one) <==> faults.refused(retry, RemoteKey(r), BranchSet(r));
    assert faults.refused(call, RemoteKey(r), BranchSet(r)) ==> HoldsRefused(faults, call, chunk);
    if !HoldsRefused(faults, call, chunk) && AnswersAll(reply, chunk, At(world, call)) {
      ChunkGivesMeaning(parse, sel, run, call, chunk, At(world, call), i);
      ToldFits(dir, faults, call, r);
    } else {
      assert Rejected(reply, |chunk|);
      if |chunk| == 1 {
        assert HoldsRefused(faults, call, one) <==> faults.refused(call, RemoteKey(r), BranchSet(r));
        RejectedGivesNone(parse, sel, run, call, chunk, i);
        RefusedFits(dir, faults, call, r);
      } else if HoldsRefused(faults, retry, one) {
        RejectedGivesNone(parse, sel, run, call, chunk, i);
        RefusedFits(dir, faults, retry, r);
      } else {
        ChunkGivesMeaning(parse, sel, run, call, chunk, At(world, retry), i);
        ToldFits(dir, faults, retry, r);
      }
    }
  }

  // ----- Handing out the answers -----

  /** One local's part in one remote's query: what the remote is asked, and for whom. */
  datatype Share = Share(key: Key, asked: set<string>, local: Local)

  ghost function SharesOf(remotes: seq<Remote>): set<Share> {
    set r, l | r in remotes && l in r.locals :: Share(RemoteKey(r), BranchSet(r), l)
  }

  lemma SharesOfConcat(a: seq<Remote>, b: seq<Remote>)
    ensures SharesOf(a + b) == SharesOf(a) + SharesOf(b)
  {
    hide RemoteKey, BranchSet;
  }

  lemma SharesOfOne(r: Remote)
    ensures SharesOf([r]) == set l | l in r.locals :: Share(RemoteKey(r), BranchSet(r), l)
  {
    hide RemoteKey, BranchSet;
  }

  lemma SharesOfNone(remotes: seq<Remote>)
    requires remotes == []
    ensures SharesOf(remotes) == {}
  {
  }

  /** Without any assumption on the server: every outcome is some share's, about branches it asked for. */
  ghost predicate Plausible<S>(outcomes: map<string, BranchOutcome<S>>, shares: set<Share>) {
    forall k :: k in outcomes ==> exists p :: p in shares && IsAbout(k, outcomes[k], p.local)
  }

  ghost predicate IsAbout<S>(k: string, o: BranchOutcome<S>, l: Local) {
    l.repoKey == k && o.requested == l.branches && o.answered.Keys != {} && o.answered.Keys <= l.branches
  }

  /** `outcomes` is what the shares call for: everything there is what a share's remote was told, and
      what is missing has an excuse. */
  ghost predicate Collected<S>(dir: Directory<S>, faults: Faults, outcomes: map<string, BranchOutcome<S>>,
                               shares: set<Share>)
  {
    && (forall p :: p in shares ==> p.local.repoKey in outcomes || Excused(dir, faults, p))
    && (forall k :: k in outcomes ==> exists p :: p in shares && Explains(dir, faults, k, outcomes[k], p))
  }

  /** Reasons for a share to get nothing: its remote is unknown, or hindered at some call, or at some call
      nothing of what it asked for has an answer that is not lost. */
  ghost predicate Excused<S>(dir: Directory<S>, faults: Faults, p: Share) {
    || !dir.known(p.key)
    || (exists call: nat :: Hindered(faults, call, p.key, p.asked))
    || (exists call: nat :: AnswerAt(dir, faults, call, p.key, p.asked, p.local.branches).Keys == {})
  }

  ghost predicate Explains<S>(dir: Directory<S>, faults: Faults, k: string, o: BranchOutcome<S>, p: Share) {
    && p.local.repoKey == k && o.requested == p.local.branches && o.answered.Keys != {}
    && dir.known(p.key)
    && exists call: nat :: ExplainsAt(dir, faults, call, o.answered, p)
  }

  ghost predicate ExplainsAt<S>(dir: Directory<S>, faults: Faults, call: nat, answered: map<string, S>, p: Share) {
    && !Hindered(faults, call, p.key, p.asked)
    && answered == AnswerAt(dir, faults, call, p.key, p.asked, p.local.branches)
  }

  /** `answered` is right for a share: what its remote was told for its branches, or nothing, excused. */
  ghost predicate Suits<S>(dir: Directory<S>, faults: Faults, p: Share, answered: map<string, S>) {
    if answered.Keys == {} then Excused(dir, faults, p)
    else dir.known(p.key) && exists call: nat :: ExplainsAt(dir, faults, call, answered, p)
  }

  function Recorded<S>(was: map<string, BranchOutcome<S>>, l: Local, answered: map<string, S>)
      : map<string, BranchOutcome<S>>
  {
    if answered.Keys != {} then was[l.repoKey := BranchOutcome(l.branches, answered)] else was
  }

  lemma RecordPlausible<S>(was: map<string, BranchOutcome<S>>, shares: set<Share>, p: Share, answered: map<string, S>)
    requires Plausible(was, shares) && answered.Keys <= p.local.branches
    ensures Plausible(Recorded(was, p.local, answered), shares + {p})
  {
    var now, all := Recorded(was, p.local, answered), shares + {p};
    forall k | k in now ensures exists x :: x in all && IsAbout(k, now[k], x.local) {
      if k == p.local.repoKey && answered.Keys != {} {
        assert p in all && IsAbout(k, now[k], p.local);
      } else {
        var x :| x in shares && IsAbout(k, was[k], x.local);
        assert x in all;
      }
    }
  }

  /** One local's answer joins the outcomes, unless it is empty. */
  lemma RecordCollected<S>(dir: Directory<S>, faults: Faults, was: map<string, BranchOutcome<S>>,
                           shares: set<Share>, p: Share, answered: map<string, S>)
    requires Collected(dir, faults, was, shares) && Suits(dir, faults, p, answered)
    ensures Collected(dir, faults, Recorded(was, p.local, answered), shares + {p})
  {
    hide Excused, ExplainsAt;
    var now, all := Recorded(was, p.local, answered), shares + {p};
    forall k | k in now ensures exists x :: x in all && Explains(dir, faults, k, now[k], x) {
      if k == p.local.repoKey && answered.Keys != {} {
        assert p in all && Explains(dir, faults, k, now[k], p);
      } else {
        var x :| x in shares && Explains(dir, faults, k, was[k], x);
        assert x in all;
      }
    }
  }

  /** What a local gets out of its remote's outcome. */
  function Part<S>(outcome: Outcome<S>, branches: set<string>): map<string, S> {
    if outcome.None? then map[] else map b | b in outcome.value && b in branches :: outcome.value[b]
  }

  lemma PartSuits<S>(dir: Directory<S>, faults: Faults, r: Remote, outcome: Outcome<S>, l: Local)
    requires Fits(dir, faults, r, outcome) && Merged(r) && l in r.locals
    ensures Suits(dir, faults, Share(RemoteKey(r), BranchSet(r), l), Part(outcome, l.branches))
  {
    hide RemoteKey, Hindered;
    var p := Share(RemoteKey(r), BranchSet(r), l);
    if outcome.Some? {
      var call: nat :| ToldAt(dir, faults, call, r, outcome);
      forall b | b in l.branches ensures b in r.branches {
      }
      assert Part(outcome, l.branches) == AnswerAt(dir, faults, call, p.key, p.asked, l.branches);
      assert ExplainsAt(dir, faults, call, Part(outcome, l.branches), p);
    }
  }

  method DistributeOne<S>(ghost dir: Directory<S>, ghost faults: Faults, remote: Remote, outcome: Outcome<S>,
                          outcomes0: map<string, BranchOutcome<S>>, ghost shares0: set<Share>)
      returns (outcomes: map<string, BranchOutcome<S>>)
    requires Merged(remote)
    requires Plausible(outcomes0, shares0)
    ensures Plausible(outcomes, shares0 + SharesOf([remote]))
    ensures Fits(dir, faults, remote, outcome) && Collected(dir, faults, outcomes0, shares0) ==>
      Collected(dir, faults, outcomes, shares0 + SharesOf([remote]))
  {
    hide Merged, RemoteKey, BranchSet, Fits, Plausible, Collected, SharesOf, LocalAnswer;
    outcomes := outcomes0;
    ghost var fits := Fits(dir, faults, remote, outcome) && Collected(dir, faults, outcomes0, shares0);
    ghost var key, asked := RemoteKey(remote), BranchSet(remote);
    SharesOfOne(remote);
    ghost var shares := shares0;
    for i := 0 to |remote.locals|
      invariant Plausible(outcomes, shares)
      invariant fits ==> Collected(dir, faults, outcomes, shares)
      invariant shares == shares0 + set l | l in remote.locals[..i] :: Share(key, asked, l)
    {
      var local := remote.locals[i];
      assert remote.locals[..i + 1] == remote.locals[..i] + [local];
      ghost var p := Share(key, asked, local);
      var answered: map<string, S> := map[];
      if outcome.Some? {
        answered := map b | b in outcome.value && b in local.branches :: outcome.value[b];
      }
      assert answered == Part(outcome, local.branches);
      RecordPlausible(outcomes, shares, p, answered);
      if fits {
        PartSuits(dir, faults, remote, outcome, local);
        RecordCollected(dir, faults, outcomes, shares, p, answered);
      }
      shares := shares + {p};
      if answered.Keys != {} {
        outcomes := outcomes[local.repoKey := BranchOutcome(local.branches, answered)];
      }
    }
    assert remote.locals[..|remote.locals|] == remote.locals;
  }

  /** One chunk, executed and handed out. */
  method RunChunk<S>(parse: Parser<S>, sel: Selections, run: Runner, ghost world: World,
                     ghost faults: Faults, ghost dir: Directory<S>, call: nat, chunk: seq<Remote>,
                     outcomes0: map<string, BranchOutcome<S>>, ghost shares0: set<Share>)
      returns (calls: nat, outcomes: map<string, BranchOutcome<S>>)
    requires OneHost(chunk)
    requires Plausible(outcomes0, shares0)
    ensures Plausible(outcomes, shares0 + SharesOf(chunk))
    ensures FaithfulServer(parse, sel, run, world, faults, dir) && Collected(dir, faults, outcomes0, shares0) ==>
      Collected(dir, faults, outcomes, shares0 + SharesOf(chunk))
    ensures 1 <= calls <= 1 + |chunk|
  {
    hide Merged, OneHost, RemoteKey, BranchSet, Fits, FaithfulServer, Plausible, Collected, SharesOf, ExecuteChunk,
         Body;
    OneHostMerged(chunk);
    outcomes := outcomes0;
    ghost var faithful :=
      FaithfulServer(parse, sel, run, world, faults, dir) && Collected(dir, faults, outcomes0, shares0);
    var x := ExecuteChunk(parse, sel, run, call, chunk);
    calls := x.calls;
    assert shares0 + SharesOf(chunk[..0]) == shares0 by { SharesOfNone(chunk[..0]); }
    for i := 0 to |chunk|
      invariant Plausible(outcomes, shares0 + SharesOf(chunk[..i]))
      invariant faithful ==> Collected(dir, faults, outcomes, shares0 + SharesOf(chunk[..i]))
    {
      if faithful {
        ChunkAnswers(parse, sel, run, world, faults, dir, call, chunk, i);
      }
      assert chunk[i] in chunk && chunk[..i + 1] == chunk[..i] + [chunk[i]];
      outcomes := DistributeOne(dir, faults, chunk[i], x.outcomes[i], outcomes, shares0 + SharesOf(chunk[..i]));
      SharesOfConcat(chunk[..i], [chunk[i]]);
      assert shares0 + SharesOf(chunk[..i]) + SharesOf([chunk[i]]) == shares0 + SharesOf(chunk[..i + 1]);
    }
    assert chunk[..|chunk|] == chunk;
  }

  lemma OneHostMerged(chunk: seq<Remote>)
    requires OneHost(chunk)
    ensures chunk != [] && forall r :: r in chunk ==> Merged(r)
  {
    hide Merged, Lower;
  }

  /** All of one host's remotes: pack, execute chunk by chunk, hand out. */
  method RunHost<S>(parse: Parser<S>, sel: Selections, run: Runner, ghost world: World,
                    ghost faults: Faults, ghost dir: Directory<S>, call0: nat, ghost host: string,
                    remotes: seq<Remote>, outcomes0: map<string, BranchOutcome<S>>, ghost shares0: set<Share>)
      returns (call: nat, outcomes: map<string, BranchOutcome<S>>)
    requires forall r :: r in remotes ==> Merged(r) && Lower(r.hostname) == host
    requires Plausible(outcomes0, shares0)
    ensures Plausible(outcomes, shares0 + SharesOf(remotes))
    ensures FaithfulServer(parse, sel, run, world, faults, dir) && Collected(dir, faults, outcomes0, shares0) ==>
      Collected(dir, faults, outcomes, shares0 + SharesOf(remotes))
    ensures forall other :: Partition(sel, other, remotes) ==> call0 <= call <= call0 + |other| + |remotes|
    ensures call <= call0 + 2 * |remotes|
  {
    hide Merged, OneHost, Lower, FaithfulServer, Plausible, Collected, Body, Sendable, Full, Partition, SharesOf,
         Flatten, RemoteKey, BranchSet, InOrder, StrictlySorted;
    call, outcomes := call0, outcomes0;
    ghost var faithful :=
      FaithfulServer(parse, sel, run, world, faults, dir) && Collected(dir, faults, outcomes0, shares0);
    var chunks := PackRemoteQueries(sel, remotes);
    PartitionParts(sel, chunks, remotes);
    ghost var done: seq<Remote> := [];
    assert shares0 + SharesOf(done) == shares0 by { SharesOfNone(done); }
    assert chunks[0..] == chunks;
    for c := 0 to |chunks|
      invariant done + Flatten(chunks[c..]) == remotes
      invariant Plausible(outcomes, shares0 + SharesOf(done))
      invariant faithful ==> Collected(dir, faults, outcomes, shares0 + SharesOf(done))
      invariant call0 <= call <= call0 + c + |done| && c <= |done|
    {
      var chunk := chunks[c];
      assert chunks[c..][0] == chunk && chunks[c..][1..] == chunks[c + 1..];
      Unflatten(chunks[c..]);
      SendableNonEmpty(sel, chunk);
      PieceIsOneHost(done, chunk, Flatten(chunks[c + 1..]), remotes, host);
      var calls;
      calls, outcomes := RunChunk(parse, sel, run, world, faults, dir, call, chunk, outcomes, shares0 + SharesOf(done));
      call := call + calls;
      SharesOfConcat(done, chunk);
      assert shares0 + SharesOf(done) + SharesOf(chunk) == shares0 + SharesOf(done + chunk);
      done := done + chunk;
    }
    EmptyCuts();
    assert chunks[|chunks|..] == [] && done == remotes;
  }

  lemma PartitionParts(sel: Selections, chunks: Chunks, remotes: seq<Remote>)
    requires Partition(sel, chunks, remotes)
    ensures Flatten(chunks) == remotes && forall c :: 0 <= c < |chunks| ==> Sendable(sel, chunks[c])
  {
    hide Sendable, Flatten;
  }

  lemma PieceIsOneHost(before: seq<Remote>, chunk: seq<Remote>, after: seq<Remote>, remotes: seq<Remote>, host: string)
    requires chunk != [] && before + (chunk + after) == remotes
    requires forall r :: r in remotes ==> Merged(r) && Lower(r.hostname) == host
    ensures OneHost(chunk)
  {
    hide Merged, Lower;
    forall r | r in chunk ensures Merged(r) && Lower(r.hostname) == host {
      assert r in remotes;
    }
    assert chunk[0] in chunk;
  }

  lemma SendableNonEmpty(sel: Selections, chunk: seq<Remote>)
    requires Sendable(sel, chunk)
    ensures chunk != []
  {
  }

  // ----- End to end -----

  /** Everything that the requests together ask of a remote. */
  function AskedBranches(resolve: Resolver, requests: seq<Request>, key: Key): set<string> {
    set q, b | q in requests && AsksFor(resolve, q, key) && b in q.branches :: b
  }

  lemma BranchesAreAsked(resolve: Resolver, requests: seq<Request>, key: Key, r: Remote)
    requires UnionOfLocals(r) && forall l :: l in r.locals <==> Asked(resolve, requests, key, l)
    ensures BranchSet(r) == AskedBranches(resolve, requests, key)
  {
    hide AsksFor;
    var all := AskedBranches(resolve, requests, key);
    forall b ensures b in BranchSet(r) <==> b in all {
      if b in BranchSet(r) {
        var l :| l in r.locals && b in l.branches;
        var q :| q in requests && AsksFor(resolve, q, key) && l == LocalOf(q);
        assert b in q.branches;
      }
      if b in all {
        var q :| q in requests && AsksFor(resolve, q, key) && b in q.branches;
        assert Asked(resolve, requests, key, LocalOf(q));
        assert LocalOf(q) in r.locals && b in LocalOf(q).branches;
      }
    }
  }

  /** What one request should get: its remote's answers for the branches it asked for, and nothing
      that depends on any other request. */
  function Expected<S>(dir: Directory<S>, resolve: Resolver, q: Request): map<string, S> {
    var c := resolve(q.repoRoot);
    if c.None? then map[] else LocalAnswer(dir, ContextKey(c.value), set b | b in q.branches)
  }

  function ShareOf(resolve: Resolver, requests: seq<Request>, q: Request): Share
    requires resolve(q.repoRoot).Some?
  {
    var key := ContextKey(resolve(q.repoRoot).value);
    Share(key, AskedBranches(resolve, requests, key), LocalOf(q))
  }

  /** Every outcome is some request's own, and every request that resolves is served unless its own share
      has an excuse.  What goes wrong for another repository is none. */
  ghost predicate Serves<S>(dir: Directory<S>, faults: Faults, resolve: Resolver, requests: seq<Request>,
                            outcomes: map<string, BranchOutcome<S>>)
  {
    && (forall q :: q in requests && resolve(q.repoRoot).Some? ==>
          q.repoKey in outcomes || Excused(dir, faults, ShareOf(resolve, requests, q)))
    && (forall k :: k in outcomes ==> exists q ::
          && q in requests && resolve(q.repoRoot).Some?
          && Explains(dir, faults, k, outcomes[k], ShareOf(resolve, requests, q)))
  }

  /** An outcome about branches that a request asked for. */
  ghost predicate Requested<S>(resolve: Resolver, q: Request, o: BranchOutcome<S>) {
    && resolve(q.repoRoot).Some? && o.requested == (set b | b in q.branches)
    && o.answered.Keys != {} && o.answered.Keys <= o.requested
  }

  /** Every share is one that the requests together ask for. */
  ghost predicate SharesAsked(resolve: Resolver, requests: seq<Request>, shares: set<Share>) {
    forall p :: p in shares ==>
      Asked(resolve, requests, p.key, p.local) && p.asked == AskedBranches(resolve, requests, p.key)
  }

  ghost predicate SharesComplete(resolve: Resolver, requests: seq<Request>, shares: set<Share>) {
    forall q, key :: q in requests && AsksFor(resolve, q, key) ==>
      Share(key, AskedBranches(resolve, requests, key), LocalOf(q)) in shares
  }

  /** The remotes that the requests are about. */
  function AskedKeys(resolve: Resolver, requests: seq<Request>): set<Key> {
    set q | q in requests && resolve(q.repoRoot).Some? :: ContextKey(resolve(q.repoRoot).value)
  }

  method ListBranchSummariesBatch<S>(parse: Parser<S>, sel: Selections, run: Runner, resolve: Resolver,
                                     requests: seq<Request>, ghost world: World,
                                     ghost faults: Faults, ghost dir: Directory<S>)
      returns (calls: nat, outcomes: map<string, BranchOutcome<S>>)
    ensures forall k :: k in outcomes ==>
      exists q :: q in requests && q.repoKey == k && Requested(resolve, q, outcomes[k])
    ensures FaithfulServer(parse, sel, run, world, faults, dir) ==> Serves(dir, faults, resolve, requests, outcomes)
    ensures calls <= 2 * |AskedKeys(resolve, requests)|
  {
    hide Merged, Lower, FaithfulServer, Plausible, Collected, SortUnique, SharesOf, Serves, Requested, SharesAsked,
         SharesComplete, Asked, AsksFor, RemoteKey, Holds, IsEntry, Prepared, LocalOf, OnHost, InOrder, StrictlySorted,
         Partition, DistinctKeys, AskedKeys, KeysOf, HostDone;
    var remotes := GroupByRemote(resolve, requests);
    var byHost := GroupByHost(remotes);
    outcomes := map[];
    calls := 0;
    ghost var shares: set<Share> := {};
    ghost var done: set<Key> := {};
    NothingCollected(dir, faults, resolve, requests);
    var hosts := InOrder(byHost.Keys);
    SortedHasNoDuplicates(hosts);
    for h := 0 to |hosts|
      invariant Plausible(outcomes, shares)
      invariant FaithfulServer(parse, sel, run, world, faults, dir) ==> Collected(dir, faults, outcomes, shares)
      invariant SharesAsked(resolve, requests, shares)
      invariant forall g :: 0 <= g < h ==> SharesOf(byHost[hosts[g]]) <= shares
      invariant calls <= 2 * |done| && forall key :: key in done ==> HostDone(remotes, hosts, h, key)
    {
      assert hosts[h] in hosts;
      var group := byHost[hosts[h]];
      calls, outcomes := RunHost(parse, sel, run, world, faults, dir, calls, hosts[h], group, outcomes, shares);
      GroupIsAsked(resolve, requests, remotes, hosts[h], group, shares);
      shares := shares + SharesOf(group);
      GroupIsNew(remotes, hosts, h, group, done);
      done := done + KeysOf(group);
    }
    AllServed(resolve, requests, remotes, byHost, hosts, shares);
    SharesRequested(resolve, requests, outcomes, shares);
    DoneIsAsked(resolve, requests, remotes, hosts, done);
    if FaithfulServer(parse, sel, run, world, faults, dir) {
      CollectedServes(dir, faults, resolve, requests, outcomes, shares);
    }
  }

  // ----- How many calls -----

  function KeysOf(group: seq<Remote>): set<Key> {
    set r | r in group :: RemoteKey(r)
  }

  lemma {:induction false} CountKeys(group: seq<Remote>)
    requires DistinctKeys(group)
    ensures |KeysOf(group)| == |group|
  {
    hide RemoteKey;
    if group == [] {
      assert KeysOf(group) == {};
    } else {
      var init, last := group[..|group| - 1], group[|group| - 1];
      CountKeys(init);
      assert group == init + [last];
      assert KeysOf(group) == KeysOf(init) + {RemoteKey(last)};
      assert RemoteKey(last) !in KeysOf(init);
    }
  }

  /** The remote's host is among the first `h`. */
  ghost predicate HostDone(remotes: map<Key, Remote>, hosts: seq<string>, h: nat, key: Key) {
    key in remotes && exists g :: 0 <= g < h && g < |hosts| && hosts[g] == Lower(Prepared(remotes[key]).hostname)
  }

  /** A host's remotes have not been run with any host before it. */
  lemma GroupIsNew(remotes: map<Key, Remote>, hosts: seq<string>, h: nat, group: seq<Remote>, done: set<Key>)
    requires h < |hosts| && Distinct(hosts) && DistinctKeys(group)
    requires forall key :: key in remotes ==> IsEntry(key, remotes[key])
    requires forall r :: r in group ==> BelongsTo(remotes, hosts[h], r)
    requires forall key :: key in done ==> HostDone(remotes, hosts, h, key)
    ensures |done + KeysOf(group)| == |done| + |group|
    ensures forall key :: key in done + KeysOf(group) ==> HostDone(remotes, hosts, h + 1, key)
  {
    hide Lower, Merged, UnionOfLocals, SortUnique, DistinctKeys;
    CountKeys(group);
    forall key | key in KeysOf(group) ensures HostDone(remotes, hosts, h + 1, key) && key !in done {
      var r :| r in group && key == RemoteKey(r);
      var k :| k in remotes && r == Prepared(remotes[k]);
      assert k == key;
      assert hosts[h] == Lower(Prepared(remotes[key]).hostname);
    }
    assert done !! KeysOf(group);
  }

  lemma DoneIsAsked(resolve: Resolver, requests: seq<Request>, remotes: map<Key, Remote>, hosts: seq<string>,
                    done: set<Key>)
    requires forall key, l :: Holds(remotes, key, l) <==> Asked(resolve, requests, key, l)
    requires forall key :: key in remotes ==> IsEntry(key, remotes[key])
    requires forall key :: key in done ==> HostDone(remotes, hosts, |hosts|, key)
    ensures |done| <= |AskedKeys(resolve, requests)|
  {
    hide LocalOf, RemoteKey, UnionOfLocals, ContextKey;
    forall key | key in done ensures key in AskedKeys(resolve, requests) {
      assert Holds(remotes, key, remotes[key].locals[0]);
      assert Asked(resolve, requests, key, remotes[key].locals[0]);
    }
    SubsetIsSmaller(done, AskedKeys(resolve, requests));
  }

  lemma SubsetIsSmaller<T>(a: set<T>, b: set<T>)
    requires a <= b
    ensures |a| <= |b|
  {
    assert |b| == |a| + |b - a| by { assert b == a + (b - a); }
  }

  // ----- Why it serves -----

  lemma NothingCollected<S>(dir: Directory<S>, faults: Faults, resolve: Resolver, requests: seq<Request>)
    ensures Plausible<S>(map[], {}) && Collected(dir, faults, map[], {}) && SharesAsked(resolve, requests, {})
  {
  }

  lemma GroupIsAsked(resolve: Resolver, requests: seq<Request>, remotes: map<Key, Remote>, host: string,
                     group: seq<Remote>, shares: set<Share>)
    requires forall key, l :: Holds(remotes, key, l) <==> Asked(resolve, requests, key, l)
    requires forall key :: key in remotes ==> IsEntry(key, remotes[key])
    requires forall r :: r in group ==> BelongsTo(remotes, host, r)
    requires SharesAsked(resolve, requests, shares)
    ensures SharesAsked(resolve, requests, shares + SharesOf(group))
  {
    hide Asked, AskedBranches, SortUnique, BranchSet, UnionOfLocals;
    forall p | p in SharesOf(group)
      ensures Asked(resolve, requests, p.key, p.local) && p.asked == AskedBranches(resolve, requests, p.key)
    {
      var r :| r in group && p.local in r.locals && p == Share(RemoteKey(r), BranchSet(r), p.local);
      var key :| key in remotes && r == Prepared(remotes[key]);
      PreparedIsAsked(resolve, requests, remotes, key);
      assert Holds(remotes, key, p.local);
    }
  }

  lemma PreparedIsAsked(resolve: Resolver, requests: seq<Request>, remotes: map<Key, Remote>, key: Key)
    requires forall l :: Holds(remotes, key, l) <==> Asked(resolve, requests, key, l)
    requires key in remotes && RemoteKey(remotes[key]) == key && Merged(Prepared(remotes[key]))
    ensures var r := Prepared(remotes[key]); var asked := AskedBranches(resolve, requests, key);
      RemoteKey(r) == key && BranchSet(r) == asked && r.branches == InOrder(asked)
  {
    hide Asked, AskedBranches, SortUnique, UnionOfLocals, StrictlySorted, InOrder;
    var r := Prepared(remotes[key]);
    forall l ensures l in r.locals <==> Asked(resolve, requests, key, l) {
      assert Holds(remotes, key, l) <==> l in r.locals;
    }
    BranchesAreAsked(resolve, requests, key, r);
    var asked := AskedBranches(resolve, requests, key);
    forall b ensures b in r.branches <==> b in InOrder(asked) {
      assert b in r.branches <==> b in BranchSet(r);
    }
    SortedIsUnique(r.branches, InOrder(asked));
  }

  /** Every host has been run, so every request has its share. */
  lemma AllServed(resolve: Resolver, requests: seq<Request>, remotes: map<Key, Remote>,
                  byHost: map<string, seq<Remote>>, hosts: seq<string>, shares: set<Share>)
    requires forall key, l :: Holds(remotes, key, l) <==> Asked(resolve, requests, key, l)
    requires forall key :: key in remotes ==>
      IsEntry(key, remotes[key]) && OnHost(byHost, Prepared(remotes[key]))
    requires forall host, r :: host in byHost && r in byHost[host] ==> BelongsTo(remotes, host, r)
    requires forall host :: host in hosts <==> host in byHost
    requires forall g :: 0 <= g < |hosts| ==> hosts[g] in byHost && SharesOf(byHost[hosts[g]]) <= shares
    ensures SharesComplete(resolve, requests, shares)
  {
    hide AskedBranches, AsksFor, SortUnique, Merged, BranchSet, RemoteKey, Lower;
    forall q, key | q in requests && AsksFor(resolve, q, key)
      ensures Share(key, AskedBranches(resolve, requests, key), LocalOf(q)) in shares
    {
      assert Asked(resolve, requests, key, LocalOf(q));
      assert Holds(remotes, key, LocalOf(q));
      var r := Prepared(remotes[key]);
      assert OnHost(byHost, r);
      PreparedIsAsked(resolve, requests, remotes, key);
      var g :| 0 <= g < |hosts| && hosts[g] == Lower(r.hostname);
      assert Share(RemoteKey(r), BranchSet(r), LocalOf(q)) in SharesOf(byHost[hosts[g]]);
    }
  }

  lemma SharesRequested<S>(resolve: Resolver, requests: seq<Request>, outcomes: map<string, BranchOutcome<S>>,
                           shares: set<Share>)
    requires Plausible(outcomes, shares) && SharesAsked(resolve, requests, shares)
    ensures forall k :: k in outcomes ==>
      exists q :: q in requests && q.repoKey == k && Requested(resolve, q, outcomes[k])
  {
    hide AskedBranches;
    forall k | k in outcomes ensures exists q :: q in requests && q.repoKey == k && Requested(resolve, q, outcomes[k]) {
      var p :| p in shares && IsAbout(k, outcomes[k], p.local);
      assert Asked(resolve, requests, p.key, p.local);
      var q :| q in requests && AsksFor(resolve, q, p.key) && p.local == LocalOf(q);
      assert Requested(resolve, q, outcomes[k]);
    }
  }

  lemma CollectedServes<S>(dir: Directory<S>, faults: Faults, resolve: Resolver, requests: seq<Request>,
                           outcomes: map<string, BranchOutcome<S>>, shares: set<Share>)
    requires Collected(dir, faults, outcomes, shares)
    requires SharesAsked(resolve, requests, shares) && SharesComplete(resolve, requests, shares)
    ensures Serves(dir, faults, resolve, requests, outcomes)
  {
    hide ContextKey, AskedBranches, Excused, Explains;
    forall q | q in requests && resolve(q.repoRoot).Some?
      ensures q.repoKey in outcomes || Excused(dir, faults, ShareOf(resolve, requests, q))
    {
      assert AsksFor(resolve, q, ContextKey(resolve(q.repoRoot).value));
      assert ShareOf(resolve, requests, q) in shares;
    }
    forall k | k in outcomes
      ensures exists q ::
        q in requests && resolve(q.repoRoot).Some?
        && Explains(dir, faults, k, outcomes[k], ShareOf(resolve, requests, q))
    {
      var p :| p in shares && Explains(dir, faults, k, outcomes[k], p);
      assert Asked(resolve, requests, p.key, p.local);
      var q :| q in requests && AsksFor(resolve, q, p.key) && p.local == LocalOf(q);
      assert ShareOf(resolve, requests, q) == p;
    }
  }

  // ----- What it means for one request -----

  ghost predicate NeverHindered(faults: Faults, p: Share) {
    forall call: nat :: !Hindered(faults, call, p.key, p.asked)
  }

  ghost predicate AlwaysHindered(faults: Faults, p: Share) {
    forall call: nat :: Hindered(faults, call, p.key, p.asked)
  }

  ghost predicate NeverLost(faults: Faults, p: Share, branch: string) {
    forall call: nat :: !faults.lost(call, p.key, p.asked, branch)
  }

  ghost predicate AlwaysLost(faults: Faults, p: Share, branch: string) {
    forall call: nat :: faults.lost(call, p.key, p.asked, branch)
  }

  /** With distinct repo keys, what a request gets is always a part of its remote's answers for its
      branches: with every branch never lost and none always lost; it gets something if its remote is
      never hindered and one of them is never lost, and nothing if its remote always is. */
  lemma DistinctKeysGetTheirOwn<S>(dir: Directory<S>, faults: Faults, resolve: Resolver, requests: seq<Request>,
                                   outcomes: map<string, BranchOutcome<S>>, i: nat)
    requires i < |requests| && resolve(requests[i].repoRoot).Some?
    requires forall j, k :: 0 <= j < k < |requests| ==> requests[j].repoKey != requests[k].repoKey
    requires Serves(dir, faults, resolve, requests, outcomes)
    ensures var q := requests[i]; var p := ShareOf(resolve, requests, q); var all := Expected(dir, resolve, q);
      && (q.repoKey in outcomes ==>
            var o := outcomes[q.repoKey];
            && o.requested == (set b | b in q.branches)
            && (forall b :: b in o.answered ==> b in all && o.answered[b] == all[b] && !AlwaysLost(faults, p, b))
            && (forall b :: b in all && NeverLost(faults, p, b) ==> b in o.answered))
      && (NeverHindered(faults, p) && (exists b :: b in all && NeverLost(faults, p, b)) ==> q.repoKey in outcomes)
      && (q.repoKey in outcomes ==> all.Keys != {} && !AlwaysHindered(faults, p))
  {
    hide ContextKey, AskedBranches, Hindered;
    var q := requests[i];
    assert q in requests;
    var p := ShareOf(resolve, requests, q);
    forall b | b in Expected(dir, resolve, q) && NeverLost(faults, p, b) && NeverHindered(faults, p)
      ensures !Excused(dir, faults, p)
    {
      NoExcuse(dir, faults, p, b);
    }
    if q.repoKey in outcomes {
      OwnOutcome(dir, faults, resolve, requests, outcomes, i);
      var call: nat :| ExplainsAt(dir, faults, call, outcomes[q.repoKey].answered, p);
    }
  }

  lemma NoExcuse<S>(dir: Directory<S>, faults: Faults, p: Share, branch: string)
    requires dir.known(p.key) && branch in p.local.branches && dir.lookup(p.key, branch).Some?
    requires NeverHindered(faults, p) && NeverLost(faults, p, branch)
    ensures !Excused(dir, faults, p)
  {
    hide Hindered;
    forall call: nat ensures AnswerAt(dir, faults, call, p.key, p.asked, p.local.branches).Keys != {} {
      assert branch in AnswerAt(dir, faults, call, p.key, p.asked, p.local.branches);
    }
  }

  lemma OwnOutcome<S>(dir: Directory<S>, faults: Faults, resolve: Resolver, requests: seq<Request>,
                      outcomes: map<string, BranchOutcome<S>>, i: nat)
    requires i < |requests| && resolve(requests[i].repoRoot).Some?
    requires forall j, k :: 0 <= j < k < |requests| ==> requests[j].repoKey != requests[k].repoKey
    requires Serves(dir, faults, resolve, requests, outcomes) && requests[i].repoKey in outcomes
    ensures var q := requests[i];
      Explains(dir, faults, q.repoKey, outcomes[q.repoKey], ShareOf(resolve, requests, q))
  {
    hide ContextKey, AskedBranches, ExplainsAt, Excused;
    var k := requests[i].repoKey;
    var q :| q in requests && resolve(q.repoRoot).Some?
      && Explains(dir, faults, k, outcomes[k], ShareOf(resolve, requests, q));
    var j :| 0 <= j < |requests| && requests[j] == q;
    assert j == i;
  }

  /** Without faults it is exactly all of the remote's answers for its branches. */
  lemma FaultlessIsComplete<S>(dir: Directory<S>, faults: Faults, resolve: Resolver, requests: seq<Request>,
                               outcomes: map<string, BranchOutcome<S>>, i: nat)
    requires i < |requests| && resolve(requests[i].repoRoot).Some?
    requires forall j, k :: 0 <= j < k < |requests| ==> requests[j].repoKey != requests[k].repoKey
    requires Serves(dir, faults, resolve, requests, outcomes)
    requires var p := ShareOf(resolve, requests, requests[i]);
      NeverHindered(faults, p) && forall b :: b in requests[i].branches ==> NeverLost(faults, p, b)
    ensures var q := requests[i]; var all := Expected(dir, resolve, q);
      && (q.repoKey in outcomes <==> all.Keys != {})
      && (q.repoKey in outcomes ==> outcomes[q.repoKey] == BranchOutcome((set b | b in q.branches), all))
  {
    hide ContextKey, AskedBranches, NeverHindered, AlwaysHindered, NeverLost, AlwaysLost, Serves;
    DistinctKeysGetTheirOwn(dir, faults, resolve, requests, outcomes, i);
    var q := requests[i];
    var all := Expected(dir, resolve, q);
    forall b | b in all ensures NeverLost(faults, ShareOf(resolve, requests, q), b) {
      assert b in q.branches;
    }
    if all.Keys != {} {
      var b :| b in all;
    }
    if q.repoKey in outcomes {
      assert outcomes[q.repoKey].answered == all;
    }
  }
}
