/**
 Servers of the kind the batching is written for do exist: whatever repositories and branches a
 directory knows, there is a server that answers every batch from it, repository by repository, seeing
 nothing but the host and the body of each request.
 */
module Server {
  import opened Common
  import opened Text
  import opened Names
  import opened BatchBody
  import opened BodyText
  import opened Execute
  import opened Batch

  /** What is on the server: the two JSON values of every branch of every repository it knows. */
  datatype Facts = Facts(known: Key -> bool, pullRequest: (Key, string) -> Json, ref: (Key, string) -> Json)

  function DirectoryOf<S>(parse: Parser<S>, facts: Facts): Directory<S> {
    Directory(facts.known, (key, branch) => parse(facts.pullRequest(key, branch), facts.ref(key, branch)))
  }

  /** One error below the repository for every branch that is lost. */
  function LostPaths(faults: Faults, call: nat, key: Key, asked: set<string>, branches: seq<string>)
      : seq<seq<Segment>>
  {
    if branches == [] then []
    else
      var j := |branches| - 1;
      LostPaths(faults, call, key, asked, branches[..j])
      + if faults.lost(call, key, asked, branches[j]) then [[PrAlias(j)]] else []
  }

  /** ... and one on the repository itself if it is dropped. */
  function ErrorPaths(faults: Faults, call: nat, r: Remote): seq<seq<Segment>> {
    var key, asked := RemoteKey(r), BranchSet(r);
    LostPaths(faults, call, key, asked, r.branches) + if faults.dropped(call, key, asked) then [[]] else []
  }

  function AnswerOf(facts: Facts, faults: Faults, call: nat, r: Remote): RepoAnswer {
    var key := RemoteKey(r);
    var errors := set p | p in ErrorPaths(faults, call, r);
    if !facts.known(key) then RepoAnswer(Missing, errors)
    else
      RepoAnswer(Fields(
        seq(|r.branches|, j requires 0 <= j < |r.branches| => Some(facts.pullRequest(key, r.branches[j]))),
        seq(|r.branches|, j requires 0 <= j < |r.branches| => Some(facts.ref(key, r.branches[j])))), errors)
  }

  /** `AnswerOf`, as the world of `Batch`. */
  function WorldOf(facts: Facts, faults: Faults): World {
    (call: nat, r: Remote) => AnswerOf(facts, faults, call, r)
  }

  // ----- The reply to a chunk -----

  function FieldsOf(facts: Facts, key: Key, branches: seq<string>, i: nat): map<string, Json> {
    if branches == [] then map[]
    else
      var j := |branches| - 1;
      FieldsOf(facts, key, branches[..j], i)
        [Encode(Pr(i, j)) := facts.pullRequest(key, branches[j])]
        [Encode(Ref(i, j)) := facts.ref(key, branches[j])]
  }

  function DataOf(facts: Facts, chunk: seq<Remote>): map<string, Json> {
    if chunk == [] then map[]
    else
      var i := |chunk| - 1;
      var before := DataOf(facts, chunk[..i]);
      var key := RemoteKey(chunk[i]);
      if facts.known(key)
      then before[Encode(Repo(i)) := JObject(FieldsOf(facts, key, chunk[i].branches, i))]
      else before
  }

  function Numbered(paths: seq<seq<Segment>>, i: nat): (errors: seq<GraphqlError>)
    ensures |errors| == |paths| && forall k :: 0 <= k < |paths| ==> errors[k] == ErrorAt(paths[k], i)
  {
    if paths == [] then [] else [ErrorAt(paths[0], i)] + Numbered(paths[1..], i)
  }

  function ErrorsOf(faults: Faults, call: nat, chunk: seq<Remote>): seq<GraphqlError> {
    if chunk == [] then []
    else
      var i := |chunk| - 1;
      ErrorsOf(faults, call, chunk[..i]) + Numbered(ErrorPaths(faults, call, chunk[i]), i)
  }

  ghost predicate AskedBy(sel: Selections, host: string, body: string, chunk: seq<Remote>) {
    OneHost(chunk) && Lower(chunk[0].hostname) == Lower(host) && Body(sel, chunk, 0) == body
  }

  function ReplyTo(facts: Facts, faults: Faults, call: nat, chunk: seq<Remote>): Response {
    Response(Some(DataOf(facts, chunk)), ErrorsOf(faults, call, chunk))
  }

  /** The server works from the request alone: it answers some chunk that has this host and body, unless
      it refuses a repository in it at this call. */
  ghost function Respond(sel: Selections, facts: Facts, faults: Faults, call: nat, host: string, body: string)
      : Option<Response>
  {
    if exists chunk :: AskedBy(sel, host, body, chunk) then
      var chunk: seq<Remote> :| AskedBy(sel, host, body, chunk);
      if HoldsRefused(faults, call, chunk) then None else Some(ReplyTo(facts, faults, call, chunk))
    else None
  }

  // ----- It answers everyone -----

  /** `e` is one of repository `i`'s own errors. */
  ghost predicate IsErrorOf(faults: Faults, call: nat, r: Remote, i: nat, e: GraphqlError) {
    exists p :: p in ErrorPaths(faults, call, r) && e == ErrorAt(p, i)
  }

  lemma NumberedAre(faults: Faults, call: nat, r: Remote, i: nat, e: GraphqlError)
    ensures e in Numbered(ErrorPaths(faults, call, r), i) <==> IsErrorOf(faults, call, r, i, e)
  {
    hide ErrorPaths, ErrorAt;
    var own := ErrorPaths(faults, call, r);
    if e in Numbered(own, i) {
      var k :| 0 <= k < |own| && Numbered(own, i)[k] == e;
      assert own[k] in own;
    }
    if p :| p in own && e == ErrorAt(p, i) {
      var k :| 0 <= k < |own| && own[k] == p;
      assert Numbered(own, i)[k] == e;
    }
  }

  lemma {:induction false} ErrorsAre(faults: Faults, call: nat, chunk: seq<Remote>, e: GraphqlError)
    ensures e in ErrorsOf(faults, call, chunk)
      <==> exists i: nat :: i < |chunk| && IsErrorOf(faults, call, chunk[i], i, e)
  {
    hide ErrorPaths, IsErrorOf, Numbered;
    if chunk == [] {
    } else {
      var n := |chunk| - 1;
      var init := chunk[..n];
      ErrorsAre(faults, call, init, e);
      NumberedAre(faults, call, chunk[n], n, e);
      assert e in ErrorsOf(faults, call, chunk)
        <==> e in ErrorsOf(faults, call, init) || IsErrorOf(faults, call, chunk[n], n, e);
      hide ErrorsOf;
      forall i: nat | i < n ensures chunk[i] == init[i] {
      }
      if i: nat :| i < |init| && IsErrorOf(faults, call, init[i], i, e) {
        assert IsErrorOf(faults, call, chunk[i], i, e);
      }
      if i: nat :| i < |chunk| && IsErrorOf(faults, call, chunk[i], i, e) {
        assert i < n ==> IsErrorOf(faults, call, init[i], i, e);
      }
    }
  }

  /** Every error is scoped to a repository of the chunk, and each repository's are its own. */
  lemma ErrorsCarried(facts: Facts, faults: Faults, call: nat, chunk: seq<Remote>, i: nat, r: Remote)
    requires i < |chunk| && SameForServer(r, chunk[i])
    ensures !HasUnscoped(ErrorsOf(faults, call, chunk), |chunk|)
    ensures CarriesErrors(ErrorsOf(faults, call, chunk), i, AnswerOf(facts, faults, call, r))
  {
    hide ErrorPaths, RemoteKey, BranchSet, Encode, LostPaths, ErrorsOf;
    var errors, a := ErrorsOf(faults, call, chunk), AnswerOf(facts, faults, call, r);
    SamePaths(faults, call, r, chunk[i]);
    forall e | e in errors ensures !IsUnscoped(e, |chunk|) {
      ErrorsAre(faults, call, chunk, e);
      var k: nat :| k < |chunk| && IsErrorOf(faults, call, chunk[k], k, e);
      assert e.path[0] == JString(Encode(Repo(k)));
    }
    forall p | p in a.errors ensures ErrorAt(p, i) in errors {
      assert IsErrorOf(faults, call, chunk[i], i, ErrorAt(p, i));
      ErrorsAre(faults, call, chunk, ErrorAt(p, i));
    }
    forall e | e in errors && e.path[0] == JString(Encode(Repo(i)))
      ensures exists p :: p in a.errors && e == ErrorAt(p, i)
    {
      ErrorsAre(faults, call, chunk, e);
      var k: nat :| k < |chunk| && IsErrorOf(faults, call, chunk[k], k, e);
      EncodeInjective(Repo(k), Repo(i));
      assert k == i;
    }
  }

  predicate SameForServer(a: Remote, b: Remote) {
    RemoteKey(a) == RemoteKey(b) && a.branches == b.branches
  }

  lemma SamePaths(faults: Faults, call: nat, a: Remote, b: Remote)
    requires SameForServer(a, b)
    ensures ErrorPaths(faults, call, a) == ErrorPaths(faults, call, b)
  {
    hide RemoteKey, LostPaths;
  }

  lemma {:induction false} FieldsHold(facts: Facts, key: Key, branches: seq<string>, i: nat, j: nat)
    ensures var fields := FieldsOf(facts, key, branches, i);
      && (Encode(Pr(i, j)) in fields <==> j < |branches|)
      && (Encode(Ref(i, j)) in fields <==> j < |branches|)
      && (j < |branches| ==>
            && fields[Encode(Pr(i, j))] == facts.pullRequest(key, branches[j])
            && fields[Encode(Ref(i, j))] == facts.ref(key, branches[j]))
  {
    hide Encode;
    if branches == [] {
    } else {
      var last := |branches| - 1;
      FieldsHold(facts, key, branches[..last], i, j);
      EncodeInjective(Pr(i, j), Pr(i, last));
      EncodeInjective(Ref(i, j), Ref(i, last));
      EncodeInjective(Pr(i, j), Ref(i, last));
      EncodeInjective(Ref(i, j), Pr(i, last));
    }
  }

  lemma {:induction false} DataHolds(facts: Facts, chunk: seq<Remote>, i: nat)
    requires i < |chunk|
    ensures var data := DataOf(facts, chunk); var key := RemoteKey(chunk[i]);
      && (Encode(Repo(i)) in data <==> facts.known(key))
      && (facts.known(key) ==>
            data[Encode(Repo(i))] == JObject(FieldsOf(facts, key, chunk[i].branches, i)))
  {
    hide Encode, FieldsOf, RemoteKey;
    var last := |chunk| - 1;
    EncodeInjective(Repo(i), Repo(last));
    if i < last {
      DataHolds(facts, chunk[..last], i);
    } else {
      NothingBeyond(facts, chunk[..last], i);
    }
  }

  lemma {:induction false} NothingBeyond(facts: Facts, chunk: seq<Remote>, i: nat)
    requires i >= |chunk|
    ensures Encode(Repo(i)) !in DataOf(facts, chunk)
  {
    hide Encode, FieldsOf, RemoteKey;
    if chunk == [] {
    } else {
      EncodeInjective(Repo(i), Repo(|chunk| - 1));
      NothingBeyond(facts, chunk[..|chunk| - 1], i);
    }
  }

  /** The reply to one chunk carries the answer of any remote that asks the same at its place. */
  lemma ReplyCarries(facts: Facts, faults: Faults, call: nat, chunk: seq<Remote>, i: nat, r: Remote)
    requires i < |chunk| && SameForServer(r, chunk[i])
    ensures Carries(ReplyTo(facts, faults, call, chunk), i, AnswerOf(facts, faults, call, r))
    ensures !HasUnscoped(ReplyTo(facts, faults, call, chunk).errors, |chunk|)
  {
    hide Encode, FieldsOf, RemoteKey, DataOf, ErrorPaths, ErrorsOf, CarriesErrors, HasUnscoped;
    ErrorsCarried(facts, faults, call, chunk, i, r);
    DataHolds(facts, chunk, i);
    var key, a := RemoteKey(r), AnswerOf(facts, faults, call, r);
    if facts.known(key) {
      forall j | 0 <= j < |r.branches|
        ensures OptionAt(FieldsOf(facts, key, r.branches, i), Encode(Pr(i, j)), a.value.pullRequests[j])
        ensures OptionAt(FieldsOf(facts, key, r.branches, i), Encode(Ref(i, j)), a.value.refs[j])
      {
        FieldsHold(facts, key, r.branches, i, j);
      }
    }
  }

  lemma SameKeys(a: seq<Remote>, b: seq<Remote>, i: nat)
    requires OneHost(a) && OneHost(b) && SameQuestion(a, b) && i < |a|
    requires Lower(a[0].hostname) == Lower(b[0].hostname)
    ensures SameForServer(a[i], b[i])
  {
    hide Lower, Merged;
    assert a[i] in a && b[i] in b;
  }

  lemma SameBranchSets(a: Remote, b: Remote)
    requires a.branches == b.branches
    ensures BranchSet(a) == BranchSet(b)
  {
  }

  lemma SameRefusals(faults: Faults, call: nat, a: seq<Remote>, b: seq<Remote>)
    requires OneHost(a) && OneHost(b) && SameQuestion(a, b)
    requires Lower(a[0].hostname) == Lower(b[0].hostname)
    ensures HoldsRefused(faults, call, a) ==> HoldsRefused(faults, call, b)
  {
    hide Lower, Merged, RemoteKey, BranchSet, OneHost;
    if HoldsRefused(faults, call, a) {
      var r :| r in a && faults.refused(call, RemoteKey(r), BranchSet(r));
      var i :| 0 <= i < |a| && a[i] == r;
      SameKeys(a, b, i);
      assert b[i] in b;
      SameBranchSets(r, b[i]);
    }
  }

  lemma AskedWhat(sel: Selections, host: string, body: string, chunk: seq<Remote>)
    requires AskedBy(sel, host, body, chunk)
    ensures OneHost(chunk) && Lower(chunk[0].hostname) == Lower(host) && Body(sel, chunk, 0) == body
  {
    hide Merged, Lower, Body;
  }

  lemma RespondsToChunk(sel: Selections, facts: Facts, faults: Faults, call: nat, chunk: seq<Remote>)
    requires OneHost(chunk)
    ensures var reply := Respond(sel, facts, faults, call, chunk[0].hostname, Body(sel, chunk, 0));
      if HoldsRefused(faults, call, chunk) then reply == None
      else AnswersAll(reply, chunk, At(WorldOf(facts, faults), call))
  {
    hide Body, Lower, OneHost, AnswerOf, ReplyTo, HoldsRefused, SameForServer, HasUnscoped;
    OneHostMerged(chunk);
    var host, body := chunk[0].hostname, Body(sel, chunk, 0);
    assert AskedBy(sel, host, body, chunk);
    var other: seq<Remote> :| AskedBy(sel, host, body, other) && Respond(sel, facts, faults, call, host, body)
      == if HoldsRefused(faults, call, other) then None else Some(ReplyTo(facts, faults, call, other));
    AskedWhat(sel, host, body, other);
    SameBodyIffSameQuestion(sel, chunk, other);
    SameRefusals(faults, call, chunk, other);
    SameRefusals(faults, call, other, chunk);
    if !HoldsRefused(faults, call, chunk) {
      var reply := ReplyTo(facts, faults, call, other);
      forall i | 0 <= i < |chunk|
        ensures Carries(reply, i, AnswerOf(facts, faults, call, chunk[i]))
        ensures ValidAnswer(AnswerOf(facts, faults, call, chunk[i]), chunk[i])
        ensures !HasUnscoped(reply.errors, |other|)
      {
        SameKeys(chunk, other, i);
        ReplyCarries(facts, faults, call, other, i, chunk[i]);
        AnswerIsValid(facts, faults, call, chunk[i]);
      }
      assert chunk != [] && Carries(reply, 0, AnswerOf(facts, faults, call, chunk[0]));
    }
  }

  lemma {:induction false} LostPathsAre(faults: Faults, call: nat, key: Key, asked: set<string>,
                                        branches: seq<string>, p: seq<Segment>)
    ensures p in LostPaths(faults, call, key, asked, branches)
      <==> exists j :: 0 <= j < |branches| && p == [PrAlias(j)] && faults.lost(call, key, asked, branches[j])
  {
    if branches == [] {
    } else {
      var n := |branches| - 1;
      LostPathsAre(faults, call, key, asked, branches[..n], p);
      assert forall j :: 0 <= j < n ==> branches[..n][j] == branches[j];
    }
  }

  lemma AnswerIsValid(facts: Facts, faults: Faults, call: nat, r: Remote)
    ensures ValidAnswer(AnswerOf(facts, faults, call, r), r)
  {
    hide RemoteKey, BranchSet, LostPaths, Decode;
    var a := AnswerOf(facts, faults, call, r);
    forall p, k | p in a.errors && 0 <= k < |p| ensures NotAnAlias(p[k]) {
      LostPathsAre(faults, call, RemoteKey(r), BranchSet(r), r.branches, p);
    }
  }

  /** The errors are what they should be: a lost branch fails, and only that, and a dropped repository has
      an error of its own. */
  lemma ErrorsMean(facts: Facts, faults: Faults, call: nat, r: Remote, j: nat)
    requires j < |r.branches|
    ensures var a := AnswerOf(facts, faults, call, r); var key, asked := RemoteKey(r), BranchSet(r);
      && (BranchFails(a, j) <==> faults.lost(call, key, asked, r.branches[j]))
      && ([] in a.errors <==> faults.dropped(call, key, asked))
  {
    hide RemoteKey, BranchSet, LostPaths;
    var key, asked, a := RemoteKey(r), BranchSet(r), AnswerOf(facts, faults, call, r);
    LostPathsAre(faults, call, key, asked, r.branches, []);
    LostPathsAre(faults, call, key, asked, r.branches, [PrAlias(j)]);
    if BranchFails(a, j) {
      var p :| p in a.errors && ConcernsBranch(p, j);
      LostPathsAre(faults, call, key, asked, r.branches, p);
    }
    if faults.lost(call, key, asked, r.branches[j]) {
      assert [PrAlias(j)] in a.errors && ConcernsBranch([PrAlias(j)], j);
    }
  }

  lemma AnswerSpeaks<S>(parse: Parser<S>, facts: Facts, faults: Faults, call: nat, r: Remote)
    requires Merged(r)
    ensures SpeaksFor(parse, WorldOf(facts, faults), DirectoryOf(parse, facts), faults, call, r)
  {
    hide RemoteKey, Collect, StrictlySorted, ErrorPaths, BranchFails, UnionOfLocals;
    AnswerIsValid(facts, faults, call, r);
    var key, a := RemoteKey(r), AnswerOf(facts, faults, call, r);
    DroppedMeans(facts, faults, call, r);
    if facts.known(key) && !faults.dropped(call, key, BranchSet(r)) {
      var meant := Meanings(parse, a, |r.branches|);
      SortedHasNoDuplicates(r.branches);
      CollectDistinct(r.branches, meant);
      var dir := DirectoryOf(parse, facts);
      forall j | 0 <= j < |r.branches|
        ensures meant[j] == if faults.lost(call, key, BranchSet(r), r.branches[j]) then None
                            else dir.lookup(key, r.branches[j])
      {
        ErrorsMean(facts, faults, call, r, j);
      }
      assert Collect(r.branches, meant) == AnswerAt(dir, faults, call, key, BranchSet(r), BranchSet(r));
    }
  }

  lemma DroppedMeans(facts: Facts, faults: Faults, call: nat, r: Remote)
    ensures [] in AnswerOf(facts, faults, call, r).errors <==> faults.dropped(call, RemoteKey(r), BranchSet(r))
  {
    hide RemoteKey, BranchSet, LostPaths;
    LostPathsAre(faults, call, RemoteKey(r), BranchSet(r), r.branches, []);
  }

  /** Whatever is on the server and whatever it fails to do when, it is a server the end-to-end theorem
      is about. */
  lemma FaithfulServersExist<S>(parse: Parser<S>, sel: Selections, facts: Facts, faults: Faults)
    ensures FaithfulServer(parse, sel, (call: nat, host, body) => Respond(sel, facts, faults, call, host, body),
                           WorldOf(facts, faults), faults, DirectoryOf(parse, facts))
  {
    hide Merged, OneHost, Body, AnswersAll, Respond, SpeaksFor, DirectoryOf, HoldsRefused, WorldOf, At;
    var run: Runner := (call: nat, host, body) => Respond(sel, facts, faults, call, host, body);
    var world := WorldOf(facts, faults);
    forall call: nat, chunk | OneHost(chunk)
      ensures chunk != [] && RepliesTo(sel, run, call, chunk, world, faults)
    {
      assert chunk != [] by { OneHostMerged(chunk); }
      RespondsToChunk(sel, facts, faults, call, chunk);
    }
    forall call: nat, r: Remote | Merged(r)
      ensures SpeaksFor(parse, world, DirectoryOf(parse, facts), faults, call, r)
    {
      AnswerSpeaks(parse, facts, faults, call, r);
    }
  }
}
