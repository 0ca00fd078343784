/**
 Running one chunk: a combined query, a fallback to one query per repository, and the reading of the
 reply back into per-repository answers.  `parse` turns the two JSON values of one branch into a
 summary; `run` is the process that sends a body and decodes the reply, as a function of the number
 of calls made before it.
 */
module Execute {
  import opened Common
  import opened Names
  import opened Text
  import opened BatchBody

  datatype Json =
    | JNull
    | JBool(b: bool)
    | JNumber(n: int)
    | JString(s: string)
    | JArray(items: seq<Json>)
    | JObject(fields: map<string, Json>)

  datatype GraphqlError = GraphqlError(path: seq<Json>)

  datatype Response = Response(data: Option<map<string, Json>>, errors: seq<GraphqlError>)

  type Runner = (nat, string, string) -> Option<Response>
  type Parser<S> = (Json, Json) -> Option<S>
  type Outcome<S> = Option<map<string, S>>

  const CLOSING_ISSUES := "closingIssuesReferences"

  // ----- Reading one repository out of a reply -----

  predicate IsClosingIssuesError(e: GraphqlError) {
    JString(CLOSING_ISSUES) in e.path
  }

  predicate IsRepoError(e: GraphqlError, i: nat) {
    |e.path| == 1 && e.path[0] == JString(Encode(Repo(i)))
  }

  predicate IsBranchError(e: GraphqlError, i: nat, j: nat) {
    && !IsClosingIssuesError(e)
    && |e.path| >= 2
    && e.path[0] == JString(Encode(Repo(i)))
    && (e.path[1] == JString(Encode(Pr(i, j))) || e.path[1] == JString(Encode(Ref(i, j))))
  }

  predicate HasRepoError(errors: seq<GraphqlError>, i: nat) {
    exists e :: e in errors && IsRepoError(e, i)
  }

  predicate HasBranchError(errors: seq<GraphqlError>, i: nat, j: nat) {
    exists e :: e in errors && IsBranchError(e, i, j)
  }

  function BranchAnswer<S>(parse: Parser<S>, fields: map<string, Json>, errors: seq<GraphqlError>,
                           i: nat, j: nat): Option<S> {
    if HasBranchError(errors, i, j) then None
    else if Encode(Pr(i, j)) in fields && Encode(Ref(i, j)) in fields
    then parse(fields[Encode(Pr(i, j))], fields[Encode(Ref(i, j))])
    else None
  }

  /** Later branches of the same name overwrite earlier ones. */
  function Collect<S>(branches: seq<string>, answers: seq<Option<S>>): map<string, S>
    requires |answers| == |branches|
  {
    if branches == [] then map[]
    else
      var n := |branches| - 1;
      var before := Collect(branches[..n], answers[..n]);
      if answers[n].Some? then before[branches[n] := answers[n].value] else before
  }

  function BranchAnswers<S>(parse: Parser<S>, fields: map<string, Json>, errors: seq<GraphqlError>,
                            i: nat, n: nat): (answers: seq<Option<S>>)
    ensures |answers| == n
    ensures forall j :: 0 <= j < n ==> answers[j] == BranchAnswer(parse, fields, errors, i, j)
  {
    if n == 0 then []
    else BranchAnswers(parse, fields, errors, i, n - 1) + [BranchAnswer(parse, fields, errors, i, n - 1)]
  }

  function ParseRemote<S>(parse: Parser<S>, data: map<string, Json>, errors: seq<GraphqlError>,
                          i: nat, remote: Remote): Outcome<S> {
    var alias := Encode(Repo(i));
    if alias !in data || HasRepoError(errors, i) || !data[alias].JObject? then None
    else
      var answers := BranchAnswers(parse, data[alias].fields, errors, i, |remote.branches|);
      Some(Collect(remote.branches, answers))
  }

  /** The loop over branches that fills the answered map. */
  method ParseRemoteQuery<S>(parse: Parser<S>, data: map<string, Json>, errors: seq<GraphqlError>,
                             repoIndex: nat, remote: Remote) returns (outcome: Outcome<S>)
    ensures outcome == ParseRemote(parse, data, errors, repoIndex, remote)
  {
    hide Encode;
    var alias := Encode(Repo(repoIndex));
    if alias !in data || data[alias].JNull? {
      return None;
    }
    var repoError := false;
    for k := 0 to |errors|
      invariant repoError <==> exists e :: e in errors[..k] && IsRepoError(e, repoIndex)
    {
      assert errors[..k + 1] == errors[..k] + [errors[k]];
      repoError := repoError || IsRepoError(errors[k], repoIndex);
    }
    assert errors[..|errors|] == errors;
    if repoError || !data[alias].JObject? {
      return None;
    }
    var fields := data[alias].fields;
    var answered: map<string, S> := map[];
    ghost var all := BranchAnswers(parse, fields, errors, repoIndex, |remote.branches|);
    for j := 0 to |remote.branches|
      invariant answered == Collect(remote.branches[..j], all[..j])
    {
      assert remote.branches[..j + 1][..j] == remote.branches[..j] && all[..j + 1][..j] == all[..j];
      var branchError := false;
      for k := 0 to |errors|
        invariant branchError <==> exists e :: e in errors[..k] && IsBranchError(e, repoIndex, j)
      {
        assert errors[..k + 1] == errors[..k] + [errors[k]];
        branchError := branchError || IsBranchError(errors[k], repoIndex, j);
      }
      assert branchError == HasBranchError(errors, repoIndex, j);
      var pr, ref := Encode(Pr(repoIndex, j)), Encode(Ref(repoIndex, j));
      if !branchError && pr in fields && ref in fields {
        var summary := parse(fields[pr], fields[ref]);
        if summary.Some? {
          answered := answered[remote.branches[j] := summary.value];
        }
      }
    }
    assert remote.branches[..|remote.branches|] == remote.branches && all[..|all|] == all;
    return Some(answered);
  }

  // ----- Running a chunk -----

  /** An error that cannot be pinned on one of the first `n` repositories. */
  predicate IsUnscoped(e: GraphqlError, n: nat) {
    && !IsClosingIssuesError(e)
    && (e.path == [] || !exists i :: 0 <= i < n && e.path[0] == JString(Encode(Repo(i))))
  }

  predicate HasUnscoped(errors: seq<GraphqlError>, n: nat) {
    exists e :: e in errors && IsUnscoped(e, n)
  }

  function ParseAll<S>(parse: Parser<S>, data: map<string, Json>, errors: seq<GraphqlError>,
                       chunk: seq<Remote>): (outcomes: seq<Outcome<S>>)
    ensures |outcomes| == |chunk|
    ensures forall i :: 0 <= i < |chunk| ==> outcomes[i] == ParseRemote(parse, data, errors, i, chunk[i])
  {
    if chunk == [] then []
    else
      var n := |chunk| - 1;
      ParseAll(parse, data, errors, chunk[..n]) + [ParseRemote(parse, data, errors, n, chunk[n])]
  }

  /** What a reply to a chunk's query yields; `None` when the whole reply is rejected. */
  function ReadReply<S>(parse: Parser<S>, reply: Option<Response>, chunk: seq<Remote>): Option<seq<Outcome<S>>> {
    if reply.None? || HasUnscoped(reply.value.errors, |chunk|) || reply.value.data.None? then None
    else Some(ParseAll(parse, reply.value.data.value, reply.value.errors, chunk))
  }

  function ExecuteOnce<S>(parse: Parser<S>, sel: Selections, run: Runner, call: nat, chunk: seq<Remote>)
      : Option<seq<Outcome<S>>>
    requires chunk != []
  {
    ReadReply(parse, run(call, chunk[0].hostname, Body(sel, chunk, 0)), chunk)
  }

  /** A repository queried alone; any failure is no answer. */
  function ExecuteAlone<S>(parse: Parser<S>, sel: Selections, run: Runner, call: nat, remote: Remote): Outcome<S> {
    var once := ExecuteOnce(parse, sel, run, call, [remote]);
    if once.Some? && |once.value| == 1 then once.value[0] else None
  }

  datatype Execution<S> = Execution(outcomes: seq<Outcome<S>>, calls: nat)

  function Retry<S>(parse: Parser<S>, sel: Selections, run: Runner, call: nat, chunk: seq<Remote>)
      : (outcomes: seq<Outcome<S>>)
    ensures |outcomes| == |chunk|
  {
    seq(|chunk|, i requires 0 <= i < |chunk| => ExecuteAlone(parse, sel, run, call + i, chunk[i]))
  }

  /** One combined query; on a rejected reply, one query per repository of a chunk of several. */
  function ExecuteChunk<S>(parse: Parser<S>, sel: Selections, run: Runner, call: nat, chunk: seq<Remote>)
      : (x: Execution<S>)
    requires chunk != []
    ensures |x.outcomes| == |chunk|
    ensures 1 <= x.calls <= 1 + |chunk|
  {
    var once := ExecuteOnce(parse, sel, run, call, chunk);
    if once.Some? then Execution(once.value, 1)
    else if |chunk| > 1 then Execution(Retry(parse, sel, run, call + 1, chunk), 1 + |chunk|)
    else Execution([None], 1)
  }

  // ----- What is accepted and what is read, by name -----

  /** An error that is not about closing issues and whose path starts at no repository of `n`; one with
      no path at all is such an error. */
  ghost predicate IsNobodys(e: GraphqlError, n: nat) {
    && JString("closingIssuesReferences") !in e.path
    && (e.path == [] || forall i: nat :: i < n ==> e.path[0] != JString("repo_" + Decimal(i)))
  }

  ghost predicate Unusable(reply: Option<Response>, n: nat) {
    reply.None? || reply.value.data.None? || exists e :: e in reply.value.errors && IsNobodys(e, n)
  }

  /** A reply is rejected exactly when there is none, it has no data, or an error in it is nobody's. */
  lemma RejectedIff<S>(parse: Parser<S>, reply: Option<Response>, chunk: seq<Remote>)
    ensures ReadReply(parse, reply, chunk) == None <==> Unusable(reply, |chunk|)
    ensures Rejected(reply, |chunk|) <==> Unusable(reply, |chunk|)
  {
    hide Decimal, ParseAll;
    if reply.Some? {
      forall e | e in reply.value.errors ensures IsUnscoped(e, |chunk|) <==> IsNobodys(e, |chunk|) {
        UnscopedIsNobodys(e, |chunk|);
      }
    }
  }

  lemma UnscopedIsNobodys(e: GraphqlError, n: nat)
    ensures IsUnscoped(e, n) <==> IsNobodys(e, n)
  {
    hide Decimal;
    forall i: nat ensures Encode(Repo(i)) == "repo_" + Decimal(i) {
    }
  }

  /** An accepted reply to a chunk is read in that one call; a rejected one of several repositories makes
      one call for each of them alone, to its own host; one that is rejected too gets nothing. */
  lemma FallsBackIff<S>(parse: Parser<S>, sel: Selections, run: Runner, call: nat, chunk: seq<Remote>)
    requires chunk != []
    ensures var reply := run(call, chunk[0].hostname, Body(sel, chunk, 0));
      var x := ExecuteChunk(parse, sel, run, call, chunk);
      if !Unusable(reply, |chunk|) then
        && x.calls == 1
        && forall i :: 0 <= i < |chunk| ==>
             x.outcomes[i] == ParseRemote(parse, reply.value.data.value, reply.value.errors, i, chunk[i])
      else if |chunk| == 1 then x == Execution([None], 1)
      else
        && x.calls == 1 + |chunk|
        && forall i :: 0 <= i < |chunk| ==>
             var alone := run(call + 1 + i, chunk[i].hostname, Body(sel, [chunk[i]], 0));
             x.outcomes[i] == if Unusable(alone, 1) then None
                              else ParseRemote(parse, alone.value.data.value, alone.value.errors, 0, chunk[i])
  {
    hide Body, ParseRemote, IsNobodys, HasUnscoped, ExecuteAlone;
    RejectedIff(parse, run(call, chunk[0].hostname, Body(sel, chunk, 0)), chunk);
    forall i | 0 <= i < |chunk|
      ensures var alone := run(call + 1 + i, chunk[i].hostname, Body(sel, [chunk[i]], 0));
        ExecuteAlone(parse, sel, run, call + 1 + i, chunk[i])
          == if Unusable(alone, 1) then None
             else ParseRemote(parse, alone.value.data.value, alone.value.errors, 0, chunk[i])
    {
      AloneReads(parse, sel, run, call + 1 + i, chunk[i]);
    }
  }

  lemma AloneReads<S>(parse: Parser<S>, sel: Selections, run: Runner, call: nat, r: Remote)
    ensures var alone := run(call, r.hostname, Body(sel, [r], 0));
      ExecuteAlone(parse, sel, run, call, r)
        == if Unusable(alone, 1) then None
           else ParseRemote(parse, alone.value.data.value, alone.value.errors, 0, r)
  {
    hide Body, ParseRemote, Unusable, HasUnscoped;
    var one := [r];
    assert one[0] == r;
    RejectedIff(parse, run(call, r.hostname, Body(sel, one, 0)), one);
  }

  ghost predicate IsBranchs(e: GraphqlError, i: nat, j: nat) {
    && JString("closingIssuesReferences") !in e.path && |e.path| >= 2
    && e.path[0] == JString("repo_" + Decimal(i))
    && (e.path[1] == JString("pr_r" + Decimal(i) + "_b" + Decimal(j))
        || e.path[1] == JString("ref_r" + Decimal(i) + "_b" + Decimal(j)))
  }

  /** A branch has an answer exactly when both of its values are there and can be read and no error names
      it under its repository; errors about closing issues do not matter. */
  ghost predicate AnsweredAs<S>(parse: Parser<S>, fields: map<string, Json>, errors: seq<GraphqlError>,
                                i: nat, j: nat, summary: S)
  {
    var pr := "pr_r" + Decimal(i) + "_b" + Decimal(j);
    var ref := "ref_r" + Decimal(i) + "_b" + Decimal(j);
    && pr in fields && ref in fields && parse(fields[pr], fields[ref]) == Some(summary)
    && !exists e :: e in errors && IsBranchs(e, i, j)
  }

  /** What is read for the repository numbered `i`. */
  lemma ReadsByName<S>(parse: Parser<S>, data: map<string, Json>, errors: seq<GraphqlError>, i: nat, remote: Remote)
    requires Distinct(remote.branches)
    ensures var alias := "repo_" + Decimal(i); var outcome := ParseRemote(parse, data, errors, i, remote);
      && (outcome.Some? <==>
            alias in data && data[alias].JObject? && !exists e :: e in errors && e.path == [JString(alias)])
      && (outcome.Some? ==>
            && (forall b :: b in outcome.value ==> b in remote.branches)
            && (forall j, summary :: 0 <= j < |remote.branches| ==>
                  (remote.branches[j] in outcome.value && outcome.value[remote.branches[j]] == summary
                   <==> AnsweredAs(parse, data[alias].fields, errors, i, j, summary))))
  {
    hide Decimal, AnsweredAs, Collect;
    var alias := "repo_" + Decimal(i);
    assert Encode(Repo(i)) == alias;
    forall e | e in errors ensures IsRepoError(e, i) <==> e.path == [JString(alias)] {
    }
    if ParseRemote(parse, data, errors, i, remote).Some? {
      var fields, n := data[alias].fields, |remote.branches|;
      var answers := BranchAnswers(parse, fields, errors, i, n);
      CollectDistinct(remote.branches, answers);
      forall j, summary | 0 <= j < n
        ensures answers[j] == Some(summary) <==> AnsweredAs(parse, fields, errors, i, j, summary)
      {
        AnswerByName(parse, fields, errors, i, j, summary);
      }
    }
  }

  lemma AnswerByName<S>(parse: Parser<S>, fields: map<string, Json>, errors: seq<GraphqlError>, i: nat, j: nat,
                        summary: S)
    ensures BranchAnswer(parse, fields, errors, i, j) == Some(summary)
      <==> AnsweredAs(parse, fields, errors, i, j, summary)
  {
    hide Decimal;
    assert Encode(Repo(i)) == "repo_" + Decimal(i);
    assert Encode(Pr(i, j)) == "pr_r" + Decimal(i) + "_b" + Decimal(j);
    assert Encode(Ref(i, j)) == "ref_r" + Decimal(i) + "_b" + Decimal(j);
    forall e ensures IsBranchError(e, i, j) <==> IsBranchs(e, i, j) {
    }
  }

  // ----- A server that answers each repository by itself -----

  /** A path segment below a repository: one of its numbered aliases, or anything else. */
  datatype Segment = PrAlias(branch: nat) | RefAlias(branch: nat) | Other(json: Json)

  datatype RepoValue =
    | Missing
    | Plain(json: Json)
    | Fields(pullRequests: seq<Option<Json>>, refs: seq<Option<Json>>)

  /** What the server has to say about one repository, free of any numbering by position. */
  datatype RepoAnswer = RepoAnswer(value: RepoValue, errors: set<seq<Segment>>)

  predicate ValidAnswer(a: RepoAnswer, remote: Remote) {
    && (a.value.Plain? ==> !a.value.json.JObject?)
    && (a.value.Fields? ==> |a.value.pullRequests| == |a.value.refs| == |remote.branches|)
    && (forall p :: p in a.errors ==> forall k :: 0 <= k < |p| ==> NotAnAlias(p[k]))
  }

  predicate NotAnAlias(s: Segment) {
    s.Other? && s.json.JString? ==> Decode(s.json.s) == Unknown
  }

  function Number(s: Segment, i: nat): Json {
    match s
    case PrAlias(j) => JString(Encode(Pr(i, j)))
    case RefAlias(j) => JString(Encode(Ref(i, j)))
    case Other(json) => json
  }

  function NumberPath(p: seq<Segment>, i: nat): (q: seq<Json>)
    ensures |q| == |p| && forall k :: 0 <= k < |p| ==> q[k] == Number(p[k], i)
  {
    if p == [] then [] else [Number(p[0], i)] + NumberPath(p[1..], i)
  }

  function ErrorAt(p: seq<Segment>, i: nat): GraphqlError {
    GraphqlError([JString(Encode(Repo(i)))] + NumberPath(p, i))
  }

  ghost predicate OptionAt(fields: map<string, Json>, alias: string, value: Option<Json>) {
    (alias in fields <==> value.Some?) && (alias in fields ==> fields[alias] == value.value)
  }

  /** The reply's data holds `a` under index `i`; it may hold more. */
  ghost predicate CarriesValue(data: map<string, Json>, i: nat, a: RepoAnswer) {
    var alias := Encode(Repo(i));
    match a.value
    case Missing => alias !in data
    case Plain(json) => alias in data && data[alias] == json
    case Fields(prs, refs) =>
      && alias in data && data[alias].JObject?
      && (forall j :: 0 <= j < |prs| ==> OptionAt(data[alias].fields, Encode(Pr(i, j)), prs[j]))
      && (forall j :: 0 <= j < |refs| ==> OptionAt(data[alias].fields, Encode(Ref(i, j)), refs[j]))
  }

  /** The reply's errors under index `i` are exactly the answer's, numbered. */
  ghost predicate CarriesErrors(errors: seq<GraphqlError>, i: nat, a: RepoAnswer) {
    && (forall p :: p in a.errors ==> ErrorAt(p, i) in errors)
    && (forall e :: e in errors && e.path != [] && e.path[0] == JString(Encode(Repo(i))) ==>
          exists p :: p in a.errors && e == ErrorAt(p, i))
  }

  ghost predicate Carries(r: Response, i: nat, a: RepoAnswer) {
    r.data.Some? && CarriesValue(r.data.value, i, a) && CarriesErrors(r.errors, i, a)
  }

  /** A reply that answers every repository of the chunk independently of the others. */
  ghost predicate AnswersAll(reply: Option<Response>, chunk: seq<Remote>, world: Remote -> RepoAnswer) {
    && reply.Some?
    && !HasUnscoped(reply.value.errors, |chunk|)
    && forall i :: 0 <= i < |chunk| ==>
         Carries(reply.value, i, world(chunk[i])) && ValidAnswer(world(chunk[i]), chunk[i])
  }

  ghost predicate Rejected(reply: Option<Response>, n: nat) {
    reply.None? || HasUnscoped(reply.value.errors, n) || reply.value.data.None?
  }

  // ----- What an answer means, without any numbering -----

  predicate ConcernsBranch(p: seq<Segment>, j: nat) {
    p != [] && Other(JString(CLOSING_ISSUES)) !in p && (p[0] == PrAlias(j) || p[0] == RefAlias(j))
  }

  ghost predicate BranchFails(a: RepoAnswer, j: nat) {
    exists p :: p in a.errors && ConcernsBranch(p, j)
  }

  ghost function Meanings<S>(parse: Parser<S>, a: RepoAnswer, n: nat): (answers: seq<Option<S>>)
    requires a.value.Fields? && |a.value.pullRequests| == |a.value.refs| >= n
    ensures |answers| == n
    ensures forall j :: 0 <= j < n ==> answers[j] == BranchMeaning(parse, a, j)
  {
    seq(n, j requires 0 <= j < n => BranchMeaning(parse, a, j))
  }

  ghost function BranchMeaning<S>(parse: Parser<S>, a: RepoAnswer, j: nat): Option<S>
    requires a.value.Fields? && j < |a.value.pullRequests| == |a.value.refs|
  {
    var pr, ref := a.value.pullRequests[j], a.value.refs[j];
    if BranchFails(a, j) || pr.None? || ref.None? then None else parse(pr.value, ref.value)
  }

  ghost function Meaning<S>(parse: Parser<S>, a: RepoAnswer, remote: Remote): Outcome<S>
    requires ValidAnswer(a, remote)
  {
    if !a.value.Fields? || [] in a.errors then None
    else Some(Collect(remote.branches, Meanings(parse, a, |remote.branches|)))
  }

  // ----- The numbering is invisible -----

  lemma ClosingIsNoAlias(id: Id)
    ensures Encode(id) != CLOSING_ISSUES
  {
    DecodeOfEncode(id);
    assert '_' !in CLOSING_ISSUES;
    SplitOfPlain(CLOSING_ISSUES, '_');
  }

  lemma ClosingSurvivesNumbering(p: seq<Segment>, i: nat)
    ensures IsClosingIssuesError(ErrorAt(p, i)) <==> Other(JString(CLOSING_ISSUES)) in p
  {
    hide Encode;
    var path := ErrorAt(p, i).path;
    ClosingIsNoAlias(Repo(i));
    forall k | 0 <= k < |p|
      ensures path[k + 1] == JString(CLOSING_ISSUES) <==> p[k] == Other(JString(CLOSING_ISSUES))
    {
      match p[k] {
        case PrAlias(j) => ClosingIsNoAlias(Pr(i, j));
        case RefAlias(j) => ClosingIsNoAlias(Ref(i, j));
        case Other(_) =>
      }
    }
    if IsClosingIssuesError(ErrorAt(p, i)) {
      var k :| 0 <= k < |path| && path[k] == JString(CLOSING_ISSUES);
      assert k > 0 && p[k - 1] == Other(JString(CLOSING_ISSUES));
    }
    if Other(JString(CLOSING_ISSUES)) in p {
      var k :| 0 <= k < |p| && p[k] == Other(JString(CLOSING_ISSUES));
      assert path[k + 1] == JString(CLOSING_ISSUES);
    }
  }

  lemma AliasSegment(s: Segment, i: nat, j: nat)
    requires NotAnAlias(s)
    ensures Number(s, i) == JString(Encode(Pr(i, j))) <==> s == PrAlias(j)
    ensures Number(s, i) == JString(Encode(Ref(i, j))) <==> s == RefAlias(j)
  {
    hide Encode, Decode;
    DecodeOfEncode(Pr(i, j));
    DecodeOfEncode(Ref(i, j));
    match s {
      case PrAlias(k) => DecodeOfEncode(Pr(i, k));
      case RefAlias(k) => DecodeOfEncode(Ref(i, k));
      case Other(_) =>
    }
  }

  lemma NumberedBranchError(p: seq<Segment>, i: nat, j: nat)
    requires forall k :: 0 <= k < |p| ==> NotAnAlias(p[k])
    ensures IsBranchError(ErrorAt(p, i), i, j) <==> ConcernsBranch(p, j)
    ensures IsRepoError(ErrorAt(p, i), i) <==> p == []
  {
    hide Encode, Decode;
    ClosingSurvivesNumbering(p, i);
    if p != [] {
      AliasSegment(p[0], i, j);
      assert ErrorAt(p, i).path[1] == Number(p[0], i);
    }
  }

  lemma NumberedErrors(errors: seq<GraphqlError>, i: nat, a: RepoAnswer, remote: Remote, j: nat)
    requires CarriesErrors(errors, i, a) && ValidAnswer(a, remote)
    ensures HasRepoError(errors, i) <==> [] in a.errors
    ensures HasBranchError(errors, i, j) <==> BranchFails(a, j)
  {
    hide Encode, Decode, ErrorAt, ConcernsBranch;
    if HasRepoError(errors, i) {
      var e :| e in errors && IsRepoError(e, i);
      var p :| p in a.errors && e == ErrorAt(p, i);
      NumberedBranchError(p, i, j);
    }
    if [] in a.errors {
      NumberedBranchError([], i, j);
      assert ErrorAt([], i) in errors;
    }
    if HasBranchError(errors, i, j) {
      var e :| e in errors && IsBranchError(e, i, j);
      var p :| p in a.errors && e == ErrorAt(p, i);
      NumberedBranchError(p, i, j);
    }
    if BranchFails(a, j) {
      var p :| p in a.errors && ConcernsBranch(p, j);
      NumberedBranchError(p, i, j);
      assert ErrorAt(p, i) in errors;
    }
  }

  /** Reading index `i` of a reply that carries an answer there gives the answer's meaning. */
  lemma ParseGivesMeaning<S>(parse: Parser<S>, r: Response, i: nat, remote: Remote, a: RepoAnswer)
    requires Carries(r, i, a) && ValidAnswer(a, remote)
    ensures ParseRemote(parse, r.data.value, r.errors, i, remote) == Meaning(parse, a, remote)
  {
    hide Encode, Decode, CarriesErrors, HasRepoError, HasBranchError, BranchFails;
    var data := r.data.value;
    var alias := Encode(Repo(i));
    NumberedErrors(r.errors, i, a, remote, 0);
    if a.value.Fields? && !HasRepoError(r.errors, i) {
      var n := |remote.branches|;
      var fields := data[alias].fields;
      var read, meant := BranchAnswers(parse, fields, r.errors, i, n), Meanings(parse, a, n);
      forall j | 0 <= j < n ensures read[j] == meant[j] {
        NumberedErrors(r.errors, i, a, remote, j);
        assert OptionAt(fields, Encode(Pr(i, j)), a.value.pullRequests[j]);
        assert OptionAt(fields, Encode(Ref(i, j)), a.value.refs[j]);
      }
      assert read == meant;
    }
  }

  /** A repository that the server answers gets its answer's meaning, alone or in any position. */
  lemma AloneGivesMeaning<S>(parse: Parser<S>, sel: Selections, run: Runner, call: nat, remote: Remote,
                             world: Remote -> RepoAnswer)
    requires AnswersAll(run(call, remote.hostname, Body(sel, [remote], 0)), [remote], world)
    ensures ValidAnswer(world(remote), remote)
    ensures ExecuteAlone(parse, sel, run, call, remote) == Meaning(parse, world(remote), remote)
  {
    hide Body, Carries, ValidAnswer;
    var reply := run(call, remote.hostname, Body(sel, [remote], 0));
    assert [remote][0] == remote;
    assert Carries(reply.value, 0, world(remote)) by { assert Carries(reply.value, 0, world([remote][0])); }
    assert ValidAnswer(world(remote), remote);
    CarriedHasData(reply.value, 0, world(remote));
    ParseGivesMeaning(parse, reply.value, 0, remote, world(remote));
  }

  lemma CarriedHasData(r: Response, i: nat, a: RepoAnswer)
    requires Carries(r, i, a)
    ensures r.data.Some?
  {
  }

  /** The batched form refines the simple one.  When the server answers each repository by itself,
      every outcome of a chunk is what querying that repository alone gives, at any call number,
      whether the combined query was answered or rejected. */
  lemma BatchedEqualsAlone<S>(parse: Parser<S>, sel: Selections, run: Runner, call: nat, chunk: seq<Remote>,
                              world: Remote -> RepoAnswer, i: nat, alone: nat)
    requires i < |chunk|
    requires var reply := run(call, chunk[0].hostname, Body(sel, chunk, 0));
      var retry := run(call + 1 + i, chunk[i].hostname, Body(sel, [chunk[i]], 0));
      || AnswersAll(reply, chunk, world)
      || (|chunk| > 1 && Rejected(reply, |chunk|) && AnswersAll(retry, [chunk[i]], world))
    requires AnswersAll(run(alone, chunk[i].hostname, Body(sel, [chunk[i]], 0)), [chunk[i]], world)
    ensures ExecuteChunk(parse, sel, run, call, chunk).outcomes[i]
      == ExecuteAlone(parse, sel, run, alone, chunk[i])
      == Meaning(parse, world(chunk[i]), chunk[i])
  {
    ChunkGivesMeaning(parse, sel, run, call, chunk, world, i);
    AloneGivesMeaning(parse, sel, run, alone, chunk[i], world);
  }

  lemma ChunkGivesMeaning<S>(parse: Parser<S>, sel: Selections, run: Runner, call: nat, chunk: seq<Remote>,
                             world: Remote -> RepoAnswer, i: nat)
    requires i < |chunk|
    requires var reply := run(call, chunk[0].hostname, Body(sel, chunk, 0));
      var retry := run(call + 1 + i, chunk[i].hostname, Body(sel, [chunk[i]], 0));
      || AnswersAll(reply, chunk, world)
      || (|chunk| > 1 && Rejected(reply, |chunk|) && AnswersAll(retry, [chunk[i]], world))
    ensures ValidAnswer(world(chunk[i]), chunk[i])
    ensures ExecuteChunk(parse, sel, run, call, chunk).outcomes[i] == Meaning(parse, world(chunk[i]), chunk[i])
  {
    hide Body, Carries, HasUnscoped, ParseRemote, ExecuteAlone, ValidAnswer;
    var reply := run(call, chunk[0].hostname, Body(sel, chunk, 0));
    if AnswersAll(reply, chunk, world) {
      assert Carries(reply.value, i, world(chunk[i]));
      CarriedHasData(reply.value, i, world(chunk[i]));
      ParseGivesMeaning(parse, reply.value, i, chunk[i], world(chunk[i]));
    } else {
      AloneGivesMeaning(parse, sel, run, call + 1 + i, chunk[i], world);
    }
  }

  /** A repository whose combined query and own query are both rejected has no answer. */
  lemma RejectedGivesNone<S>(parse: Parser<S>, sel: Selections, run: Runner, call: nat, chunk: seq<Remote>, i: nat)
    requires i < |chunk|
    requires Rejected(run(call, chunk[0].hostname, Body(sel, chunk, 0)), |chunk|)
    requires |chunk| > 1 ==> Rejected(run(call + 1 + i, chunk[i].hostname, Body(sel, [chunk[i]], 0)), 1)
    ensures ExecuteChunk(parse, sel, run, call, chunk).outcomes[i] == None
  {
    hide Body, HasUnscoped, ParseAll;
    assert [chunk[i]][0] == chunk[i];
  }

  // ----- Error scoping -----

  /** `after` has one more error than `before`, anywhere in the list. */
  ghost predicate Added(before: seq<GraphqlError>, after: seq<GraphqlError>, e: GraphqlError) {
    forall x :: x in after <==> x in before || x == e
  }

  lemma OtherReadingUnaffected<S>(parse: Parser<S>, data: map<string, Json>, before: seq<GraphqlError>,
                                  after: seq<GraphqlError>, e: GraphqlError, i: nat, k: nat, remote: Remote)
    requires Added(before, after, e) && e.path != [] && e.path[0] == JString(Encode(Repo(i))) && k != i
    ensures ParseRemote(parse, data, after, k, remote) == ParseRemote(parse, data, before, k, remote)
  {
    hide Encode;
    EncodeInjective(Repo(i), Repo(k));
    assert HasRepoError(after, k) <==> HasRepoError(before, k);
    SameAnswers(parse, data, before, after, e, k, remote);
  }

  /** An error whose path starts at repository `i` leaves a reply accepted or rejected as it was if the
      chunk has that repository, and has it rejected if not; as long as the reply is accepted, no other
      repository's outcome changes. */
  lemma OtherRepositoriesUnaffected<S>(parse: Parser<S>, reply: Response, after: seq<GraphqlError>,
                                       e: GraphqlError, chunk: seq<Remote>, i: nat)
    requires Added(reply.errors, after, e) && e.path != [] && e.path[0] == JString(Encode(Repo(i)))
    ensures var was := ReadReply(parse, Some(reply), chunk);
      var now := ReadReply(parse, Some(reply.(errors := after)), chunk);
      && (i < |chunk| ==> (was.None? <==> now.None?))
      && (i >= |chunk| && !IsClosingIssuesError(e) ==> now.None?)
      && (was.Some? && now.Some? ==>
            forall k :: 0 <= k < |chunk| && k != i ==> now.value[k] == was.value[k])
  {
    hide Encode, ParseRemote;
    forall n: nat ensures e.path[0] == JString(Encode(Repo(n))) <==> n == i {
      EncodeInjective(Repo(n), Repo(i));
    }
    assert HasUnscoped(after, |chunk|) <==> HasUnscoped(reply.errors, |chunk|) || IsUnscoped(e, |chunk|);
    if reply.data.Some? {
      forall k | 0 <= k < |chunk| && k != i
        ensures ParseRemote(parse, reply.data.value, after, k, chunk[k])
          == ParseRemote(parse, reply.data.value, reply.errors, k, chunk[k])
      {
        OtherReadingUnaffected(parse, reply.data.value, reply.errors, after, e, i, k, chunk[k]);
      }
    }
  }

  lemma SameAnswers<S>(parse: Parser<S>, data: map<string, Json>, before: seq<GraphqlError>,
                       after: seq<GraphqlError>, e: GraphqlError, k: nat, remote: Remote)
    requires Added(before, after, e) && !IsRepoError(e, k)
    requires forall j :: 0 <= j < |remote.branches| ==> !IsBranchError(e, k, j)
    ensures ParseRemote(parse, data, after, k, remote) == ParseRemote(parse, data, before, k, remote)
  {
    hide Encode, IsBranchError, IsRepoError;
    assert HasRepoError(after, k) <==> HasRepoError(before, k);
    var n := |remote.branches|;
    var alias := Encode(Repo(k));
    if alias in data && data[alias].JObject? {
      var f := data[alias].fields;
      var a, b := BranchAnswers(parse, f, before, k, n), BranchAnswers(parse, f, after, k, n);
      forall j | 0 <= j < n ensures a[j] == b[j] {
        assert HasBranchError(after, k, j) <==> HasBranchError(before, k, j);
      }
      assert a == b;
    }
  }

  /** Errors under `closingIssuesReferences` remove nothing, and never reject a reply. */
  lemma ClosingIssuesErrorsRemoveNothing<S>(parse: Parser<S>, reply: Response, after: seq<GraphqlError>,
                                            e: GraphqlError, chunk: seq<Remote>)
    requires Added(reply.errors, after, e) && IsClosingIssuesError(e)
    ensures ReadReply(parse, Some(reply.(errors := after)), chunk) == ReadReply(parse, Some(reply), chunk)
  {
    hide Encode, ParseRemote;
    assert HasUnscoped(after, |chunk|) <==> HasUnscoped(reply.errors, |chunk|);
    if reply.data.Some? {
      var d := reply.data.value;
      forall i | 0 <= i < |chunk|
        ensures ParseRemote(parse, d, after, i, chunk[i]) == ParseRemote(parse, d, reply.errors, i, chunk[i])
      {
        ClosingIsNoAlias(Repo(i));
        SameAnswers(parse, d, reply.errors, after, e, i, chunk[i]);
      }
      assert ParseAll(parse, d, after, chunk) == ParseAll(parse, d, reply.errors, chunk);
    }
  }

  lemma {:induction false} CollectDistinct<S>(branches: seq<string>, answers: seq<Option<S>>)
    requires |answers| == |branches|
    requires Distinct(branches)
    ensures var m := Collect(branches, answers);
      && (forall b :: b in m ==> b in branches)
      && (forall j :: 0 <= j < |branches| ==>
            (branches[j] in m <==> answers[j].Some?) && (branches[j] in m ==> m[branches[j]] == answers[j].value))
  {
    if branches == [] {
    } else {
      var n := |branches| - 1;
      CollectDistinct(branches[..n], answers[..n]);
    }
  }

  lemma OneBranchUnread<S>(parse: Parser<S>, data: map<string, Json>, before: seq<GraphqlError>,
                           after: seq<GraphqlError>, e: GraphqlError, i: nat, j: nat, remote: Remote)
    requires j < |remote.branches|
    requires Distinct(remote.branches)
    requires Added(before, after, e) && IsBranchError(e, i, j)
    ensures var was, now := ParseRemote(parse, data, before, i, remote), ParseRemote(parse, data, after, i, remote);
      && (was.None? <==> now.None?)
      && (was.Some? ==> now.value == was.value - {remote.branches[j]})
  {
    hide Encode;
    var n := |remote.branches|;
    var alias := Encode(Repo(i));
    assert HasRepoError(after, i) <==> HasRepoError(before, i);
    if alias in data && data[alias].JObject? && !HasRepoError(before, i) {
      var f := data[alias].fields;
      var a, b := BranchAnswers(parse, f, before, i, n), BranchAnswers(parse, f, after, i, n);
      CollectDistinct(remote.branches, a);
      CollectDistinct(remote.branches, b);
      forall k | 0 <= k < n ensures b[k] == if k == j then None else a[k] {
        OneBranchPerError(e, i, j, k);
        assert HasBranchError(after, i, k) <==> HasBranchError(before, i, k) || IsBranchError(e, i, k);
      }
      assert b == a[j := None];
      WithoutOne(remote.branches, a, j);
    }
  }

  function WithoutBranch<S>(outcome: Outcome<S>, branch: string): Outcome<S> {
    if outcome.None? then None else Some(outcome.value - {branch})
  }

  /** An error at repository `i`, branch `j` removes that branch from that repository and nothing else,
      and rejects no reply. */
  lemma BranchErrorRemovesOneBranch<S>(parse: Parser<S>, reply: Response, after: seq<GraphqlError>,
                                       e: GraphqlError, chunk: seq<Remote>, i: nat, j: nat)
    requires i < |chunk| && j < |chunk[i].branches| && Distinct(chunk[i].branches)
    requires Added(reply.errors, after, e) && IsBranchError(e, i, j)
    ensures var was := ReadReply(parse, Some(reply), chunk);
      var now := ReadReply(parse, Some(reply.(errors := after)), chunk);
      && (was.None? <==> now.None?)
      && (was.Some? ==>
            now.value == was.value[i := WithoutBranch(was.value[i], chunk[i].branches[j])])
  {
    hide Encode, ParseRemote;
    OtherRepositoriesUnaffected(parse, reply, after, e, chunk, i);
    if reply.data.Some? {
      OneBranchUnread(parse, reply.data.value, reply.errors, after, e, i, j, chunk[i]);
    }
  }

  lemma OneBranchPerError(e: GraphqlError, i: nat, j: nat, k: nat)
    requires IsBranchError(e, i, j)
    ensures IsBranchError(e, i, k) <==> k == j
  {
    hide Encode;
    EncodeInjective(Pr(i, j), Pr(i, k));
    EncodeInjective(Ref(i, j), Ref(i, k));
    EncodeInjective(Pr(i, j), Ref(i, k));
    EncodeInjective(Ref(i, j), Pr(i, k));
  }

  lemma {:induction false} WithoutOne<S>(branches: seq<string>, answers: seq<Option<S>>, j: nat)
    requires |answers| == |branches| && j < |branches| && Distinct(branches)
    ensures Collect(branches, answers[j := None]) == Collect(branches, answers) - {branches[j]}
  {
    var n := |branches| - 1;
    var init := branches[..n];
    var less := answers[j := None];
    assert Distinct(init);
    if j < n {
      assert less[..n] == answers[..n][j := None];
      WithoutOne(init, answers[..n], j);
      assert init[j] == branches[j] != branches[n];
    } else {
      assert less[..n] == answers[..n];
      OnlyListed(init, answers[..n]);
      assert branches[n] !in init;
    }
  }

  lemma {:induction false} OnlyListed<S>(branches: seq<string>, answers: seq<Option<S>>)
    requires |answers| == |branches|
    ensures forall b :: b in Collect(branches, answers) ==> b in branches
  {
    if branches == [] {
    } else {
      OnlyListed(branches[..|branches| - 1], answers[..|branches| - 1]);
    }
  }

  /** A one-segment error, or a null value, removes its own repository and no other. */
  lemma RepoErrorRemovesOneRepository<S>(parse: Parser<S>, reply: Response, after: seq<GraphqlError>,
                                         e: GraphqlError, chunk: seq<Remote>, i: nat)
    requires i < |chunk| && Added(reply.errors, after, e) && IsRepoError(e, i)
    ensures var was := ReadReply(parse, Some(reply), chunk);
      var now := ReadReply(parse, Some(reply.(errors := after)), chunk);
      && (was.None? <==> now.None?)
      && (was.Some? ==> now.value == was.value[i := None])
  {
    hide Encode, ParseRemote;
    EncodeIsNotClosing(e, i);
    assert !IsUnscoped(e, |chunk|);
    assert HasUnscoped(after, |chunk|) <==> HasUnscoped(reply.errors, |chunk|);
    if reply.data.Some? {
      var d := reply.data.value;
      assert HasRepoError(after, i);
      assert ParseRemote(parse, d, after, i, chunk[i]) == None by { RepoErrorWins(parse, d, after, i, chunk[i]); }
      forall k | 0 <= k < |chunk| && k != i
        ensures ParseRemote(parse, d, after, k, chunk[k]) == ParseRemote(parse, d, reply.errors, k, chunk[k])
      {
        OtherReadingUnaffected(parse, d, reply.errors, after, e, i, k, chunk[k]);
      }
    }
  }

  lemma RepoErrorWins<S>(parse: Parser<S>, data: map<string, Json>, errors: seq<GraphqlError>, i: nat, remote: Remote)
    requires HasRepoError(errors, i)
    ensures ParseRemote(parse, data, errors, i, remote) == None
  {
  }

  lemma EncodeIsNotClosing(e: GraphqlError, i: nat)
    requires IsRepoError(e, i)
    ensures !IsClosingIssuesError(e)
  {
    hide Encode;
    ClosingIsNoAlias(Repo(i));
  }

  /** A null repository value gives no answer at its index and changes no other. */
  lemma NullRemovesOneRepository<S>(parse: Parser<S>, reply: Response, chunk: seq<Remote>, i: nat)
    requires i < |chunk| && reply.data.Some?
    ensures var nulled := reply.(data := Some(reply.data.value[Encode(Repo(i)) := JNull]));
      var was, now := ReadReply(parse, Some(reply), chunk), ReadReply(parse, Some(nulled), chunk);
      && (was.None? <==> now.None?)
      && (was.Some? ==> now.value == was.value[i := None])
  {
    hide Encode;
    var d := reply.data.value;
    var d' := d[Encode(Repo(i)) := JNull];
    forall k | 0 <= k < |chunk| && k != i
      ensures ParseRemote(parse, d', reply.errors, k, chunk[k]) == ParseRemote(parse, d, reply.errors, k, chunk[k])
    {
      EncodeInjective(Repo(i), Repo(k));
    }
  }
}
