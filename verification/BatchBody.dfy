/**
 The JSON body of a batch query: declarations, one fragment per repository, and the variables map,
 all numbered by position.  The fixed field selections are a parameter, so every law here holds
 whatever text they are.
 */
module BatchBody {
  import opened Text
  import opened Names

  datatype Local = Local(repoKey: string, branches: set<string>)

  datatype Remote = Remote(hostname: string, owner: string, name: string,
                           branches: seq<string>, locals: seq<Local>)

  /** The text selecting pull request fields and ref fields. */
  datatype Selections = Selections(pullRequest: string, ref: string)

  // ----- Declarations -----

  function Declare(id: Id): string {
    "$" + Encode(id) + ": String!"
  }

  function BranchDeclarations(n: nat, i: nat): seq<string> {
    if n == 0 then []
    else BranchDeclarations(n - 1, i) + [Declare(Head(i, n - 1)), Declare(Qualified(i, n - 1))]
  }

  function RepoDeclarations(r: Remote, i: nat): seq<string> {
    [Declare(Owner(i)), Declare(Name(i))] + BranchDeclarations(|r.branches|, i)
  }

  function Declarations(rs: seq<Remote>, base: nat): seq<string> {
    if rs == [] then []
    else Declarations(rs[..|rs| - 1], base) + RepoDeclarations(rs[|rs| - 1], base + |rs| - 1)
  }

  // ----- Fragments -----

  function BranchFragment(sel: Selections, i: nat, j: nat): string {
    "    " + Encode(Pr(i, j)) + ": pullRequests(headRefName: $" + Encode(Head(i, j)) + sel.pullRequest
    + Encode(Ref(i, j)) + ": ref(qualifiedName: $" + Encode(Qualified(i, j)) + sel.ref
  }

  function BranchFragments(sel: Selections, n: nat, i: nat): seq<string> {
    if n == 0 then [] else BranchFragments(sel, n - 1, i) + [BranchFragment(sel, i, n - 1)]
  }

  function RepoFragment(sel: Selections, r: Remote, i: nat): string {
    "  " + Encode(Repo(i)) + ": repository(owner: $" + Encode(Owner(i)) + ", name: $" + Encode(Name(i))
    + ") {\n" + Join(BranchFragments(sel, |r.branches|, i), "\n") + "\n  }"
  }

  function RepoFragments(sel: Selections, rs: seq<Remote>, base: nat): seq<string> {
    if rs == [] then []
    else RepoFragments(sel, rs[..|rs| - 1], base) + [RepoFragment(sel, rs[|rs| - 1], base + |rs| - 1)]
  }

  function Query(sel: Selections, rs: seq<Remote>, base: nat): string {
    "query(" + Join(Declarations(rs, base), ", ") + ") {\n" + Join(RepoFragments(sel, rs, base), "\n") + "\n}"
  }

  // ----- Variables -----

  datatype Entry = Entry(id: Id, value: string)

  function BranchEntries(branches: seq<string>, i: nat): seq<Entry> {
    if branches == [] then []
    else
      var j := |branches| - 1;
      BranchEntries(branches[..j], i)
      + [Entry(Head(i, j), branches[j]), Entry(Qualified(i, j), "refs/heads/" + branches[j])]
  }

  function RepoEntries(r: Remote, i: nat): seq<Entry> {
    [Entry(Owner(i), r.owner), Entry(Name(i), r.name)] + BranchEntries(r.branches, i)
  }

  /** Every variable in the order it is inserted. */
  function Entries(rs: seq<Remote>, base: nat): seq<Entry> {
    if rs == [] then []
    else Entries(rs[..|rs| - 1], base) + RepoEntries(rs[|rs| - 1], base + |rs| - 1)
  }

  function Inserted(entries: seq<Entry>): map<string, string> {
    if entries == [] then map[]
    else
      var last := entries[|entries| - 1];
      Inserted(entries[..|entries| - 1])[Encode(last.id) := last.value]
  }

  // ----- JSON -----

  function HexDigit(d: nat): char
    requires d < 16
  {
    "0123456789abcdef"[d]
  }

  function EscapeChar(c: char): string {
    if c == '"' then "\\\""
    else if c == '\\' then "\\\\"
    else if c == '\n' then "\\n"
    else if c == '\r' then "\\r"
    else if c == '\t' then "\\t"
    else if c == 8 as char then "\\b"
    else if c == 12 as char then "\\f"
    else if c < ' ' then "\\u00" + [HexDigit(c as int / 16), HexDigit(c as int % 16)]
    else [c]
  }

  function Escape(s: string): string {
    if s == "" then "" else EscapeChar(s[0]) + Escape(s[1..])
  }

  function JsonString(s: string): string {
    "\"" + Escape(s) + "\""
  }

  function Members(m: map<string, string>, keys: seq<string>): seq<string>
    requires forall k :: k in keys ==> k in m
  {
    if keys == [] then []
    else
      var k := keys[|keys| - 1];
      Members(m, keys[..|keys| - 1]) + [JsonString(k) + ":" + JsonString(m[k])]
  }

  function JsonObject(m: map<string, string>): string {
    "{" + Join(Members(m, InOrder(m.Keys)), ",") + "}"
  }

  function Body(sel: Selections, rs: seq<Remote>, base: nat): string {
    "{\"query\":" + JsonString(Query(sel, rs, base))
    + ",\"variables\":" + JsonObject(Inserted(Entries(rs, base))) + "}"
  }

  // ----- The loops that build it -----

  method BuildBatchBody(sel: Selections, remotes: seq<Remote>) returns (body: string)
    ensures body == Body(sel, remotes, 0)
  {
    hide Inserted, RepoFragment, RepoDeclarations, RepoEntries, Join, JsonString, JsonObject;
    assert Inserted([]) == map[] by { NothingInserted(); }
    var declarations: seq<string> := [];
    var repositories: seq<string> := [];
    var variables: map<string, string> := map[];
    for i := 0 to |remotes|
      invariant declarations == Declarations(remotes[..i], 0)
      invariant repositories == RepoFragments(sel, remotes[..i], 0)
      invariant variables == Inserted(Entries(remotes[..i], 0))
    {
      assert remotes[..i + 1][..i] == remotes[..i];
      var declared, fragment, inserted := AddRepository(sel, remotes[i], i, variables, Entries(remotes[..i], 0));
      declarations := declarations + declared;
      repositories := repositories + [fragment];
      variables := inserted;
    }
    assert remotes[..|remotes|] == remotes;
    var query := "query(" + Join(declarations, ", ") + ") {\n" + Join(repositories, "\n") + "\n}";
    body := "{\"query\":" + JsonString(query) + ",\"variables\":" + JsonObject(variables) + "}";
  }

  lemma NothingInserted()
    ensures Inserted([]) == map[]
  {
  }

  /** One turn of the outer loop: a repository's declarations, fragment and variables. */
  method AddRepository(sel: Selections, remote: Remote, i: nat, variables: map<string, string>,
                       ghost entries: seq<Entry>)
      returns (declarations: seq<string>, fragment: string, inserted: map<string, string>)
    requires variables == Inserted(entries)
    ensures declarations == RepoDeclarations(remote, i)
    ensures fragment == RepoFragment(sel, remote, i)
    ensures inserted == Inserted(entries + RepoEntries(remote, i))
  {
    hide Encode, Declare, BranchFragment, Inserted, Join;
    declarations := [Declare(Owner(i)), Declare(Name(i))];
    inserted := variables[Encode(Owner(i)) := remote.owner][Encode(Name(i)) := remote.name];
    ghost var first := [Entry(Owner(i), remote.owner), Entry(Name(i), remote.name)];
    InsertedTwo(entries, first[0], first[1]);
    assert entries + first + BranchEntries([], i) == entries + first;
    var branches: seq<string> := [];
    for j := 0 to |remote.branches|
      invariant declarations == [Declare(Owner(i)), Declare(Name(i))] + BranchDeclarations(j, i)
      invariant branches == BranchFragments(sel, j, i)
      invariant inserted == Inserted(entries + first + BranchEntries(remote.branches[..j], i))
    {
      var branch := remote.branches[j];
      assert remote.branches[..j + 1][..j] == remote.branches[..j];
      declarations := declarations + [Declare(Head(i, j)), Declare(Qualified(i, j))];
      inserted := inserted[Encode(Head(i, j)) := branch][Encode(Qualified(i, j)) := "refs/heads/" + branch];
      ghost var before := entries + first + BranchEntries(remote.branches[..j], i);
      ghost var a, b := Entry(Head(i, j), branch), Entry(Qualified(i, j), "refs/heads/" + branch);
      InsertedTwo(before, a, b);
      assert before + [a, b] == entries + first + BranchEntries(remote.branches[..j + 1], i);
      branches := branches + [BranchFragment(sel, i, j)];
    }
    assert remote.branches[..|remote.branches|] == remote.branches;
    assert entries + first + BranchEntries(remote.branches, i) == entries + RepoEntries(remote, i);
    fragment := "  " + Encode(Repo(i)) + ": repository(owner: $" + Encode(Owner(i)) + ", name: $"
      + Encode(Name(i)) + ") {\n" + Join(branches, "\n") + "\n  }";
  }

  lemma InsertedTwo(entries: seq<Entry>, a: Entry, b: Entry)
    ensures Inserted(entries + [a, b]) == Inserted(entries)[Encode(a.id) := a.value][Encode(b.id) := b.value]
  {
    var e2 := entries + [a, b];
    assert e2[..|e2| - 1] == entries + [a];
    assert (entries + [a])[..|entries|] == entries;
  }

  // ----- No variable is ever overwritten -----

  predicate DistinctIds(entries: seq<Entry>) {
    forall i, j :: 0 <= i < j < |entries| ==> entries[i].id != entries[j].id
  }

  function BranchCount(rs: seq<Remote>): nat {
    if rs == [] then 0 else BranchCount(rs[..|rs| - 1]) + |rs[|rs| - 1].branches|
  }

  lemma {:induction false} BranchEntriesDistinct(branches: seq<string>, i: nat)
    ensures var es := BranchEntries(branches, i);
      && |es| == 2 * |branches|
      && DistinctIds(es)
      && (forall k :: 0 <= k < |es| ==>
            (es[k].id.Head? || es[k].id.Qualified?) && es[k].id.repo == i && es[k].id.branch < |branches|)
  {
    if branches == [] {
    } else {
      BranchEntriesDistinct(branches[..|branches| - 1], i);
    }
  }

  lemma RepoEntriesDistinct(r: Remote, i: nat)
    ensures var es := RepoEntries(r, i);
      && |es| == 2 + 2 * |r.branches|
      && DistinctIds(es)
      && (forall k :: 0 <= k < |es| ==> es[k].id.repo == i)
  {
    BranchEntriesDistinct(r.branches, i);
  }

  lemma DistinctAppend(a: seq<Entry>, b: seq<Entry>, i: nat)
    requires DistinctIds(a) && DistinctIds(b)
    requires forall k :: 0 <= k < |a| ==> a[k].id.repo < i
    requires forall k :: 0 <= k < |b| ==> b[k].id.repo == i
    ensures DistinctIds(a + b)
  {
  }

  lemma {:induction false} EntriesDistinct(rs: seq<Remote>, base: nat)
    ensures var es := Entries(rs, base);
      && |es| == 2 * |rs| + 2 * BranchCount(rs)
      && DistinctIds(es)
      && (forall k :: 0 <= k < |es| ==> base <= es[k].id.repo < base + |rs|)
  {
    hide RepoEntries;
    if rs == [] {
    } else {
      var n := |rs| - 1;
      EntriesDistinct(rs[..n], base);
      RepoEntriesDistinct(rs[n], base + n);
      DistinctAppend(Entries(rs[..n], base), RepoEntries(rs[n], base + n), base + n);
    }
  }

  lemma InsertedLast(entries: seq<Entry>)
    requires entries != []
    ensures var last := entries[|entries| - 1];
      Inserted(entries) == Inserted(entries[..|entries| - 1])[Encode(last.id) := last.value]
  {
    hide Encode;
  }

  lemma {:induction false} InsertedKeepsAll(entries: seq<Entry>)
    requires DistinctIds(entries)
    ensures var m := Inserted(entries);
      && |m| == |entries|
      && (forall k :: 0 <= k < |entries| ==>
            Encode(entries[k].id) in m && m[Encode(entries[k].id)] == entries[k].value)
      && (forall key :: key in m ==> exists k :: 0 <= k < |entries| && Encode(entries[k].id) == key)
  {
    hide Encode, Inserted;
    if entries == [] {
      NothingInserted();
    } else {
      var n := |entries| - 1;
      var before, name := entries[..n], Encode(entries[n].id);
      InsertedLast(entries);
      InsertedKeepsAll(before);
      forall k | 0 <= k < n ensures Encode(before[k].id) != name {
        EncodeInjective(entries[k].id, entries[n].id);
      }
      forall k | 0 <= k < |entries|
        ensures Encode(entries[k].id) in Inserted(entries)
        ensures Inserted(entries)[Encode(entries[k].id)] == entries[k].value
      {
        assert k < n ==> before[k] == entries[k];
      }
      forall key | key in Inserted(entries) ensures exists k :: 0 <= k < |entries| && Encode(entries[k].id) == key {
        OneOfEntries(before, entries[n], key);
        assert entries == before + [entries[n]];
      }
    }
  }

  lemma OneOfEntries(before: seq<Entry>, last: Entry, key: string)
    requires key == Encode(last.id) || exists k :: 0 <= k < |before| && Encode(before[k].id) == key
    ensures exists k :: 0 <= k < |before + [last]| && Encode((before + [last])[k].id) == key
  {
    hide Encode;
    var all := before + [last];
    if key == Encode(last.id) {
      assert Encode(all[|before|].id) == key;
    } else {
      var k :| 0 <= k < |before| && Encode(before[k].id) == key;
      assert Encode(all[k].id) == key;
    }
  }

  lemma {:induction false} BranchEntriesAt(branches: seq<string>, i: nat, j: nat)
    requires j < |branches|
    ensures Entry(Head(i, j), branches[j]) in BranchEntries(branches, i)
    ensures Entry(Qualified(i, j), "refs/heads/" + branches[j]) in BranchEntries(branches, i)
  {
    var n := |branches| - 1;
    var last := [Entry(Head(i, n), branches[n]), Entry(Qualified(i, n), "refs/heads/" + branches[n])];
    assert BranchEntries(branches, i) == BranchEntries(branches[..n], i) + last;
    if j < n {
      BranchEntriesAt(branches[..n], i, j);
    } else {
      assert last[0] in last && last[1] in last;
    }
  }

  lemma {:induction false} EntriesAt(rs: seq<Remote>, base: nat, i: nat, e: Entry)
    requires i < |rs| && e in RepoEntries(rs[i], base + i)
    ensures e in Entries(rs, base)
  {
    var n := |rs| - 1;
    if i == n {
    } else {
      EntriesAt(rs[..n], base, i, e);
    }
  }

  lemma VariableHolds(rs: seq<Remote>, i: nat, e: Entry)
    requires i < |rs| && e in RepoEntries(rs[i], i)
    ensures var m := Inserted(Entries(rs, 0)); Encode(e.id) in m && m[Encode(e.id)] == e.value
  {
    hide Encode, RepoEntries, Entries, Inserted;
    EntriesDistinct(rs, 0);
    InsertedKeepsAll(Entries(rs, 0));
    EntriesAt(rs, 0, i, e);
  }

  lemma RepoVariables(rs: seq<Remote>, i: nat)
    requires i < |rs|
    ensures var m := Inserted(Entries(rs, 0));
      && Encode(Owner(i)) in m && m[Encode(Owner(i))] == rs[i].owner
      && Encode(Name(i)) in m && m[Encode(Name(i))] == rs[i].name
  {
    hide Encode, Inserted;
    var re := RepoEntries(rs[i], i);
    assert re[0] in re && re[1] in re;
    VariableHolds(rs, i, re[0]);
    VariableHolds(rs, i, re[1]);
  }

  lemma BranchVariables(rs: seq<Remote>, i: nat, j: nat)
    requires i < |rs| && j < |rs[i].branches|
    ensures var m := Inserted(Entries(rs, 0));
      && Encode(Head(i, j)) in m && m[Encode(Head(i, j))] == rs[i].branches[j]
      && Encode(Qualified(i, j)) in m && m[Encode(Qualified(i, j))] == "refs/heads/" + rs[i].branches[j]
  {
    hide Encode, Inserted, BranchEntries;
    BranchEntriesAt(rs[i].branches, i, j);
    VariableHolds(rs, i, Entry(Head(i, j), rs[i].branches[j]));
    VariableHolds(rs, i, Entry(Qualified(i, j), "refs/heads/" + rs[i].branches[j]));
  }

  /** The variables map holds exactly two entries per repository and two per branch, each with the
      value of the repository and branch its name decodes to. */
  lemma VariablesAreComplete(rs: seq<Remote>)
    ensures var m := Inserted(Entries(rs, 0));
      && |m| == 2 * |rs| + 2 * BranchCount(rs)
      && (forall i :: 0 <= i < |rs| ==>
            && Encode(Owner(i)) in m && m[Encode(Owner(i))] == rs[i].owner
            && Encode(Name(i)) in m && m[Encode(Name(i))] == rs[i].name)
      && (forall i, j :: 0 <= i < |rs| && 0 <= j < |rs[i].branches| ==>
            && Encode(Head(i, j)) in m && m[Encode(Head(i, j))] == rs[i].branches[j]
            && Encode(Qualified(i, j)) in m
            && m[Encode(Qualified(i, j))] == "refs/heads/" + rs[i].branches[j])
  {
    hide Encode, Inserted, Entries;
    EntriesDistinct(rs, 0);
    InsertedKeepsAll(Entries(rs, 0));
    forall i | 0 <= i < |rs| {
      RepoVariables(rs, i);
    }
    forall i, j | 0 <= i < |rs| && 0 <= j < |rs[i].branches| {
      BranchVariables(rs, i, j);
    }
  }
}
