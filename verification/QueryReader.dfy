/**
 What a batch body asks, read off its text: the JSON is taken apart, the declarations are read, and every
 `$name` of the query is looked up in the variables.  The reader shares nothing with the code that writes
 the body but the field selections, whose text is skipped.
 */
module QueryReader {
  import opened Common
  import opened Text
  import opened Names
  import opened BatchBody
  import opened BodyText

  /** What was read, and the text after it. */
  datatype Parsed<+T> = Fail | Done(value: T, rest: string)

  /** A branch of the query: which head's pull requests, and which ref. */
  datatype AskedBranch = AskedBranch(prAlias: string, head: string, refAlias: string, ref: string)

  datatype AskedRepo = AskedRepo(alias: string, owner: string, name: string, branches: seq<AskedBranch>)

  // ----- Reading JSON -----

  /** A JSON string's characters up to its closing quote. */
  function ReadChars(s: string): (r: Parsed<string>)
    ensures r.Done? ==> |r.rest| < |s|
    decreases |s|
  {
    if s == "" then Fail
    else if s[0] == '"' then Done("", s[1..])
    else
      var c := ReadChar(s);
      if c.None? then Fail
      else
        var more := ReadChars(s[c.value.1..]);
        if more.Fail? then Fail else Done([c.value.0] + more.value, more.rest)
  }

  function ReadString(s: string): (r: Parsed<string>)
    ensures r.Done? ==> |r.rest| < |s|
  {
    if s != "" && s[0] == '"' then ReadChars(s[1..]) else Fail
  }

  /** One member of an object: a string, a colon and a string. */
  function ReadMember(s: string): (r: Parsed<(string, string)>)
    ensures r.Done? ==> |r.rest| < |s|
  {
    var key := ReadString(s);
    if key.Fail? || key.rest == "" || key.rest[0] != ':' then Fail
    else
      var value := ReadString(key.rest[1..]);
      if value.Fail? then Fail else Done((key.value, value.value), value.rest)
  }

  /** An object of strings after its opening brace; a key may stand in it once. */
  function ReadMembers(s: string): (r: Parsed<map<string, string>>)
    decreases |s|
  {
    if s != "" && s[0] == '}' then Done(map[], s[1..])
    else
      var first := ReadMember(s);
      if first.Fail? || first.rest == "" then Fail
      else if first.rest[0] == '}' then Done(map[first.value.0 := first.value.1], first.rest[1..])
      else if !(",\"" <= first.rest) then Fail
      else
        var more := ReadMembers(first.rest[1..]);
        if more.Fail? || first.value.0 in more.value then Fail
        else Done(more.value[first.value.0 := first.value.1], more.rest)
  }

  // ----- Reading the query -----

  predicate IsNameChar(c: char) {
    'a' <= c <= 'z' || 'A' <= c <= 'Z' || '0' <= c <= '9' || c == '_'
  }

  function NameLength(s: string): (n: nat)
    ensures n <= |s|
  {
    if s == "" || !IsNameChar(s[0]) then 0 else 1 + NameLength(s[1..])
  }

  /** A name: as many name characters as there are. */
  function ReadName(s: string): (r: Parsed<string>)
    ensures r.Done? ==> |r.rest| < |s|
  {
    var n := NameLength(s);
    if n == 0 then Fail else Done(s[..n], s[n..])
  }

  /** The text after a name between two given texts. */
  function ReadNameIn(s: string, before: string, after: string): (r: Parsed<string>)
    ensures r.Done? ==> |r.rest| < |s|
  {
    var start := StripPrefix(s, before);
    if start.None? then Fail
    else
      var name := ReadName(start.value);
      if name.Fail? then Fail
      else
        var closed := StripPrefix(name.rest, after);
        if closed.None? then Fail else Done(name.value, closed.value)
  }

  /** `$name: String!`, once or more, with commas between. */
  function ReadDeclarations(s: string): (r: Parsed<seq<string>>)
    decreases |s|
  {
    var first := ReadNameIn(s, "$", ": String!");
    if first.Fail? then Fail
    else
      var comma := StripPrefix(first.rest, ", ");
      if comma.None? then Done([first.value], first.rest)
      else
        var more := ReadDeclarations(comma.value);
        if more.Fail? then Fail else Done([first.value] + more.value, more.rest)
  }

  /** One branch: both aliases and the values of both variables. */
  function ReadBranch(sel: Selections, scope: map<string, string>, s: string): (r: Parsed<AskedBranch>)
    ensures r.Done? ==> |r.rest| < |s|
  {
    var pr := ReadNameIn(s, "    ", ": pullRequests(headRefName: $");
    if pr.Fail? then Fail
    else
      var head := ReadNameIn(pr.rest, "", sel.pullRequest);
      if head.Fail? then Fail
      else
        var ref := ReadNameIn(head.rest, "", ": ref(qualifiedName: $");
        if ref.Fail? then Fail
        else
          var qualified := ReadNameIn(ref.rest, "", sel.ref);
          if qualified.Fail? || head.value !in scope || qualified.value !in scope then Fail
          else Done(AskedBranch(pr.value, scope[head.value], ref.value, scope[qualified.value]), qualified.rest)
  }

  function ReadBranches(sel: Selections, scope: map<string, string>, s: string): (r: Parsed<seq<AskedBranch>>)
    ensures r.Done? ==> |r.rest| < |s|
    decreases |s|
  {
    var first := ReadBranch(sel, scope, s);
    if first.Fail? then Fail
    else if !("\n    " <= first.rest) then Done([first.value], first.rest)
    else
      var more := ReadBranches(sel, scope, first.rest[1..]);
      if more.Fail? then Fail else Done([first.value] + more.value, more.rest)
  }

  /** One repository: its alias, the values of its two variables, and its branches. */
  function ReadRepo(sel: Selections, scope: map<string, string>, s: string): (r: Parsed<AskedRepo>)
    ensures r.Done? ==> |r.rest| < |s|
  {
    var alias := ReadNameIn(s, "  ", ": repository(owner: $");
    if alias.Fail? then Fail
    else
      var owner := ReadNameIn(alias.rest, "", ", name: $");
      if owner.Fail? then Fail
      else
        var name := ReadNameIn(owner.rest, "", ") {\n");
        if name.Fail? || owner.value !in scope || name.value !in scope then Fail
        else
          var branches :=
            if "    " <= name.rest then ReadBranches(sel, scope, name.rest) else Done([], name.rest);
          if branches.Fail? || !("\n  }" <= branches.rest) then Fail
          else
            Done(AskedRepo(alias.value, scope[owner.value], scope[name.value], branches.value),
                 branches.rest[4..])
  }

  function ReadRepos(sel: Selections, scope: map<string, string>, s: string): (r: Parsed<seq<AskedRepo>>)
    decreases |s|
  {
    var first := ReadRepo(sel, scope, s);
    if first.Fail? then Fail
    else if !("\n  " <= first.rest) then Done([first.value], first.rest)
    else
      var more := ReadRepos(sel, scope, first.rest[1..]);
      if more.Fail? then Fail else Done([first.value] + more.value, more.rest)
  }

  function Restrict(m: map<string, string>, keys: seq<string>): map<string, string>
    requires forall k :: k in keys ==> k in m
  {
    map k | k in keys :: m[k]
  }

  /** The query under its variables: every name is declared once, as `String!`, and has a value. */
  function ReadQuery(sel: Selections, variables: map<string, string>, s: string): Option<seq<AskedRepo>> {
    var start := StripPrefix(s, "query(");
    var declared := if start.None? then Fail else ReadDeclarations(start.value);
    if declared.Fail? || !(") {\n" <= declared.rest) || !Distinct(declared.value)
      || exists name :: name in declared.value && name !in variables
    then None
    else
      var scope := Restrict(variables, declared.value);
      var repos := ReadRepos(sel, scope, declared.rest[4..]);
      if repos.Fail? || repos.rest != "\n}" then None else Some(repos.value)
  }

  /** The whole body: an object of a query and its variables. */
  function ReadBody(sel: Selections, body: string): Option<seq<AskedRepo>> {
    var start := StripPrefix(body, "{\"query\":");
    var query := if start.None? then Fail else ReadString(start.value);
    if query.Fail? then None
    else
      var middle := StripPrefix(query.rest, ",\"variables\":{");
      var variables := if middle.None? then Fail else ReadMembers(middle.value);
      if variables.Fail? || variables.rest != "}" then None
      else ReadQuery(sel, variables.value, query.value)
  }

  // ----- JSON reads back -----

  lemma {:induction false} CharsRead(a: string, x: string)
    ensures ReadChars(Escape(a) + "\"" + x) == Done(a, x)
  {
    hide EscapeChar, ReadChar;
    var s := Escape(a) + "\"" + x;
    if a == "" {
      assert s[1..] == x;
    } else {
      var e, more := EscapeChar(a[0]), Escape(a[1..]) + "\"" + x;
      assert s == e + more;
      EscapeCharOpens(a[0]);
      ReadEscaped(a[0], more);
      assert s[0] == e[0] && s[|e|..] == more;
      CharsRead(a[1..], x);
      assert a == [a[0]] + a[1..];
    }
  }

  lemma StringReads(a: string, x: string)
    ensures ReadString(JsonString(a) + x) == Done(a, x)
  {
    hide Escape, ReadChars;
    var s := JsonString(a) + x;
    assert s[0] == '"' && s[1..] == Escape(a) + "\"" + x;
    CharsRead(a, x);
  }

  lemma MemberReads(k: string, v: string, x: string)
    ensures ReadMember(JsonString(k) + ":" + JsonString(v) + x) == Done((k, v), x)
  {
    hide JsonString, ReadString;
    var after := ":" + JsonString(v) + x;
    assert JsonString(k) + ":" + JsonString(v) + x == JsonString(k) + after;
    StringReads(k, after);
    assert after[0] == ':' && after[1..] == JsonString(v) + x;
    StringReads(v, x);
  }

  lemma StartsWithQuote(k: string, x: string)
    ensures var s := JsonString(k) + x; s != "" && s[0] == '"'
  {
    hide Escape;
  }

  lemma LastMemberReads(k: string, v: string, x: string)
    ensures ReadMembers(JsonString(k) + ":" + JsonString(v) + ("}" + x)) == Done(map[k := v], x)
  {
    hide JsonString, ReadMember;
    var after := "}" + x;
    MemberReads(k, v, after);
    StartsWithQuote(k, ":" + JsonString(v) + after);
    assert JsonString(k) + ":" + JsonString(v) + after == JsonString(k) + (":" + JsonString(v) + after);
    assert after[0] == '}' && after[1..] == x;
  }

  lemma MoreMembersRead(k: string, v: string, more: string)
    requires more != "" && more[0] == '"' && ReadMembers(more).Done? && k !in ReadMembers(more).value
    ensures ReadMembers(JsonString(k) + ":" + JsonString(v) + ("," + more))
      == Done(ReadMembers(more).value[k := v], ReadMembers(more).rest)
  {
    hide JsonString, ReadMember;
    var after := "," + more;
    MemberReads(k, v, after);
    StartsWithQuote(k, ":" + JsonString(v) + after);
    assert JsonString(k) + ":" + JsonString(v) + after == JsonString(k) + (":" + JsonString(v) + after);
    assert after[0] == ',' && after[1..] == more && after[..2] == ",\"";
  }

  lemma {:induction false} MembersRead(m: map<string, string>, keys: seq<string>, x: string)
    requires Distinct(keys) && forall k :: k in keys ==> k in m
    ensures ReadMembers(ObjectTail(m, keys) + x) == Done(Restrict(m, keys), x)
  {
    hide JsonString, ReadMembers, ObjectTail;
    if keys == [] {
      NoMembers(m, x);
    } else {
      var k, rest := keys[0], keys[1..];
      var more := ObjectTail(m, rest) + x;
      ObjectTailStep(m, keys, x);
      ObjectTailOpens(m, rest);
      assert keys == [k] + rest;
      assert more[0] == ObjectTail(m, rest)[0];
      MembersRead(m, rest, x);
      if rest == [] {
        assert more == "}" + x by { ObjectTailEnds(m); }
        LastMemberReads(k, m[k], x);
        assert "" + more == more;
        assert Restrict(m, keys) == map[k := m[k]];
      } else {
        MoreMembersRead(k, m[k], more);
        assert Restrict(m, keys) == Restrict(m, rest)[k := m[k]];
      }
    }
  }

  lemma ObjectTailEnds(m: map<string, string>)
    ensures ObjectTail(m, []) == "}"
  {
  }

  lemma NoMembers(m: map<string, string>, x: string)
    ensures ReadMembers(ObjectTail(m, []) + x) == Done(Restrict(m, []), x)
  {
    assert ("}" + x)[1..] == x;
  }

  lemma ObjectReads(m: map<string, string>, x: string)
    ensures JsonObject(m) + x == "{" + (ObjectTail(m, InOrder(m.Keys)) + x)
    ensures ReadMembers(ObjectTail(m, InOrder(m.Keys)) + x) == Done(m, x)
  {
    hide Members, Join, ObjectTail, ReadMembers;
    var keys := InOrder(m.Keys);
    ObjectText(m, keys);
    SortedHasNoDuplicates(keys);
    MembersRead(m, keys, x);
    assert Restrict(m, keys) == m;
    Regroup("{", Join(Members(m, keys), ","), "}", x);
  }

  // ----- Names read back -----

  predicate IsName(s: string) {
    s != "" && forall i :: 0 <= i < |s| ==> IsNameChar(s[i])
  }

  /** A text that cannot carry a name on. */
  predicate EndsName(s: string) {
    s != "" && !IsNameChar(s[0])
  }

  lemma {:induction false} NameLengthIs(name: string, x: string)
    requires (forall i :: 0 <= i < |name| ==> IsNameChar(name[i])) && EndsName(x)
    ensures NameLength(name + x) == |name|
  {
    if name == "" {
      assert name + x == x;
    } else {
      assert (name + x)[1..] == name[1..] + x;
      NameLengthIs(name[1..], x);
    }
  }

  lemma NameReads(before: string, name: string, after: string, x: string)
    requires IsName(name) && EndsName(after)
    ensures ReadNameIn(before + name + after + x, before, after) == Done(name, x)
  {
    hide IsNameChar;
    var s, t := before + name + after + x, after + x;
    assert s == before + (name + t);
    assert s[..|before|] == before && s[|before|..] == name + t;
    NameLengthIs(name, t);
    assert (name + t)[..|name|] == name && (name + t)[|name|..] == t;
    assert t[..|after|] == after && t[|after|..] == x;
  }

  lemma DigitsAreName(n: nat)
    ensures IsName(Decimal(n))
  {
    assert forall c :: IsDigit(c) ==> IsNameChar(c);
  }

  lemma ConcatIsName(a: string, b: string)
    requires IsName(a) && IsName(b)
    ensures IsName(a + b)
  {
  }

  lemma EncodeIsName(id: Id)
    ensures IsName(Encode(id))
  {
    hide IsName, Decimal;
    DigitsAreName(id.repo);
    assert IsName("owner_") && IsName("name_") && IsName("head_") && IsName("qualified_") && IsName("repo_")
      && IsName("pr_r") && IsName("ref_r") && IsName("_b") && IsName("_") by { WordsAreNames(); }
    var i := Decimal(id.repo);
    match id {
      case Owner(_) => ConcatIsName("owner_", i);
      case Name(_) => ConcatIsName("name_", i);
      case Repo(_) => ConcatIsName("repo_", i);
      case Head(_, j) => PairIsName("head_", i, "_", j);
      case Qualified(_, j) => PairIsName("qualified_", i, "_", j);
      case Pr(_, j) => PairIsName("pr_r", i, "_b", j);
      case Ref(_, j) => PairIsName("ref_r", i, "_b", j);
    }
  }

  lemma PairIsName(word: string, i: string, middle: string, j: nat)
    requires IsName(word) && IsName(i) && IsName(middle)
    ensures IsName(word + i + middle + Decimal(j))
  {
    hide IsName, Decimal;
    DigitsAreName(j);
    ConcatIsName(word, i);
    ConcatIsName(word + i, middle);
    ConcatIsName(word + i + middle, Decimal(j));
  }

  lemma WordsAreNames()
    ensures IsName("owner_") && IsName("name_") && IsName("head_") && IsName("qualified_") && IsName("repo_")
    ensures IsName("pr_r") && IsName("ref_r") && IsName("_b") && IsName("_")
  {
  }

  // ----- Declarations read back -----

  function Declared(entries: seq<Entry>): seq<string> {
    seq(|entries|, k requires 0 <= k < |entries| => Declare(entries[k].id))
  }

  function NamesOf(entries: seq<Entry>): seq<string> {
    seq(|entries|, k requires 0 <= k < |entries| => Encode(entries[k].id))
  }

  lemma {:induction false} BranchesDeclared(branches: seq<string>, i: nat)
    ensures BranchDeclarations(|branches|, i) == Declared(BranchEntries(branches, i))
  {
    hide Declare;
    if branches == [] {
    } else {
      BranchesDeclared(branches[..|branches| - 1], i);
    }
  }

  lemma DeclaredConcat(a: seq<Entry>, b: seq<Entry>)
    ensures Declared(a + b) == Declared(a) + Declared(b)
  {
    hide Declare;
  }

  lemma RepoDeclared(r: Remote, i: nat)
    ensures RepoDeclarations(r, i) == Declared(RepoEntries(r, i))
  {
    hide Declare, BranchDeclarations, BranchEntries;
    var first := [Entry(Owner(i), r.owner), Entry(Name(i), r.name)];
    BranchesDeclared(r.branches, i);
    DeclaredConcat(first, BranchEntries(r.branches, i));
    assert Declared(first) == [Declare(Owner(i)), Declare(Name(i))];
  }

  lemma {:induction false} EntriesDeclared(rs: seq<Remote>, base: nat)
    ensures Declarations(rs, base) == Declared(Entries(rs, base))
  {
    hide Declared, RepoDeclarations, RepoEntries;
    if rs == [] {
      assert Declared([]) == [] by { NothingDeclared(); }
    } else {
      var n := |rs| - 1;
      EntriesDeclared(rs[..n], base);
      RepoDeclared(rs[n], base + n);
      DeclaredConcat(Entries(rs[..n], base), RepoEntries(rs[n], base + n));
    }
  }

  lemma NothingDeclared()
    ensures Declared([]) == []
  {
  }

  lemma {:induction false} DeclarationsRead(entries: seq<Entry>, x: string)
    requires entries != [] && !(", " <= x)
    ensures ReadDeclarations(Join(Declared(entries), ", ") + x) == Done(NamesOf(entries), x)
  {
    hide Encode, ReadNameIn;
    var name, rest := Encode(entries[0].id), entries[1..];
    EncodeIsName(entries[0].id);
    assert NamesOf(entries) == [name] + NamesOf(rest);
    if rest == [] {
      assert Join(Declared(entries), ", ") + x == "$" + name + ": String!" + x;
      NameReads("$", name, ": String!", x);
      assert NamesOf(entries) == [name];
    } else {
      var more := Join(Declared(rest), ", ") + x;
      assert Declared(entries)[1..] == Declared(rest);
      assert Join(Declared(entries), ", ") + x == "$" + name + ": String!" + (", " + more);
      NameReads("$", name, ": String!", ", " + more);
      assert (", " + more)[..2] == ", " && (", " + more)[2..] == more;
      DeclarationsRead(rest, x);
    }
  }

  // ----- Fragments read back -----

  /** The selections' text starts where a name ends: in the source with a comma and a bracket. */
  predicate Readable(sel: Selections) {
    EndsName(sel.pullRequest) && EndsName(sel.ref)
  }

  function AskedOf(branch: string, i: nat, j: nat): AskedBranch {
    AskedBranch("pr_r" + Decimal(i) + "_b" + Decimal(j), branch,
                "ref_r" + Decimal(i) + "_b" + Decimal(j), "refs/heads/" + branch)
  }

  function AskedBranches(branches: seq<string>, i: nat): seq<AskedBranch> {
    seq(|branches|, j requires 0 <= j < |branches| => AskedOf(branches[j], i, j))
  }

  /** What a batch asks: each repository under its number, and each branch under both numbers. */
  function Asked(rs: seq<Remote>): seq<AskedRepo> {
    seq(|rs|, i requires 0 <= i < |rs| =>
      AskedRepo("repo_" + Decimal(i), rs[i].owner, rs[i].name, AskedBranches(rs[i].branches, i)))
  }

  predicate Binds(scope: map<string, string>, id: Id, value: string) {
    Encode(id) in scope && scope[Encode(id)] == value
  }

  ghost predicate BindsBranches(scope: map<string, string>, branches: seq<string>, i: nat) {
    forall j :: 0 <= j < |branches| ==>
      Binds(scope, Head(i, j), branches[j]) && Binds(scope, Qualified(i, j), "refs/heads/" + branches[j])
  }

  ghost predicate BindsAll(scope: map<string, string>, rs: seq<Remote>) {
    forall i :: 0 <= i < |rs| ==>
      && Binds(scope, Owner(i), rs[i].owner) && Binds(scope, Name(i), rs[i].name)
      && BindsBranches(scope, rs[i].branches, i)
  }

  lemma NextNameReads(name: string, after: string, x: string)
    requires IsName(name) && EndsName(after)
    ensures ReadNameIn(name + (after + x), "", after) == Done(name, x)
  {
    hide IsName, EndsName, ReadNameIn;
    NameReads("", name, after, x);
    assert "" + name + after + x == name + (after + x);
  }

  lemma FirstNameReads(before: string, name: string, after: string, x: string)
    requires IsName(name) && EndsName(after)
    ensures ReadNameIn(before + (name + (after + x)), before, after) == Done(name, x)
  {
    hide IsName, EndsName, ReadNameIn;
    NameReads(before, name, after, x);
    assert before + name + after + x == before + (name + (after + x));
  }

  lemma RegroupNames(a: string, n: string, b: string, m: string, c: string, x: string)
    ensures a + n + b + m + c + x == a + (n + (b + (m + (c + x))))
  {
  }

  lemma BranchText(sel: Selections, i: nat, j: nat, x: string)
    ensures BranchFragment(sel, i, j) + x
      == "    " + (Encode(Pr(i, j)) + (": pullRequests(headRefName: $" + (Encode(Head(i, j)) + (sel.pullRequest
         + (Encode(Ref(i, j)) + (": ref(qualifiedName: $" + (Encode(Qualified(i, j)) + (sel.ref + x))))))))
  {
    hide Encode;
    var head, ref := Encode(Head(i, j)), Encode(Ref(i, j));
    var refs := ": ref(qualifiedName: $";
    RegroupNames("    ", Encode(Pr(i, j)), ": pullRequests(headRefName: $", head, sel.pullRequest,
                 ref + refs + Encode(Qualified(i, j)) + sel.ref + x);
    RegroupNames("", ref, refs, Encode(Qualified(i, j)), sel.ref, x);
  }

  lemma BranchReads(sel: Selections, scope: map<string, string>, branch: string, i: nat, j: nat, x: string)
    requires Readable(sel)
    requires Binds(scope, Head(i, j), branch) && Binds(scope, Qualified(i, j), "refs/heads/" + branch)
    ensures ReadBranch(sel, scope, BranchFragment(sel, i, j) + x) == Done(AskedOf(branch, i, j), x)
  {
    hide Encode, IsName, ReadNameIn, Decimal, BranchFragment;
    var pr, head, ref, qualified := Encode(Pr(i, j)), Encode(Head(i, j)), Encode(Ref(i, j)), Encode(Qualified(i, j));
    EncodeIsName(Pr(i, j));
    EncodeIsName(Head(i, j));
    EncodeIsName(Ref(i, j));
    EncodeIsName(Qualified(i, j));
    var x3 := qualified + (sel.ref + x);
    var x2 := ref + (": ref(qualifiedName: $" + x3);
    var x1 := head + (sel.pullRequest + x2);
    BranchText(sel, i, j, x);
    FirstNameReads("    ", pr, ": pullRequests(headRefName: $", x1);
    NextNameReads(head, sel.pullRequest, x2);
    NextNameReads(ref, ": ref(qualifiedName: $", x3);
    NextNameReads(qualified, sel.ref, x);
    AliasesAre(i, j);
  }

  lemma AliasesAre(i: nat, j: nat)
    ensures Encode(Repo(i)) == "repo_" + Decimal(i)
    ensures Encode(Pr(i, j)) == "pr_r" + Decimal(i) + "_b" + Decimal(j)
    ensures Encode(Ref(i, j)) == "ref_r" + Decimal(i) + "_b" + Decimal(j)
  {
  }

  lemma {:induction false} BranchFragmentsAt(sel: Selections, n: nat, i: nat)
    ensures |BranchFragments(sel, n, i)| == n
    ensures forall j :: 0 <= j < n ==> BranchFragments(sel, n, i)[j] == BranchFragment(sel, i, j)
  {
    hide BranchFragment;
    if n == 0 {
    } else {
      BranchFragmentsAt(sel, n - 1, i);
    }
  }

  lemma {:induction false} RepoFragmentsAt(sel: Selections, rs: seq<Remote>)
    ensures |RepoFragments(sel, rs, 0)| == |rs|
    ensures forall i :: 0 <= i < |rs| ==> RepoFragments(sel, rs, 0)[i] == RepoFragment(sel, rs[i], i)
  {
    hide RepoFragment;
    if rs == [] {
    } else {
      RepoFragmentsAt(sel, rs[..|rs| - 1]);
    }
  }

  lemma BranchOpens(sel: Selections, i: nat, j: nat, x: string)
    ensures "    " <= BranchFragment(sel, i, j) + x
  {
    hide Encode;
  }

  /** Lines joined from one on: the first, and what follows it. */
  lemma JoinFrom(parts: seq<string>, k: nat, x: string)
    requires k < |parts|
    ensures Join(parts[k..], "\n") + x
      == parts[k] + (if k + 1 == |parts| then x else "\n" + (Join(parts[k + 1..], "\n") + x))
  {
    hide Join;
    JoinOpens(parts[k..], "\n");
    if k + 1 < |parts| {
      assert parts[k..][1..] == parts[k + 1..];
      assert parts[k] + "\n" + Join(parts[k + 1..], "\n") + x
        == parts[k] + ("\n" + (Join(parts[k + 1..], "\n") + x));
    }
  }

  lemma JoinOpens(parts: seq<string>, sep: string)
    requires parts != []
    ensures Join(parts, sep) == if |parts| == 1 then parts[0] else parts[0] + sep + Join(parts[1..], sep)
  {
  }

  lemma TailOf<T>(xs: seq<T>, k: nat)
    requires k < |xs|
    ensures xs[k..] == if k + 1 == |xs| then [xs[k]] else [xs[k]] + xs[k + 1..]
  {
  }

  lemma BranchesOpen(sel: Selections, n: nat, i: nat, j: nat, x: string)
    requires j < n && |BranchFragments(sel, n, i)| == n
    ensures "    " <= Join(BranchFragments(sel, n, i)[j..], "\n") + x
  {
    hide BranchFragment, BranchFragments, Join;
    var fragments := BranchFragments(sel, n, i);
    BranchFragmentsAt(sel, n, i);
    JoinFrom(fragments, j, x);
    BranchOpens(sel, i, j, if j + 1 == n then x else "\n" + (Join(fragments[j + 1..], "\n") + x));
  }

  lemma OneBranchReads(sel: Selections, scope: map<string, string>, s: string, branch: AskedBranch, x: string)
    requires ReadBranch(sel, scope, s) == Done(branch, x) && !("\n    " <= x)
    ensures ReadBranches(sel, scope, s) == Done([branch], x)
  {
    hide ReadBranch;
  }

  lemma MoreBranchesRead(sel: Selections, scope: map<string, string>, s: string, branch: AskedBranch, more: string)
    requires ReadBranch(sel, scope, s) == Done(branch, "\n" + more) && "    " <= more
    requires ReadBranches(sel, scope, more).Done?
    ensures var rest := ReadBranches(sel, scope, more);
      ReadBranches(sel, scope, s) == Done([branch] + rest.value, rest.rest)
  {
    hide ReadBranch;
    assert "\n    " <= "\n" + more && ("\n" + more)[1..] == more;
  }

  lemma {:induction false} BranchesRead(sel: Selections, scope: map<string, string>, branches: seq<string>,
                                        i: nat, j: nat, x: string)
    requires Readable(sel) && BindsBranches(scope, branches, i) && j < |branches| && !("\n    " <= x)
    ensures |BranchFragments(sel, |branches|, i)| == |branches|
    ensures ReadBranches(sel, scope, Join(BranchFragments(sel, |branches|, i)[j..], "\n") + x)
      == Done(AskedBranches(branches, i)[j..], x)
    decreases |branches| - j
  {
    hide ReadBranch, ReadBranches, BranchFragment, BranchFragments, Join, Binds, AskedOf, Readable;
    var n := |branches|;
    var fragments, asked := BranchFragments(sel, n, i), AskedBranches(branches, i);
    BranchFragmentsAt(sel, n, i);
    var s := Join(fragments[j..], "\n") + x;
    JoinFrom(fragments, j, x);
    if j + 1 == n {
      BranchReads(sel, scope, branches[j], i, j, x);
      OneBranchReads(sel, scope, s, asked[j], x);
      TailOf(asked, j);
    } else {
      var more := Join(fragments[j + 1..], "\n") + x;
      BranchReads(sel, scope, branches[j], i, j, "\n" + more);
      BranchesOpen(sel, n, i, j + 1, x);
      BranchesRead(sel, scope, branches, i, j + 1, x);
      MoreBranchesRead(sel, scope, s, asked[j], more);
      TailOf(asked, j);
    }
  }

  /** The branches of one repository up to its closing bracket; there may be none. */
  lemma AllBranchesRead(sel: Selections, scope: map<string, string>, r: Remote, i: nat, x: string)
    requires Readable(sel) && BindsBranches(scope, r.branches, i)
    ensures var s := Join(BranchFragments(sel, |r.branches|, i), "\n") + ("\n  }" + x);
      (if "    " <= s then ReadBranches(sel, scope, s) else Done([], s))
      == Done(AskedBranches(r.branches, i), "\n  }" + x)
  {
    hide ReadBranches, BranchFragment, Binds, AskedOf;
    var fragments := BranchFragments(sel, |r.branches|, i);
    var after := "\n  }" + x;
    assert after[0] == '\n' && after[3] == '}';
    BranchFragmentsAt(sel, |r.branches|, i);
    if r.branches == [] {
      assert Join(fragments, "\n") + after == after && AskedBranches(r.branches, i) == [];
      assert !("    " <= after);
    } else {
      BranchesRead(sel, scope, r.branches, i, 0, after);
      assert fragments[0..] == fragments;
      assert AskedBranches(r.branches, i)[0..] == AskedBranches(r.branches, i);
      BranchesOpen(sel, |r.branches|, i, 0, after);
    }
  }

  lemma RepoText(sel: Selections, r: Remote, i: nat, x: string)
    ensures RepoFragment(sel, r, i) + x
      == "  " + (Encode(Repo(i)) + (": repository(owner: $" + (Encode(Owner(i)) + (", name: $" + (Encode(Name(i))
         + (") {\n" + (Join(BranchFragments(sel, |r.branches|, i), "\n") + ("\n  }" + x))))))))
  {
    hide Encode, Join, BranchFragments;
    var alias, owner, name := Encode(Repo(i)), Encode(Owner(i)), Encode(Name(i));
    var branches := Join(BranchFragments(sel, |r.branches|, i), "\n");
    RegroupNames("  ", alias, ": repository(owner: $", owner, ", name: $",
                 name + ") {\n" + branches + "\n  }" + x);
    RegroupNames("", name, ") {\n", branches, "\n  }", x);
  }

  lemma RepoReads(sel: Selections, scope: map<string, string>, r: Remote, i: nat, x: string)
    requires Readable(sel) && BindsBranches(scope, r.branches, i)
    requires Binds(scope, Owner(i), r.owner) && Binds(scope, Name(i), r.name)
    ensures ReadRepo(sel, scope, RepoFragment(sel, r, i) + x)
      == Done(AskedRepo("repo_" + Decimal(i), r.owner, r.name, AskedBranches(r.branches, i)), x)
  {
    hide Encode, IsName, ReadNameIn, Decimal, Join, BranchFragments, RepoFragment, AskedBranches;
    hide ReadBranches, BindsBranches;
    var alias, owner, name := Encode(Repo(i)), Encode(Owner(i)), Encode(Name(i));
    EncodeIsName(Repo(i));
    EncodeIsName(Owner(i));
    EncodeIsName(Name(i));
    var after := "\n  }" + x;
    var x3 := Join(BranchFragments(sel, |r.branches|, i), "\n") + after;
    var x2 := name + (") {\n" + x3);
    var x1 := owner + (", name: $" + x2);
    RepoText(sel, r, i, x);
    FirstNameReads("  ", alias, ": repository(owner: $", x1);
    NextNameReads(owner, ", name: $", x2);
    NextNameReads(name, ") {\n", x3);
    AllBranchesRead(sel, scope, r, i, x);
    assert after[..4] == "\n  }" && after[4..] == x;
    AliasesAre(i, 0);
  }

  lemma OneRepoReads(sel: Selections, scope: map<string, string>, s: string, repo: AskedRepo, x: string)
    requires ReadRepo(sel, scope, s) == Done(repo, x) && !("\n  " <= x)
    ensures ReadRepos(sel, scope, s) == Done([repo], x)
  {
    hide ReadRepo;
  }

  lemma MoreReposRead(sel: Selections, scope: map<string, string>, s: string, repo: AskedRepo, more: string)
    requires ReadRepo(sel, scope, s) == Done(repo, "\n" + more) && "  " <= more
    requires ReadRepos(sel, scope, more).Done?
    ensures var rest := ReadRepos(sel, scope, more);
      ReadRepos(sel, scope, s) == Done([repo] + rest.value, rest.rest)
  {
    hide ReadRepo;
    assert "\n  " <= "\n" + more && ("\n" + more)[1..] == more;
  }

  lemma {:induction false} ReposRead(sel: Selections, scope: map<string, string>, rs: seq<Remote>, i: nat, x: string)
    requires Readable(sel) && BindsAll(scope, rs) && i < |rs| && !("\n  " <= x)
    ensures |RepoFragments(sel, rs, 0)| == |rs|
    ensures ReadRepos(sel, scope, Join(RepoFragments(sel, rs, 0)[i..], "\n") + x) == Done(Asked(rs)[i..], x)
    decreases |rs| - i
  {
    hide ReadRepo, ReadRepos, RepoFragment, RepoFragments, Join, Binds, BindsBranches, BindsAll, Asked, Readable;
    var n, fragments, asked := |rs|, RepoFragments(sel, rs, 0), Asked(rs);
    RepoFragmentsAt(sel, rs);
    var s := Join(fragments[i..], "\n") + x;
    AskedAt(rs, i);
    BoundAt(scope, rs, i);
    JoinFrom(fragments, i, x);
    if i + 1 == n {
      RepoReads(sel, scope, rs[i], i, x);
      OneRepoReads(sel, scope, s, asked[i], x);
      TailOf(asked, i);
    } else {
      var more := Join(fragments[i + 1..], "\n") + x;
      RepoReads(sel, scope, rs[i], i, "\n" + more);
      ReposOpen(sel, rs, i + 1, x);
      ReposRead(sel, scope, rs, i + 1, x);
      MoreReposRead(sel, scope, s, asked[i], more);
      TailOf(asked, i);
    }
  }

  lemma ReposOpen(sel: Selections, rs: seq<Remote>, i: nat, x: string)
    requires i < |rs| && |RepoFragments(sel, rs, 0)| == |rs|
    ensures "  " <= Join(RepoFragments(sel, rs, 0)[i..], "\n") + x
  {
    hide RepoFragment, RepoFragments, Join;
    var fragments := RepoFragments(sel, rs, 0);
    RepoFragmentsAt(sel, rs);
    JoinFrom(fragments, i, x);
    RepoOpens(sel, rs[i], i, if i + 1 == |rs| then x else "\n" + (Join(fragments[i + 1..], "\n") + x));
  }

  lemma AskedAt(rs: seq<Remote>, i: nat)
    requires i < |rs|
    ensures |Asked(rs)| == |rs|
    ensures Asked(rs)[i]
      == AskedRepo("repo_" + Decimal(i), rs[i].owner, rs[i].name, AskedBranches(rs[i].branches, i))
  {
  }

  lemma BoundAt(scope: map<string, string>, rs: seq<Remote>, i: nat)
    requires BindsAll(scope, rs) && i < |rs|
    ensures Binds(scope, Owner(i), rs[i].owner) && Binds(scope, Name(i), rs[i].name)
    ensures BindsBranches(scope, rs[i].branches, i)
  {
    hide Binds, BindsBranches;
  }

  lemma RepoOpens(sel: Selections, r: Remote, i: nat, x: string)
    ensures "  " <= RepoFragment(sel, r, i) + x
  {
    hide Encode, Join;
  }

  // ----- The body reads back -----

  /** The variables give every name the query uses its value. */
  lemma VariablesBind(rs: seq<Remote>)
    ensures BindsAll(Inserted(Entries(rs, 0)), rs)
  {
    hide Encode, Inserted, Entries;
    VariablesAreComplete(rs);
  }

  /** The declared names are distinct and are all the variables there are. */
  lemma DeclaredAreVariables(rs: seq<Remote>)
    ensures var names, m := NamesOf(Entries(rs, 0)), Inserted(Entries(rs, 0));
      && Distinct(names)
      && (forall name :: name in names ==> name in m)
      && Restrict(m, names) == m
  {
    hide Encode, Inserted, Entries;
    var entries := Entries(rs, 0);
    var names, m := NamesOf(entries), Inserted(entries);
    EntriesDistinct(rs, 0);
    InsertedKeepsAll(entries);
    forall i, j | 0 <= i < j < |names| ensures names[i] != names[j] {
      EncodeInjective(entries[i].id, entries[j].id);
    }
    forall name | name in m ensures name in names {
      var k :| 0 <= k < |entries| && Encode(entries[k].id) == name;
      assert names[k] == name;
    }
  }

  lemma EntriesExist(rs: seq<Remote>)
    requires rs != []
    ensures Entries(rs, 0) != []
  {
  }

  lemma QueryReads(sel: Selections, rs: seq<Remote>)
    requires rs != [] && Readable(sel)
    ensures ReadQuery(sel, Inserted(Entries(rs, 0)), Query(sel, rs, 0)) == Some(Asked(rs))
  {
    hide Encode, Inserted, Entries, Declarations, Declared, NamesOf, RepoFragments, Join, BindsAll, Asked;
    hide ReadDeclarations, ReadRepos, Restrict;
    var entries, m := Entries(rs, 0), Inserted(Entries(rs, 0));
    var names := NamesOf(entries);
    var fragments := RepoFragments(sel, rs, 0);
    var tail := Join(fragments, "\n") + "\n}";
    var after := ") {\n" + tail;
    EntriesExist(rs);
    EntriesDeclared(rs, 0);
    assert after[0] == ')' && after[..4] == ") {\n" && after[4..] == tail;
    DeclarationsRead(entries, after);
    DeclaredAreVariables(rs);
    VariablesBind(rs);
    assert !("\n  " <= "\n}");
    ReposRead(sel, m, rs, 0, "\n}");
    assert fragments[0..] == fragments && Asked(rs)[0..] == Asked(rs);
    var s := Query(sel, rs, 0);
    RegroupNames("query(", Join(Declarations(rs, 0), ", "), ") {\n", Join(fragments, "\n"), "\n}", "");
    assert s == "query(" + (Join(Declared(entries), ", ") + after);
    assert s[..6] == "query(" && s[6..] == Join(Declared(entries), ", ") + after;
  }

  /** Read as JSON and as a query whose names stand for the variables' values, the body of a batch asks
      for each repository by its own owner and name, and for each branch by its own name as the head and
      by its full name as the ref, all under their numbers; every variable is declared and bound. */
  lemma BodyAsks(sel: Selections, rs: seq<Remote>)
    requires rs != [] && Readable(sel)
    ensures ReadBody(sel, Body(sel, rs, 0)) == Some(Asked(rs))
  {
    hide Query, Inserted, Entries, JsonString, JsonObject, ObjectTail, InOrder, ReadString, ReadMembers, ReadQuery;
    hide Asked;
    var query, m := Query(sel, rs, 0), Inserted(Entries(rs, 0));
    var members := ObjectTail(m, InOrder(m.Keys)) + "}";
    var middle := ",\"variables\":" + JsonObject(m) + "}";
    ObjectReads(m, "}");
    StringReads(query, middle);
    QueryReads(sel, rs);
    var body := Body(sel, rs, 0);
    assert body == "{\"query\":" + (JsonString(query) + middle);
    assert body[..9] == "{\"query\":" && body[9..] == JsonString(query) + middle;
    assert middle == ",\"variables\":" + (JsonObject(m) + "}") == ",\"variables\":{" + members;
    assert middle[..14] == ",\"variables\":{" && middle[14..] == members;
  }
}
