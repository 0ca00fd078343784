/**
 The size of a batch body, as a sum over repositories.  It gives the two facts packing rests on:
 dropping repositories from either end, and renumbering what is left, never makes the body longer.
 */
module BodySize {
  import opened Text
  import opened Names
  import opened BatchBody

  /** Bytes a string takes inside a JSON string. */
  function Escaped(s: string): nat {
    Bytes(Escape(s))
  }

  lemma {:induction false} EscapeConcat(a: string, b: string)
    ensures Escape(a + b) == Escape(a) + Escape(b)
  {
    if a == "" {
      assert a + b == b;
    } else {
      assert (a + b)[1..] == a[1..] + b;
      EscapeConcat(a[1..], b);
    }
  }

  lemma EscapedConcat(a: string, b: string)
    ensures Escaped(a + b) == Escaped(a) + Escaped(b)
  {
    EscapeConcat(a, b);
    BytesConcat(Escape(a), Escape(b));
  }

  lemma {:induction false} EscapedDigits(s: string)
    requires AllDigits(s)
    ensures Escaped(s) == |s|
  {
    if s == "" {
    } else {
      assert Escape(s) == EscapeChar(s[0]) + Escape(s[1..]);
      assert EscapeChar(s[0]) == [s[0]];
      BytesConcat([s[0]], Escape(s[1..]));
      assert [s[0]][1..] == "";
      EscapedDigits(s[1..]);
    }
  }

  lemma EscapedDecimalGrows(m: nat, n: nat)
    requires m <= n
    ensures Escaped(Decimal(m)) <= Escaped(Decimal(n))
  {
    hide Decimal, Escaped;
    EscapedDigits(Decimal(m));
    EscapedDigits(Decimal(n));
    DecimalGrows(m, n);
  }

  lemma Grow(a: string, a': string, b: string, b': string)
    requires Escaped(a) <= Escaped(a') && Escaped(b) <= Escaped(b')
    ensures Escaped(a + b) <= Escaped(a' + b')
  {
    EscapedConcat(a, b);
    EscapedConcat(a', b');
  }

  // ----- Renumbering upwards never shortens anything -----

  function Shift(id: Id, k: nat): Id {
    id.(repo := id.repo + k)
  }

  lemma EncodeGrows(id: Id, k: nat)
    ensures Escaped(Encode(id)) <= Escaped(Encode(Shift(id, k)))
  {
    hide Escaped, Decimal;
    var d, d' := Decimal(id.repo), Decimal(id.repo + k);
    EscapedDecimalGrows(id.repo, id.repo + k);
    match id {
      case Owner(i) => Grow("owner_", "owner_", d, d');
      case Name(i) => Grow("name_", "name_", d, d');
      case Repo(i) => Grow("repo_", "repo_", d, d');
      case Head(i, j) => GrowMiddle("head_", d, d', "_", Decimal(j));
      case Qualified(i, j) => GrowMiddle("qualified_", d, d', "_", Decimal(j));
      case Pr(i, j) => GrowMiddle("pr_r", d, d', "_b", Decimal(j));
      case Ref(i, j) => GrowMiddle("ref_r", d, d', "_b", Decimal(j));
    }
  }

  lemma GrowMiddle(a: string, d: string, d': string, b: string, c: string)
    requires Escaped(d) <= Escaped(d')
    ensures Escaped(a + d + b + c) <= Escaped(a + d' + b + c)
  {
    Grow(a, a, d, d');
    Grow(a + d, a + d', b, b);
    Grow(a + d + b, a + d' + b, c, c);
  }

  lemma DeclareGrows(id: Id, k: nat)
    ensures Escaped(Declare(id)) <= Escaped(Declare(Shift(id, k)))
  {
    hide Escaped, Encode;
    EncodeGrows(id, k);
    var e, e' := Encode(id), Encode(Shift(id, k));
    Grow("$", "$", e, e');
    Grow("$" + e, "$" + e', ": String!", ": String!");
  }

  lemma BranchFragmentGrows(sel: Selections, i: nat, j: nat, k: nat)
    ensures Escaped(BranchFragment(sel, i, j)) <= Escaped(BranchFragment(sel, i + k, j))
  {
    hide Escaped, Encode;
    EncodeGrows(Pr(i, j), k);
    EncodeGrows(Head(i, j), k);
    EncodeGrows(Ref(i, j), k);
    EncodeGrows(Qualified(i, j), k);
    var p, p' := Encode(Pr(i, j)), Encode(Pr(i + k, j));
    var h, h' := Encode(Head(i, j)), Encode(Head(i + k, j));
    var r, r' := Encode(Ref(i, j)), Encode(Ref(i + k, j));
    var q, q' := Encode(Qualified(i, j)), Encode(Qualified(i + k, j));
    var t1, t1' := "    " + p, "    " + p';
    Grow("    ", "    ", p, p');
    var a := ": pullRequests(headRefName: $";
    Grow(t1, t1', a, a);
    var t2, t2' := t1 + a, t1' + a;
    Grow(t2, t2', h, h');
    var t3, t3' := t2 + h, t2' + h';
    Grow(t3, t3', sel.pullRequest, sel.pullRequest);
    var t4, t4' := t3 + sel.pullRequest, t3' + sel.pullRequest;
    Grow(t4, t4', r, r');
    var t5, t5' := t4 + r, t4' + r';
    var b := ": ref(qualifiedName: $";
    Grow(t5, t5', b, b);
    var t6, t6' := t5 + b, t5' + b;
    Grow(t6, t6', q, q');
    Grow(t6 + q, t6' + q', sel.ref, sel.ref);
  }

  // ----- Sums over lists -----

  function SumEscaped(parts: seq<string>): nat {
    if parts == [] then 0 else SumEscaped(parts[..|parts| - 1]) + Escaped(parts[|parts| - 1])
  }

  lemma {:induction false} SumEscapedConcat(a: seq<string>, b: seq<string>)
    ensures SumEscaped(a + b) == SumEscaped(a) + SumEscaped(b)
  {
    if b == [] {
      assert a + b == a;
    } else {
      assert (a + b)[..|a + b| - 1] == a + b[..|b| - 1];
      SumEscapedConcat(a, b[..|b| - 1]);
    }
  }

  lemma {:induction false} EscapedJoin(parts: seq<string>, sep: string)
    requires parts != []
    ensures Escaped(Join(parts, sep)) + Escaped(sep) == SumEscaped(parts) + |parts| * Escaped(sep)
  {
    hide Escaped;
    if |parts| == 1 {
      assert parts[..0] == [];
    } else {
      EscapedJoin(parts[1..], sep);
      EscapedConcat(parts[0] + sep, Join(parts[1..], sep));
      EscapedConcat(parts[0], sep);
      SumEscapedConcat([parts[0]], parts[1..]);
      assert [parts[0]] + parts[1..] == parts;
      assert [parts[0]][..0] == [];
      assert |parts| * Escaped(sep) == (|parts| - 1) * Escaped(sep) + Escaped(sep);
    }
  }

  lemma EscapedJoinGrows(a: seq<string>, b: seq<string>, sep: string)
    requires |a| == |b| && SumEscaped(a) <= SumEscaped(b)
    ensures Escaped(Join(a, sep)) <= Escaped(Join(b, sep))
  {
    if a != [] {
      EscapedJoin(a, sep);
      EscapedJoin(b, sep);
    }
  }

  function SumBytes(parts: seq<string>): nat {
    if parts == [] then 0 else SumBytes(parts[..|parts| - 1]) + Bytes(parts[|parts| - 1])
  }

  lemma {:induction false} SumBytesConcat(a: seq<string>, b: seq<string>)
    ensures SumBytes(a + b) == SumBytes(a) + SumBytes(b)
  {
    if b == [] {
      assert a + b == a;
    } else {
      assert (a + b)[..|a + b| - 1] == a + b[..|b| - 1];
      SumBytesConcat(a, b[..|b| - 1]);
    }
  }

  lemma {:induction false} CommaJoinBytes(parts: seq<string>)
    requires parts != []
    ensures Bytes(Join(parts, ",")) + 1 == SumBytes(parts) + |parts|
  {
    assert Bytes(",") == 1 by { assert ","[1..] == ""; }
    if |parts| == 1 {
      assert parts[..0] == [];
    } else {
      CommaJoinBytes(parts[1..]);
      BytesConcat(parts[0] + ",", Join(parts[1..], ","));
      BytesConcat(parts[0], ",");
      SumBytesConcat([parts[0]], parts[1..]);
      assert [parts[0]] + parts[1..] == parts;
      assert [parts[0]][..0] == [];
    }
  }

  // ----- The variables object -----

  function MemberBytes(key: string, value: string): nat {
    Bytes(JsonString(key) + ":" + JsonString(value))
  }

  function KeysBytes(m: map<string, string>, keys: seq<string>): nat
    requires forall k :: k in keys ==> k in m
  {
    if keys == [] then 0
    else
      var k := keys[|keys| - 1];
      KeysBytes(m, keys[..|keys| - 1]) + MemberBytes(k, m[k])
  }

  lemma {:induction false} MembersBytes(m: map<string, string>, keys: seq<string>)
    requires forall k :: k in keys ==> k in m
    ensures SumBytes(Members(m, keys)) == KeysBytes(m, keys)
    ensures |Members(m, keys)| == |keys|
  {
    hide MemberBytes, JsonString, Bytes;
    if keys == [] {
    } else {
      var n := |keys| - 1;
      MembersBytes(m, keys[..n]);
      var rest := Members(m, keys[..n]);
      var text := JsonString(keys[n]) + ":" + JsonString(m[keys[n]]);
      assert Bytes(text) == MemberBytes(keys[n], m[keys[n]]) by { MemberBytesIs(keys[n], m[keys[n]]); }
      assert (rest + [text])[..|rest|] == rest;
    }
  }

  lemma MemberBytesIs(key: string, value: string)
    ensures MemberBytes(key, value) == Bytes(JsonString(key) + ":" + JsonString(value))
    ensures MemberBytes(key, value) == 5 + Escaped(key) + Escaped(value)
  {
    BytesConcat(JsonString(key) + ":", JsonString(value));
    BytesConcat(JsonString(key), ":");
    JsonStringBytes(key);
    JsonStringBytes(value);
    assert Bytes(":") == 1 by { assert ":"[1..] == ""; }
  }

  lemma JsonStringBytes(s: string)
    ensures Bytes(JsonString(s)) == 2 + Escaped(s)
  {
    assert Bytes("\"") == 1 by { assert "\""[1..] == ""; }
    BytesConcat("\"" + Escape(s), "\"");
    BytesConcat("\"", Escape(s));
  }

  lemma {:induction false} KeysBytesRemove(m: map<string, string>, keys: seq<string>, i: nat)
    requires i < |keys| && forall k :: k in keys ==> k in m
    ensures forall k :: k in keys[..i] + keys[i + 1..] ==> k in m
    ensures KeysBytes(m, keys) == KeysBytes(m, keys[..i] + keys[i + 1..]) + MemberBytes(keys[i], m[keys[i]])
  {
    hide MemberBytes;
    var n := |keys| - 1;
    if i == n {
      assert keys[..i] + keys[i + 1..] == keys[..n];
    } else {
      KeysBytesRemove(m, keys[..n], i);
      var less := keys[..i] + keys[i + 1..];
      assert keys[..n][..i] == keys[..i] && keys[..n][i + 1..] == keys[i + 1..n];
      assert less == keys[..i] + keys[i + 1..n] + [keys[n]];
      assert less[..n - 1] == keys[..i] + keys[i + 1..n];
    }
  }

  /** The order in which the keys are written does not change the size. */
  lemma {:induction false} KeysBytesAnyOrder(m: map<string, string>, xs: seq<string>, ys: seq<string>)
    requires Distinct(xs) && Distinct(ys)
    requires forall k :: k in xs <==> k in ys
    requires forall k :: k in xs ==> k in m
    ensures |xs| == |ys| && KeysBytes(m, xs) == KeysBytes(m, ys)
    decreases |xs|
  {
    hide MemberBytes;
    if ys == [] {
    } else {
      assert ys[0] in ys && ys[0] in xs;
    }
    if xs == [] {
    } else {
      var n := |xs| - 1;
      assert xs[n] in xs && xs[n] in ys;
      var i :| 0 <= i < |ys| && ys[i] == xs[n];
      KeysBytesRemove(m, ys, i);
      var less := ys[..i] + ys[i + 1..];
      RemoveOne(xs, n);
      RemoveOne(ys, i);
      assert xs[..n] + xs[n + 1..] == xs[..n];
      KeysBytesAnyOrder(m, xs[..n], less);
    }
  }

  lemma RemoveOne(xs: seq<string>, i: nat)
    requires i < |xs| && Distinct(xs)
    ensures var less := xs[..i] + xs[i + 1..];
      && Distinct(less) && |less| == |xs| - 1
      && (forall k :: k in less <==> k in xs && k != xs[i])
  {
    var less := xs[..i] + xs[i + 1..];
    forall k | k in xs && k != xs[i] ensures k in less {
      var j :| 0 <= j < |xs| && xs[j] == k;
      assert less[if j < i then j else j - 1] == k;
    }
  }

  function EncodedIds(entries: seq<Entry>): (keys: seq<string>)
    ensures |keys| == |entries| && forall k :: 0 <= k < |entries| ==> keys[k] == Encode(entries[k].id)
  {
    if entries == [] then []
    else EncodedIds(entries[..|entries| - 1]) + [Encode(entries[|entries| - 1].id)]
  }

  /** What the entries contribute, counting one separator each. */
  function EntriesBytes(entries: seq<Entry>): nat {
    if entries == [] then 0
    else
      var last := entries[|entries| - 1];
      EntriesBytes(entries[..|entries| - 1]) + MemberBytes(Encode(last.id), last.value) + 1
  }

  lemma {:induction false} EntriesBytesConcat(a: seq<Entry>, b: seq<Entry>)
    ensures EntriesBytes(a + b) == EntriesBytes(a) + EntriesBytes(b)
  {
    hide Encode, MemberBytes;
    if b == [] {
      assert a + b == a;
    } else {
      assert (a + b)[..|a + b| - 1] == a + b[..|b| - 1];
      EntriesBytesConcat(a, b[..|b| - 1]);
    }
  }

  lemma {:induction false} KeysOfEntries(m: map<string, string>, entries: seq<Entry>)
    requires forall k :: 0 <= k < |entries| ==>
      Encode(entries[k].id) in m && m[Encode(entries[k].id)] == entries[k].value
    ensures forall k :: k in EncodedIds(entries) ==> k in m
    ensures KeysBytes(m, EncodedIds(entries)) + |entries| == EntriesBytes(entries)
  {
    hide Encode, MemberBytes;
    if entries == [] {
    } else {
      var n := |entries| - 1;
      KeysOfEntries(m, entries[..n]);
      assert EncodedIds(entries)[..n] == EncodedIds(entries[..n]);
    }
  }

  lemma VariablesBytes(entries: seq<Entry>)
    requires DistinctIds(entries) && entries != []
    ensures Bytes(JsonObject(Inserted(entries))) == 1 + EntriesBytes(entries)
  {
    hide Encode, MemberBytes, Inserted, EntriesBytes, EncodedIds, Members, Join;
    var m := Inserted(entries);
    InsertedKeepsAll(entries);
    var keys := EncodedIds(entries);
    KeysOfEntries(m, entries);
    assert Distinct(keys) by {
      forall i, j | 0 <= i < j < |keys| ensures keys[i] != keys[j] {
        EncodeInjective(entries[i].id, entries[j].id);
      }
    }
    var sorted := InOrder(m.Keys);
    SortedHasNoDuplicates(sorted);
    forall k ensures k in keys <==> k in sorted {
      if k in sorted {
        assert k in m;
        var j :| 0 <= j < |entries| && Encode(entries[j].id) == k;
        assert keys[j] == k;
      }
    }
    KeysBytesAnyOrder(m, keys, sorted);
    MembersBytes(m, sorted);
    var members := Members(m, sorted);
    CommaJoinBytes(members);
    BracedBytes(Join(members, ","));
  }

  lemma BracedBytes(s: string)
    ensures Bytes("{" + s + "}") == 2 + Bytes(s)
  {
    assert Bytes("{") == 1 by { assert "{"[1..] == ""; }
    assert Bytes("}") == 1 by { assert "}"[1..] == ""; }
    BytesConcat("{" + s, "}");
    BytesConcat("{", s);
  }

  // ----- One repository's share -----

  /** A list's share of the text: every part with its separator. */
  function PartsCost(parts: seq<string>, sep: string): nat {
    SumEscaped(parts) + |parts| * Escaped(sep)
  }

  lemma PartsCostConcat(a: seq<string>, b: seq<string>, sep: string)
    ensures PartsCost(a + b, sep) == PartsCost(a, sep) + PartsCost(b, sep)
  {
    hide SumEscaped, Escaped;
    SumEscapedConcat(a, b);
    Distribute(|a|, |b|, Escaped(sep));
  }

  lemma PartsCostOne(part: string, sep: string)
    ensures PartsCost([part], sep) == Escaped(part) + Escaped(sep)
  {
    hide Escaped;
    assert [part][..0] == [];
    assert SumEscaped([part]) == Escaped(part);
    assert |[part]| == 1;
  }

  function RepoCost(sel: Selections, r: Remote, i: nat): int {
    PartsCost(RepoDeclarations(r, i), ", ") + Escaped(RepoFragment(sel, r, i)) + Escaped("\n")
    + EntriesBytes(RepoEntries(r, i))
  }

  function TotalCost(sel: Selections, rs: seq<Remote>, base: nat): int {
    if rs == [] then 0
    else TotalCost(sel, rs[..|rs| - 1], base) + RepoCost(sel, rs[|rs| - 1], base + |rs| - 1)
  }

  lemma {:induction false} TotalCostIsSum(sel: Selections, rs: seq<Remote>, base: nat)
    ensures TotalCost(sel, rs, base)
      == PartsCost(Declarations(rs, base), ", ") + PartsCost(RepoFragments(sel, rs, base), "\n")
         + EntriesBytes(Entries(rs, base))
    ensures |RepoFragments(sel, rs, base)| == |rs| && |Declarations(rs, base)| >= |rs|
  {
    hide Escaped, RepoDeclarations, RepoFragment, RepoEntries, EntriesBytes, PartsCost;
    if rs == [] {
      assert PartsCost([], ", ") == 0 && PartsCost([], "\n") == 0 by { NoPartsCost(", "); NoPartsCost("\n"); }
      assert Declarations(rs, base) == [] && RepoFragments(sel, rs, base) == [] && Entries(rs, base) == [];
      assert EntriesBytes([]) == 0 by { EmptyEntries(); }
    } else {
      var n := |rs| - 1;
      var r, i := rs[n], base + n;
      TotalCostIsSum(sel, rs[..n], base);
      PartsCostConcat(Declarations(rs[..n], base), RepoDeclarations(r, i), ", ");
      PartsCostConcat(RepoFragments(sel, rs[..n], base), [RepoFragment(sel, r, i)], "\n");
      PartsCostOne(RepoFragment(sel, r, i), "\n");
      EntriesBytesConcat(Entries(rs[..n], base), RepoEntries(r, i));
      assert |RepoDeclarations(r, i)| >= 1 by { DeclarationsNonEmpty(r, i); }
    }
  }

  lemma NoPartsCost(sep: string)
    ensures PartsCost([], sep) == 0
  {
  }

  lemma EmptyEntries()
    ensures EntriesBytes([]) == 0
  {
  }

  lemma DeclarationsNonEmpty(r: Remote, i: nat)
    ensures |RepoDeclarations(r, i)| >= 2
  {
  }

  lemma Distribute(a: nat, b: nat, c: nat)
    ensures (a + b) * c == a * c + b * c
  {
  }

  /** What every body contains besides its repositories. */
  function Frame(): nat {
    Escaped("query(") + Escaped(") {\n") + Escaped("\n}")
    + Bytes("{\"query\":") + 2 + Bytes(",\"variables\":") + 1 + Bytes("}")
  }

  lemma QueryBytes(decls: seq<string>, frags: seq<string>)
    requires decls != [] && frags != []
    ensures Escaped("query(" + Join(decls, ", ") + ") {\n" + Join(frags, "\n") + "\n}") + Escaped(", ") + Escaped("\n")
      == Escaped("query(") + Escaped(") {\n") + Escaped("\n}")
         + PartsCost(decls, ", ") + PartsCost(frags, "\n")
  {
    hide Escaped, Join, SumEscaped;
    EscapedJoin(decls, ", ");
    EscapedJoin(frags, "\n");
    var d, f := Join(decls, ", "), Join(frags, "\n");
    EscapedConcat("query(", d);
    EscapedConcat("query(" + d, ") {\n");
    EscapedConcat("query(" + d + ") {\n", f);
    EscapedConcat("query(" + d + ") {\n" + f, "\n}");
  }

  /** The body's size is a fixed part plus one share per repository. */
  lemma BodyBytes(sel: Selections, rs: seq<Remote>, base: nat)
    requires rs != []
    ensures Bytes(Body(sel, rs, base)) + Escaped(", ") + Escaped("\n") == Frame() + TotalCost(sel, rs, base)
  {
    hide Escaped, Join, PartsCost, EntriesBytes, TotalCost, Bytes, JsonString, JsonObject, Declarations,
         RepoFragments, Entries, Inserted;
    var decls, frags, entries := Declarations(rs, base), RepoFragments(sel, rs, base), Entries(rs, base);
    TotalCostIsSum(sel, rs, base);
    QueryBytes(decls, frags);
    EntriesDistinct(rs, base);
    VariablesBytes(entries);
    var q, v := JsonString(Query(sel, rs, base)), JsonObject(Inserted(entries));
    JsonStringBytes(Query(sel, rs, base));
    BytesConcat("{\"query\":", q);
    BytesConcat("{\"query\":" + q, ",\"variables\":");
    BytesConcat("{\"query\":" + q + ",\"variables\":", v);
    BytesConcat("{\"query\":" + q + ",\"variables\":" + v, "}");
  }

  // ----- A repository's share grows with its index -----

  lemma {:induction false} BranchDeclarationsGrow(n: nat, i: nat, k: nat)
    ensures |BranchDeclarations(n, i)| == |BranchDeclarations(n, i + k)|
    ensures SumEscaped(BranchDeclarations(n, i)) <= SumEscaped(BranchDeclarations(n, i + k))
  {
    hide Escaped, Declare;
    if n == 0 {
    } else {
      BranchDeclarationsGrow(n - 1, i, k);
      DeclareGrows(Head(i, n - 1), k);
      DeclareGrows(Qualified(i, n - 1), k);
      SumTwo(BranchDeclarations(n - 1, i), Declare(Head(i, n - 1)), Declare(Qualified(i, n - 1)));
      SumTwo(BranchDeclarations(n - 1, i + k), Declare(Head(i + k, n - 1)), Declare(Qualified(i + k, n - 1)));
    }
  }

  lemma SumTwo(xs: seq<string>, a: string, b: string)
    ensures SumEscaped(xs + [a, b]) == SumEscaped(xs) + Escaped(a) + Escaped(b)
  {
    var ys := xs + [a, b];
    assert ys[..|ys| - 1] == xs + [a];
    assert (xs + [a])[..|xs|] == xs;
  }

  lemma RepoDeclarationsGrow(r: Remote, i: nat, k: nat)
    ensures |RepoDeclarations(r, i)| == |RepoDeclarations(r, i + k)|
    ensures SumEscaped(RepoDeclarations(r, i)) <= SumEscaped(RepoDeclarations(r, i + k))
  {
    hide Escaped, Declare;
    BranchDeclarationsGrow(|r.branches|, i, k);
    DeclareGrows(Owner(i), k);
    DeclareGrows(Name(i), k);
    SumTwo([], Declare(Owner(i)), Declare(Name(i)));
    SumTwo([], Declare(Owner(i + k)), Declare(Name(i + k)));
    assert [] + [Declare(Owner(i)), Declare(Name(i))] == [Declare(Owner(i)), Declare(Name(i))];
    assert [] + [Declare(Owner(i + k)), Declare(Name(i + k))] == [Declare(Owner(i + k)), Declare(Name(i + k))];
    SumEscapedConcat([Declare(Owner(i)), Declare(Name(i))], BranchDeclarations(|r.branches|, i));
    SumEscapedConcat([Declare(Owner(i + k)), Declare(Name(i + k))], BranchDeclarations(|r.branches|, i + k));
  }

  lemma {:induction false} BranchFragmentsGrow(sel: Selections, n: nat, i: nat, k: nat)
    ensures |BranchFragments(sel, n, i)| == |BranchFragments(sel, n, i + k)|
    ensures SumEscaped(BranchFragments(sel, n, i)) <= SumEscaped(BranchFragments(sel, n, i + k))
  {
    hide Escaped, BranchFragment;
    if n == 0 {
    } else {
      BranchFragmentsGrow(sel, n - 1, i, k);
      BranchFragmentGrows(sel, i, n - 1, k);
      var a, b := BranchFragments(sel, n, i), BranchFragments(sel, n, i + k);
      assert a[..|a| - 1] == BranchFragments(sel, n - 1, i);
      assert b[..|b| - 1] == BranchFragments(sel, n - 1, i + k);
    }
  }

  lemma RepoFragmentGrows(sel: Selections, r: Remote, i: nat, k: nat)
    ensures Escaped(RepoFragment(sel, r, i)) <= Escaped(RepoFragment(sel, r, i + k))
  {
    hide Escaped, Encode, Join;
    var n := |r.branches|;
    BranchFragmentsGrow(sel, n, i, k);
    EscapedJoinGrows(BranchFragments(sel, n, i), BranchFragments(sel, n, i + k), "\n");
    EncodeGrows(Repo(i), k);
    EncodeGrows(Owner(i), k);
    EncodeGrows(Name(i), k);
    var j, j' := Join(BranchFragments(sel, n, i), "\n"), Join(BranchFragments(sel, n, i + k), "\n");
    var p, p' := Encode(Repo(i)), Encode(Repo(i + k));
    var o, o' := Encode(Owner(i)), Encode(Owner(i + k));
    var m, m' := Encode(Name(i)), Encode(Name(i + k));
    Grow("  ", "  ", p, p');
    var t1, t1' := "  " + p, "  " + p';
    var a := ": repository(owner: $";
    Grow(t1, t1', a, a);
    var t2, t2' := t1 + a, t1' + a;
    Grow(t2, t2', o, o');
    var t3, t3' := t2 + o, t2' + o';
    var b := ", name: $";
    Grow(t3, t3', b, b);
    var t4, t4' := t3 + b, t3' + b;
    Grow(t4, t4', m, m');
    var t5, t5' := t4 + m, t4' + m';
    var c := ") {\n";
    Grow(t5, t5', c, c);
    var t6, t6' := t5 + c, t5' + c;
    Grow(t6, t6', j, j');
    Grow(t6 + j, t6' + j', "\n  }", "\n  }");
  }

  lemma {:induction false} ShiftedEntriesGrow(a: seq<Entry>, b: seq<Entry>, k: nat)
    requires |a| == |b|
    requires forall x :: 0 <= x < |a| ==> b[x] == Entry(Shift(a[x].id, k), a[x].value)
    ensures EntriesBytes(a) <= EntriesBytes(b)
  {
    hide Encode, MemberBytes;
    if a == [] {
    } else {
      var n := |a| - 1;
      ShiftedEntriesGrow(a[..n], b[..n], k);
      EncodeGrows(a[n].id, k);
      MemberBytesIs(Encode(a[n].id), a[n].value);
      MemberBytesIs(Encode(b[n].id), b[n].value);
    }
  }

  lemma {:induction false} BranchEntriesShift(branches: seq<string>, i: nat, k: nat)
    ensures var a, b := BranchEntries(branches, i), BranchEntries(branches, i + k);
      |a| == |b| && forall x :: 0 <= x < |a| ==> b[x] == Entry(Shift(a[x].id, k), a[x].value)
  {
    if branches == [] {
    } else {
      BranchEntriesShift(branches[..|branches| - 1], i, k);
    }
  }

  lemma RepoEntriesGrow(r: Remote, i: nat, k: nat)
    ensures EntriesBytes(RepoEntries(r, i)) <= EntriesBytes(RepoEntries(r, i + k))
  {
    hide EntriesBytes, BranchEntries;
    BranchEntriesShift(r.branches, i, k);
    ShiftedEntriesGrow(RepoEntries(r, i), RepoEntries(r, i + k), k);
  }

  lemma RepoCostGrows(sel: Selections, r: Remote, i: nat, k: nat)
    ensures RepoCost(sel, r, i) <= RepoCost(sel, r, i + k)
  {
    hide Escaped, RepoDeclarations, RepoFragment, RepoEntries, EntriesBytes, SumEscaped;
    RepoDeclarationsGrow(r, i, k);
    RepoFragmentGrows(sel, r, i, k);
    RepoEntriesGrow(r, i, k);
  }

  lemma {:induction false} TotalCostGrows(sel: Selections, rs: seq<Remote>, base: nat, k: nat)
    ensures TotalCost(sel, rs, base) <= TotalCost(sel, rs, base + k)
  {
    hide RepoCost;
    if rs == [] {
    } else {
      TotalCostGrows(sel, rs[..|rs| - 1], base, k);
      RepoCostGrows(sel, rs[|rs| - 1], base + |rs| - 1, k);
    }
  }

  lemma {:induction false} TotalCostConcat(sel: Selections, a: seq<Remote>, b: seq<Remote>, base: nat)
    ensures TotalCost(sel, a + b, base) == TotalCost(sel, a, base) + TotalCost(sel, b, base + |a|)
  {
    hide RepoCost;
    if b == [] {
      assert a + b == a;
    } else {
      assert (a + b)[..|a + b| - 1] == a + b[..|b| - 1];
      TotalCostConcat(sel, a, b[..|b| - 1], base);
    }
  }

  lemma {:induction false} CostIsPositive(sel: Selections, rs: seq<Remote>, base: nat)
    ensures TotalCost(sel, rs, base) >= 0
  {
    hide Escaped, RepoDeclarations, RepoFragment, RepoEntries, EntriesBytes, SumEscaped;
    if rs == [] {
    } else {
      CostIsPositive(sel, rs[..|rs| - 1], base);
    }
  }

  /** Dropping repositories before and after a stretch, and renumbering the stretch from zero, never
      makes the body longer. */
  lemma BodyShrinks(sel: Selections, before: seq<Remote>, kept: seq<Remote>, after: seq<Remote>)
    requires kept != []
    ensures Bytes(Body(sel, kept, 0)) <= Bytes(Body(sel, before + kept + after, 0))
  {
    hide Body, TotalCost, Escaped, Frame;
    CostIsPositive(sel, before, 0);
    CostIsPositive(sel, after, |before + kept|);
    BodyBytes(sel, kept, 0);
    BodyBytes(sel, before + kept + after, 0);
    TotalCostConcat(sel, before + kept, after, 0);
    TotalCostConcat(sel, before, kept, 0);
    TotalCostGrows(sel, kept, 0, |before|);
  }
}
