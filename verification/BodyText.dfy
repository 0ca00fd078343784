/**
 The request text is unambiguous: two batches have the same body exactly when they ask for the same
 repositories and branches in the same order, so the server can tell from the body alone what it was asked.
 */
module BodyText {
  import opened Common
  import opened Text
  import opened Names
  import opened BatchBody

  // ----- JSON text can be cut in only one way -----

  function HexDigitValue(c: char): Option<nat> {
    if '0' <= c <= '9' then Some((c - '0') as nat)
    else if 'a' <= c <= 'f' then Some((c - 'a') as nat + 10)
    else if 'A' <= c <= 'F' then Some((c - 'A') as nat + 10)
    else None
  }

  /** The character that four hexadecimal digits stand for; surrogates are refused. */
  function ReadHex(a: char, b: char, c: char, d: char): Option<char> {
    var w, x, y, z := HexDigitValue(a), HexDigitValue(b), HexDigitValue(c), HexDigitValue(d);
    if w.None? || x.None? || y.None? || z.None? then None
    else
      var v := 4096 * w.value + 256 * x.value + 16 * y.value + z.value;
      if v < 0xD800 || 0xE000 <= v < 0x10000 then Some(v as char) else None
  }

  /** The first character inside a JSON string and how much text it takes (section 7 of RFC 8259);
      nothing for a quote, a control character or an escape that is none. */
  function ReadChar(s: string): Option<(char, nat)>
    requires s != ""
  {
    if s[0] < ' ' || s[0] == '"' then None
    else if s[0] != '\\' then Some((s[0], 1))
    else if |s| == 1 then None
    else if s[1] == '"' || s[1] == '\\' || s[1] == '/' then Some((s[1], 2))
    else if s[1] == 'n' then Some(('\n', 2))
    else if s[1] == 'r' then Some(('\r', 2))
    else if s[1] == 't' then Some(('\t', 2))
    else if s[1] == 'b' then Some((8 as char, 2))
    else if s[1] == 'f' then Some((12 as char, 2))
    else if s[1] != 'u' || |s| < 6 then None
    else
      var c := ReadHex(s[2], s[3], s[4], s[5]);
      if c.None? then None else Some((c.value, 6))
  }

  lemma HexRoundTrip(d: nat)
    requires d < 16
    ensures HexDigitValue(HexDigit(d)) == Some(d)
  {
  }

  lemma ReadEscaped(c: char, x: string)
    ensures ReadChar(EscapeChar(c) + x) == Some((c, |EscapeChar(c)|))
  {
    hide ReadHex, HexDigit;
    var e := EscapeChar(c);
    var s := e + x;
    assert s[0] == e[0];
    if |e| == 6 {
      assert s[1] == e[1] && s[2] == e[2] && s[3] == e[3] && s[4] == e[4] && s[5] == e[5];
      ControlReads(c as int / 16, c as int % 16);
    } else {
      assert |e| == 2 ==> s[1] == e[1];
    }
  }

  lemma ControlReads(high: nat, low: nat)
    requires high < 16 && low < 16
    ensures ReadHex('0', '0', HexDigit(high), HexDigit(low)) == Some((16 * high + low) as char)
  {
    hide HexDigitValue, HexDigit;
    HexRoundTrip(0);
    HexRoundTrip(high);
    HexRoundTrip(low);
    ZeroDigit();
  }

  lemma ZeroDigit()
    ensures HexDigit(0) == '0'
  {
  }

  /** No other way of writing a character inside a JSON string is shorter. */
  lemma EscapeIsShortest(c: char, s: string)
    requires s != "" && ReadChar(s).Some? && ReadChar(s).value.0 == c
    ensures |EscapeChar(c)| <= ReadChar(s).value.1
  {
    hide ReadHex, HexDigit;
  }

  lemma EscapeCharCuts(a: char, b: char, x: string, y: string)
    requires EscapeChar(a) + x == EscapeChar(b) + y
    ensures a == b && x == y
  {
    hide EscapeChar, ReadChar;
    EscapeCharOpens(a);
    ReadEscaped(a, x);
    ReadEscaped(b, y);
    SamePrefix(EscapeChar(a), x, y);
  }

  lemma EscapeCharOpens(c: char)
    ensures EscapeChar(c) != "" && EscapeChar(c)[0] != '"'
  {
  }

  lemma {:induction false} EscapeCuts(a: string, b: string, x: string, y: string)
    requires Escape(a) + "\"" + x == Escape(b) + "\"" + y
    ensures a == b && x == y
  {
    hide EscapeChar;
    var s, t := Escape(a) + "\"" + x, Escape(b) + "\"" + y;
    if a == "" {
    } else {
      EscapeCharOpens(a[0]);
      assert s == EscapeChar(a[0]) + (Escape(a[1..]) + "\"" + x);
      assert s[0] == EscapeChar(a[0])[0];
    }
    if b == "" {
    } else {
      EscapeCharOpens(b[0]);
      assert t == EscapeChar(b[0]) + (Escape(b[1..]) + "\"" + y);
      assert t[0] == EscapeChar(b[0])[0];
    }
    if a == "" || b == "" {
      assert x == s[1..] && y == t[1..];
    } else {
      EscapeCharCuts(a[0], b[0], Escape(a[1..]) + "\"" + x, Escape(b[1..]) + "\"" + y);
      EscapeCuts(a[1..], b[1..], x, y);
      assert a == [a[0]] + a[1..] && b == [b[0]] + b[1..];
    }
  }

  lemma JsonStringCuts(a: string, b: string, x: string, y: string)
    requires JsonString(a) + x == JsonString(b) + y
    ensures a == b && x == y
  {
    hide Escape;
    var s, t := JsonString(a) + x, JsonString(b) + y;
    assert s[1..] == Escape(a) + "\"" + x;
    assert t[1..] == Escape(b) + "\"" + y;
    EscapeCuts(a, b, x, y);
  }

  /** Members from the front, each followed by what is left of the object. */
  function ObjectTail(m: map<string, string>, keys: seq<string>): string
    requires forall k :: k in keys ==> k in m
  {
    if keys == [] then "}"
    else JsonString(keys[0]) + ":" + JsonString(m[keys[0]])
         + (if |keys| == 1 then "" else ",") + ObjectTail(m, keys[1..])
  }

  lemma {:induction false} MembersFromFront(m: map<string, string>, keys: seq<string>)
    requires keys != [] && forall k :: k in keys ==> k in m
    ensures Members(m, keys) == [JsonString(keys[0]) + ":" + JsonString(m[keys[0]])] + Members(m, keys[1..])
  {
    hide JsonString;
    var n := |keys| - 1;
    if n == 0 {
    } else {
      MembersFromFront(m, keys[..n]);
      assert keys[1..][..n - 1] == keys[..n][1..];
    }
  }

  lemma {:induction false} ObjectText(m: map<string, string>, keys: seq<string>)
    requires forall k :: k in keys ==> k in m
    ensures Join(Members(m, keys), ",") + "}" == ObjectTail(m, keys)
  {
    hide JsonString;
    if keys == [] {
    } else {
      MembersFromFront(m, keys);
      ObjectText(m, keys[1..]);
      var rest := Members(m, keys[1..]);
      MembersCount(m, keys[1..]);
      assert Members(m, keys)[1..] == rest;
    }
  }

  lemma {:induction false} MembersCount(m: map<string, string>, keys: seq<string>)
    requires forall k :: k in keys ==> k in m
    ensures |Members(m, keys)| == |keys|
  {
    if keys == [] {
    } else {
      MembersCount(m, keys[..|keys| - 1]);
    }
  }

  /** One member, cut off. */
  lemma MemberCuts(k: string, v: string, x: string, l: string, w: string, y: string)
    requires JsonString(k) + ":" + JsonString(v) + x == JsonString(l) + ":" + JsonString(w) + y
    ensures k == l && v == w && x == y
  {
    hide JsonString;
    assert JsonString(k) + ":" + JsonString(v) + x == JsonString(k) + (":" + JsonString(v) + x);
    assert JsonString(l) + ":" + JsonString(w) + y == JsonString(l) + (":" + JsonString(w) + y);
    JsonStringCuts(k, l, ":" + JsonString(v) + x, ":" + JsonString(w) + y);
    assert (":" + JsonString(v) + x)[1..] == JsonString(v) + x;
    assert (":" + JsonString(w) + y)[1..] == JsonString(w) + y;
    JsonStringCuts(v, w, x, y);
  }

  lemma ObjectTailStep(m: map<string, string>, keys: seq<string>, x: string)
    requires keys != [] && forall k :: k in keys ==> k in m
    ensures ObjectTail(m, keys) + x
      == JsonString(keys[0]) + ":" + JsonString(m[keys[0]])
         + ((if |keys| == 1 then "" else ",") + (ObjectTail(m, keys[1..]) + x))
  {
    hide JsonString, Members, InOrder, Join;
    var member := JsonString(keys[0]) + ":" + JsonString(m[keys[0]]);
    Regroup(member, if |keys| == 1 then "" else ",", ObjectTail(m, keys[1..]), x);
  }

  lemma Regroup(a: string, b: string, c: string, d: string)
    ensures a + b + c + d == a + (b + (c + d))
  {
  }

  lemma ObjectTailOpens(m: map<string, string>, keys: seq<string>)
    requires forall k :: k in keys ==> k in m
    ensures ObjectTail(m, keys) != "" && (ObjectTail(m, keys)[0] == if keys == [] then '}' else '"')
  {
    hide Escape;
  }

  /** A comma stands before every member but the first, and none before the end. */
  lemma SeparatorCuts(sEnds: bool, s: string, tEnds: bool, t: string)
    requires s != "" && (s[0] == if sEnds then '}' else '"')
    requires t != "" && (t[0] == if tEnds then '}' else '"')
    requires (if sEnds then "" else ",") + s == (if tEnds then "" else ",") + t
    ensures s == t
  {
    var a, b := (if sEnds then "" else ",") + s, (if tEnds then "" else ",") + t;
    assert a[0] == (if sEnds then '}' else ',') && b[0] == (if tEnds then '}' else ',');
    SamePrefix(if sEnds then "" else ",", s, t);
  }

  lemma {:induction false} ObjectTailCuts(m: map<string, string>, ks: seq<string>,
                                          n: map<string, string>, ls: seq<string>, x: string, y: string)
    requires (forall k :: k in ks ==> k in m) && (forall l :: l in ls ==> l in n)
    requires ObjectTail(m, ks) + x == ObjectTail(n, ls) + y
    ensures ks == ls && forall k :: k in ks ==> m[k] == n[k]
  {
    hide ObjectTail, JsonString;
    ObjectTailOpens(m, ks);
    ObjectTailOpens(n, ls);
    assert (ObjectTail(m, ks) + x)[0] == ObjectTail(m, ks)[0];
    if ks == [] || ls == [] {
    } else {
      ObjectTailStep(m, ks, x);
      ObjectTailStep(n, ls, y);
      var s, t := ObjectTail(m, ks[1..]) + x, ObjectTail(n, ls[1..]) + y;
      MemberCuts(ks[0], m[ks[0]], (if |ks| == 1 then "" else ",") + s,
                 ls[0], n[ls[0]], (if |ls| == 1 then "" else ",") + t);
      ObjectTailOpens(m, ks[1..]);
      ObjectTailOpens(n, ls[1..]);
      SeparatorCuts(|ks| == 1, s, |ls| == 1, t);
      ObjectTailCuts(m, ks[1..], n, ls[1..], x, y);
      assert ks == [ks[0]] + ks[1..] && ls == [ls[0]] + ls[1..];
    }
  }

  /** A JSON object's text determines the map. */
  lemma JsonObjectInjective(m: map<string, string>, n: map<string, string>)
    requires JsonObject(m) == JsonObject(n)
    ensures m == n
  {
    hide Members, InOrder, Join, ObjectTail;
    var ks, ls := InOrder(m.Keys), InOrder(n.Keys);
    ObjectText(m, ks);
    ObjectText(n, ls);
    var a, b := Join(Members(m, ks), ","), Join(Members(n, ls), ",");
    assert JsonObject(m)[1..] == a + "}" && JsonObject(n)[1..] == b + "}";
    assert ObjectTail(m, ks) + "" == ObjectTail(m, ks) && ObjectTail(n, ls) + "" == ObjectTail(n, ls);
    ObjectTailCuts(m, ks, n, ls, "", "");
    assert forall k :: k in m <==> k in ks;
    assert forall k :: k in n <==> k in ls;
  }

  // ----- The variables say what is asked -----

  predicate SameQuestion(a: seq<Remote>, b: seq<Remote>) {
    && |a| == |b|
    && forall i :: 0 <= i < |a| ==>
         a[i].owner == b[i].owner && a[i].name == b[i].name && a[i].branches == b[i].branches
  }

  lemma {:induction false} BranchEntriesOnly(branches: seq<string>, i: nat, e: Entry)
    requires e in BranchEntries(branches, i)
    ensures (e.id.Head? || e.id.Qualified?) && e.id.repo == i && e.id.branch < |branches|
  {
    var j := |branches| - 1;
    var last := [Entry(Head(i, j), branches[j]), Entry(Qualified(i, j), "refs/heads/" + branches[j])];
    assert BranchEntries(branches, i) == BranchEntries(branches[..j], i) + last;
    if e in last {
    } else {
      BranchEntriesOnly(branches[..j], i, e);
    }
  }

  lemma {:induction false} EntriesOnly(rs: seq<Remote>, base: nat, e: Entry)
    requires e in Entries(rs, base)
    ensures base <= e.id.repo < base + |rs|
    ensures e.id.Head? ==> e.id.branch < |rs[e.id.repo - base].branches|
  {
    hide BranchEntries;
    var n := |rs| - 1;
    var own := RepoEntries(rs[n], base + n);
    assert Entries(rs, base) == Entries(rs[..n], base) + own;
    if e in own {
      assert own == [Entry(Owner(base + n), rs[n].owner), Entry(Name(base + n), rs[n].name)]
        + BranchEntries(rs[n].branches, base + n);
      if e in BranchEntries(rs[n].branches, base + n) {
        BranchEntriesOnly(rs[n].branches, base + n, e);
      }
    } else {
      EntriesOnly(rs[..n], base, e);
    }
  }

  lemma VariableIsEntry(rs: seq<Remote>, id: Id) returns (e: Entry)
    requires Encode(id) in Inserted(Entries(rs, 0))
    ensures e in Entries(rs, 0) && e.id == id
  {
    hide Encode, Entries, Inserted;
    var entries := Entries(rs, 0);
    EntriesDistinct(rs, 0);
    InsertedKeepsAll(entries);
    var k :| 0 <= k < |entries| && Encode(entries[k].id) == Encode(id);
    EncodeInjective(entries[k].id, id);
    e := entries[k];
  }

  lemma NamesInVariables(rs: seq<Remote>, i: nat, j: nat)
    ensures var m := Inserted(Entries(rs, 0));
      && (Encode(Owner(i)) in m <==> i < |rs|)
      && (Encode(Head(i, j)) in m <==> i < |rs| && j < |rs[i].branches|)
  {
    hide Encode, Entries, Inserted;
    var m := Inserted(Entries(rs, 0));
    VariablesAreComplete(rs);
    if Encode(Owner(i)) in m {
      var e := VariableIsEntry(rs, Owner(i));
      EntriesOnly(rs, 0, e);
    }
    if Encode(Head(i, j)) in m {
      var e := VariableIsEntry(rs, Head(i, j));
      EntriesOnly(rs, 0, e);
    }
  }

  lemma VariablesDetermine(a: seq<Remote>, b: seq<Remote>)
    requires Inserted(Entries(a, 0)) == Inserted(Entries(b, 0))
    ensures SameQuestion(a, b)
  {
    hide Encode, Entries, Inserted;
    NamesInVariables(a, |b|, 0);
    NamesInVariables(b, |b|, 0);
    NamesInVariables(a, |a|, 0);
    NamesInVariables(b, |a|, 0);
    VariablesAreComplete(a);
    VariablesAreComplete(b);
    forall i | 0 <= i < |a|
      ensures a[i].owner == b[i].owner && a[i].name == b[i].name && a[i].branches == b[i].branches
    {
      var n, k := |a[i].branches|, |b[i].branches|;
      NamesInVariables(a, i, n);
      NamesInVariables(b, i, n);
      NamesInVariables(a, i, k);
      NamesInVariables(b, i, k);
      assert n == k;
      forall j | 0 <= j < n ensures a[i].branches[j] == b[i].branches[j] {
        assert Inserted(Entries(a, 0))[Encode(Head(i, j))] == a[i].branches[j];
        assert Inserted(Entries(b, 0))[Encode(Head(i, j))] == b[i].branches[j];
      }
    }
  }

  // ----- The body -----

  lemma {:induction false} SameTexts(sel: Selections, a: seq<Remote>, b: seq<Remote>, base: nat)
    requires SameQuestion(a, b)
    ensures Declarations(a, base) == Declarations(b, base)
    ensures RepoFragments(sel, a, base) == RepoFragments(sel, b, base)
    ensures Entries(a, base) == Entries(b, base)
  {
    hide BranchDeclarations, BranchFragments, BranchEntries, Encode, Join;
    if a == [] {
    } else {
      SameTexts(sel, a[..|a| - 1], b[..|b| - 1], base);
    }
  }

  lemma BodyVariables(sel: Selections, a: seq<Remote>, b: seq<Remote>)
    requires Body(sel, a, 0) == Body(sel, b, 0)
    ensures JsonObject(Inserted(Entries(a, 0))) == JsonObject(Inserted(Entries(b, 0)))
  {
    hide JsonString, JsonObject, Query, Inserted, Entries;
    var v, w := JsonObject(Inserted(Entries(a, 0))), JsonObject(Inserted(Entries(b, 0)));
    var x, y := ",\"variables\":" + v + "}", ",\"variables\":" + w + "}";
    var p, q := JsonString(Query(sel, a, 0)), JsonString(Query(sel, b, 0));
    assert Body(sel, a, 0) == "{\"query\":" + (p + x);
    assert Body(sel, b, 0) == "{\"query\":" + (q + y);
    SamePrefix("{\"query\":", p + x, q + y);
    JsonStringCuts(Query(sel, a, 0), Query(sel, b, 0), x, y);
    assert x == ",\"variables\":" + (v + "}") && y == ",\"variables\":" + (w + "}");
    SamePrefix(",\"variables\":", v + "}", w + "}");
    assert v == (v + "}")[..|v + "}"| - 1] && w == (w + "}")[..|w + "}"| - 1];
  }

  lemma SamePrefix(p: string, x: string, y: string)
    requires p + x == p + y
    ensures x == y
  {
    assert x == (p + x)[|p|..] && y == (p + y)[|p|..];
  }

  /** Two batches have the same body exactly when they ask the same question. */
  lemma SameBodyIffSameQuestion(sel: Selections, a: seq<Remote>, b: seq<Remote>)
    ensures Body(sel, a, 0) == Body(sel, b, 0) <==> SameQuestion(a, b)
  {
    hide JsonString, JsonObject, Inserted, Entries, Declarations, RepoFragments;
    if SameQuestion(a, b) {
      SameTexts(sel, a, b, 0);
    }
    if Body(sel, a, 0) == Body(sel, b, 0) {
      BodyVariables(sel, a, b);
      JsonObjectInjective(Inserted(Entries(a, 0)), Inserted(Entries(b, 0)));
      VariablesDetermine(a, b);
    }
  }
}
