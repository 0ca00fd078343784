/**
 The variable names and aliases numbered into a batch query.  Answers are matched back to
 repositories and branches by these strings alone, so everything rests on `Decode` undoing `Encode`.
 */
module Names {
  import opened Text

  /** `Owner`, `Name`, `Head` and `Qualified` are query variables; `Repo`, `Pr` and `Ref` are aliases. */
  datatype Id =
    | Owner(repo: nat)
    | Name(repo: nat)
    | Head(repo: nat, branch: nat)
    | Qualified(repo: nat, branch: nat)
    | Repo(repo: nat)
    | Pr(repo: nat, branch: nat)
    | Ref(repo: nat, branch: nat)

  function Encode(id: Id): string {
    match id
    case Owner(i) => "owner_" + Decimal(i)
    case Name(i) => "name_" + Decimal(i)
    case Head(i, j) => "head_" + Decimal(i) + "_" + Decimal(j)
    case Qualified(i, j) => "qualified_" + Decimal(i) + "_" + Decimal(j)
    case Repo(i) => "repo_" + Decimal(i)
    case Pr(i, j) => "pr_r" + Decimal(i) + "_b" + Decimal(j)
    case Ref(i, j) => "ref_r" + Decimal(i) + "_b" + Decimal(j)
  }

  datatype Decoded = Unknown | Known(id: Id)

  predicate IsNumber(s: string) {
    s != "" && AllDigits(s)
  }

  predicate IsTagged(s: string, tag: char) {
    s != "" && s[0] == tag && IsNumber(s[1..])
  }

  /** Reads a name back: split at underscores, recognise the head word, read the numbers. */
  function Decode(s: string): Decoded {
    DecodeParts(Split(s, '_'))
  }

  function DecodeParts(p: seq<string>): Decoded {
    if |p| == 2 && IsNumber(p[1]) then OneIndex(p[0], DigitsValue(p[1]))
    else if |p| == 3 && IsNumber(p[1]) && IsNumber(p[2]) then
      VariablePair(p[0], DigitsValue(p[1]), DigitsValue(p[2]))
    else if |p| == 3 && IsTagged(p[1], 'r') && IsTagged(p[2], 'b') then
      AliasPair(p[0], DigitsValue(p[1][1..]), DigitsValue(p[2][1..]))
    else Unknown
  }

  function OneIndex(word: string, i: nat): Decoded {
    if word == "owner" then Known(Owner(i))
    else if word == "name" then Known(Name(i))
    else if word == "repo" then Known(Repo(i))
    else Unknown
  }

  function VariablePair(word: string, i: nat, j: nat): Decoded {
    if word == "head" then Known(Head(i, j))
    else if word == "qualified" then Known(Qualified(i, j))
    else Unknown
  }

  function AliasPair(word: string, i: nat, j: nat): Decoded {
    if word == "pr" then Known(Pr(i, j))
    else if word == "ref" then Known(Ref(i, j))
    else Unknown
  }

  lemma SplitTwo(head: string, a: string)
    requires '_' !in head && '_' !in a
    ensures Split(head + "_" + a, '_') == [head, a]
  {
    SplitAtFirst(head, '_', a);
    SplitOfPlain(a, '_');
  }

  lemma SplitThree(head: string, a: string, b: string)
    requires '_' !in head && '_' !in a && '_' !in b
    ensures Split(head + "_" + a + "_" + b, '_') == [head, a, b]
  {
    SplitTwo(a, b);
    assert head + "_" + a + "_" + b == head + "_" + (a + "_" + b);
    SplitAtFirst(head, '_', a + "_" + b);
  }

  lemma DecodeOne(word: string, i: nat)
    requires '_' !in word
    ensures Decode(word + "_" + Decimal(i)) == OneIndex(word, i)
  {
    SplitTwo(word, Decimal(i));
    DecimalRoundTrip(i);
  }

  lemma DecodeTwo(word: string, i: nat, j: nat)
    requires '_' !in word
    ensures Decode(word + "_" + Decimal(i) + "_" + Decimal(j)) == VariablePair(word, i, j)
  {
    SplitThree(word, Decimal(i), Decimal(j));
    DecimalRoundTrip(i);
    DecimalRoundTrip(j);
  }

  lemma DecodeTagged(word: string, i: nat, j: nat)
    requires '_' !in word
    ensures Decode(word + "_r" + Decimal(i) + "_b" + Decimal(j)) == AliasPair(word, i, j)
  {
    hide Split, Decimal, DigitsValue;
    var a, b := "r" + Decimal(i), "b" + Decimal(j);
    assert word + "_r" + Decimal(i) + "_b" + Decimal(j) == word + "_" + a + "_" + b;
    SplitThree(word, a, b);
    assert a[1..] == Decimal(i) && b[1..] == Decimal(j);
    assert !IsDigit(a[0]);
    DecimalRoundTrip(i);
    DecimalRoundTrip(j);
  }

  /** Every generated name decodes back to exactly the indices it was made from. */
  lemma DecodeOfEncode(id: Id)
    ensures Decode(Encode(id)) == Known(id)
  {
    match id {
      case Owner(i) => DecodeOne("owner", i); assert "owner_" == "owner" + "_";
      case Name(i) => DecodeOne("name", i); assert "name_" == "name" + "_";
      case Repo(i) => DecodeOne("repo", i); assert "repo_" == "repo" + "_";
      case Head(i, j) => DecodeTwo("head", i, j); assert "head_" == "head" + "_";
      case Qualified(i, j) => DecodeTwo("qualified", i, j); assert "qualified_" == "qualified" + "_";
      case Pr(i, j) => DecodeTagged("pr", i, j); assert "pr_r" == "pr" + "_r";
      case Ref(i, j) => DecodeTagged("ref", i, j); assert "ref_r" == "ref" + "_r";
    }
  }

  /** Two different ids never share a name. */
  lemma EncodeInjective(a: Id, b: Id)
    ensures Encode(a) == Encode(b) <==> a == b
  {
    DecodeOfEncode(a);
    DecodeOfEncode(b);
  }
}
