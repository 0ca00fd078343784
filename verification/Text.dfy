/** String helpers shared by the other modules: the library calls the program relies on, with their laws. */
module Text {
  import opened Common

  // ----- Decimal numbers -----

  function Digit(d: nat): char
    requires d < 10
  {
    "0123456789"[d]
  }

  predicate IsDigit(c: char) {
    '0' <= c <= '9'
  }

  function DigitValue(c: char): nat
    requires IsDigit(c)
  {
    (c - '0') as nat
  }

  function Decimal(n: nat): (s: string)
    ensures s != "" && forall i :: 0 <= i < |s| ==> IsDigit(s[i])
  {
    if n < 10 then [Digit(n)] else Decimal(n / 10) + [Digit(n % 10)]
  }

  predicate AllDigits(s: string) {
    forall i :: 0 <= i < |s| ==> IsDigit(s[i])
  }

  function DigitsValue(s: string): nat
    requires AllDigits(s)
  {
    if s == "" then 0 else 10 * DigitsValue(s[..|s| - 1]) + DigitValue(s[|s| - 1])
  }

  lemma {:induction false} DecimalRoundTrip(n: nat)
    ensures DigitsValue(Decimal(n)) == n
  {
    if n < 10 {
    } else {
      var s := Decimal(n);
      assert s[..|s| - 1] == Decimal(n / 10);
      DecimalRoundTrip(n / 10);
    }
  }

  lemma {:induction false} DecimalGrows(m: nat, n: nat)
    requires m <= n
    ensures |Decimal(m)| <= |Decimal(n)|
  {
    if m < 10 {
    } else {
      DecimalGrows(m / 10, n / 10);
    }
  }

  /** A decimal number with an optional plus sign, as unsigned integers are parsed. */
  function ParseUnsigned(s: string): Option<nat> {
    var digits := if s != "" && s[0] == '+' then s[1..] else s;
    if digits == "" || !AllDigits(digits) then None else Some(DigitsValue(digits))
  }

  /** Exactly the texts that are a number, with a plus sign or without, in one digit or more. */
  lemma UnsignedIff(s: string, n: nat)
    ensures ParseUnsigned(s) == Some(n)
      <==> exists digits :: digits != "" && AllDigits(digits) && s in {digits, "+" + digits} && DigitsValue(digits) == n
  {
    hide DigitsValue;
    if s != "" && s[0] == '+' {
      assert s == "+" + s[1..];
    }
    if digits :| digits != "" && AllDigits(digits) && s in {digits, "+" + digits} && DigitsValue(digits) == n {
      assert ("+" + digits)[1..] == digits && digits[0] != '+';
    }
  }

  // ----- Lists -----

  predicate Distinct<T(==)>(xs: seq<T>) {
    forall i, j :: 0 <= i < j < |xs| ==> xs[i] != xs[j]
  }

  // ----- Splitting and joining -----

  /** Position of the first `c`, or the length. */
  function Find(s: string, c: char): (k: nat)
    ensures k <= |s| && (k < |s| ==> s[k] == c) && forall i :: 0 <= i < k ==> s[i] != c
  {
    if s == "" || s[0] == c then 0 else 1 + Find(s[1..], c)
  }

  function StripPrefix(s: string, prefix: string): Option<string> {
    if prefix <= s then Some(s[|prefix|..]) else None
  }

  function Join(parts: seq<string>, sep: string): string {
    if |parts| == 0 then ""
    else if |parts| == 1 then parts[0]
    else parts[0] + sep + Join(parts[1..], sep)
  }

  function Split(s: string, c: char): (parts: seq<string>)
    ensures |parts| >= 1
  {
    if s == "" then [""]
    else
      var rest := Split(s[1..], c);
      if s[0] == c then [""] + rest else [[s[0]] + rest[0]] + rest[1..]
  }

  lemma {:induction false} SplitOfPlain(s: string, c: char)
    requires c !in s
    ensures Split(s, c) == [s]
  {
    if s == "" {
    } else {
      assert s == [s[0]] + s[1..];
      SplitOfPlain(s[1..], c);
    }
  }

  lemma {:induction false} SplitAtFirst(a: string, c: char, b: string)
    requires c !in a
    ensures Split(a + [c] + b, c) == [a] + Split(b, c)
  {
    var s := a + [c] + b;
    if a == "" {
      assert s[1..] == b;
    } else {
      assert a == [a[0]] + a[1..];
      assert s[1..] == a[1..] + [c] + b;
      SplitAtFirst(a[1..], c, b);
    }
  }

  lemma {:induction false} SplitOfJoin(parts: seq<string>, c: char)
    requires |parts| >= 1 && forall p :: p in parts ==> c !in p
    ensures Split(Join(parts, [c]), c) == parts
  {
    if |parts| == 1 {
      SplitOfPlain(parts[0], c);
    } else {
      SplitOfJoin(parts[1..], c);
      SplitAtFirst(parts[0], c, Join(parts[1..], [c]));
    }
  }

  lemma {:induction false} JoinOfSplit(s: string, c: char)
    ensures Join(Split(s, c), [c]) == s
  {
    if s == "" {
    } else {
      var rest := Split(s[1..], c);
      JoinOfSplit(s[1..], c);
      if s[0] == c {
        assert ([""] + rest)[1..] == rest;
      } else if |rest| > 1 {
        assert Split(s, c)[1..] == rest[1..];
      }
    }
  }

  lemma {:induction false} SplitConcat(a: string, c: char, b: string)
    ensures Split(a + [c] + b, c) == Split(a, c) + Split(b, c)
  {
    var s := a + [c] + b;
    if a == "" {
      assert s[1..] == b;
    } else {
      assert s[1..] == a[1..] + [c] + b;
      SplitConcat(a[1..], c, b);
    }
  }

  lemma {:induction false} SplitPartsArePlain(s: string, c: char)
    ensures forall p :: p in Split(s, c) ==> c !in p
  {
    if s == "" {
    } else {
      SplitPartsArePlain(s[1..], c);
    }
  }

  // ----- Trimming -----

  predicate IsSpace(c: char) {
    c == ' ' || '\t' <= c <= '\r'
  }

  function TrimStart(s: string): string {
    if s != "" && IsSpace(s[0]) then TrimStart(s[1..]) else s
  }

  function TrimEnd(s: string): string {
    if s != "" && IsSpace(s[|s| - 1]) then TrimEnd(s[..|s| - 1]) else s
  }

  function Trim(s: string): string {
    TrimEnd(TrimStart(s))
  }

  /** A string that trimming leaves alone. */
  predicate Trimmed(s: string) {
    s == "" || (!IsSpace(s[0]) && !IsSpace(s[|s| - 1]))
  }

  lemma TrimOfTrimmed(s: string)
    requires Trimmed(s)
    ensures Trim(s) == s
  {
  }

  lemma {:induction false} TrimEndEnds(s: string)
    ensures var t := TrimEnd(s); t <= s && (t == "" || !IsSpace(t[|t| - 1]))
  {
    if s == "" || !IsSpace(s[|s| - 1]) {
    } else {
      TrimEndEnds(s[..|s| - 1]);
    }
  }

  lemma {:induction false} TrimStartStarts(s: string)
    ensures var t := TrimStart(s); (t == "" || !IsSpace(t[0])) && |t| <= |s| && t == s[|s| - |t|..]
  {
    if s == "" || !IsSpace(s[0]) {
    } else {
      TrimStartStarts(s[1..]);
    }
  }

  lemma TrimIsTrimmed(s: string)
    ensures Trimmed(Trim(s))
  {
    TrimStartStarts(s);
    TrimEndEnds(TrimStart(s));
  }

  ghost predicate AllSpaces(s: string) {
    forall i :: 0 <= i < |s| ==> s[i] in {' ', '\t', '\n', 11 as char, 12 as char, '\r'}
  }

  lemma {:induction false} TrimStartDrops(pre: string, t: string)
    requires AllSpaces(pre) && (t == "" || !IsSpace(t[0]))
    ensures TrimStart(pre + t) == t
  {
    if pre == "" {
      assert pre + t == t;
    } else {
      assert (pre + t)[1..] == pre[1..] + t;
      TrimStartDrops(pre[1..], t);
    }
  }

  lemma {:induction false} TrimEndDrops(t: string, post: string)
    requires AllSpaces(post) && (t == "" || !IsSpace(t[|t| - 1]))
    ensures TrimEnd(t + post) == t
  {
    if post == "" {
      assert t + post == t;
    } else {
      var n := |post| - 1;
      assert (t + post)[..|t + post| - 1] == t + post[..n];
      TrimEndDrops(t, post[..n]);
    }
  }

  /** Trimming drops exactly the white space around a text. */
  lemma TrimDropsSpaces(pre: string, t: string, post: string)
    requires AllSpaces(pre) && AllSpaces(post)
    requires t == "" || (!AllSpaces([t[0]]) && !AllSpaces([t[|t| - 1]]))
    ensures Trim(pre + t + post) == t
  {
    hide TrimStart, TrimEnd;
    if t == "" {
      assert AllSpaces(pre + post) && pre + t + post == pre + post + "";
      TrimStartDrops(pre + post, "");
      TrimEndDrops("", "");
      assert "" + "" == "";
    } else {
      SpaceIs(t[0]);
      SpaceIs(t[|t| - 1]);
      assert pre + t + post == pre + (t + post);
      TrimStartDrops(pre, t + post);
      TrimEndDrops(t, post);
    }
  }

  /** What trimming drops. */
  lemma TrimParts(s: string) returns (pre: string, post: string)
    ensures AllSpaces(pre) && AllSpaces(post) && s == pre + Trim(s) + post
  {
    var t := TrimStart(s);
    pre := DroppedAtStart(s);
    post := DroppedAtEnd(t);
  }

  lemma SpacesConcat(a: string, b: string)
    requires AllSpaces(a) && AllSpaces(b)
    ensures AllSpaces(a + b)
  {
  }

  lemma {:induction false} DroppedAtStart(s: string) returns (pre: string)
    ensures AllSpaces(pre) && s == pre + TrimStart(s)
  {
    hide AllSpaces, IsSpace, TrimStart;
    FirstStep(s);
    if s == "" || !IsSpace(s[0]) {
      pre := "";
      NoSpaces();
    } else {
      SpaceIs(s[0]);
      var more := DroppedAtStart(s[1..]);
      SpacesConcat([s[0]], more);
      pre := [s[0]] + more;
      assert s == [s[0]] + s[1..];
      assert pre + TrimStart(s[1..]) == [s[0]] + (more + TrimStart(s[1..]));
    }
  }

  lemma {:induction false} DroppedAtEnd(s: string) returns (post: string)
    ensures AllSpaces(post) && s == TrimEnd(s) + post
  {
    hide AllSpaces, IsSpace, TrimEnd;
    LastStep(s);
    if s == "" || !IsSpace(s[|s| - 1]) {
      post := "";
      NoSpaces();
    } else {
      SpaceIs(s[|s| - 1]);
      var more := DroppedAtEnd(s[..|s| - 1]);
      SpacesConcat(more, [s[|s| - 1]]);
      post := more + [s[|s| - 1]];
      assert s == s[..|s| - 1] + [s[|s| - 1]];
      assert TrimEnd(s[..|s| - 1]) + post == (TrimEnd(s[..|s| - 1]) + more) + [s[|s| - 1]];
    }
  }

  lemma FirstStep(s: string)
    ensures TrimStart(s) == if s != "" && IsSpace(s[0]) then TrimStart(s[1..]) else s
  {
  }

  lemma LastStep(s: string)
    ensures TrimEnd(s) == if s != "" && IsSpace(s[|s| - 1]) then TrimEnd(s[..|s| - 1]) else s
  {
  }

  lemma NoSpaces()
    ensures AllSpaces("")
  {
  }

  /** Nothing is left of a text exactly when it is all white space. */
  lemma BlankIff(s: string)
    ensures Trim(s) == "" <==> AllSpaces(s)
  {
    hide TrimStart, TrimEnd;
    if AllSpaces(s) {
      TrimDropsSpaces(s, "", "");
      assert s + "" + "" == s;
    } else {
      SomethingIsLeft(s);
    }
  }

  lemma {:induction false} SomethingIsLeft(s: string)
    requires !AllSpaces(s)
    ensures Trim(s) != ""
    decreases |s|
  {
    if !IsSpace(s[0]) {
      TrimEndKeeps(s);
    } else {
      SpaceIs(s[0]);
      assert s == [s[0]] + s[1..];
      SomethingIsLeft(s[1..]);
    }
  }

  lemma {:induction false} TrimEndKeeps(s: string)
    requires s != "" && !IsSpace(s[0])
    ensures TrimEnd(s) != ""
  {
    if !IsSpace(s[|s| - 1]) {
    } else {
      TrimEndKeeps(s[..|s| - 1]);
    }
  }

  lemma SpaceIs(c: char)
    ensures IsSpace(c) <==> AllSpaces([c])
  {
    assert [c][0] == c;
  }

  // ----- UTF-8 size -----

  function CharBytes(c: char): nat {
    if c < 0x80 as char then 1 else if c < 0x800 as char then 2 else if c < 0x10000 as char then 3 else 4
  }

  function Bytes(s: string): nat {
    if s == "" then 0 else CharBytes(s[0]) + Bytes(s[1..])
  }

  lemma {:induction false} BytesConcat(a: string, b: string)
    ensures Bytes(a + b) == Bytes(a) + Bytes(b)
  {
    if a == "" {
      assert a + b == b;
    } else {
      assert (a + b)[1..] == a[1..] + b;
      BytesConcat(a[1..], b);
    }
  }

  /** The bytes of a character in UTF-8 (section 3 of RFC 3629): six bits in each byte but the first. */
  function Utf8Char(c: char): seq<int> {
    var u := c as int;
    var v := u / 0x40;
    var w := v / 0x40;
    if u < 0x80 then [u]
    else if u < 0x800 then [0xC0 + v, 0x80 + u % 0x40]
    else if u < 0x10000 then [0xE0 + w, 0x80 + v % 0x40, 0x80 + u % 0x40]
    else [0xF0 + w / 0x40, 0x80 + w % 0x40, 0x80 + v % 0x40, 0x80 + u % 0x40]
  }

  /** The code point that the bytes of one character stand for. */
  function CodePoint(b: seq<int>): int {
    if |b| == 1 then b[0]
    else if |b| == 2 then (b[0] - 0xC0) * 0x40 + b[1] - 0x80
    else if |b| == 3 then ((b[0] - 0xE0) * 0x40 + b[1] - 0x80) * 0x40 + b[2] - 0x80
    else if |b| == 4 then (((b[0] - 0xF0) * 0x40 + b[1] - 0x80) * 0x40 + b[2] - 0x80) * 0x40 + b[3] - 0x80
    else 0
  }

  function Utf8(s: string): seq<int> {
    if s == "" then [] else Utf8Char(s[0]) + Utf8(s[1..])
  }

  /** The first byte says how many follow, and the bytes say which character it is. */
  lemma Utf8CharReads(c: char)
    ensures var b := Utf8Char(c);
      && CodePoint(b) == c as int && |b| == CharBytes(c)
      && (|b| == 1 ==> b[0] < 0x80) && (|b| == 2 ==> 0xC2 <= b[0] < 0xE0)
      && (|b| == 3 ==> 0xE0 <= b[0] < 0xF0) && (|b| == 4 ==> 0xF0 <= b[0] < 0xF5)
      && (forall k :: 0 < k < |b| ==> 0x80 <= b[k] < 0xC0)
  {
  }

  /** `Bytes` is the length of the text in UTF-8. */
  lemma {:induction false} BytesIsUtf8(s: string)
    ensures Bytes(s) == |Utf8(s)|
  {
    hide Utf8Char, CharBytes;
    if s == "" {
    } else {
      Utf8CharReads(s[0]);
      BytesIsUtf8(s[1..]);
    }
  }

  // ----- Case -----

  function LowerChar(c: char): char {
    if 'A' <= c <= 'Z' then (c as int + 32) as char else c
  }

  function Lower(s: string): (t: string)
    ensures |t| == |s| && forall i :: 0 <= i < |s| ==> t[i] == LowerChar(s[i])
  {
    if s == "" then "" else [LowerChar(s[0])] + Lower(s[1..])
  }

  predicate SameLetter(x: char, y: char) {
    x == y || ('A' <= x <= 'Z' && y as int == x as int + 32) || ('A' <= y <= 'Z' && x as int == y as int + 32)
  }

  /** Equal but for the case of the letters A to Z. */
  predicate SameIgnoringCase(a: string, b: string) {
    |a| == |b| && forall i :: 0 <= i < |a| ==> SameLetter(a[i], b[i])
  }

  lemma LowerEqualIff(a: string, b: string)
    ensures Lower(a) == Lower(b) <==> SameIgnoringCase(a, b)
  {
    hide Lower, LowerChar;
    forall x: char, y: char ensures LowerChar(x) == LowerChar(y) <==> SameLetter(x, y) {
      LowerCharEqualIff(x, y);
    }
    if Lower(a) == Lower(b) {
      forall i | 0 <= i < |a| ensures SameLetter(a[i], b[i]) {
        assert Lower(a)[i] == Lower(b)[i];
      }
    }
  }

  lemma LowerCharEqualIff(x: char, y: char)
    ensures LowerChar(x) == LowerChar(y) <==> SameLetter(x, y)
  {
  }

  lemma LowerHasNoCapitals(s: string)
    ensures forall i :: 0 <= i < |s| ==> !('A' <= Lower(s)[i] <= 'Z')
  {
  }

  // ----- Order and sorting -----

  predicate Less(a: string, b: string) {
    b != "" && (a == "" || a[0] < b[0] || (a[0] == b[0] && Less(a[1..], b[1..])))
  }

  /** Alike up to position `k`, where `a` ends or has the smaller code point. */
  predicate SmallerAt(a: string, b: string, k: nat) {
    k <= |a| && k < |b| && a[..k] == b[..k] && (k == |a| || (a[k] as int) < b[k] as int)
  }

  lemma {:induction false} LessIff(a: string, b: string)
    ensures Less(a, b) <==> exists k: nat :: SmallerAt(a, b, k)
  {
    if a == "" || b == "" || a[0] != b[0] {
      FirstDifference(a, b);
    } else {
      LessIff(a[1..], b[1..]);
      if k: nat :| SmallerAt(a, b, k) {
        assert k > 0;
        assert a[1..][..k - 1] == a[..k][1..] && b[1..][..k - 1] == b[..k][1..];
        assert SmallerAt(a[1..], b[1..], k - 1);
      }
      if k: nat :| SmallerAt(a[1..], b[1..], k) {
        assert a[..k + 1] == [a[0]] + a[1..][..k] && b[..k + 1] == [b[0]] + b[1..][..k];
        assert SmallerAt(a, b, k + 1);
      }
    }
  }

  /** Texts that differ from the start are told apart there. */
  lemma FirstDifference(a: string, b: string)
    requires a == "" || b == "" || a[0] != b[0]
    ensures Less(a, b) <==> exists k: nat :: SmallerAt(a, b, k)
  {
    if Less(a, b) {
      assert SmallerAt(a, b, 0);
    }
    forall k: nat ensures SmallerAt(a, b, k) ==> k == 0 {
      assert 0 < k <= |a| && k < |b| ==> a[..k][0] == a[0] && b[..k][0] == b[0];
    }
  }

  lemma {:induction false} LessIrreflexive(a: string)
    ensures !Less(a, a)
  {
    if a == "" {
    } else {
      LessIrreflexive(a[1..]);
    }
  }

  lemma {:induction false} LessTransitive(a: string, b: string, c: string)
    requires Less(a, b) && Less(b, c)
    ensures Less(a, c)
  {
    if a == "" || a[0] != b[0] || b[0] != c[0] {
    } else {
      LessTransitive(a[1..], b[1..], c[1..]);
    }
  }

  lemma {:induction false} LessTotal(a: string, b: string)
    ensures a == b || Less(a, b) || Less(b, a)
  {
    if a == "" || b == "" || a[0] != b[0] {
    } else {
      LessTotal(a[1..], b[1..]);
      assert a == [a[0]] + a[1..] && b == [b[0]] + b[1..];
    }
  }

  ghost predicate StrictlySorted(xs: seq<string>) {
    forall i, j :: 0 <= i < j < |xs| ==> Less(xs[i], xs[j])
  }

  function InsertUnique(x: string, xs: seq<string>): seq<string> {
    if xs == [] || Less(x, xs[0]) then [x] + xs
    else if x == xs[0] then xs
    else [xs[0]] + InsertUnique(x, xs[1..])
  }

  lemma {:induction false} InsertUniqueSorts(x: string, xs: seq<string>)
    requires StrictlySorted(xs)
    ensures StrictlySorted(InsertUnique(x, xs))
    ensures forall y :: y in InsertUnique(x, xs) <==> y == x || y in xs
  {
    if xs == [] {
    } else if Less(x, xs[0]) {
      forall i | 0 < i < |xs| ensures Less(x, xs[i]) {
        LessTransitive(x, xs[0], xs[i]);
      }
    } else if x != xs[0] {
      LessTotal(x, xs[0]);
      var t := InsertUnique(x, xs[1..]);
      InsertUniqueSorts(x, xs[1..]);
      assert forall y :: y in t ==> Less(xs[0], y);
      assert xs == [xs[0]] + xs[1..];
      var r := [xs[0]] + t;
      forall i, j | 0 <= i < j < |r| ensures Less(r[i], r[j]) {
        if i == 0 {
          assert r[j] == t[j - 1] && t[j - 1] in t;
        }
      }
    }
  }

  /** Sorting followed by removing duplicates. */
  function SortUnique(xs: seq<string>): seq<string> {
    if xs == [] then [] else InsertUnique(xs[|xs| - 1], SortUnique(xs[..|xs| - 1]))
  }

  lemma {:induction false} SortUniqueSorts(xs: seq<string>)
    ensures StrictlySorted(SortUnique(xs))
    ensures forall y :: y in SortUnique(xs) <==> y in xs
  {
    if xs == [] {
    } else {
      var init := xs[..|xs| - 1];
      SortUniqueSorts(init);
      InsertUniqueSorts(xs[|xs| - 1], SortUnique(init));
      assert xs == init + [xs[|xs| - 1]];
    }
  }

  /** A strictly sorted list is determined by its elements. */
  lemma {:induction false} SortedIsUnique(xs: seq<string>, ys: seq<string>)
    requires StrictlySorted(xs) && StrictlySorted(ys)
    requires forall y :: y in xs <==> y in ys
    ensures xs == ys
  {
    if ys == [] {
    } else {
      assert ys[0] in ys && ys[0] in xs;
    }
    if xs == [] {
    } else {
      assert xs[0] in xs && xs[0] in ys;
      assert ys != [] && ys[0] in ys && ys[0] in xs;
      var i :| 0 <= i < |xs| && xs[i] == ys[0];
      var j :| 0 <= j < |ys| && ys[j] == xs[0];
      if i > 0 && j > 0 {
        assert Less(xs[0], ys[0]) && Less(ys[0], xs[0]);
        LessTransitive(xs[0], ys[0], xs[0]);
        LessIrreflexive(xs[0]);
      }
      assert xs[0] == ys[0];
      forall y ensures y in xs[1..] <==> y in ys[1..] {
        SortedTail(xs, y);
        SortedTail(ys, y);
      }
      SortedIsUnique(xs[1..], ys[1..]);
    }
  }

  lemma SortedTail(xs: seq<string>, y: string)
    requires StrictlySorted(xs) && xs != []
    ensures y in xs[1..] <==> y in xs && y != xs[0]
  {
    LessIrreflexive(xs[0]);
    assert xs == [xs[0]] + xs[1..];
    if y in xs[1..] {
      var k :| 0 <= k < |xs[1..]| && xs[1..][k] == y;
      assert Less(xs[0], xs[k + 1]);
    }
  }

  lemma SortedHasNoDuplicates(xs: seq<string>)
    requires StrictlySorted(xs)
    ensures Distinct(xs)
  {
    forall i, j | 0 <= i < j < |xs| ensures xs[i] != xs[j] {
      LessIrreflexive(xs[i]);
    }
  }

  predicate IsLeast(x: string, s: set<string>) {
    x in s && forall y :: y in s && y != x ==> Less(x, y)
  }

  lemma {:induction false} LeastExists(s: set<string>) returns (x: string)
    requires s != {}
    ensures IsLeast(x, s)
  {
    var z :| z in s;
    x := z;
    if s == {z} {
    } else {
      assert s - {z} != {};
      x := LeastExists(s - {z});
      LessTotal(x, z);
      if Less(z, x) {
        forall y | y in s && y != z && y != x ensures Less(z, y) {
          LessTransitive(z, x, y);
        }
        x := z;
      }
    }
  }

  lemma LeastIsUnique(s: set<string>, x: string, y: string)
    requires IsLeast(x, s) && IsLeast(y, s)
    ensures x == y
  {
    if x != y {
      LessTransitive(x, y, x);
      LessIrreflexive(x);
    }
  }

  lemma OneLeast(s: set<string>)
    requires s != {}
    ensures exists x :: IsLeast(x, s)
    ensures forall x, y :: IsLeast(x, s) && IsLeast(y, s) ==> x == y
  {
    var _ := LeastExists(s);
    forall x, y | IsLeast(x, s) && IsLeast(y, s) ensures x == y {
      LeastIsUnique(s, x, y);
    }
  }

  /** The elements of a set in order, as iterating over a sorted map visits its keys. */
  function InOrder(s: set<string>): (xs: seq<string>)
    ensures StrictlySorted(xs)
    ensures forall y :: y in xs <==> y in s
    decreases s
  {
    if s == {} then []
    else
      OneLeast(s);
      var x :| x in s && IsLeast(x, s);
      var rest := InOrder(s - {x});
      assert forall i :: 0 <= i < |rest| ==> rest[i] in s - {x};
      [x] + rest
  }
}
