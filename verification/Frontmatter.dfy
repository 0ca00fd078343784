/** Splitting frontmatter from a prompt: the sum of line lengths as an offset, and when it is exact. */
module Frontmatter {
  import opened Common
  import opened Text

  // ----- Lines -----

  function Pieces(parts: seq<string>): seq<string> {
    if parts == [] then []
    else if |parts| == 1 then (if parts[0] == "" then [] else parts)
    else [parts[0] + "\n"] + Pieces(parts[1..])
  }

  /** The lines of `s`, each with the newline that ends it; only the last may lack one. */
  function RawLines(s: string): seq<string> {
    Pieces(Split(s, '\n'))
  }

  predicate Ended(raw: string) {
    raw != "" && raw[|raw| - 1] == '\n'
  }

  predicate HasCrLf(raw: string) {
    |raw| >= 2 && raw[|raw| - 1] == '\n' && raw[|raw| - 2] == '\r'
  }

  /** A line without its ending, which is a newline or a carriage return and a newline. */
  function LineText(raw: string): string {
    if HasCrLf(raw) then raw[..|raw| - 2] else if Ended(raw) then raw[..|raw| - 1] else raw
  }

  function LineTexts(raws: seq<string>): (texts: seq<string>)
    ensures |texts| == |raws| && forall i :: 0 <= i < |raws| ==> texts[i] == LineText(raws[i])
  {
    if raws == [] then [] else LineTexts(raws[..|raws| - 1]) + [LineText(raws[|raws| - 1])]
  }

  function Lines(s: string): seq<string> {
    LineTexts(RawLines(s))
  }

  function Concat(parts: seq<string>): string {
    if parts == [] then "" else Concat(parts[..|parts| - 1]) + parts[|parts| - 1]
  }

  lemma {:induction false} ConcatHead(x: string, parts: seq<string>)
    ensures Concat([x] + parts) == x + Concat(parts)
  {
    var all := [x] + parts;
    if parts == [] {
      assert all[..0] == [];
    } else {
      assert all[..|all| - 1] == [x] + parts[..|parts| - 1];
      ConcatHead(x, parts[..|parts| - 1]);
    }
  }

  lemma {:induction false} ConcatPrefix(parts: seq<string>, n: nat)
    requires n <= |parts|
    ensures Concat(parts[..n]) <= Concat(parts)
  {
    if n == |parts| {
      assert parts[..n] == parts;
    } else {
      ConcatPrefix(parts[..|parts| - 1], n);
      assert parts[..|parts| - 1][..n] == parts[..n];
    }
  }

  lemma {:induction false} PiecesConcat(parts: seq<string>)
    requires parts != []
    ensures Concat(Pieces(parts)) == Join(parts, "\n")
  {
    if |parts| == 1 {
      assert parts[..0] == [];
    } else {
      PiecesConcat(parts[1..]);
      ConcatHead(parts[0] + "\n", Pieces(parts[1..]));
    }
  }

  lemma RawLinesConcat(s: string)
    ensures Concat(RawLines(s)) == s
  {
    PiecesConcat(Split(s, '\n'));
    JoinOfSplit(s, '\n');
    assert ['\n'] == "\n";
  }

  lemma {:induction false} PiecesEnd(parts: seq<string>)
    requires parts != []
    ensures forall i :: 0 <= i < |Pieces(parts)| - 1 ==> Ended(Pieces(parts)[i])
  {
    if |parts| <= 1 {
    } else {
      PiecesEnd(parts[1..]);
    }
  }

  /** `ending` may follow a line: a newline, with a carriage return or without, or nothing after the last. */
  predicate MayEnd(text: string, ending: string, last: bool) {
    || ending == "\r\n"
    || (ending == "\n" && (text == "" || text[|text| - 1] != '\r'))
    || (ending == "" && text != "" && last)
  }

  function Terminated(texts: seq<string>, endings: seq<string>): string
    requires |texts| == |endings|
  {
    if texts == [] then "" else texts[0] + endings[0] + Terminated(texts[1..], endings[1..])
  }

  lemma RawLineHead(a: string, b: string)
    requires '\n' !in a
    ensures RawLines(a + "\n" + b) == [a + "\n"] + RawLines(b)
  {
    SplitAtFirst(a, '\n', b);
    assert a + "\n" + b == a + ['\n'] + b;
    var parts := [a] + Split(b, '\n');
    assert parts[1..] == Split(b, '\n');
  }

  lemma RawLineLast(a: string)
    requires '\n' !in a && a != ""
    ensures RawLines(a) == [a]
  {
    SplitOfPlain(a, '\n');
  }

  /** The lines of a text are what stands before its line endings. */
  lemma {:induction false} LinesRead(texts: seq<string>, endings: seq<string>)
    requires |texts| == |endings|
    requires forall i :: 0 <= i < |texts| ==>
      '\n' !in texts[i] && MayEnd(texts[i], endings[i], i == |texts| - 1)
    ensures Lines(Terminated(texts, endings)) == texts
  {
    hide RawLines;
    if texts == [] {
      assert RawLines("") == [] by { NoLines(); }
    } else {
      var text, ending, rest := texts[0], endings[0], Terminated(texts[1..], endings[1..]);
      assert MayEnd(text, ending, 0 == |texts| - 1);
      LinesRead(texts[1..], endings[1..]);
      if ending == "" {
        RawLineLast(text);
        assert text + "" + "" == text;
        assert texts == [text];
      } else {
        LineEnds(text, ending, rest);
        assert Lines(text + ending + rest) == [text] + Lines(rest);
      }
    }
  }

  lemma NoLines()
    ensures RawLines("") == []
  {
  }

  lemma LineEnds(text: string, ending: string, rest: string)
    requires '\n' !in text && ending != "" && MayEnd(text, ending, false)
    ensures RawLines(text + ending + rest) == [text + ending] + RawLines(rest)
    ensures LineText(text + ending) == text
  {
    hide RawLines;
    if ending == "\n" {
      RawLineHead(text, rest);
    } else {
      RawLineHead(text + "\r", rest);
      assert text + "\r" + "\n" == text + ending;
      assert text + "\r" + "\n" + rest == text + ending + rest;
    }
  }

  // ----- Splitting -----

  predicate OpensFrontmatter(line: string) {
    Trim(line) == "---"
  }

  predicate ClosesFrontmatter(line: string) {
    Trim(line) == "---" || Trim(line) == "..."
  }

  /** The first closing line at or after `from`, or the number of lines. */
  function FindClosing(lines: seq<string>, from: nat): (k: nat)
    requires from <= |lines|
    ensures from <= k <= |lines| && (k < |lines| ==> ClosesFrontmatter(lines[k]))
    ensures forall i :: from <= i < k ==> !ClosesFrontmatter(lines[i])
    decreases |lines| - from
  {
    if from == |lines| || ClosesFrontmatter(lines[from]) then from else FindClosing(lines, from + 1)
  }

  function LineSum(lines: seq<string>): nat {
    if lines == [] then 0 else LineSum(lines[..|lines| - 1]) + |lines[|lines| - 1]| + 1
  }

  datatype SplitResult = SplitResult(frontmatter: Option<string>, body: string)

  function SplitFrontmatter(content: string): SplitResult {
    var lines := Lines(content);
    if lines == [] || !OpensFrontmatter(lines[0]) then SplitResult(None, content)
    else
      var closing := FindClosing(lines, 1);
      if closing == |lines| then SplitResult(None, content)
      else
        var start := LineSum(lines[..closing + 1]);
        SplitResult(Some(Join(lines[1..closing], "\n")),
                    content[if start < |content| then start else |content|..])
  }

  // ----- The offset -----

  function CrLfCount(raws: seq<string>): nat {
    if raws == [] then 0 else CrLfCount(raws[..|raws| - 1]) + (if HasCrLf(raws[|raws| - 1]) then 1 else 0)
  }

  /** The true length of some lines against the sum the code takes: one less for each CRLF, one more
      for a last line without a newline. */
  lemma {:induction false} SumAgainstLength(raws: seq<string>)
    requires forall i :: 0 <= i < |raws| - 1 ==> Ended(raws[i])
    ensures LineSum(LineTexts(raws)) + CrLfCount(raws)
      == |Concat(raws)| + (if raws != [] && !Ended(raws[|raws| - 1]) then 1 else 0)
  {
    if raws == [] {
    } else {
      var n := |raws| - 1;
      SumAgainstLength(raws[..n]);
      assert LineTexts(raws)[..n] == LineTexts(raws[..n]);
    }
  }

  /** Where the header of an accepted document ends: the closing fence's line number. */
  function ClosingLine(content: string): nat
    requires SplitFrontmatter(content).frontmatter.Some?
  {
    FindClosing(Lines(content), 1)
  }

  function Header(content: string): seq<string>
    requires SplitFrontmatter(content).frontmatter.Some?
  {
    RawLines(content)[..ClosingLine(content) + 1]
  }

  lemma HeaderIsPrefix(content: string)
    requires SplitFrontmatter(content).frontmatter.Some?
    ensures var h := Header(content); var k := ClosingLine(content);
      && |h| == k + 1 >= 2
      && Concat(h) <= content
      && (forall i :: 0 <= i < k ==> Ended(h[i]))
      && (!Ended(h[k]) ==> Concat(h) == content)
      && LineTexts(h) == Lines(content)[..k + 1]
  {
    hide Pieces, Concat, Split, Trim, LineSum, Join, LineText, Ended;
    var raws, k := RawLines(content), ClosingLine(content);
    RawLinesConcat(content);
    ConcatPrefix(raws, k + 1);
    PiecesEnd(Split(content, '\n'));
    assert LineTexts(raws[..k + 1]) == LineTexts(raws)[..k + 1];
    if !Ended(raws[k]) {
      assert raws[..k + 1] == raws;
    }
  }

  /** The body is exactly what follows the header's last line if and only if no header line ends in
      CRLF, or one does and the closing fence is the unterminated last line. */
  lemma BodyIsExactIff(content: string)
    requires SplitFrontmatter(content).frontmatter.Some?
    ensures var h := Header(content); var k := ClosingLine(content);
      && Concat(h) <= content
      && (SplitFrontmatter(content).body == content[|Concat(h)|..]
          <==> CrLfCount(h) == 0 || (CrLfCount(h) == 1 && !Ended(h[k])))
  {
    hide Lines, RawLines, LineText, FindClosing;
    HeaderIsPrefix(content);
    var h, k := Header(content), ClosingLine(content);
    SumAgainstLength(h);
    var start := LineSum(Lines(content)[..k + 1]);
    var from := if start < |content| then start else |content|;
    assert SplitFrontmatter(content).body == content[from..];
    assert |content[from..]| == |content| - from;
  }

  const CRLF_EXAMPLE := "---\r\n---\r\nx"

  lemma ExampleLines()
    ensures Lines(CRLF_EXAMPLE) == ["---", "---", "x"]
  {
    hide RawLines, Split;
    var fence := "---\r";
    RawLineLast("x");
    RawLineHead(fence, "x");
    RawLineHead(fence, fence + "\n" + "x");
    assert CRLF_EXAMPLE == fence + "\n" + (fence + "\n" + "x");
    var raws := RawLines(CRLF_EXAMPLE);
    assert raws == [fence + "\n", fence + "\n", "x"];
    assert LineText(fence + "\n") == "---" && LineText("x") == "x";
    assert LineTexts(raws) == ["---", "---", "x"];
  }

  lemma TwoSum(a: string, b: string)
    ensures LineSum([a, b]) == |a| + |b| + 2
  {
    var one, two := [a], [a, b];
    assert two[..|two| - 1] == one && one[..|one| - 1] == [];
    assert LineSum(one) == |a| + 1;
  }

  /** Two CRLF fences: the body starts two characters too early. */
  lemma CrLfShiftsBody()
    ensures SplitFrontmatter(CRLF_EXAMPLE).body == "\r\nx"
  {
    hide Lines, Trim, LineSum;
    ExampleLines();
    var lines := ["---", "---", "x"];
    TrimOfTrimmed("---");
    assert FindClosing(lines, 1) == 1;
    TwoSum("---", "---");
    assert lines[..2] == ["---", "---"];
    assert CRLF_EXAMPLE[8..] == "\r\nx";
  }

  // ----- Reassembly -----

  lemma NothingConcat()
    ensures Concat([]) == ""
  {
  }

  lemma {:induction false} EndedLinesConcat(raws: seq<string>)
    requires forall i :: 0 <= i < |raws| ==> Ended(raws[i]) && !HasCrLf(raws[i])
    ensures Concat(raws) == if raws == [] then "" else Join(LineTexts(raws), "\n") + "\n"
    decreases |raws|
  {
    hide LineTexts, Concat, Ended, HasCrLf, LineText;
    if raws == [] {
      assert Concat(raws) == "" by { NothingConcat(); }
    } else {
      var rest := raws[1..];
      EndedLinesConcat(rest);
      ConcatHead(raws[0], rest);
      assert raws == [raws[0]] + rest;
      LineOf(raws[0]);
      assert LineTexts(raws)[1..] == LineTexts(rest);
    }
  }

  lemma {:induction false} NoCrLfAnywhere(raws: seq<string>)
    requires CrLfCount(raws) == 0
    ensures forall i :: 0 <= i < |raws| ==> !HasCrLf(raws[i])
  {
    if raws == [] {
    } else {
      NoCrLfAnywhere(raws[..|raws| - 1]);
    }
  }

  /** What is found between the fences. */
  lemma FencesFound(content: string)
    requires SplitFrontmatter(content).frontmatter.Some?
    ensures var lines := Lines(content); var k := ClosingLine(content);
      && 0 < k < |lines|
      && OpensFrontmatter(lines[0]) && ClosesFrontmatter(lines[k])
      && (forall i :: 0 < i < k ==> !ClosesFrontmatter(lines[i]))
      && SplitFrontmatter(content).frontmatter == Some(Join(lines[1..k], "\n"))
  {
    hide Lines, Trim, Join, LineSum, OpensFrontmatter, ClosesFrontmatter;
  }

  /** Without CRLF in the header, opening fence, frontmatter, first closing fence and body make up the
      content again; the closing fence may lack its newline, and then the body is empty. */
  lemma PartsReassemble(content: string)
    requires SplitFrontmatter(content).frontmatter.Some? && CrLfCount(Header(content)) == 0
    ensures var r := SplitFrontmatter(content); var lines := Lines(content); var k := ClosingLine(content);
      && 0 < k < |lines|
      && Trim(lines[0]) == "---" && Trim(lines[k]) in {"---", "..."}
      && (forall i :: 0 < i < k ==> Trim(lines[i]) !in {"---", "..."})
      && content == lines[0] + "\n" + (if k == 1 then "" else r.frontmatter.value + "\n") + lines[k]
                    + (if Ended(Header(content)[k]) then "\n" + r.body else "")
      && (!Ended(Header(content)[k]) ==> r.body == "")
  {
    hide Lines, SplitFrontmatter, ClosingLine, Trim, Join, Concat, LineTexts, CrLfCount, Header, LineText, Ended;
    FencesFound(content);
    HeaderIsPrefix(content);
    BodyIsExactIff(content);
    var h, k, lines := Header(content), ClosingLine(content), Lines(content);
    var r := SplitFrontmatter(content);
    HeaderText(h, k);
    assert content == Concat(h) + r.body;
    assert lines[..k + 1][0] == lines[0] && lines[..k + 1][k] == lines[k] && lines[..k + 1][1..k] == lines[1..k];
  }

  /** A header without CRLF, spelled out from its line texts. */
  lemma HeaderText(h: seq<string>, k: nat)
    requires |h| == k + 1 >= 2 && CrLfCount(h) == 0
    requires forall i :: 0 <= i < k ==> Ended(h[i])
    ensures var t := LineTexts(h);
      Concat(h) == t[0] + "\n" + (if k == 1 then "" else Join(t[1..k], "\n") + "\n") + t[k]
                   + (if Ended(h[k]) then "\n" else "")
  {
    hide Join, CrLfCount, LineTexts, Concat, Ended, HasCrLf, LineText;
    NoCrLfAnywhere(h);
    ConcatEnds(h, k);
    MiddleText(h, k);
    LineOf(h[0]);
    LineOf(h[k]);
  }

  lemma ConcatEnds(h: seq<string>, k: nat)
    requires |h| == k + 1 >= 2
    ensures Concat(h) == h[0] + Concat(h[1..k]) + h[k]
  {
    hide Concat;
    assert h == h[..k] + [h[k]];
    ConcatLast(h[..k], h[k]);
    assert h[..k] == [h[0]] + h[1..k];
    ConcatHead(h[0], h[1..k]);
  }

  lemma MiddleText(h: seq<string>, k: nat)
    requires |h| == k + 1 >= 2
    requires forall i :: 0 < i < k ==> Ended(h[i]) && !HasCrLf(h[i])
    ensures Concat(h[1..k]) == if k == 1 then "" else Join(LineTexts(h)[1..k], "\n") + "\n"
  {
    hide Join, LineTexts, Concat, Ended, HasCrLf, LineText;
    var t, middle := LineTexts(h), h[1..k];
    EndedLinesConcat(middle);
    assert LineTexts(middle) == t[1..k] by {
      assert forall i :: 0 <= i < |middle| ==> LineTexts(middle)[i] == t[i + 1];
    }
  }

  lemma LineOf(raw: string)
    requires !HasCrLf(raw)
    ensures raw == LineText(raw) + (if Ended(raw) then "\n" else "")
  {
  }

  lemma ConcatLast(parts: seq<string>, x: string)
    ensures Concat(parts + [x]) == Concat(parts) + x
  {
    assert (parts + [x])[..|parts|] == parts;
  }

  /** Without both fences there is no frontmatter and the body is everything. */
  lemma NoFencesNoFrontmatter(content: string)
    ensures SplitFrontmatter(content).frontmatter.None?
      <==> (var lines := Lines(content);
            lines == [] || Trim(lines[0]) != "---"
            || forall i :: 0 < i < |lines| ==> Trim(lines[i]) !in {"---", "..."})
    ensures SplitFrontmatter(content).frontmatter.None? ==> SplitFrontmatter(content).body == content
  {
    hide Lines, Trim, Join, LineSum;
  }
}
