/**
 Shell quoting against a tokenizer for POSIX shell words: the escape character (2.2.1), single quotes
 (2.2.2) and token recognition (2.3) of the Shell Command Language, IEEE Std 1003.1.
 */
module ShellQuote {
  import opened Common
  import opened Text

  // ----- The program's two functions -----

  function ShellEscape(s: string): string {
    if s == "" then ""
    else (if s[0] == '\'' then "'\\''" else [s[0]]) + ShellEscape(s[1..])
  }

  predicate IsSafe(c: char) {
    'a' <= c <= 'z' || 'A' <= c <= 'Z' || '0' <= c <= '9' || c == '-' || c == '_' || c == '.' || c == '/'
  }

  predicate AllSafe(s: string) {
    forall i :: 0 <= i < |s| ==> IsSafe(s[i])
  }

  function ShellQuote(s: string): string {
    if s == "" then "''"
    else if AllSafe(s) then s
    else "'" + ShellEscape(s) + "'"
  }

  // ----- The shell's side -----

  /** Characters that mean something to the shell when they stand unquoted: it would not read them as
      part of a plain word. */
  predicate IsSpecial(c: char) {
    c in "|&;<>()$`\"*?[]#~=%!{}\n"
  }

  predicate IsBlank(c: char) {
    c == ' ' || c == '\t'
  }

  function Prepend(word: Option<string>, words: Option<seq<string>>): Option<seq<string>> {
    if word.None? || words.None? then words else Some([word.value] + words.value)
  }

  /** The words of `s`, or nothing when a special character stands unquoted or a quotation does not
      end.  `word` is the word in progress: `None` between words, so that `''` is a word of its own. */
  function Tokenize(s: string, quoted: bool, word: Option<string>): Option<seq<string>>
    decreases |s|
  {
    var w := if word.Some? then word.value else "";
    if s == "" then (if quoted then None else Prepend(word, Some([])))
    else if quoted then
      if s[0] == '\'' then Tokenize(s[1..], false, Some(w)) else Tokenize(s[1..], true, Some(w + [s[0]]))
    else if s[0] == '\'' then Tokenize(s[1..], true, Some(w))
    else if s[0] == '\\' then
      if |s| == 1 then None
      else if s[1] == '\n' then Tokenize(s[2..], false, word)
      else Tokenize(s[2..], false, Some(w + [s[1]]))
    else if IsBlank(s[0]) then Prepend(word, Tokenize(s[1..], false, None))
    else if IsSpecial(s[0]) then None
    else Tokenize(s[1..], false, Some(w + [s[0]]))
  }

  function Words(s: string): Option<seq<string>> {
    Tokenize(s, false, None)
  }

  // ----- Reading a quoted argument -----

  lemma {:induction false} ReadSafe(a: string, rest: string, word: Option<string>)
    requires AllSafe(a) && a != ""
    ensures Tokenize(a + rest, false, word)
      == Tokenize(rest, false, Some((if word.Some? then word.value else "") + a))
    decreases |a|
  {
    var w := if word.Some? then word.value else "";
    assert IsSafe(a[0]) && a[0] != '\'' && a[0] != '\\' && !IsBlank(a[0]) && !IsSpecial(a[0]);
    assert (a + rest)[1..] == a[1..] + rest;
    if |a| > 1 {
      ReadSafe(a[1..], rest, Some(w + [a[0]]));
      assert w + [a[0]] + a[1..] == w + a;
    } else {
      assert a[1..] + rest == rest && w + a == w + [a[0]];
    }
  }

  lemma {:induction false} ReadEscaped(s: string, rest: string, w: string)
    ensures Tokenize(ShellEscape(s) + "'" + rest, true, Some(w)) == Tokenize(rest, false, Some(w + s))
    decreases |s|
  {
    var t := ShellEscape(s) + "'" + rest;
    if s == "" {
      assert t[1..] == rest && w + s == w;
    } else {
      var tail := ShellEscape(s[1..]) + "'" + rest;
      assert s == [s[0]] + s[1..];
      assert w + [s[0]] + s[1..] == w + s;
      ReadEscaped(s[1..], rest, w + [s[0]]);
      if s[0] == '\'' {
        assert t == "'\\''" + tail;
        LeaveAndReenter(tail, w);
      } else {
        assert t[1..] == tail;
      }
    }
  }

  /** Closing the quotation, an escaped quote, and opening it again add one quote to the word. */
  lemma LeaveAndReenter(tail: string, w: string)
    ensures Tokenize("'\\''" + tail, true, Some(w)) == Tokenize(tail, true, Some(w + ['\'']))
  {
    var t := "'\\''" + tail;
    var a := t[1..];
    var b := a[2..];
    assert a == "\\''" + tail && b == "'" + tail && b[1..] == tail;
    assert Tokenize(t, true, Some(w)) == Tokenize(a, false, Some(w));
    assert a[0] == '\\' && a[1] == '\'';
    assert Tokenize(a, false, Some(w)) == Tokenize(b, false, Some(w + ['\'']));
  }

  lemma OpenQuote(tail: string)
    ensures Tokenize("'" + tail, false, None) == Tokenize(tail, true, Some(""))
  {
    assert ("'" + tail)[1..] == tail;
  }

  lemma LastWord(w: string)
    ensures Tokenize("", false, Some(w)) == Some([w])
  {
    assert [w] + [] == [w];
  }

  lemma QuoteShape(s: string)
    ensures ShellQuote(s) == if s != "" && AllSafe(s) then s else "'" + ShellEscape(s) + "'"
  {
  }

  lemma ReadQuoted(s: string, rest: string)
    ensures Tokenize(ShellQuote(s) + rest, false, None) == Tokenize(rest, false, Some(s))
  {
    hide Tokenize, ShellEscape;
    hide AllSafe, ShellQuote;
    assert "" + s == s;
    QuoteShape(s);
    if s != "" && AllSafe(s) {
      ReadSafe(s, rest, None);
    } else {
      assert ShellQuote(s) + rest == "'" + (ShellEscape(s) + "'" + rest);
      OpenQuote(ShellEscape(s) + "'" + rest);
      ReadEscaped(s, rest, "");
    }
  }

  function QuoteAll(args: seq<string>): (quoted: seq<string>)
    ensures |quoted| == |args|
  {
    if args == [] then [] else [ShellQuote(args[0])] + QuoteAll(args[1..])
  }

  function CommandLine(args: seq<string>): string {
    Join(QuoteAll(args), " ")
  }

  /** Quoting every argument and joining with spaces gives a command line that the shell splits back
      into exactly those arguments, whatever characters they hold. */
  lemma {:induction false} QuotingRoundTrips(args: seq<string>)
    ensures Words(CommandLine(args)) == Some(args)
  {
    hide ShellQuote, AllSafe;
    if |args| == 0 {
    } else if |args| == 1 {
      ReadQuoted(args[0], "");
      assert QuoteAll(args[1..]) == [];
      assert ShellQuote(args[0]) + "" == ShellQuote(args[0]);
      assert CommandLine(args) == ShellQuote(args[0]);
      LastWord(args[0]);
      assert args == [args[0]];
    } else {
      var tail := CommandLine(args[1..]);
      QuotingRoundTrips(args[1..]);
      ReadQuoted(args[0], " " + tail);
      assert QuoteAll(args)[1..] == QuoteAll(args[1..]);
      assert CommandLine(args) == ShellQuote(args[0]) + (" " + tail);
      assert (" " + tail)[1..] == tail;
      assert args == [args[0]] + args[1..];
    }
  }

  /** A command line handed as the last argument to a shell, which gets it from a shell, and so on. */
  function Nested(shell: seq<string>, depth: nat, args: seq<string>): string {
    if depth == 0 then CommandLine(args) else CommandLine(shell + [Nested(shell, depth - 1, args)])
  }

  /** What each shell in turn reads: its words, and then those of the last of them. */
  function Unnested(s: string, depth: nat): Option<seq<string>>
    decreases depth
  {
    var words := Words(s);
    if depth == 0 || words.None? || words.value == [] then words
    else Unnested(words.value[|words.value| - 1], depth - 1)
  }

  /** However deep it is nested, a quoted command line reaches the innermost shell as it was. */
  lemma {:induction false} NestedQuotingRoundTrips(shell: seq<string>, depth: nat, args: seq<string>)
    ensures Unnested(Nested(shell, depth, args), depth) == Some(args)
  {
    hide CommandLine, Words;
    if depth == 0 {
      QuotingRoundTrips(args);
    } else {
      QuotingRoundTrips(shell + [Nested(shell, depth - 1, args)]);
      NestedQuotingRoundTrips(shell, depth - 1, args);
    }
  }

  /** Different argument lists never give the same command line. */
  lemma CommandLineInjective(a: seq<string>, b: seq<string>)
    requires CommandLine(a) == CommandLine(b)
    ensures a == b
  {
    QuotingRoundTrips(a);
    QuotingRoundTrips(b);
  }

  /** The fast path is exactly the arguments that need no quoting: left as they are, they read back; all
      others stand between quotes, with their own quotes escaped. */
  lemma UnquotedIffSafe(s: string)
    ensures var safe := s != "" && forall c :: c in s ==>
                          'a' <= c <= 'z' || 'A' <= c <= 'Z' || '0' <= c <= '9' || c in {'-', '_', '.', '/'};
      && (ShellQuote(s) == s <==> safe)
      && (safe ==> Words(s) == Some([s]))
      && (!safe ==> ShellQuote(s) == "'" + ShellEscape(s) + "'")
  {
    assert AllSafe(s) <==> forall c :: c in s ==> IsSafe(c);
    if s != "" && AllSafe(s) {
      ReadSafe(s, "", None);
      assert s + "" == s && "" + s == s;
      LastWord(s);
    } else if s == "" {
      assert "'" + "" + "'" == "''";
    } else {
      EscapeNeverShrinks(s);
    }
  }

  /** Escaping leaves every stretch without a quote as it is, and spells out the quotes between them. */
  lemma {:induction false} EscapeSpellsQuotes(parts: seq<string>)
    requires forall p :: p in parts ==> '\'' !in p
    ensures ShellEscape(Join(parts, "'")) == Join(parts, "'\\''")
  {
    if |parts| == 0 {
    } else if |parts| == 1 {
      EscapePlain(parts[0], "");
      assert parts[0] + "" == parts[0];
    } else {
      var rest := Join(parts[1..], "'");
      EscapeSpellsQuotes(parts[1..]);
      EscapePlain(parts[0], "'" + rest);
      assert parts[0] + "'" + rest == parts[0] + ("'" + rest);
      assert ("'" + rest)[1..] == rest;
      assert parts[0] + ("'\\''" + ShellEscape(rest)) == parts[0] + "'\\''" + ShellEscape(rest);
    }
  }

  lemma {:induction false} EscapePlain(a: string, b: string)
    requires '\'' !in a
    ensures ShellEscape(a + b) == a + ShellEscape(b)
  {
    if a == "" {
      assert a + b == b;
    } else {
      assert a[0] in a && (a + b)[1..] == a[1..] + b;
      assert a == [a[0]] + a[1..];
      EscapePlain(a[1..], b);
    }
  }

  lemma {:induction false} EscapeNeverShrinks(s: string)
    ensures |ShellEscape(s)| >= |s|
  {
    if s == "" {
    } else {
      EscapeNeverShrinks(s[1..]);
    }
  }
}
