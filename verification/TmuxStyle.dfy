/** The tmux style scanner: its token grammar, the styles it folds, and how parses compose. */
module TmuxStyle {
  import opened Common
  import opened Text

  datatype Color =
    | Rgb(r: nat, g: nat, b: nat)
    | Indexed(index: nat)
    | Black | Red | Green | Yellow | Blue | Magenta | Cyan | White

  datatype Modifier = Bold | Dim | Italic | Underlined | Reversed | CrossedOut

  datatype Style = Style(fg: Option<Color>, bg: Option<Color>, added: set<Modifier>, removed: set<Modifier>)

  datatype Span = Span(text: string, style: Style)

  // ----- Colors -----

  function HexValue(c: char): Option<nat> {
    if '0' <= c <= '9' then Some((c - '0') as nat)
    else if 'a' <= c <= 'f' then Some((c - 'a') as nat + 10)
    else if 'A' <= c <= 'F' then Some((c - 'A') as nat + 10)
    else None
  }

  /** Two characters read as a hexadecimal byte; a leading plus sign is allowed. */
  function HexByte(a: char, b: char): Option<nat> {
    var low := HexValue(b);
    if low.None? then None
    else if a == '+' then low
    else if HexValue(a).None? then None
    else Some(16 * HexValue(a).value + low.value)
  }

  function NamedColor(name: string): Option<Color> {
    if name == "black" then Some(Black)
    else if name == "red" then Some(Red)
    else if name == "green" then Some(Green)
    else if name == "yellow" then Some(Yellow)
    else if name == "blue" then Some(Blue)
    else if name == "magenta" then Some(Magenta)
    else if name == "cyan" then Some(Cyan)
    else if name == "white" then Some(White)
    else None
  }

  function ParseColor(s: string): Option<Color> {
    if s != "" && s[0] == '#' then
      if |s| != 7 then None
      else
        var r, g, b := HexByte(s[1], s[2]), HexByte(s[3], s[4]), HexByte(s[5], s[6]);
        if r.None? || g.None? || b.None? then None else Some(Rgb(r.value, g.value, b.value))
    else
      var british, american := StripPrefix(s, "colour"), StripPrefix(s, "color");
      var digits := if british.Some? then british else american;
      var index := if digits.Some? then ParseUnsigned(digits.value) else None;
      if index.Some? && index.value <= 255 then Some(Indexed(index.value)) else NamedColor(Lower(s))
  }

  // ----- Directives -----

  function AddModifier(s: Style, m: Modifier): Style {
    s.(added := s.added + {m}, removed := s.removed - {m})
  }

  function RemoveModifier(s: Style, m: Modifier): Style {
    s.(added := s.added - {m}, removed := s.removed + {m})
  }

  function ModifierNamed(name: string): Option<Modifier> {
    if name == "bold" then Some(Bold)
    else if name == "dim" then Some(Dim)
    else if name == "italics" then Some(Italic)
    else if name == "underscore" then Some(Underlined)
    else if name == "reverse" then Some(Reversed)
    else if name == "strikethrough" then Some(CrossedOut)
    else None
  }

  function ApplyPart(current: Style, rawPart: string, base: Style): Style {
    var part := Trim(rawPart);
    var name := Lower(part);
    var fg, bg := StripPrefix(part, "fg="), StripPrefix(part, "bg=");
    if name == "default" || name == "none" then base
    else if fg.Some? then
      if Lower(fg.value) == "default" then current.(fg := base.fg)
      else if ParseColor(fg.value).Some? then current.(fg := ParseColor(fg.value)) else current
    else if bg.Some? then
      if Lower(bg.value) == "default" then current.(bg := base.bg)
      else if ParseColor(bg.value).Some? then current.(bg := ParseColor(bg.value)) else current
    else if ModifierNamed(name).Some? then AddModifier(current, ModifierNamed(name).value)
    else if StripPrefix(name, "no").Some? && ModifierNamed(name[2..]).Some?
    then RemoveModifier(current, ModifierNamed(name[2..]).value)
    else current
  }

  function ApplyParts(current: Style, parts: seq<string>, base: Style): Style {
    if parts == [] then current
    else ApplyPart(ApplyParts(current, parts[..|parts| - 1], base), parts[|parts| - 1], base)
  }

  method ApplyTmuxDirectives(current: Style, styleStr: string, base: Style) returns (style: Style)
    ensures style == ApplyParts(current, Split(styleStr, ','), base)
  {
    hide ApplyPart;
    style := current;
    var parts := Split(styleStr, ',');
    for i := 0 to |parts|
      invariant style == ApplyParts(current, parts[..i], base)
    {
      assert parts[..i + 1][..i] == parts[..i];
      style := ApplyPart(style, parts[i], base);
    }
    assert parts[..|parts|] == parts;
  }

  function Apply(current: Style, directive: string, base: Style): Style {
    ApplyParts(current, Split(directive, ','), base)
  }

  predicate Disjoint(s: Style) {
    s.added !! s.removed
  }

  lemma PartKeepsDisjoint(current: Style, part: string, base: Style)
    requires Disjoint(current) && Disjoint(base)
    ensures Disjoint(ApplyPart(current, part, base))
  {
    hide ParseColor, ModifierNamed, Trim, Lower, StripPrefix;
  }

  lemma {:induction false} ApplyKeepsDisjoint(current: Style, parts: seq<string>, base: Style)
    requires Disjoint(current) && Disjoint(base)
    ensures Disjoint(ApplyParts(current, parts, base))
  {
    hide ApplyPart, Disjoint;
    if parts == [] {
    } else {
      ApplyKeepsDisjoint(current, parts[..|parts| - 1], base);
      PartKeepsDisjoint(ApplyParts(current, parts[..|parts| - 1], base), parts[|parts| - 1], base);
    }
  }

  lemma DefaultResets(current: Style, base: Style)
    ensures Apply(current, "default", base) == base
  {
    hide Trim, Split, ParseColor, ModifierNamed, StripPrefix;
    assert ',' !in "default";
    SplitOfPlain("default", ',');
    TrimOfTrimmed("default");
    assert Lower("default") == "default";
    assert ["default"][..0] == [];
  }

  // ----- What directives do -----

  lemma OneDirective(current: Style, part: string, base: Style)
    requires ',' !in part
    ensures Apply(current, part, base) == ApplyPart(current, part, base)
  {
    hide ApplyPart, Split;
    SplitOfPlain(part, ',');
    var parts := [part];
    assert parts[..0] == [];
    assert ApplyParts(current, parts[..0], base) == current;
    assert parts[|parts| - 1] == part;
  }

  /** The parts of a directive are applied one after the other. */
  lemma DirectivesCompose(current: Style, a: string, b: string, base: Style)
    ensures Apply(current, a + "," + b, base) == Apply(Apply(current, a, base), b, base)
  {
    hide ApplyPart, ApplyParts;
    SplitConcat(a, ',', b);
    assert a + "," + b == a + [','] + b;
    PartsConcat(current, Split(a, ','), Split(b, ','), base);
  }

  lemma {:induction false} PartsConcat(current: Style, a: seq<string>, b: seq<string>, base: Style)
    ensures ApplyParts(current, a + b, base) == ApplyParts(ApplyParts(current, a, base), b, base)
  {
    hide ApplyPart;
    if b == [] {
      assert a + b == a;
    } else {
      assert (a + b)[..|a + b| - 1] == a + b[..|b| - 1];
      PartsConcat(current, a, b[..|b| - 1], base);
    }
  }

  /** Spaces around a part do not matter. */
  lemma PaddedPart(current: Style, pre: string, part: string, post: string, base: Style)
    requires AllSpaces(pre) && AllSpaces(post)
    requires part == "" || (!AllSpaces([part[0]]) && !AllSpaces([part[|part| - 1]]))
    ensures ApplyPart(current, pre + part + post, base) == ApplyPart(current, part, base)
  {
    hide ParseColor, ModifierNamed, Trim, Lower, StripPrefix;
    TrimDropsSpaces(pre, part, post);
    TrimDropsSpaces("", part, "");
    assert "" + part + "" == part;
  }

  /** A text that has neither space around it nor a comma in it, as a part of a directive. */
  predicate IsPart(s: string) {
    ',' !in s && Trimmed(s)
  }

  /** `fg=` sets the foreground to a color that can be read, takes the base's for `default`, and does
      nothing for anything else; nothing but the foreground changes. */
  lemma ForegroundIs(current: Style, color: string, base: Style)
    requires IsPart("fg=" + color)
    ensures Apply(current, "fg=" + color, base)
      == current.(fg := if SameIgnoringCase(color, "default") then base.fg
                        else if ParseColor(color).Some? then ParseColor(color) else current.fg)
  {
    hide ParseColor, ModifierNamed, Trim, Lower;
    var part := "fg=" + color;
    OneDirective(current, part, base);
    TrimOfTrimmed(part);
    LowerOfPrefix("fg=", color);
    IsDefaultIff(color);
    assert part[3..] == color && part[..3] == "fg=";
  }

  lemma BackgroundIs(current: Style, color: string, base: Style)
    requires IsPart("bg=" + color)
    ensures Apply(current, "bg=" + color, base)
      == current.(bg := if SameIgnoringCase(color, "default") then base.bg
                        else if ParseColor(color).Some? then ParseColor(color) else current.bg)
  {
    hide ParseColor, ModifierNamed, Trim, Lower;
    var part := "bg=" + color;
    OneDirective(current, part, base);
    TrimOfTrimmed(part);
    LowerOfPrefix("bg=", color);
    IsDefaultIff(color);
    assert part[3..] == color && part[..3] == "bg=" && part[0] == 'b';
  }

  /** The lower case of `fg=` or `bg=` and anything is neither `default` nor `none`. */
  lemma LowerOfPrefix(prefix: string, rest: string)
    requires prefix == "fg=" || prefix == "bg="
    ensures Lower(prefix + rest) != "default" && Lower(prefix + rest) != "none"
  {
    hide Lower;
    var s := prefix + rest;
    assert s[2] == '=';
    assert Lower(s)[2] == '=';
    assert "default"[2] != '=' && "none"[2] != '=';
  }

  lemma IsDefaultIff(s: string)
    ensures Lower(s) == "default" <==> SameIgnoringCase(s, "default")
  {
    hide Lower;
    LowerEqualIff(s, "default");
    LowerOfLower("default");
  }

  lemma LowerOfLower(s: string)
    requires forall i :: 0 <= i < |s| ==> !('A' <= s[i] <= 'Z')
    ensures Lower(s) == s
  {
  }

  lemma IsNameIff(s: string, name: string)
    requires forall i :: 0 <= i < |name| ==> !('A' <= name[i] <= 'Z')
    ensures Lower(s) == name <==> SameIgnoringCase(s, name)
  {
    hide Lower;
    LowerEqualIff(s, name);
    LowerOfLower(name);
  }

  /** `default` and `none`, in any case, go back to the base style. */
  lemma ResetIs(current: Style, part: string, base: Style)
    requires IsPart(part) && (SameIgnoringCase(part, "default") || SameIgnoringCase(part, "none"))
    ensures Apply(current, part, base) == base
  {
    hide ParseColor, ModifierNamed, Trim, Lower, StripPrefix;
    OneDirective(current, part, base);
    TrimOfTrimmed(part);
    IsNameIff(part, "default");
    IsNameIff(part, "none");
  }

  /** The directives that add a modifier; `no` before one removes it. */
  function Names(): map<string, Modifier> {
    map["bold" := Bold, "dim" := Dim, "italics" := Italic, "underscore" := Underlined,
        "reverse" := Reversed, "strikethrough" := CrossedOut]
  }

  lemma ModifierIs(s: string)
    ensures ModifierNamed(s) == if s in Names() then Some(Names()[s]) else None
  {
  }

  /** The first and the third character tell the modifiers' names from all other parts. */
  lemma NamesArePlain(name: string)
    requires name in Names()
    ensures |name| >= 3 && name[2] != '=' && name[0] != 'n'
    ensures forall i :: 0 <= i < |name| ==> 'a' <= name[i] <= 'z'
  {
    assert "bold"[2] != '=';
  }

  /** A part that is a modifier's name in some case adds exactly that modifier. */
  lemma ModifierAdded(current: Style, part: string, name: string, base: Style)
    requires IsPart(part) && name in Names() && SameIgnoringCase(part, name)
    ensures Apply(current, part, base)
      == current.(added := current.added + {Names()[name]}, removed := current.removed - {Names()[name]})
  {
    hide ParseColor, Trim, Lower, ModifierNamed, Names;
    OneDirective(current, part, base);
    TrimOfTrimmed(part);
    NamesArePlain(name);
    IsNameIff(part, name);
    ModifierIs(name);
    NotAPrefix(part, name);
    NotAReset(name);
  }

  /** ... and `no` and the name removes exactly that modifier. */
  lemma ModifierRemoved(current: Style, part: string, name: string, base: Style)
    requires IsPart(part) && name in Names() && SameIgnoringCase(part, "no" + name)
    ensures Apply(current, part, base)
      == current.(added := current.added - {Names()[name]}, removed := current.removed + {Names()[name]})
  {
    hide ParseColor, Trim, Lower, ModifierNamed, Names;
    OneDirective(current, part, base);
    TrimOfTrimmed(part);
    NamesArePlain(name);
    var whole := "no" + name;
    IsNameIff(part, whole);
    ModifierIs(name);
    ModifierIs(whole);
    NotAPrefix(part, whole);
    NegationIsNoName(name);
    assert whole[2..] == name && whole[..2] == "no";
  }

  lemma NegationIsNoName(name: string)
    requires name in Names()
    ensures "no" + name !in Names() && "no" + name != "default" && "no" + name != "none"
  {
    var whole := "no" + name;
    assert whole[0] == 'n';
    if whole in Names() {
      NamesArePlain(whole);
    }
    NamesArePlain(name);
    assert |whole| >= 5;
  }

  lemma NotAReset(name: string)
    requires name in Names()
    ensures name != "default" && name != "none"
  {
    NamesArePlain(name);
    assert "none"[0] == 'n' && "default"[1] == 'e' && "dim"[1] == 'i';
  }

  /** A part that is a lower-case word in some case does not start with `fg=` or `bg=`. */
  lemma NotAPrefix(part: string, word: string)
    requires SameIgnoringCase(part, word) && |word| >= 3 && word[2] != '=' && !('A' <= word[2] <= 'Z')
    ensures StripPrefix(part, "fg=") == None && StripPrefix(part, "bg=") == None
  {
    assert SameLetter(part[2], word[2]);
    assert "fg="[2] == '=' && "bg="[2] == '=';
  }

  /** Any other part changes nothing. */
  lemma UnknownIgnored(current: Style, part: string, base: Style)
    requires IsPart(part) && !("fg=" <= part) && !("bg=" <= part)
    requires !SameIgnoringCase(part, "default") && !SameIgnoringCase(part, "none")
    requires forall name :: name in Names() ==>
      !SameIgnoringCase(part, name) && !SameIgnoringCase(part, "no" + name)
    ensures Apply(current, part, base) == current
  {
    hide ParseColor, Trim, Lower, ModifierNamed, Names;
    OneDirective(current, part, base);
    TrimOfTrimmed(part);
    IsNameIff(part, "default");
    IsNameIff(part, "none");
    var low := Lower(part);
    ModifierIs(low);
    if low in Names() {
      NamesArePlain(low);
      IsNameIff(part, low);
    }
    if "no" <= low {
      var rest := low[2..];
      ModifierIs(rest);
      assert low == "no" + rest;
      if rest in Names() {
        NamesArePlain(rest);
        IsNameIff(part, low);
      }
    }
  }

  // ----- Reading colors -----

  /** A hexadecimal digit in either case. */
  predicate IsHexDigit(c: char, d: nat) {
    d < 16 && c in {"0123456789abcdef"[d], "0123456789ABCDEF"[d]}
  }

  lemma HexValueIff(c: char, d: nat)
    ensures HexValue(c) == Some(d) <==> IsHexDigit(c, d)
    ensures IsHexDigit(c, d) ==> c != '+'
  {
  }

  /** Two characters for a byte: two digits, or a plus sign and one. */
  ghost predicate SpellsByte(s: string, b: nat) {
    && |s| == 2
    && if s[0] == '+' then IsHexDigit(s[1], b)
       else exists high: nat, low: nat :: IsHexDigit(s[0], high) && IsHexDigit(s[1], low) && b == 16 * high + low
  }

  lemma HexByteIff(s: string, b: nat)
    requires |s| == 2
    ensures HexByte(s[0], s[1]) == Some(b) <==> SpellsByte(s, b)
  {
    hide HexValue, IsHexDigit;
    forall c: char, d: nat ensures HexValue(c) == Some(d) <==> IsHexDigit(c, d) {
      HexValueIff(c, d);
    }
    if s[0] == '+' {
    } else if HexByte(s[0], s[1]) == Some(b) {
      assert IsHexDigit(s[0], HexValue(s[0]).value) && IsHexDigit(s[1], HexValue(s[1]).value);
    }
  }

  /** `#` and three bytes are the color of these bytes, and nothing else is read as one. */
  lemma HexColorIff(s: string, r: nat, g: nat, b: nat)
    ensures ParseColor(s) == Some(Rgb(r, g, b))
      <==> |s| == 7 && s[0] == '#' && SpellsByte(s[1..3], r) && SpellsByte(s[3..5], g) && SpellsByte(s[5..7], b)
  {
    hide HexByte, SpellsByte, Lower;
    if |s| == 7 {
      HexByteIff(s[1..3], r);
      HexByteIff(s[3..5], g);
      HexByteIff(s[5..7], b);
    }
  }

  /** A byte in two hexadecimal digits. */
  function Hex(b: nat, upper: bool): (s: string)
    requires b < 256
    ensures |s| == 2
  {
    var digits := if upper then "0123456789ABCDEF" else "0123456789abcdef";
    [digits[b / 16], digits[b % 16]]
  }

  lemma HexSpells(b: nat, upper: bool)
    requires b < 256
    ensures SpellsByte(Hex(b, upper), b)
  {
    assert b == 16 * (b / 16) + b % 16;
    assert IsHexDigit(Hex(b, upper)[0], b / 16) && IsHexDigit(Hex(b, upper)[1], b % 16);
    HexValueIff(Hex(b, upper)[0], b / 16);
  }

  /** Every color reads back from `#RRGGBB`, with small letters or capitals. */
  lemma RgbReads(r: nat, g: nat, b: nat, upper: bool)
    requires r < 256 && g < 256 && b < 256
    ensures ParseColor("#" + Hex(r, upper) + Hex(g, upper) + Hex(b, upper)) == Some(Rgb(r, g, b))
  {
    hide ParseColor, Hex, SpellsByte;
    var s := "#" + Hex(r, upper) + Hex(g, upper) + Hex(b, upper);
    HexSpells(r, upper);
    HexSpells(g, upper);
    HexSpells(b, upper);
    assert s[1..3] == Hex(r, upper) && s[3..5] == Hex(g, upper) && s[5..7] == Hex(b, upper);
    HexColorIff(s, r, g, b);
  }

  /** `colour` or `color` and a number up to 255 are the color with this index, and nothing else is read
      as one. */
  lemma IndexIff(s: string, n: nat)
    ensures ParseColor(s) == Some(Indexed(n))
      <==> n <= 255 && exists digits :: s in {"colour" + digits, "color" + digits} && ParseUnsigned(digits) == Some(n)
  {
    hide Lower, ParseUnsigned, HexByte;
    if digits :| s in {"colour" + digits, "color" + digits} && ParseUnsigned(digits) == Some(n) {
      assert s[0] == 'c';
      if s == "colour" + digits {
        assert s[..6] == "colour" && s[6..] == digits;
      } else {
        assert s[..5] == "color" && s[5..] == digits;
        assert !("colour" <= s) by { NotBritish(s, digits, n); }
      }
    }
    if ParseColor(s) == Some(Indexed(n)) {
      var digits := if "colour" <= s then s[6..] else s[5..];
      assert "colour" <= s ==> s == "colour" + s[6..];
      assert "color" <= s ==> s == "color" + s[5..];
    }
  }

  /** No number starts with the letter that the two spellings differ in. */
  lemma NotBritish(s: string, digits: string, n: nat)
    requires s == "color" + digits && ParseUnsigned(digits) == Some(n)
    ensures !("colour" <= s)
  {
    assert s[4] == 'r' && "colour"[4] == 'u';
  }

  /** Every index up to 255 reads back from its decimal number. */
  lemma IndexReads(n: nat)
    requires n <= 255
    ensures ParseColor("colour" + Decimal(n)) == ParseColor("color" + Decimal(n)) == Some(Indexed(n))
  {
    hide Decimal, DigitsValue, ParseColor;
    DecimalRoundTrip(n);
    assert Decimal(n)[0] != '+';
    IndexIff("colour" + Decimal(n), n);
    IndexIff("color" + Decimal(n), n);
  }

  lemma ParseColorPlain(s: string)
    requires s == "" || s[0] != '#'
    ensures ParseColor(s).Some? && !ParseColor(s).value.Indexed? ==> ParseColor(s) == NamedColor(Lower(s))
    ensures !("color" <= s) && !("colour" <= s) ==> ParseColor(s) == NamedColor(Lower(s))
  {
    hide Lower, ParseUnsigned, NamedColor;
  }

  function ColorNames(): map<string, Color> {
    map["black" := Black, "red" := Red, "green" := Green, "yellow" := Yellow,
        "blue" := Blue, "magenta" := Magenta, "cyan" := Cyan, "white" := White]
  }

  lemma NamedIs(s: string)
    ensures NamedColor(s) == if s in ColorNames() then Some(ColorNames()[s]) else None
  {
  }

  /** The eight names, in any case, are read as their colors, and nothing else is. */
  lemma NameIff(s: string, c: Color)
    requires !c.Rgb? && !c.Indexed?
    ensures ParseColor(s) == Some(c)
      <==> exists name :: name in ColorNames() && SameIgnoringCase(s, name) && ColorNames()[name] == c
  {
    hide Lower, ColorNames, NamedColor, ParseColor, SameIgnoringCase;
    if name :| name in ColorNames() && SameIgnoringCase(s, name) && ColorNames()[name] == c {
      ColorNamesArePlain(name);
      IsNameIff(s, name);
      NamedIs(name);
      NameStarts(s, name);
      ParseColorPlain(s);
    }
    if ParseColor(s) == Some(c) {
      HashIsNoName(s);
      ParseColorPlain(s);
      NamedIs(Lower(s));
      var name := Lower(s);
      ColorNamesArePlain(name);
      IsNameIff(s, name);
    }
  }

  lemma NameStarts(s: string, name: string)
    requires name in ColorNames() && SameIgnoringCase(s, name)
    ensures (s == "" || s[0] != '#') && !("color" <= s) && !("colour" <= s)
  {
    hide ColorNames;
    ColorNamesArePlain(name);
    assert SameLetter(s[0], name[0]) && SameLetter(s[1], name[1]);
    assert "colour"[1] == 'o' && "color"[1] == 'o';
  }

  lemma HashIsNoName(s: string)
    ensures s != "" && s[0] == '#' ==> ParseColor(s).None? || ParseColor(s).value.Rgb?
  {
  }

  lemma ColorNamesArePlain(name: string)
    requires name in ColorNames()
    ensures |name| >= 3 && name[1] != 'o' && forall i :: 0 <= i < |name| ==> 'a' <= name[i] <= 'z'
  {
    assert "black"[1] == 'l';
  }

  // ----- The token grammar -----

  datatype Token = Text(text: string) | Directive(body: string)

  predicate OpensAt(s: string, i: nat) {
    i + 1 < |s| && s[i] == '#' && s[i + 1] == '['
  }

  /** Where the first `#[` is, or the length. */
  function FindOpen(s: string): (k: nat)
    ensures k <= |s| && (k < |s| ==> OpensAt(s, k))
    ensures forall i :: 0 <= i < k ==> !OpensAt(s, i)
  {
    if |s| < 2 then |s|
    else if OpensAt(s, 0) then 0
    else
      var k := FindOpen(s[1..]);
      assert forall i :: 0 < i < 1 + k ==> OpensAt(s, i) == OpensAt(s[1..], i - 1);
      1 + k
  }

  /** Every `#[` that the scanner reaches is closed. */
  predicate Closed(s: string)
    decreases |s|
  {
    var open := FindOpen(s);
    open == |s| ||
    var rest := s[open + 2..];
    Find(rest, ']') < |rest| && Closed(rest[Find(rest, ']') + 1..])
  }

  function TextToken(s: string): seq<Token> {
    if s == "" then [] else [Text(s)]
  }

  /** Text and complete directives in order; an unclosed `#[` and what follows are text. */
  function Lex(s: string): seq<Token>
    decreases |s|
  {
    var open := FindOpen(s);
    if open == |s| then TextToken(s)
    else
      var rest := s[open + 2..];
      var close := Find(rest, ']');
      TextToken(s[..open])
      + (if close == |rest| then [Text("#[")] + TextToken(rest)
         else [Directive(rest[..close])] + Lex(rest[close + 1..]))
  }

  /** Each text takes the style folded from the directives before it. */
  function Spans(tokens: seq<Token>, style: Style, base: Style): seq<Span> {
    if tokens == [] then []
    else if tokens[0].Text? then [Span(tokens[0].text, style)] + Spans(tokens[1..], style, base)
    else Spans(tokens[1..], Apply(style, tokens[0].body, base), base)
  }

  function Parse(s: string, base: Style): seq<Span> {
    Spans(Lex(s), base, base)
  }

  function TextSpan(text: string, style: Style): seq<Span> {
    if text == "" then [] else [Span(text, style)]
  }

  lemma SpansOfText(text: string, tail: seq<Token>, style: Style, base: Style)
    ensures Spans(TextToken(text) + tail, style, base) == TextSpan(text, style) + Spans(tail, style, base)
  {
    if text == "" {
      assert TextToken(text) + tail == tail;
    } else {
      assert (TextToken(text) + tail)[1..] == tail;
    }
  }

  lemma SpansPlain(s: string, style: Style, base: Style)
    requires FindOpen(s) == |s|
    ensures Spans(Lex(s), style, base) == TextSpan(s, style)
  {
    SpansOfText(s, [], style, base);
    assert TextToken(s) + [] == TextToken(s);
  }

  lemma SpansClosed(s: string, style: Style, base: Style)
    requires var open := FindOpen(s); open < |s| && Find(s[open + 2..], ']') < |s[open + 2..]|
    ensures var open := FindOpen(s); var rest := s[open + 2..]; var close := Find(rest, ']');
      Spans(Lex(s), style, base)
      == TextSpan(s[..open], style) + Spans(Lex(rest[close + 1..]), Apply(style, rest[..close], base), base)
  {
    hide Apply, FindOpen, Find, TextToken, TextSpan, Lex, Spans;
    var open := FindOpen(s);
    var rest := s[open + 2..];
    var close := Find(rest, ']');
    var tail := Lex(rest[close + 1..]);
    LexOfClosed(s);
    SpansOfText(s[..open], [Directive(rest[..close])] + tail, style, base);
    SpansOfDirective(rest[..close], tail, style, base);
  }

  lemma LexOfClosed(s: string)
    requires var open := FindOpen(s); open < |s| && Find(s[open + 2..], ']') < |s[open + 2..]|
    ensures var open := FindOpen(s); var rest := s[open + 2..]; var close := Find(rest, ']');
      Lex(s) == TextToken(s[..open]) + ([Directive(rest[..close])] + Lex(rest[close + 1..]))
  {
    hide FindOpen, Find, TextToken;
  }

  lemma SpansOfDirective(body: string, tail: seq<Token>, style: Style, base: Style)
    ensures Spans([Directive(body)] + tail, style, base) == Spans(tail, Apply(style, body, base), base)
  {
    hide Apply;
    var tokens := [Directive(body)] + tail;
    assert tokens[1..] == tail;
  }

  lemma SpansUnclosed(s: string, style: Style, base: Style)
    requires var open := FindOpen(s); open < |s| && Find(s[open + 2..], ']') == |s[open + 2..]|
    ensures var open := FindOpen(s); var rest := s[open + 2..];
      Spans(Lex(s), style, base) == TextSpan(s[..open], style) + [Span("#[", style)] + TextSpan(rest, style)
  {
    var open := FindOpen(s);
    var rest := s[open + 2..];
    var tokens := [Text("#[")] + TextToken(rest);
    SpansOfText(s[..open], tokens, style, base);
    assert tokens[1..] == TextToken(rest);
    SpansOfText(rest, [], style, base);
    assert TextToken(rest) + [] == TextToken(rest);
  }

  /** The scanning loop follows the grammar. */
  method ParseTmuxStyles(input: string, baseStyle: Style) returns (spans: seq<Span>)
    ensures spans == Parse(input, baseStyle)
  {
    hide Apply, Lex, Spans, ApplyParts, FindOpen, Find;
    spans := [];
    var current := baseStyle;
    var remaining := input;
    ghost var goal := Parse(input, baseStyle);
    assert [] + Spans(Lex(input), current, baseStyle) == goal;
    while true
      invariant spans + Spans(Lex(remaining), current, baseStyle) == goal
      decreases |remaining|
    {
      var start := FindOpen(remaining);
      if start == |remaining| {
        SpansPlain(remaining, current, baseStyle);
        break;
      }
      var rest := remaining[start + 2..];
      var end := Find(rest, ']');
      ghost var before := spans;
      if start > 0 {
        spans := spans + [Span(remaining[..start], current)];
      }
      assert spans == before + TextSpan(remaining[..start], current);
      if end < |rest| {
        SpansClosed(remaining, current, baseStyle);
        var style := ApplyTmuxDirectives(current, rest[..end], baseStyle);
        ApplyIs(current, rest[..end], baseStyle);
        SpansRegroup(before, TextSpan(remaining[..start], current),
                     Spans(Lex(rest[end + 1..]), style, baseStyle));
        current := style;
        remaining := rest[end + 1..];
      } else {
        SpansUnclosed(remaining, current, baseStyle);
        SpansRegroup(before, TextSpan(remaining[..start], current), [Span("#[", current)]);
        SpansRegroup(before, TextSpan(remaining[..start], current) + [Span("#[", current)], TextSpan(rest, current));
        spans := spans + [Span("#[", current)];
        remaining := rest;
        break;
      }
    }
    if remaining != "" {
      spans := spans + [Span(remaining, current)];
    }
  }

  lemma SpansRegroup(a: seq<Span>, b: seq<Span>, c: seq<Span>)
    ensures a + (b + c) == a + b + c
  {
  }

  lemma ApplyIs(current: Style, body: string, base: Style)
    ensures Apply(current, body, base) == ApplyParts(current, Split(body, ','), base)
  {
  }

  // ----- Nothing is lost but complete directives -----

  /** The text the tokens came from. */
  function Source(tokens: seq<Token>): string {
    if tokens == [] then ""
    else (if tokens[0].Text? then tokens[0].text else "#[" + tokens[0].body + "]") + Source(tokens[1..])
  }

  /** The text that is shown. */
  function Visible(tokens: seq<Token>): string {
    if tokens == [] then ""
    else (if tokens[0].Text? then tokens[0].text else "") + Visible(tokens[1..])
  }

  function SpanText(spans: seq<Span>): string {
    if spans == [] then "" else spans[0].text + SpanText(spans[1..])
  }

  lemma SourceOfHead(t: Token, rest: seq<Token>)
    ensures Source([t] + rest) == (if t.Text? then t.text else "#[" + t.body + "]") + Source(rest)
    ensures Visible([t] + rest) == (if t.Text? then t.text else "") + Visible(rest)
  {
    assert ([t] + rest)[1..] == rest;
  }

  lemma NoSource()
    ensures Source([]) == "" && Visible([]) == ""
  {
  }

  lemma {:induction false} SourceConcat(a: seq<Token>, b: seq<Token>)
    ensures Source(a + b) == Source(a) + Source(b)
    ensures Visible(a + b) == Visible(a) + Visible(b)
  {
    hide Source, Visible;
    if a == [] {
      NoSource();
      assert a + b == b;
    } else {
      var rest := a[1..];
      assert a == [a[0]] + rest && a + b == [a[0]] + (rest + b);
      SourceOfHead(a[0], rest);
      SourceOfHead(a[0], rest + b);
      SourceConcat(rest, b);
    }
  }

  lemma SourceOfText(s: string)
    ensures Source(TextToken(s)) == s && Visible(TextToken(s)) == s
  {
  }

  /** A token that the scanner can produce: text is never empty, and where it holds a `#[` it holds no
      closing bracket; neither does a directive's body. */
  predicate WellFormed(t: Token) {
    match t
    case Text(s) => s != "" && (FindOpen(s) == |s| || ']' !in s)
    case Directive(d) => ']' !in d
  }

  lemma TextWellFormed(s: string)
    requires FindOpen(s) == |s| || Find(s, ']') == |s|
    ensures forall t :: t in TextToken(s) ==> WellFormed(t)
  {
  }

  lemma CutAt(s: string, k: nat, m: nat)
    requires k + m <= |s|
    ensures s == s[..k] + s[k..k + m] + s[k + m..]
  {
  }

  lemma NoOpenerBefore(s: string, k: nat)
    requires k == FindOpen(s)
    ensures FindOpen(s[..k]) == k
  {
    hide FindOpen;
    var p := s[..k];
    var f := FindOpen(p);
    assert f < k ==> OpensAt(p, f);
    assert f < k ==> OpensAt(s, f);
  }

  /** A string with an opener is what stands before it, the opener, and the rest. */
  lemma CutAtOpen(s: string)
    requires FindOpen(s) < |s|
    ensures var k := FindOpen(s); s == s[..k] + "#[" + s[k + 2..] && FindOpen(s[..k]) == k
  {
    hide FindOpen, OpensAt;
    var k := FindOpen(s);
    NoOpenerBefore(s, k);
    OpenerText(s, k);
    CutAt(s, k, 2);
  }

  lemma OpenerText(s: string, k: nat)
    requires OpensAt(s, k)
    ensures k + 2 <= |s| && s[k..k + 2] == "#["
  {
  }

  lemma CutAtClose(s: string)
    requires Find(s, ']') < |s|
    ensures var k := Find(s, ']'); s == s[..k] + "]" + s[k + 1..] && ']' !in s[..k]
  {
    hide Find;
    var k := Find(s, ']');
    LacksBefore(s, k, ']');
    OneChar(s, k, ']');
    CutAt(s, k, 1);
  }

  lemma LacksBefore(s: string, k: nat, c: char)
    requires k <= |s| && forall i :: 0 <= i < k ==> s[i] != c
    ensures c !in s[..k]
  {
  }

  lemma OneChar(s: string, k: nat, c: char)
    requires k < |s| && s[k] == c
    ensures s[k..k + 1] == [c]
  {
  }

  lemma FindOpenIs(x: string, y: string)
    requires FindOpen(x) == |x|
    ensures FindOpen(x + "#[" + y) == |x|
  {
    var s := x + "#[" + y;
    var f := FindOpen(s);
    assert OpensAt(s, |x|);
    assert f < |s| && OpensAt(s, f);
    assert f + 1 < |x| ==> OpensAt(x, f);
    assert s[|x|] == '#';
  }

  lemma FindCloseIs(d: string, y: string)
    requires ']' !in d
    ensures Find(d + "]" + y, ']') == |d|
  {
    var s := d + "]" + y;
    assert s[|d|] == ']';
    assert forall i :: 0 <= i < |d| ==> s[i] == d[i];
  }

  /** Plain text, one complete directive, and whatever follows. */
  lemma LexStep(x: string, d: string, y: string)
    requires FindOpen(x) == |x| && ']' !in d
    ensures Lex(x + "#[" + d + "]" + y) == TextToken(x) + [Directive(d)] + Lex(y)
    ensures Closed(x + "#[" + d + "]" + y) == Closed(y)
  {
    hide FindOpen, Find, TextToken;
    var s := x + "#[" + d + "]" + y;
    var rest := d + "]" + y;
    assert s == x + "#[" + rest;
    FindOpenIs(x, rest);
    FindCloseIs(d, y);
    assert s[..|x|] == x && s[|x| + 2..] == rest && rest[..|d|] == d && rest[|d| + 1..] == y;
    assert Lex(s) == TextToken(x) + ([Directive(d)] + Lex(y));
  }

  /** Plain text and an opener that is never closed. */
  lemma LexStop(x: string, r: string)
    requires FindOpen(x) == |x| && ']' !in r
    ensures Lex(x + "#[" + r) == TextToken(x) + [Text("#[")] + TextToken(r)
  {
    hide FindOpen, TextToken;
    var s := x + "#[" + r;
    FindOpenIs(x, r);
    assert s[..|x|] == x && s[|x| + 2..] == r;
    assert Find(r, ']') == |r|;
    assert Lex(s) == TextToken(x) + ([Text("#[")] + TextToken(r));
  }

  lemma LexPlain(x: string)
    requires FindOpen(x) == |x|
    ensures Lex(x) == TextToken(x) && Closed(x)
  {
  }

  lemma {:induction false} LexIsFaithful(s: string)
    ensures Source(Lex(s)) == s
    ensures forall t :: t in Lex(s) ==> WellFormed(t)
    decreases |s|
  {
    hide FindOpen, Find, WellFormed, Lex, TextToken, Source, Visible;
    var open := FindOpen(s);
    if open == |s| {
      LexPlain(s);
      SourceOfText(s);
      TextWellFormed(s);
    } else {
      var x, rest := s[..open], s[open + 2..];
      CutAtOpen(s);
      TextWellFormed(x);
      if Find(rest, ']') == |rest| {
        LexStop(x, rest);
        TextWellFormed(rest);
        OpenerWellFormed();
        SourceOfStop(x, rest);
      } else {
        CutAtClose(rest);
        var d, y := rest[..Find(rest, ']')], rest[Find(rest, ']') + 1..];
        assert s == x + "#[" + d + "]" + y;
        LexStep(x, d, y);
        LexIsFaithful(y);
        DirectiveWellFormed(d);
        SourceOfStep(x, d, y);
      }
    }
  }

  lemma SourceOfStep(x: string, d: string, y: string)
    requires Source(Lex(y)) == y
    ensures Source(TextToken(x) + [Directive(d)] + Lex(y)) == x + "#[" + d + "]" + y
  {
    hide Lex, TextToken, Source, Visible;
    SourceOfText(x);
    DirectiveSource(d);
    SourceConcat(TextToken(x) + [Directive(d)], Lex(y));
    SourceConcat(TextToken(x), [Directive(d)]);
    assert x + ("#[" + d + "]") + y == x + "#[" + d + "]" + y;
  }

  lemma SourceOfStop(x: string, r: string)
    ensures Source(TextToken(x) + [Text("#[")] + TextToken(r)) == x + "#[" + r
  {
    hide TextToken, Source, Visible;
    SourceOfText(x);
    SourceOfText(r);
    OpenerSource();
    SourceConcat(TextToken(x) + [Text("#[")], TextToken(r));
    SourceConcat(TextToken(x), [Text("#[")]);
  }

  lemma OpenerSource()
    ensures Source([Text("#[")]) == "#[" && Visible([Text("#[")]) == "#["
  {
  }

  lemma OpenerWellFormed()
    ensures WellFormed(Text("#["))
  {
  }

  lemma DirectiveWellFormed(body: string)
    requires ']' !in body
    ensures WellFormed(Directive(body))
  {
  }

  lemma DirectiveSource(body: string)
    ensures Source([Directive(body)]) == "#[" + body + "]" && Visible([Directive(body)]) == ""
  {
    assert [Directive(body)][1..] == [];
  }

  lemma {:induction false} SpansShowVisible(tokens: seq<Token>, style: Style, base: Style)
    ensures SpanText(Spans(tokens, style, base)) == Visible(tokens)
  {
    hide Apply;
    if tokens == [] {
    } else {
      if tokens[0].Text? {
        SpansShowVisible(tokens[1..], style, base);
        var rest := Spans(tokens[1..], style, base);
        assert ([Span(tokens[0].text, style)] + rest)[1..] == rest;
      } else {
        SpansShowVisible(tokens[1..], Apply(style, tokens[0].body, base), base);
      }
    }
  }

  /** Stripping keeps the visible text. */
  function Strip(s: string): string {
    SpanText(Parse(s, Style(None, None, {}, {})))
  }

  /** Span texts concatenate to the input with exactly its complete directives removed. */
  lemma SpansKeepVisibleText(s: string, base: Style)
    ensures SpanText(Parse(s, base)) == Visible(Lex(s)) == Strip(s)
    ensures Source(Lex(s)) == s
    ensures forall i :: 0 <= i < |Parse(s, base)| ==> Parse(s, base)[i].text != ""
  {
    hide WellFormed, Lex;
    SpansShowVisible(Lex(s), base, base);
    SpansShowVisible(Lex(s), Style(None, None, {}, {}), Style(None, None, {}, {}));
    LexIsFaithful(s);
    forall t | t in Lex(s) && t.Text? ensures t.text != "" {
      TextNotEmpty(t);
    }
    SpansAreTexts(Lex(s), base, base);
  }

  lemma TextNotEmpty(t: Token)
    requires t.Text? && WellFormed(t)
    ensures t.text != ""
  {
  }

  lemma {:induction false} SpansAreTexts(tokens: seq<Token>, style: Style, base: Style)
    requires forall t :: t in tokens && t.Text? ==> t.text != ""
    ensures forall i :: 0 <= i < |Spans(tokens, style, base)| ==> Spans(tokens, style, base)[i].text != ""
  {
    hide Apply;
    if tokens == [] {
    } else {
      assert tokens[0] in tokens;
      SpansAreTexts(tokens[1..], if tokens[0].Text? then style else Apply(style, tokens[0].body, base), base);
    }
  }

  // ----- Styles -----

  /** The style after some tokens: the fold of their directives. */
  function StyleAfter(tokens: seq<Token>, style: Style, base: Style): Style {
    if tokens == [] then style
    else
      var before := StyleAfter(tokens[..|tokens| - 1], style, base);
      var last := tokens[|tokens| - 1];
      if last.Text? then before else Apply(before, last.body, base)
  }

  function TextCount(tokens: seq<Token>): nat {
    if tokens == [] then 0
    else TextCount(tokens[..|tokens| - 1]) + (if tokens[|tokens| - 1].Text? then 1 else 0)
  }

  lemma {:induction false} SpansConcat(a: seq<Token>, b: seq<Token>, style: Style, base: Style)
    ensures Spans(a + b, style, base) == Spans(a, style, base) + Spans(b, StyleAfter(a, style, base), base)
    ensures |Spans(a, style, base)| == TextCount(a)
    decreases |a|
  {
    hide Apply;
    if a == [] {
      assert a + b == b;
    } else {
      hide Spans;
      var init, last := a[..|a| - 1], a[|a| - 1];
      assert a + b == init + ([last] + b) && a == init + [last];
      SpansConcat(init, [last] + b, style, base);
      SpansConcat(init, [last], style, base);
      SpansOfOne(last, b, StyleAfter(init, style, base), base);
    }
  }

  lemma SpansOfOne(t: Token, b: seq<Token>, style: Style, base: Style)
    ensures var after := if t.Text? then style else Apply(style, t.body, base);
      Spans([t] + b, style, base) == Spans([t], style, base) + Spans(b, after, base)
    ensures |Spans([t], style, base)| == if t.Text? then 1 else 0
  {
    hide Apply;
    assert ([t] + b)[1..] == b && [t][1..] == [];
  }

  /** The k-th token, if it is text, is the span numbered by the texts before it, in the style folded
      from the directives before it. */
  lemma SpanStyleIsFold(s: string, base: Style, k: nat)
    requires k < |Lex(s)| && Lex(s)[k].Text?
    ensures var tokens := Lex(s); var n := TextCount(tokens[..k]);
      && n < |Parse(s, base)|
      && Parse(s, base)[n] == Span(tokens[k].text, StyleAfter(tokens[..k], base, base))
  {
    hide Apply, Lex;
    var tokens := Lex(s);
    var last, b := tokens[k..], tokens[k + 1..];
    assert tokens == tokens[..k] + last && last == [tokens[k]] + b;
    SpansConcat(tokens[..k], last, base, base);
    assert last[0] == tokens[k];
  }

  lemma {:induction false} SpanStylesDisjoint(tokens: seq<Token>, style: Style, base: Style)
    requires Disjoint(style) && Disjoint(base)
    ensures forall i :: 0 <= i < |Spans(tokens, style, base)| ==> Disjoint(Spans(tokens, style, base)[i].style)
  {
    hide Disjoint, ApplyParts;
    if tokens == [] {
    } else {
      if tokens[0].Text? {
        SpanStylesDisjoint(tokens[1..], style, base);
      } else {
        ApplyKeepsDisjoint(style, Split(tokens[0].body, ','), base);
        SpanStylesDisjoint(tokens[1..], Apply(style, tokens[0].body, base), base);
      }
    }
  }

  // ----- Composition -----

  /** A closed prefix, a directive, and anything lex independently. */
  lemma {:induction false} LexComposes(a: string, d: string, b: string)
    requires Closed(a) && ']' !in d
    ensures Lex(a + "#[" + d + "]" + b) == Lex(a) + [Directive(d)] + Lex(b)
    decreases |a|
  {
    hide FindOpen, Find, Lex, TextToken, Closed;
    if FindOpen(a) == |a| {
      LexPlain(a);
      LexStep(a, d, b);
    } else {
      var x, e, y := CutClosed(a);
      LexStep(x, e, y);
      var t := y + "#[" + d + "]" + b;
      assert a + "#[" + d + "]" + b == x + "#[" + e + "]" + t;
      LexStep(x, e, t);
      LexComposes(y, d, b);
    }
  }

  lemma {:induction false} LexUnclosed(a: string, r: string)
    requires Closed(a) && ']' !in r
    ensures Lex(a + "#[" + r) == Lex(a) + [Text("#[")] + TextToken(r)
    decreases |a|
  {
    hide FindOpen, Find, Lex, TextToken, Closed;
    if FindOpen(a) == |a| {
      LexPlain(a);
      LexStop(a, r);
    } else {
      var x, e, y := CutClosed(a);
      LexStep(x, e, y);
      var t := y + "#[" + r;
      assert a + "#[" + r == x + "#[" + e + "]" + t;
      LexStep(x, e, t);
      LexUnclosed(y, r);
    }
  }

  lemma CutClosed(a: string) returns (x: string, e: string, y: string)
    requires FindOpen(a) < |a|
    requires Closed(a) || Find(a[FindOpen(a) + 2..], ']') < |a[FindOpen(a) + 2..]|
    ensures a == x + "#[" + e + "]" + y && FindOpen(x) == |x| && ']' !in e
    ensures Closed(y) == Closed(a) && |y| < |a|
  {
    hide FindOpen, Find;
    CutAtOpen(a);
    var rest := a[FindOpen(a) + 2..];
    CutAtClose(rest);
    x, e, y := a[..FindOpen(a)], rest[..Find(rest, ']')], rest[Find(rest, ']') + 1..];
    assert a == x + "#[" + e + "]" + y;
  }

  lemma UnclosedHasOpener(a: string)
    requires !Closed(a)
    ensures FindOpen(a) < |a|
  {
    hide FindOpen, Find;
  }

  /** Where an unclosed string stops being closed. */
  lemma {:induction false} UnclosedShape(a: string) returns (p: string, r: string)
    requires !Closed(a)
    ensures a == p + "#[" + r && Closed(p) && ']' !in r
    decreases |a|
  {
    hide FindOpen, Find, Lex, Closed, TextToken;
    UnclosedHasOpener(a);
    var rest := a[FindOpen(a) + 2..];
    if Find(rest, ']') == |rest| {
      CutAtOpen(a);
      p, r := a[..FindOpen(a)], rest;
      LexPlain(p);
    } else {
      var x, e, y := CutClosed(a);
      var p', r' := UnclosedShape(y);
      p, r := x + "#[" + e + "]" + p', r';
      LexStep(x, e, p');
      assert a == p + "#[" + r;
    }
  }

  /** Parsing `a`, a reset, and `b` is parsing `a` and then `b` from the base style, exactly when `a`
      is closed. */
  lemma ResetComposesIffClosed(a: string, b: string, base: Style)
    ensures Parse(a + "#[default]" + b, base) == Parse(a, base) + Parse(b, base) <==> Closed(a)
  {
    hide Apply, Lex, Closed, Spans;
    var s := a + "#[default]" + b;
    if Closed(a) {
      assert "#[default]" == "#[" + "default" + "]" && ']' !in "default";
      assert s == a + "#[" + "default" + "]" + b;
      LexComposes(a, "default", b);
      var style := StyleAfter(Lex(a), base, base);
      var reset := [Directive("default")];
      assert Lex(a) + reset + Lex(b) == Lex(a) + (reset + Lex(b));
      SpansConcat(Lex(a), reset + Lex(b), base, base);
      assert Spans(reset + Lex(b), style, base) == Spans(Lex(b), base, base) by {
        SkipReset(Lex(b), style, base);
      }
      SpansConcat(Lex(a), [], base, base);
    } else {
      var p, r := UnclosedShape(a);
      var d := r + "#[default";
      assert ']' !in d;
      assert s == p + "#[" + d + "]" + b;
      LexComposes(p, d, b);
      LexUnclosed(p, r);
      VisibleParts(p, r, d, b);
      SpansShowVisible(Lex(s), base, base);
      SpansShowVisible(Lex(a), base, base);
      SpansShowVisible(Lex(b), base, base);
      SpanTextConcat(Parse(a, base), Parse(b, base));
    }
  }

  lemma SkipReset(tail: seq<Token>, style: Style, base: Style)
    ensures Spans([Directive("default")] + tail, style, base) == Spans(tail, base, base)
  {
    hide Apply;
    DefaultResets(style, base);
    assert ([Directive("default")] + tail)[1..] == tail;
  }

  lemma VisibleParts(p: string, r: string, d: string, b: string)
    ensures |Visible(Lex(p) + [Directive(d)] + Lex(b))| == |Visible(Lex(p))| + |Visible(Lex(b))|
    ensures |Visible(Lex(p) + [Text("#[")] + TextToken(r))| == |Visible(Lex(p))| + 2 + |r|
  {
    hide Lex;
    SourceConcat(Lex(p) + [Directive(d)], Lex(b));
    SourceConcat(Lex(p), [Directive(d)]);
    DirectiveSource(d);
    SourceConcat(Lex(p) + [Text("#[")], TextToken(r));
    SourceConcat(Lex(p), [Text("#[")]);
    OpenerSource();
    SourceOfText(r);
  }

  lemma {:induction false} SpanTextConcat(a: seq<Span>, b: seq<Span>)
    ensures SpanText(a + b) == SpanText(a) + SpanText(b)
  {
    if a == [] {
      assert a + b == b;
    } else {
      assert (a + b)[1..] == a[1..] + b;
      SpanTextConcat(a[1..], b);
    }
  }

  // ----- Stripping twice -----

  lemma {:induction false} VisibleIsShorter(tokens: seq<Token>)
    ensures |Visible(tokens)| <= |Source(tokens)|
    ensures |Visible(tokens)| == |Source(tokens)| <==> forall t :: t in tokens ==> t.Text?
  {
    if tokens == [] {
    } else {
      VisibleIsShorter(tokens[1..]);
      assert tokens == [tokens[0]] + tokens[1..];
    }
  }

  /** Stripping changes nothing exactly when there is no complete directive left. */
  lemma StripFixedIffNoDirective(s: string)
    ensures Strip(s) == s <==> forall t :: t in Lex(s) ==> t.Text?
  {
    hide Lex, Parse;
    var plain := Style(None, None, {}, {});
    SpansKeepVisibleText(s, plain);
    VisibleIsShorter(Lex(s));
    if forall t :: t in Lex(s) ==> t.Text? {
      AllTextIsVisible(Lex(s));
    }
  }

  lemma {:induction false} AllTextIsVisible(tokens: seq<Token>)
    requires forall t :: t in tokens ==> t.Text?
    ensures Visible(tokens) == Source(tokens)
  {
    if tokens == [] {
    } else {
      assert tokens == [tokens[0]] + tokens[1..];
      AllTextIsVisible(tokens[1..]);
    }
  }

  /** Stripping can uncover a directive, so it is not idempotent. */
  lemma StripIsNotIdempotent()
    ensures Strip("##[x][y]") == "#[y]" && Strip("#[y]") == ""
  {
    hide Lex, Parse, Closed, Source, Visible, FindOpen, Find;
    var plain := Style(None, None, {}, {});
    assert Closed("#") && Closed("") by { ShortClosed(); }
    assert "##[x][y]" == "#" + "#[" + "x" + "]" + "[y]";
    LexComposes("#", "x", "[y]");
    assert "#[y]" == "" + "#[" + "y" + "]" + "";
    LexComposes("", "y", "");
    ShortLex();
    SpansKeepVisibleText("##[x][y]", plain);
    SpansKeepVisibleText("#[y]", plain);
    SourceConcat([Text("#")] + [Directive("x")], [Text("[y]")]);
    SourceConcat([Text("#")], [Directive("x")]);
    DirectiveSource("x");
    DirectiveSource("y");
    SourceOfText("#");
    SourceOfText("[y]");
    assert [] + [Directive("y")] + [] == [Directive("y")];
  }

  lemma ShortClosed()
    ensures Closed("#") && Closed("")
  {
  }

  lemma ShortLex()
    ensures Lex("#") == [Text("#")] && Lex("") == [] && Lex("[y]") == [Text("[y]")]
  {
  }

  // ----- When stripping twice is stripping once -----

  /** Text `i` ends in `#`, the next text after it is `j`, starting with `[`, and a closing bracket is
      still to come: taking out the directives between them makes a new one. */
  ghost predicate Uncovers(tokens: seq<Token>, i: nat, j: nat) {
    && i < j < |tokens| && tokens[i].Text? && tokens[j].Text?
    && (forall k :: i < k < j ==> tokens[k].Directive?)
    && tokens[i].text != "" && tokens[i].text[|tokens[i].text| - 1] == '#'
    && tokens[j].text != "" && tokens[j].text[0] == '['
    && ']' in Visible(tokens[j..])
  }

  /** An opener with a closing bracket after it. */
  ghost predicate Completes(v: string, p: nat, q: nat) {
    OpensAt(v, p) && p + 2 <= q < |v| && v[q] == ']'
  }

  lemma LexHasDirectiveIff(v: string)
    ensures (exists t :: t in Lex(v) && t.Directive?) <==> exists p, q :: Completes(v, p, q)
  {
    hide FindOpen, Find, Lex;
    var open := FindOpen(v);
    if open == |v| {
      LexPlain(v);
      assert forall p: nat, q: nat :: !Completes(v, p, q);
    } else if Find(v[open + 2..], ']') == |v[open + 2..]| {
      CutAtOpen(v);
      LexStop(v[..open], v[open + 2..]);
      NothingCompletes(v, open);
    } else {
      var q := open + 2 + Find(v[open + 2..], ']');
      assert Completes(v, open, q);
      var x, d, y := CutClosed(v);
      LexStep(x, d, y);
      assert Directive(d) in Lex(v);
    }
  }

  lemma NothingCompletes(v: string, open: nat)
    requires open == FindOpen(v) < |v| && Find(v[open + 2..], ']') == |v[open + 2..]|
    ensures forall p: nat, q: nat :: !Completes(v, p, q)
  {
    hide FindOpen, Find;
    var rest := v[open + 2..];
    forall p: nat, q: nat ensures !Completes(v, p, q) {
      assert OpensAt(v, p) ==> p >= open;
      assert forall k :: open + 2 <= k < |v| ==> v[k] == rest[k - open - 2];
    }
  }

  lemma {:induction false} VisibleSplit(tokens: seq<Token>, i: nat)
    requires i <= |tokens|
    ensures Visible(tokens) == Visible(tokens[..i]) + Visible(tokens[i..])
  {
    assert tokens == tokens[..i] + tokens[i..];
    SourceConcat(tokens[..i], tokens[i..]);
  }

  /** Between two texts nothing shows. */
  lemma {:induction false} DirectivesShowNothing(tokens: seq<Token>, i: nat, j: nat)
    requires i <= j <= |tokens| && forall k :: i <= k < j ==> tokens[k].Directive?
    ensures Visible(tokens[i..]) == Visible(tokens[j..])
    decreases j - i
  {
    if i == j {
    } else {
      assert tokens[i..][1..] == tokens[i + 1..];
      DirectivesShowNothing(tokens, i + 1, j);
    }
  }

  lemma TextShows(tokens: seq<Token>, i: nat)
    requires i < |tokens| && tokens[i].Text?
    ensures Visible(tokens[i..]) == tokens[i].text + Visible(tokens[i + 1..])
  {
    assert tokens[i..][1..] == tokens[i + 1..];
  }

  lemma UncoveredCompletes(tokens: seq<Token>, i: nat, j: nat) returns (p: nat, q: nat)
    requires Uncovers(tokens, i, j)
    ensures Completes(Visible(tokens), p, q)
  {
    hide Visible;
    var v, head, tail := Visible(tokens), Visible(tokens[..i]), Visible(tokens[j..]);
    VisibleSplit(tokens, i);
    TextShows(tokens, i);
    DirectivesShowNothing(tokens, i + 1, j);
    TextShows(tokens, j);
    var text := tokens[i].text;
    assert v == head + (text + tail);
    p := |head| + |text| - 1;
    assert v[p] == text[|text| - 1] && v[p + 1] == tail[0] == tokens[j].text[0];
    var k :| 0 <= k < |tail| && tail[k] == ']';
    q := p + 1 + k;
    assert v[q] == tail[k] && k > 0;
  }

  /** A text with an opener in it stands where no closing bracket shows any more. */
  ghost predicate Tidy(tokens: seq<Token>) {
    && (forall i :: 0 <= i < |tokens| && tokens[i].Text? ==> tokens[i].text != "")
    && (forall i :: 0 <= i < |tokens| && tokens[i].Text? && FindOpen(tokens[i].text) < |tokens[i].text| ==>
          ']' !in Visible(tokens[i..]))
  }

  lemma TidyPrepended(head: seq<Token>, tail: seq<Token>)
    requires Tidy(tail)
    requires forall t :: t in head && t.Text? ==> t.text != "" && FindOpen(t.text) == |t.text|
    ensures Tidy(head + tail)
  {
    hide FindOpen, Visible;
    var all := head + tail;
    forall k | 0 <= k < |head| && head[k].Text? ensures FindOpen(head[k].text) == |head[k].text| {
      assert head[k] in head;
    }
    forall i | 0 <= i < |all| && all[i].Text? && FindOpen(all[i].text) < |all[i].text|
      ensures ']' !in Visible(all[i..])
    {
      assert all[i..] == tail[i - |head|..];
    }
  }

  lemma {:induction false} TidyWithoutBrackets(tokens: seq<Token>)
    requires ']' !in Visible(tokens) && forall t :: t in tokens && t.Text? ==> t.text != ""
    ensures Tidy(tokens)
  {
    hide FindOpen;
    forall i | 0 <= i < |tokens| ensures ']' !in Visible(tokens[i..]) {
      VisibleSplit(tokens, i);
    }
  }

  lemma {:induction false} LexIsTidy(s: string)
    ensures Tidy(Lex(s))
    decreases |s|
  {
    hide FindOpen, Find, Lex, Tidy, TextToken, Visible, Closed;
    if FindOpen(s) == |s| {
      LexPlain(s);
      PlainTextTidy(s, []);
      assert TextToken(s) + [] == TextToken(s);
    } else if Find(s[FindOpen(s) + 2..], ']') == |s[FindOpen(s) + 2..]| {
      CutAtOpen(s);
      StopIsTidy(s[..FindOpen(s)], s[FindOpen(s) + 2..]);
    } else {
      var x, d, y := CutClosed(s);
      LexIsTidy(y);
      StepIsTidy(x, d, y);
    }
  }

  lemma StopIsTidy(x: string, r: string)
    requires FindOpen(x) == |x| && ']' !in r
    ensures Tidy(Lex(x + "#[" + r))
  {
    hide FindOpen, Lex, Tidy, TextToken;
    LexStop(x, r);
    UnclosedTailTidy(r);
    PlainTextTidy(x, [Text("#[")] + TextToken(r));
    assert TextToken(x) + [Text("#[")] + TextToken(r) == TextToken(x) + ([Text("#[")] + TextToken(r));
  }

  lemma StepIsTidy(x: string, d: string, y: string)
    requires FindOpen(x) == |x| && ']' !in d && Tidy(Lex(y))
    ensures Tidy(Lex(x + "#[" + d + "]" + y))
  {
    hide FindOpen, Lex, Tidy, TextToken;
    LexStep(x, d, y);
    DirectiveTidy(d, Lex(y));
    PlainTextTidy(x, [Directive(d)] + Lex(y));
    assert TextToken(x) + [Directive(d)] + Lex(y) == TextToken(x) + ([Directive(d)] + Lex(y));
  }

  lemma PlainTextTidy(x: string, tail: seq<Token>)
    requires FindOpen(x) == |x| && (tail == [] || Tidy(tail))
    ensures Tidy(TextToken(x) + tail)
  {
    hide FindOpen, Visible, Tidy;
    assert Tidy([]) by { NothingTidy(); }
    TidyPrepended(TextToken(x), tail);
  }

  lemma NothingTidy()
    ensures Tidy([])
  {
  }

  lemma DirectiveTidy(d: string, tail: seq<Token>)
    requires Tidy(tail)
    ensures Tidy([Directive(d)] + tail)
  {
    hide FindOpen, Visible, Tidy;
    TidyPrepended([Directive(d)], tail);
  }

  lemma UnclosedTailTidy(r: string)
    requires ']' !in r
    ensures Tidy([Text("#[")] + TextToken(r))
  {
    hide FindOpen, Visible, Tidy;
    SourceConcat([Text("#[")], TextToken(r));
    OpenerSource();
    SourceOfText(r);
    TidyWithoutBrackets([Text("#[")] + TextToken(r));
  }

  /** The text that shows position `p`, and where in it. */
  lemma {:induction false} ShownBy(tokens: seq<Token>, p: nat) returns (i: nat, k: nat)
    requires p < |Visible(tokens)|
    ensures i < |tokens| && tokens[i].Text? && k < |tokens[i].text|
    ensures p == |Visible(tokens[..i])| + k
    decreases |tokens|
  {
    var text := if tokens[0].Text? then tokens[0].text else "";
    if p < |text| {
      i, k := 0, p;
    } else {
      i, k := ShownBy(tokens[1..], p - |text|);
      assert tokens[..i + 1][1..] == tokens[1..][..i];
      i := i + 1;
    }
  }

  /** The next text after `i`, if anything shows after it. */
  lemma {:induction false} NextText(tokens: seq<Token>, i: nat) returns (j: nat)
    requires i <= |tokens| && Visible(tokens[i..]) != ""
    ensures i <= j < |tokens| && tokens[j].Text? && forall k :: i <= k < j ==> tokens[k].Directive?
    decreases |tokens| - i
  {
    if tokens[i].Text? {
      j := i;
    } else {
      assert tokens[i..][1..] == tokens[i + 1..];
      j := NextText(tokens, i + 1);
    }
  }

  lemma CompletedUncovers(tokens: seq<Token>, p: nat, q: nat) returns (i: nat, j: nat)
    requires Tidy(tokens) && Completes(Visible(tokens), p, q)
    ensures Uncovers(tokens, i, j)
  {
    hide Visible, FindOpen;
    var v := Visible(tokens);
    var k;
    i, k := ShownBy(tokens, p);
    var text, head, after := tokens[i].text, Visible(tokens[..i]), Visible(tokens[i + 1..]);
    VisibleSplit(tokens, i);
    TextShows(tokens, i);
    assert v == head + (text + after);
    ClosedAfter(head, text, after, k, q);
    j := NextText(tokens, i + 1);
    DirectivesShowNothing(tokens, i + 1, j);
    TextShows(tokens, j);
    assert tokens[j].text[0] == after[0];
  }

  /** In tidy tokens, an opener that a bracket completes starts at the end of its text. */
  lemma ClosedAfter(head: string, text: string, after: string, k: nat, q: nat)
    requires k < |text| && Completes(head + (text + after), |head| + k, q)
    requires FindOpen(text) < |text| ==> ']' !in text + after
    ensures k == |text| - 1 && text[k] == '#' && after != "" && after[0] == '[' && ']' in after
  {
    hide FindOpen;
    var v := head + (text + after);
    assert v[q] == (text + after)[q - |head|];
    assert ']' in text + after;
    assert v[|head| + k] == text[k];
    assert FindOpen(text) == |text|;
    assert !OpensAt(text, k);
    assert k + 1 == |text|;
    assert v[|head| + k + 1] == after[0];
    assert v[q] == after[q - |head| - |text|];
  }

  /** Stripping a second time changes nothing exactly when the first time uncovers no directive. */
  lemma StripIdempotentIff(s: string)
    ensures Strip(Strip(s)) == Strip(s) <==> !exists i, j :: Uncovers(Lex(s), i, j)
  {
    hide Lex, Strip, Visible, Tidy, Uncovers, Completes;
    var tokens := Lex(s);
    SpansKeepVisibleText(s, Style(None, None, {}, {}));
    StripFixedIffNoDirective(Strip(s));
    LexHasDirectiveIff(Strip(s));
    LexIsTidy(s);
    if i, j :| Uncovers(tokens, i, j) {
      var p, q := UncoveredCompletes(tokens, i, j);
    }
    if p, q :| Completes(Strip(s), p, q) {
      var i, j := CompletedUncovers(tokens, p, q);
    }
  }
}
