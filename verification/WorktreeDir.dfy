/** Expanding a worktree directory template: the placeholder scanner, the replacement, and where the
    result points. */
module WorktreeDir {
  import opened Common
  import opened Text
  import opened Paths

  const PROJECT_PLACEHOLDER := "{project}"

  datatype Error = Unterminated | UnknownPlaceholder(token: string) | NoProjectName

  datatype Result = Ok(path: string) | Err(error: Error)

  // ----- The scanner -----

  predicate PlaceholderAt(t: string, i: nat) {
    i + |PROJECT_PLACEHOLDER| <= |t| && t[i..i + |PROJECT_PLACEHOLDER|] == PROJECT_PLACEHOLDER
  }

  /** An opening brace that does not begin the placeholder. */
  predicate BadBrace(t: string, i: nat) {
    i < |t| && t[i] == '{' && !PlaceholderAt(t, i)
  }

  predicate Accepted(t: string) {
    forall i :: 0 <= i < |t| ==> !BadBrace(t, i)
  }

  predicate FirstBadBrace(t: string, i: nat) {
    BadBrace(t, i) && forall j :: 0 <= j < i ==> !BadBrace(t, j)
  }

  lemma FindFrom(t: string, from: nat, c: char)
    requires from <= |t|
    ensures var k := from + Find(t[from..], c);
      from <= k <= |t| && (k < |t| ==> t[k] == c) && forall i :: from <= i < k ==> t[i] != c
  {
    var rest := t[from..];
    assert forall i :: from <= i < |t| ==> t[i] == rest[i - from];
  }

  /** The error a bad brace earns: no closing brace at all, or the token up to the first one. */
  predicate Explains(t: string, i: nat, e: Error) {
    i < |t| &&
    match e
    case Unterminated => forall k :: i <= k < |t| ==> t[k] != '}'
    case UnknownPlaceholder(token) =>
      exists close :: i <= close < |t| && t[close] == '}' && token == t[i..close + 1]
        && forall k :: i <= k < close ==> t[k] != '}'
    case NoProjectName => false
  }

  /** Accepts exactly the templates whose every opening brace begins the placeholder; otherwise
      reports the first one that does not. */
  method Scan(template: string) returns (problem: Option<Error>)
    ensures problem.None? <==> Accepted(template)
    ensures problem.Some? ==> exists i: nat :: FirstBadBrace(template, i) && Explains(template, i, problem.value)
  {
    hide Find;
    var cursor := 0;
    while true
      invariant 0 <= cursor <= |template|
      invariant forall j :: 0 <= j < cursor ==> !BadBrace(template, j)
      decreases |template| - cursor
    {
      var open := cursor + Find(template[cursor..], '{');
      FindFrom(template, cursor, '{');
      if open == |template| {
        return None;
      }
      var close := open + Find(template[open..], '}');
      FindFrom(template, open, '}');
      if close == |template| {
        PlaceholderEndsAtBrace(template, open);
        assert FirstBadBrace(template, open) && Explains(template, open, Unterminated);
        return Some(Unterminated);
      }
      var token := template[open..close + 1];
      TokenIsPlaceholder(template, open, close);
      if token != PROJECT_PLACEHOLDER {
        assert FirstBadBrace(template, open) && Explains(template, open, UnknownPlaceholder(token));
        return Some(UnknownPlaceholder(token));
      }
      forall j | open < j <= close ensures template[j] != '{' {
        assert token[j - open] == template[j];
      }
      cursor := close + 1;
    }
  }

  /** Cutting at the first closing brace finds the placeholder exactly when it is there. */
  lemma TokenIsPlaceholder(t: string, open: nat, close: nat)
    requires open <= close < |t| && t[close] == '}' && forall i :: open <= i < close ==> t[i] != '}'
    ensures t[open..close + 1] == PROJECT_PLACEHOLDER <==> PlaceholderAt(t, open)
  {
    PlaceholderEndsAtBrace(t, open);
  }

  /** The placeholder's only closing brace is its last character. */
  lemma PlaceholderEndsAtBrace(t: string, i: nat)
    ensures PlaceholderAt(t, i) ==>
      i + 8 < |t| && t[i + 8] == '}' && forall k :: i <= k < i + 8 ==> t[k] != '}'
  {
    if PlaceholderAt(t, i) {
      var p := t[i..i + 9];
      assert forall k :: i <= k < i + 9 ==> t[k] == p[k - i];
      assert p == PROJECT_PLACEHOLDER;
    }
  }

  // ----- The replacement -----

  function Pieces(t: string): (pieces: seq<string>)
    ensures |pieces| >= 1
    decreases |t|
  {
    if t == "" then [""]
    else if PlaceholderAt(t, 0) then [""] + Pieces(t[|PROJECT_PLACEHOLDER|..])
    else
      var rest := Pieces(t[1..]);
      [[t[0]] + rest[0]] + rest[1..]
  }

  /** Replaces the placeholder from left to right. */
  function ReplaceProject(t: string, name: string): string {
    Join(Pieces(t), name)
  }

  lemma {:induction false} JoinHead(parts: seq<string>, sep: string, c: char)
    requires parts != []
    ensures Join([[c] + parts[0]] + parts[1..], sep) == [c] + Join(parts, sep)
  {
    var q := [[c] + parts[0]] + parts[1..];
    if |parts| <= 1 {
    } else {
      assert q[1..] == parts[1..];
    }
  }

  lemma {:induction false} PiecesReassemble(t: string)
    ensures Join(Pieces(t), PROJECT_PLACEHOLDER) == t
    decreases |t|
  {
    if t == "" {
    } else if PlaceholderAt(t, 0) {
      var rest := Pieces(t[9..]);
      PiecesReassemble(t[9..]);
      assert ([""] + rest)[1..] == rest;
      assert t == t[0..9] + t[9..];
    } else {
      PiecesReassemble(t[1..]);
      JoinHead(Pieces(t[1..]), PROJECT_PLACEHOLDER, t[0]);
      assert t == [t[0]] + t[1..];
    }
  }

  lemma AcceptedTail(t: string, n: nat)
    requires Accepted(t) && n <= |t|
    ensures Accepted(t[n..])
  {
    forall i | 0 <= i < |t[n..]| ensures !BadBrace(t[n..], i) {
      assert !BadBrace(t, n + i);
      if PlaceholderAt(t, n + i) {
        assert t[n..][i..i + 9] == t[n + i..n + i + 9];
      }
    }
  }

  lemma {:induction false} AcceptedPiecesAreLiteral(t: string)
    requires Accepted(t)
    ensures forall p :: p in Pieces(t) ==> '{' !in p
    decreases |t|
  {
    if t == "" {
    } else if PlaceholderAt(t, 0) {
      AcceptedTail(t, 9);
      AcceptedPiecesAreLiteral(t[9..]);
    } else {
      assert !BadBrace(t, 0) && t[0] != '{';
      AcceptedTail(t, 1);
      AcceptedPiecesAreLiteral(t[1..]);
      var rest := Pieces(t[1..]);
      assert rest[0] in rest;
    }
  }

  lemma ReplaceNothing(name: string)
    ensures ReplaceProject("", name) == ""
  {
  }

  lemma ReplaceAtPlaceholder(t: string, name: string)
    requires PlaceholderAt(t, 0)
    ensures ReplaceProject(t, name) == name + ReplaceProject(t[|PROJECT_PLACEHOLDER|..], name)
  {
    var rest := Pieces(t[|PROJECT_PLACEHOLDER|..]);
    assert ([""] + rest)[1..] == rest;
  }

  lemma ReplaceElsewhere(t: string, name: string)
    requires t != "" && !PlaceholderAt(t, 0)
    ensures ReplaceProject(t, name) == [t[0]] + ReplaceProject(t[1..], name)
  {
    JoinHead(Pieces(t[1..]), name, t[0]);
  }

  ghost predicate HasPlaceholder(t: string) {
    exists i: nat :: PlaceholderAt(t, i)
  }

  lemma HasPlaceholderLater(t: string, n: nat)
    requires n <= |t|
    ensures HasPlaceholder(t[n..]) ==> HasPlaceholder(t)
    ensures n == 1 && !PlaceholderAt(t, 0) ==> (HasPlaceholder(t[1..]) <==> HasPlaceholder(t))
  {
    if HasPlaceholder(t[n..]) {
      var i: nat :| PlaceholderAt(t[n..], i);
      assert t[n + i..n + i + |PROJECT_PLACEHOLDER|] == t[n..][i..i + |PROJECT_PLACEHOLDER|];
      assert PlaceholderAt(t, n + i);
    }
    if n == 1 && !PlaceholderAt(t, 0) && HasPlaceholder(t) {
      var i: nat :| PlaceholderAt(t, i);
      assert t[i..i + |PROJECT_PLACEHOLDER|] == t[1..][i - 1..i - 1 + |PROJECT_PLACEHOLDER|];
      assert PlaceholderAt(t[1..], i - 1);
    }
  }

  lemma {:induction false} NothingToReplace(t: string, name: string)
    requires !HasPlaceholder(t)
    ensures ReplaceProject(t, name) == t
  {
    hide Pieces, ReplaceProject;
    if t == "" {
      ReplaceNothing(name);
    } else {
      assert !PlaceholderAt(t, 0);
      ReplaceElsewhere(t, name);
      HasPlaceholderLater(t, 1);
      NothingToReplace(t[1..], name);
      assert t == [t[0]] + t[1..];
    }
  }

  /** A name of another length than the placeholder changes the length of a text that holds it. */
  lemma {:induction false} ReplacedLength(t: string, name: string)
    ensures var k, n, r := |PROJECT_PLACEHOLDER|, |name|, |ReplaceProject(t, name)|;
      && (n <= k ==> r <= |t|) && (n >= k ==> r >= |t|)
      && (HasPlaceholder(t) && n < k ==> r < |t|) && (HasPlaceholder(t) && n > k ==> r > |t|)
    decreases |t|
  {
    hide Pieces, ReplaceProject, HasPlaceholder;
    if t == "" {
      ReplaceNothing(name);
      assert !HasPlaceholder(t) by { NoneInEmpty(); }
    } else if PlaceholderAt(t, 0) {
      ReplaceAtPlaceholder(t, name);
      ReplacedLength(t[|PROJECT_PLACEHOLDER|..], name);
    } else {
      ReplaceElsewhere(t, name);
      HasPlaceholderLater(t, 1);
      ReplacedLength(t[1..], name);
    }
  }

  lemma NoneInEmpty()
    ensures !HasPlaceholder("")
  {
  }

  lemma {:induction false} ChangedByName(t: string, name: string)
    requires HasPlaceholder(t) && name != PROJECT_PLACEHOLDER
    ensures ReplaceProject(t, name) != t
    decreases |t|
  {
    hide Pieces, ReplaceProject, HasPlaceholder;
    var k := |PROJECT_PLACEHOLDER|;
    if |name| != k {
      ReplacedLength(t, name);
    } else if t == "" {
      NoneInEmpty();
    } else if PlaceholderAt(t, 0) {
      ReplaceAtPlaceholder(t, name);
      assert (name + ReplaceProject(t[k..], name))[..k] == name;
      assert t[..k] == t[0..k];
    } else {
      ReplaceElsewhere(t, name);
      HasPlaceholderLater(t, 1);
      ChangedByName(t[1..], name);
      assert ([t[0]] + ReplaceProject(t[1..], name))[1..] == ReplaceProject(t[1..], name);
    }
  }

  /** Replacing leaves a text alone exactly when it holds no placeholder, or the name is the placeholder. */
  lemma ReplaceKeepsIff(t: string, name: string)
    ensures ReplaceProject(t, name) == t <==> name == PROJECT_PLACEHOLDER || !HasPlaceholder(t)
  {
    hide Pieces, HasPlaceholder;
    if name == PROJECT_PLACEHOLDER {
      PiecesReassemble(t);
    } else if HasPlaceholder(t) {
      ChangedByName(t, name);
    } else {
      NothingToReplace(t, name);
    }
  }

  /** No placeholder runs over a slash, so the two sides of one are replaced separately. */
  lemma {:induction false} ReplaceConcat(a: string, b: string, name: string)
    requires a == "" || a[|a| - 1] == '/'
    ensures ReplaceProject(a + b, name) == ReplaceProject(a, name) + ReplaceProject(b, name)
    decreases |a|
  {
    hide Pieces, ReplaceProject;
    var k := |PROJECT_PLACEHOLDER|;
    if a == "" {
      ReplaceNothing(name);
      assert a + b == b;
    } else if PlaceholderAt(a + b, 0) {
      SlashEndsPlaceholder(a, b);
      ReplaceAtPlaceholder(a + b, name);
      ReplaceAtPlaceholder(a, name);
      assert (a + b)[k..] == a[k..] + b;
      ReplaceConcat(a[k..], b, name);
    } else {
      assert !PlaceholderAt(a, 0) by { assert |a| >= k ==> (a + b)[0..k] == a[0..k]; }
      ReplaceElsewhere(a + b, name);
      ReplaceElsewhere(a, name);
      assert (a + b)[1..] == a[1..] + b;
      ReplaceConcat(a[1..], b, name);
    }
  }

  lemma PlaceholderHasNoSlash(t: string, i: nat)
    requires PlaceholderAt(t, i)
    ensures forall j :: i <= j < i + |PROJECT_PLACEHOLDER| ==> t[j] != '/'
  {
    forall j | i <= j < i + |PROJECT_PLACEHOLDER| ensures t[j] != '/' {
      assert t[j] == t[i..i + |PROJECT_PLACEHOLDER|][j - i] == PROJECT_PLACEHOLDER[j - i];
    }
  }

  lemma SlashEndsPlaceholder(a: string, b: string)
    requires a != "" && a[|a| - 1] == '/' && PlaceholderAt(a + b, 0)
    ensures PlaceholderAt(a, 0)
  {
    var k := |PROJECT_PLACEHOLDER|;
    PlaceholderHasNoSlash(a + b, 0);
    assert (a + b)[|a| - 1] == '/';
    assert |a| > k;
    assert a[0..k] == (a + b)[0..k];
  }

  lemma NoBraceNoPlaceholder(t: string)
    requires '{' !in t
    ensures !HasPlaceholder(t)
  {
    forall i: nat ensures !PlaceholderAt(t, i) {
      if i + |PROJECT_PLACEHOLDER| <= |t| {
        assert t[i] in t && t[i..i + |PROJECT_PLACEHOLDER|][0] == t[i];
      }
    }
  }

  // ----- The whole expansion -----

  /** Appending a path: an absolute one replaces what was there. */
  function Append(base: string, path: string): string {
    if IsAbsolute(path) || base == "" then path
    else if base[|base| - 1] == '/' then base + path
    else base + "/" + path
  }

  function ExpandTilde(path: string, home: Option<string>): string {
    if home.Some? && path == "~" then home.value
    else if home.Some? && "~/" <= path then Append(home.value, path[2..])
    else path
  }

  function FileName(path: string): Option<string> {
    var cs := Components(path);
    if cs != [] && cs[|cs| - 1].Normal? then Some(cs[|cs| - 1].name) else None
  }

  function Expanded(template: string, home: Option<string>, name: string): string {
    ReplaceProject(ExpandTilde(template, home), name)
  }

  // ----- What comes from the home directory and what from the template -----

  predicate UsesHome(template: string, home: Option<string>) {
    home.Some? && (template == "~" || ("~/" <= template && !IsAbsolute(template[2..])))
  }

  /** The text in front of what is left of the template. */
  function HomePart(template: string, home: Option<string>): string {
    if !UsesHome(template, home) then ""
    else if template == "~" || home.value == "" || home.value[|home.value| - 1] == '/' then home.value
    else home.value + "/"
  }

  function TemplatePart(template: string, home: Option<string>): string {
    if home.Some? && template == "~" then ""
    else if home.Some? && "~/" <= template then template[2..]
    else template
  }

  lemma TildeParts(template: string, home: Option<string>)
    ensures ExpandTilde(template, home) == HomePart(template, home) + TemplatePart(template, home)
  {
  }

  lemma HomePartPlaceholder(template: string, home: Option<string>)
    ensures HasPlaceholder(HomePart(template, home)) <==> UsesHome(template, home) && HasPlaceholder(home.value)
  {
    hide HasPlaceholder;
    NoneInEmpty();
    if UsesHome(template, home) {
      SlashAddsNone(home.value);
    }
  }

  lemma SlashAddsNone(h: string)
    ensures HasPlaceholder(h + "/") <==> HasPlaceholder(h)
  {
    var k, s := |PROJECT_PLACEHOLDER|, h + "/";
    forall i: nat ensures PlaceholderAt(s, i) <==> PlaceholderAt(h, i) {
      if PlaceholderAt(s, i) {
        PlaceholderHasNoSlash(s, i);
        assert s[|h|] == '/';
        assert i + k <= |h|;
      }
      assert i + k <= |h| ==> s[i..i + k] == h[i..i + k];
    }
  }

  /** An accepted template expands to the home directory, if it asks for it, followed by its literal
      pieces with the project name between them: exactly when the home directory it asks for holds no
      placeholder, or the project is itself called that. */
  lemma ExpansionInterleavesIff(template: string, home: Option<string>, name: string)
    requires Accepted(template)
    ensures exists pieces: seq<string> ::
      && (forall p :: p in pieces ==> '{' !in p)
      && TemplatePart(template, home) == Join(pieces, "{project}")
      && (Expanded(template, home, name) == HomePart(template, home) + Join(pieces, name)
          <==> !UsesHome(template, home) || !HasPlaceholder(home.value) || name == "{project}")
  {
    hide Pieces, HasPlaceholder, HomePart, Join, ExpandTilde;
    var h, t := HomePart(template, home), TemplatePart(template, home);
    assert Accepted(t) by {
      AcceptedTail(template, |template| - |t|);
    }
    PiecesReassemble(t);
    AcceptedPiecesAreLiteral(t);
    TildeParts(template, home);
    HomePartPlaceholder(template, home);
    ReplacedInParts(template, home, name);
    ReplaceKeepsIff(h, name);
    var r, rest := ReplaceProject(h, name), ReplaceProject(t, name);
    assert (r + rest)[..|r + rest| - |rest|] == r;
    assert (h + rest)[..|h + rest| - |rest|] == h;
  }

  lemma ReplacedInParts(template: string, home: Option<string>, name: string)
    ensures ReplaceProject(HomePart(template, home) + TemplatePart(template, home), name)
      == ReplaceProject(HomePart(template, home), name) + ReplaceProject(TemplatePart(template, home), name)
  {
    hide ReplaceProject;
    var h, t := HomePart(template, home), TemplatePart(template, home);
    if t == "" && UsesHome(template, home) {
      ReplaceNothing(name);
      assert h + t == h;
    } else {
      ReplaceConcat(h, t, name);
    }
  }

  lemma ReplacedAtEnd(h: string, name: string)
    requires h != "" && h[|h| - 1] == '/' && '{' !in h
    ensures ReplaceProject(h + PROJECT_PLACEHOLDER, name) == h + name
  {
    hide Pieces, ReplaceProject, PlaceholderAt, HasPlaceholder;
    var t := PROJECT_PLACEHOLDER;
    ReplaceConcat(h, t, name);
    NoBraceNoPlaceholder(h);
    NothingToReplace(h, name);
    PlaceholderIsOne();
    ReplaceAtPlaceholder(t, name);
    assert t[|t|..] == "";
    ReplaceNothing(name);
    assert name + "" == name;
  }

  /** A project name reaches into the home directory. */
  lemma HomeIsRewritten()
    ensures Accepted("~") && FileName("/a/p") == Some("p")
    ensures Expanded("~", Some("/h/{project}"), "p") == "/h/p"
  {
    hide Components, ReplaceProject, PlaceholderAt, FileName, Accepted;
    NameOfSmallRoot();
    TildeAccepted();
    ReplacedAtEnd("/h/", "p");
    assert "/h/{project}" == "/h/" + PROJECT_PLACEHOLDER && "/h/" + "p" == "/h/p";
  }

  lemma PlaceholderIsOne()
    ensures PlaceholderAt(PROJECT_PLACEHOLDER, 0)
  {
    var t := PROJECT_PLACEHOLDER;
    assert t[0..9] == t;
  }

  lemma TildeAccepted()
    ensures Accepted("~")
  {
  }

  lemma NameOfSmallRoot()
    ensures FileName("/a/p") == Some("p")
  {
    assert "/a/p" == "" + ['/'] + ("a" + ['/'] + "p");
    SplitAtFirst("", '/', "a" + ['/'] + "p");
    SplitAtFirst("a", '/', "p");
    SplitOfPlain("p", '/');
    assert Split("/a/p", '/') == ["", "a", "p"];
    assert ["", "a", "p"][1..] == ["a", "p"];
  }

  /** Rejects as the scanner does, then needs a project name; an absolute expansion is returned as it
      is and a relative one is put under the project root and normalized. */
  method ExpandWorktreeDir(template: string, projectRoot: string, home: Option<string>) returns (r: Result)
    ensures r.Ok? <==> Accepted(template) && FileName(projectRoot).Some?
    ensures r.Err? && Accepted(template) ==> r.error == NoProjectName
    ensures r.Err? && !Accepted(template) ==>
      exists i: nat :: FirstBadBrace(template, i) && Explains(template, i, r.error)
    ensures r.Ok? ==>
      var e := Expanded(template, home, FileName(projectRoot).value);
      r.path == if IsAbsolute(e) then e else NormalizeText(Append(projectRoot, e))
  {
    var problem := Scan(template);
    if problem.Some? {
      return Err(problem.value);
    }
    var name := FileName(projectRoot);
    if name.None? {
      return Err(NoProjectName);
    }
    var path := Expanded(template, home, name.value);
    if IsAbsolute(path) {
      r := Ok(path);
    } else {
      r := Ok(NormalizeText(Append(projectRoot, path)));
    }
  }

  // ----- Where a relative expansion points -----

  function Parts(s: string): seq<Component> {
    PartComponents(Split(s, '/'))
  }

  lemma PartsConcat(a: string, b: string)
    ensures Parts(a + "/" + b) == Parts(a) + Parts(b)
  {
    SplitConcat(a, '/', b);
    PartComponentsConcat(Split(a, '/'), Split(b, '/'));
  }

  lemma NoParts()
    ensures Parts("") == []
  {
    assert Split("", '/') == [""] && [""][1..] == [];
  }

  lemma AppendParts(base: string, path: string)
    requires IsAbsolute(base) && !IsAbsolute(path)
    ensures Parts(Append(base, path)) == Parts(base) + Parts(path)
    ensures IsAbsolute(Append(base, path))
  {
    hide Parts;
    if base[|base| - 1] == '/' {
      var stem := base[..|base| - 1];
      PartsConcat(stem, "");
      PartsConcat(stem, path);
      NoParts();
      assert base == stem + "/" + "" && base + path == stem + "/" + path;
    } else {
      PartsConcat(base, path);
    }
  }

  /** A leading dot in a relative path leads nowhere else. */
  lemma FollowRelative(path: string, dir: seq<string>)
    requires !IsAbsolute(path)
    ensures Follow(Components(path), dir) == Follow(Parts(path), dir)
  {
    hide PartComponents;
    if Split(path, '/')[0] == "." {
      FollowConcat([CurDir], Parts(path), dir);
      assert [CurDir][..0] == [] && Follow([CurDir], dir) == dir;
    } else {
      assert Components(path) == [] + Parts(path) == Parts(path);
    }
  }

  lemma AppendedComponents(base: string, path: string, cwd: seq<string>)
    requires IsAbsolute(base) && !IsAbsolute(path)
    ensures Follow(Components(Append(base, path)), cwd) == Follow(Components(path), Follow(Components(base), cwd))
    ensures IsAbsolute(Append(base, path))
  {
    hide Append, PartComponents, Follow, Split;
    AppendParts(base, path);
    FollowRelative(path, Follow(Components(base), cwd));
    var joined := Append(base, path);
    assert Components(joined) == [RootDir] + Parts(joined);
    assert Components(base) == [RootDir] + Parts(base);
    assert Components(joined) == Components(base) + Parts(path);
    FollowConcat(Components(base), Parts(path), cwd);
  }

  /** The joined path leads where the second leads from where the first does; an absolute second path
      stands for itself. */
  lemma AppendFollows(base: string, path: string, cwd: seq<string>)
    requires IsAbsolute(base)
    ensures LeadsTo(Append(base, path), cwd) == LeadsTo(path, LeadsTo(base, cwd))
    ensures "/" <= Append(base, path)
    ensures "/" <= path ==> Append(base, path) == path
  {
    hide Components, Follow, Split, Walk;
    if !IsAbsolute(path) {
      AppendedComponents(base, path, cwd);
      ComponentsLead(Append(base, path), cwd);
      ComponentsLead(base, cwd);
      ComponentsLead(path, LeadsTo(base, cwd));
    }
  }

  /** Under an absolute root, a relative expansion becomes a slash and the names, joined by slashes, of
      the place it leads to from the project root. */
  lemma RelativeExpansionIsRooted(projectRoot: string, expansion: string, cwd: seq<string>)
    requires "/" <= projectRoot && !("/" <= expansion)
    ensures var place := LeadsTo(expansion, LeadsTo(projectRoot, cwd));
      && NormalizeText(Append(projectRoot, expansion)) == "/" + Join(place, "/")
      && forall name :: name in place ==> IsName(name)
  {
    hide LeadsTo, NormalizeText, Append;
    AppendFollows(projectRoot, expansion, cwd);
    AbsoluteNormalText(Append(projectRoot, expansion), cwd);
  }

  /** The project's name is the last name in its path, whatever slashes and dots follow it, and there is
      none if the path ends in a step up or is the root. */
  lemma FileNameIs(base: string, name: string)
    ensures IsName(name) ==> FileName(base + "/" + name) == Some(name)
    ensures FileName(base + "/..") == None
    ensures base != "" ==> FileName(base + "/") == FileName(base) && FileName(base + "/.") == FileName(base)
    ensures FileName("/") == None
  {
    hide Components;
    assert IsName(name) ==> FileName(base + "/" + name) == Some(name) by {
      OneMorePart(base, name);
    }
    assert FileName(base + "/..") == None by {
      OneMorePart(base, "..");
      assert base + "/" + ".." == base + "/..";
    }
    assert base != "" ==> FileName(base + "/") == FileName(base) && FileName(base + "/.") == FileName(base) by {
      OneMorePart(base, "");
      OneMorePart(base, ".");
      assert base + "/" + "" == base + "/" && base + "/" + "." == base + "/.";
    }
    NothingInNothing();
  }

  lemma NothingInNothing()
    ensures Components("/") == [RootDir]
  {
    assert "/" == "" + ['/'] + "";
    SplitAtFirst("", '/', "");
    assert ["", ""][1..] == [""] && [""][1..] == [];
  }

  /** A further part without a slash adds one component, or none. */
  lemma OneMorePart(base: string, part: string)
    ensures '/' !in part ==>
      var cs := if base == "" then [RootDir] else Components(base);
      Components(base + "/" + part) == cs + (
        if part == "" || part == "." then [] else if part == ".." then [ParentDir] else [Normal(part)])
  {
    hide Split;
    if '/' !in part {
      SplitConcat(base, '/', part);
      SplitOfPlain(part, '/');
      var before := Split(base, '/');
      assert base + "/" + part == base + ['/'] + part;
      PartComponentsConcat(before, [part]);
      assert [part][1..] == [];
      assert (before + [part])[0] == before[0];
      if base == "" {
        assert before == [""] by { SplitOfPlain("", '/'); }
        assert [""][1..] == [];
      }
    }
  }
}
