/**
 Lexical path normalization: path strings, their components, what a path means from a working
 directory, and the unique form each meaning has.
 */
module Paths {
  import opened Text

  datatype Component = RootDir | CurDir | ParentDir | Normal(name: string)

  // ----- From strings to components and back -----

  predicate IsAbsolute(s: string) {
    s != "" && s[0] == '/'
  }

  function PartComponents(parts: seq<string>): seq<Component> {
    if parts == [] then []
    else
      var rest := PartComponents(parts[1..]);
      if parts[0] == "" || parts[0] == "." then rest
      else if parts[0] == ".." then [ParentDir] + rest
      else [Normal(parts[0])] + rest
  }

  /** Empty parts and dots vanish, except for a dot that starts a relative path. */
  function Components(s: string): seq<Component> {
    var parts := Split(s, '/');
    (if IsAbsolute(s) then [RootDir] else if parts[0] == "." then [CurDir] else []) + PartComponents(parts)
  }

  function ComponentText(c: Component): string
    requires c != RootDir
  {
    match c
    case CurDir => "."
    case ParentDir => ".."
    case Normal(name) => name
  }

  function Texts(cs: seq<Component>): seq<string>
    requires RootDir !in cs
  {
    if cs == [] then [] else [ComponentText(cs[0])] + Texts(cs[1..])
  }

  predicate RootOnlyFirst(cs: seq<Component>) {
    forall i :: 0 < i < |cs| ==> cs[i] != RootDir
  }

  /** The path string made by appending the components one after the other. */
  function PathText(cs: seq<Component>): string
    requires RootOnlyFirst(cs)
  {
    if cs != [] && cs[0] == RootDir then "/" + Join(Texts(cs[1..]), "/") else Join(Texts(cs), "/")
  }

  lemma {:induction false} PartComponentsConcat(a: seq<string>, b: seq<string>)
    ensures PartComponents(a + b) == PartComponents(a) + PartComponents(b)
  {
    if a == [] {
      assert a + b == b;
    } else {
      assert (a + b)[1..] == a[1..] + b;
      PartComponentsConcat(a[1..], b);
    }
  }

  lemma {:induction false} PartsHaveNoRoot(parts: seq<string>)
    ensures RootDir !in PartComponents(parts)
  {
    if parts == [] {
    } else {
      PartsHaveNoRoot(parts[1..]);
    }
  }

  lemma ComponentsRootOnlyFirst(s: string)
    ensures RootOnlyFirst(Components(s))
    ensures Components(s) != [] && Components(s)[0] == RootDir <==> IsAbsolute(s)
  {
    PartsHaveNoRoot(Split(s, '/'));
  }

  // ----- What a path means -----

  function Move(dir: seq<string>, c: Component): seq<string> {
    match c
    case RootDir => []
    case CurDir => dir
    case ParentDir => if dir == [] then [] else dir[..|dir| - 1]
    case Normal(name) => dir + [name]
  }

  /** The directory reached by following the components from `cwd`; the parent of the root is the root. */
  function Follow(cs: seq<Component>, cwd: seq<string>): seq<string> {
    if cs == [] then cwd else Move(Follow(cs[..|cs| - 1], cwd), cs[|cs| - 1])
  }

  lemma {:induction false} FollowConcat(a: seq<Component>, b: seq<Component>, cwd: seq<string>)
    ensures Follow(a + b, cwd) == Follow(b, Follow(a, cwd))
  {
    if b == [] {
      assert a + b == a;
    } else {
      assert (a + b)[..|a + b| - 1] == a + b[..|b| - 1];
      FollowConcat(a, b[..|b| - 1], cwd);
    }
  }

  // ----- What a path string means -----

  /** One part of a path string, between slashes. */
  function Enter(dir: seq<string>, part: string): seq<string> {
    if part == "" || part == "." then dir
    else if part == ".." then (if dir == [] then [] else dir[..|dir| - 1])
    else dir + [part]
  }

  function Walk(parts: seq<string>, dir: seq<string>): seq<string> {
    if parts == [] then dir else Walk(parts[1..], Enter(dir, parts[0]))
  }

  /** Where a path string leads from `cwd`: part by part, from the root if it starts with a slash. */
  function LeadsTo(s: string, cwd: seq<string>): seq<string> {
    Walk(Split(s, '/'), if "/" <= s then [] else cwd)
  }

  lemma FollowOne(c: Component, cs: seq<Component>, dir: seq<string>)
    ensures Follow([c] + cs, dir) == Follow(cs, Move(dir, c))
  {
    FollowConcat([c], cs, dir);
    assert [c][..0] == [];
  }

  lemma {:induction false} FollowIsWalk(parts: seq<string>, dir: seq<string>)
    ensures Follow(PartComponents(parts), dir) == Walk(parts, dir)
    decreases |parts|
  {
    hide Follow;
    if parts == [] {
      assert Follow([], dir) == dir by { FollowNothing(dir); }
    } else {
      var rest := PartComponents(parts[1..]);
      FollowIsWalk(parts[1..], Enter(dir, parts[0]));
      if parts[0] == ".." {
        FollowOne(ParentDir, rest, dir);
      } else if parts[0] != "" && parts[0] != "." {
        FollowOne(Normal(parts[0]), rest, dir);
      }
    }
  }

  lemma FollowNothing(dir: seq<string>)
    ensures Follow([], dir) == dir
  {
  }

  /** The components of a path string lead where its parts do. */
  lemma ComponentsLead(s: string, cwd: seq<string>)
    ensures Follow(Components(s), cwd) == LeadsTo(s, cwd)
  {
    hide Follow, PartComponents, Split, Walk;
    var parts := Split(s, '/');
    assert IsAbsolute(s) <==> "/" <= s;
    if IsAbsolute(s) {
      FollowIsWalk(parts, []);
      FollowOne(RootDir, PartComponents(parts), cwd);
    } else {
      FollowIsWalk(parts, cwd);
      FollowOne(CurDir, PartComponents(parts), cwd);
      assert [] + PartComponents(parts) == PartComponents(parts);
    }
  }

  // ----- Normalization -----

  function Push(stack: seq<Component>, c: Component): seq<Component> {
    match c
    case CurDir => stack
    case ParentDir =>
      if stack != [] && stack[|stack| - 1].Normal? then stack[..|stack| - 1]
      else if stack != [] && stack[|stack| - 1] == RootDir then stack
      else stack + [c]
    case _ => stack + [c]
  }

  function Normalize(cs: seq<Component>): seq<Component> {
    if cs == [] then [] else Push(Normalize(cs[..|cs| - 1]), cs[|cs| - 1])
  }

  method NormalizePath(cs: seq<Component>) returns (components: seq<Component>)
    ensures components == Normalize(cs)
  {
    components := [];
    for i := 0 to |cs|
      invariant components == Normalize(cs[..i])
    {
      assert cs[..i + 1][..i] == cs[..i];
      var component := cs[i];
      assert Normalize(cs[..i + 1]) == Push(components, component);
      match component {
        case CurDir =>
        case ParentDir =>
          if components != [] && components[|components| - 1].Normal? {
            components := components[..|components| - 1];
          } else if components != [] && components[|components| - 1] == RootDir {
          } else {
            components := components + [component];
          }
        case _ => components := components + [component];
      }
    }
    assert cs[..|cs|] == cs;
  }

  // ----- The unique form of a meaning -----

  /** Either a root and names, or some number of steps up and then names. */
  datatype Form = Absolute(names: seq<string>) | Relative(ups: nat, names: seq<string>)

  /** What a form means, in closed form. */
  function Reach(f: Form, cwd: seq<string>): seq<string> {
    match f
    case Absolute(names) => names
    case Relative(ups, names) => cwd[..if ups < |cwd| then |cwd| - ups else 0] + names
  }

  function Parents(n: nat): (cs: seq<Component>)
    ensures |cs| == n && forall i :: 0 <= i < n ==> cs[i] == ParentDir
  {
    if n == 0 then [] else Parents(n - 1) + [ParentDir]
  }

  function Normals(names: seq<string>): (cs: seq<Component>)
    ensures |cs| == |names| && forall i :: 0 <= i < |names| ==> cs[i] == Normal(names[i])
  {
    if names == [] then [] else Normals(names[..|names| - 1]) + [Normal(names[|names| - 1])]
  }

  function Spell(f: Form): seq<Component> {
    (if f.Absolute? then [RootDir] else Parents(f.ups)) + Normals(f.names)
  }

  function FormStep(f: Form, c: Component): Form {
    match c
    case RootDir => Absolute([])
    case CurDir => f
    case ParentDir =>
      if f.names != [] then f.(names := f.names[..|f.names| - 1])
      else if f.Absolute? then f
      else Relative(f.ups + 1, [])
    case Normal(name) => f.(names := f.names + [name])
  }

  function FormOf(cs: seq<Component>): Form {
    if cs == [] then Relative(0, []) else FormStep(FormOf(cs[..|cs| - 1]), cs[|cs| - 1])
  }

  lemma SpellLast(f: Form)
    requires f.names != []
    ensures var s := Spell(f); var n := |f.names| - 1;
      && s != [] && s[|s| - 1] == Normal(f.names[n])
      && s[..|s| - 1] == Spell(f.(names := f.names[..n]))
  {
  }

  lemma SpellWithoutNames(f: Form)
    requires f.names == []
    ensures Spell(f) == if f.Absolute? then [RootDir] else Parents(f.ups)
  {
  }

  lemma SpellOneMore(f: Form, name: string)
    ensures Spell(f.(names := f.names + [name])) == Spell(f) + [Normal(name)]
  {
    assert (f.names + [name])[..|f.names|] == f.names;
  }

  lemma PushSpells(f: Form, c: Component)
    requires c != RootDir
    ensures Push(Spell(f), c) == Spell(FormStep(f, c))
  {
    hide Spell, Normals;
    if c == ParentDir && f.names != [] {
      SpellLast(f);
    } else if c == ParentDir {
      SpellWithoutNames(f);
      if f.Relative? {
        SpellWithoutNames(Relative(f.ups + 1, []));
      }
    } else if c.Normal? {
      SpellOneMore(f, c.name);
    }
  }

  /** The stack machine computes exactly the form. */
  lemma {:induction false} NormalizeSpellsForm(cs: seq<Component>)
    requires RootOnlyFirst(cs)
    ensures Normalize(cs) == Spell(FormOf(cs))
  {
    if cs == [] {
    } else {
      var n := |cs| - 1;
      NormalizeSpellsForm(cs[..n]);
      if cs[n] == RootDir {
        assert n == 0 && cs[..n] == [];
      } else {
        PushSpells(FormOf(cs[..n]), cs[n]);
      }
    }
  }

  lemma {:induction false} FollowReachesForm(cs: seq<Component>, cwd: seq<string>)
    ensures Follow(cs, cwd) == Reach(FormOf(cs), cwd)
  {
    if cs == [] {
    } else {
      var n := |cs| - 1;
      FollowReachesForm(cs[..n], cwd);
      StepReachesForm(FormOf(cs[..n]), cs[n], cwd);
    }
  }

  /** One more component moves the place reached as it changes the form. */
  lemma StepReachesForm(f: Form, c: Component, cwd: seq<string>)
    ensures Move(Reach(f, cwd), c) == Reach(FormStep(f, c), cwd)
  {
    if c == ParentDir && f.names == [] && f.Relative? {
      var k := if f.ups < |cwd| then |cwd| - f.ups else 0;
      assert Reach(f, cwd) == cwd[..k];
      if k > 0 {
        assert cwd[..k][..k - 1] == cwd[..k - 1];
      }
    }
  }

  lemma {:induction false} FormOfParents(n: nat)
    ensures FormOf(Parents(n)) == Relative(n, [])
  {
    if n == 0 {
    } else {
      FormOfParents(n - 1);
      assert Parents(n)[..n - 1] == Parents(n - 1);
    }
  }

  lemma FormOfLast(cs: seq<Component>, c: Component)
    ensures FormOf(cs + [c]) == FormStep(FormOf(cs), c)
  {
    assert (cs + [c])[..|cs|] == cs;
  }

  lemma {:induction false} FormOfSpell(f: Form)
    ensures FormOf(Spell(f)) == f
    decreases |f.names|
  {
    hide Spell, FormOf;
    var n := |f.names|;
    if n > 0 {
      var shorter, name := f.(names := f.names[..n - 1]), f.names[n - 1];
      FormOfSpell(shorter);
      SpellOneMore(shorter, name);
      FormOfLast(Spell(shorter), Normal(name));
      assert f.names == shorter.names + [name];
    } else {
      SpellWithoutNames(f);
      FormOfLast([], RootDir);
      assert [] + [RootDir] == [RootDir];
      if f.Relative? {
        FormOfParents(f.ups);
      }
    }
  }

  // ----- Main results on components -----

  /** Normalizing keeps the meaning from every directory. */
  lemma NormalizeKeepsMeaning(cs: seq<Component>, cwd: seq<string>)
    requires RootOnlyFirst(cs)
    ensures Follow(Normalize(cs), cwd) == Follow(cs, cwd)
  {
    NormalizeSpellsForm(cs);
    FormOfSpell(FormOf(cs));
    FollowReachesForm(cs, cwd);
    FollowReachesForm(Normalize(cs), cwd);
  }

  /** A root or `ups` steps up, then names only. */
  predicate NormalFrom(cs: seq<Component>, ups: nat) {
    && ups <= |cs|
    && ((ups == 1 && cs[0] == RootDir) || forall i :: 0 <= i < ups ==> cs[i] == ParentDir)
    && (forall i :: ups <= i < |cs| ==> cs[i].Normal?)
  }

  ghost predicate IsNormalForm(cs: seq<Component>) {
    exists ups: nat :: NormalFrom(cs, ups)
  }

  lemma SpellIsNormal(f: Form)
    ensures IsNormalForm(Spell(f)) && RootOnlyFirst(Spell(f))
  {
    assert NormalFrom(Spell(f), if f.Absolute? then 1 else f.ups);
  }

  /** The result is a root followed by names, or steps up followed by names, and nothing else. */
  lemma NormalizeGivesNormalForm(cs: seq<Component>)
    requires RootOnlyFirst(cs)
    ensures IsNormalForm(Normalize(cs)) && RootOnlyFirst(Normalize(cs))
    ensures Normalize(Normalize(cs)) == Normalize(cs)
  {
    hide Spell, FormOf, Normalize, IsNormalForm;
    NormalizeSpellsForm(cs);
    var f := FormOf(cs);
    FormOfSpell(f);
    SpellIsNormal(f);
    NormalizeSpellsForm(Spell(f));
  }

  // ----- Different forms mean different things -----

  function Longest(names: seq<string>): nat {
    if names == [] then 0
    else
      var before := Longest(names[..|names| - 1]);
      if |names[|names| - 1]| > before then |names[|names| - 1]| else before
  }

  lemma {:induction false} LongestBounds(names: seq<string>)
    ensures forall n :: n in names ==> |n| <= Longest(names)
  {
    if names == [] {
    } else {
      LongestBounds(names[..|names| - 1]);
      assert names == names[..|names| - 1] + [names[|names| - 1]];
    }
  }

  predicate ValidName(name: string) {
    name != "" && name != "." && name != ".." && '/' !in name
  }

  /** A directory deep enough, all of whose names are longer than any name in the two forms. */
  function Witness(f: Form, g: Form): (cwd: seq<string>)
    ensures forall n :: n in cwd ==> ValidName(n)
  {
    var long := seq(Longest(f.names + g.names) + 1, _ => 'a');
    var depth := (if f.Relative? then f.ups else 0) + (if g.Relative? then g.ups else 0) + 1;
    assert long[0] == 'a';
    seq(depth, _ => long)
  }

  lemma FormsDiffer(f: Form, g: Form)
    requires f.Relative? && (g.Absolute? || f.ups <= g.ups) && f != g
    ensures Reach(f, Witness(f, g)) != Reach(g, Witness(f, g))
  {
    var cwd := Witness(f, g);
    var a, b := Reach(f, cwd), Reach(g, cwd);
    LongestBounds(f.names + g.names);
    forall n | n in g.names ensures n != cwd[0] {
      assert n in f.names + g.names;
    }
    if g.Absolute? {
      assert a[0] == cwd[0];
      assert b != [] ==> b[0] in g.names;
    } else if f.ups < g.ups {
      var k := |cwd| - g.ups;
      assert |a| > k && a[k] == cwd[0];
      assert |b| > k ==> b[k] == g.names[0] && g.names[0] in g.names;
    } else {
      var k := |cwd| - f.ups;
      assert a[k..] == f.names && b[k..] == g.names;
    }
  }

  ghost predicate ValidDirectory(cwd: seq<string>) {
    forall n :: n in cwd ==> ValidName(n)
  }

  lemma FormsAreMeanings(f: Form, g: Form)
    ensures f == g <==> forall cwd :: ValidDirectory(cwd) ==> Reach(f, cwd) == Reach(g, cwd)
  {
    if f != g {
      var cwd;
      if f.Absolute? && g.Absolute? {
        cwd := [];
      } else if f.Relative? && (g.Absolute? || f.ups <= g.ups) {
        FormsDiffer(f, g);
        cwd := Witness(f, g);
      } else {
        FormsDiffer(g, f);
        cwd := Witness(g, f);
      }
      assert ValidDirectory(cwd) && Reach(f, cwd) != Reach(g, cwd);
    }
  }

  /** Two paths normalize to the same thing exactly when they mean the same from every directory. */
  lemma SameNormalFormIffSameMeaning(a: seq<Component>, b: seq<Component>)
    requires RootOnlyFirst(a) && RootOnlyFirst(b)
    ensures Normalize(a) == Normalize(b)
      <==> forall cwd :: ValidDirectory(cwd) ==> Follow(a, cwd) == Follow(b, cwd)
  {
    NormalizeSpellsForm(a);
    NormalizeSpellsForm(b);
    var f, g := FormOf(a), FormOf(b);
    FormOfSpell(f);
    FormOfSpell(g);
    hide Reach, FormOf, Follow, Spell, Normalize;
    forall cwd ensures Follow(a, cwd) == Reach(f, cwd) && Follow(b, cwd) == Reach(g, cwd) {
      FollowReachesForm(a, cwd);
      FollowReachesForm(b, cwd);
    }
    FormsAreMeanings(f, g);
  }

  // ----- The same on path strings -----

  /** The whole function: split, normalize, spell out. */
  function NormalizeText(s: string): string {
    ComponentsRootOnlyFirst(s);
    NormalizeGivesNormalForm(Components(s));
    PathText(Normalize(Components(s)))
  }

  predicate ValidComponent(c: Component) {
    c.Normal? ==> ValidName(c.name)
  }

  lemma {:induction false} PartsAreValid(parts: seq<string>)
    requires forall p :: p in parts ==> '/' !in p
    ensures forall c :: c in PartComponents(parts) ==> ValidComponent(c)
  {
    if parts == [] {
    } else {
      PartsAreValid(parts[1..]);
    }
  }

  lemma ComponentsAreValid(s: string)
    ensures forall c :: c in Components(s) ==> ValidComponent(c)
  {
    SplitPartsArePlain(s, '/');
    PartsAreValid(Split(s, '/'));
  }

  lemma {:induction false} NormalizeKeepsNames(cs: seq<Component>)
    ensures forall c :: c in Normalize(cs) ==> c in cs && c != CurDir
  {
    if cs == [] {
    } else {
      NormalizeKeepsNames(cs[..|cs| - 1]);
      assert cs == cs[..|cs| - 1] + [cs[|cs| - 1]];
    }
  }

  predicate AllPlain(cs: seq<Component>) {
    forall i :: 0 <= i < |cs| ==> cs[i] != RootDir && cs[i] != CurDir && ValidComponent(cs[i])
  }

  lemma {:induction false} TextsParseBack(cs: seq<Component>)
    requires AllPlain(cs)
    ensures PartComponents(Texts(cs)) == cs
    ensures forall t :: t in Texts(cs) ==> '/' !in t && t != "."
    ensures |Texts(cs)| == |cs|
  {
    if cs == [] {
    } else {
      assert cs == [cs[0]] + cs[1..];
      TextsParseBack(cs[1..]);
      assert Texts(cs)[1..] == Texts(cs[1..]);
    }
  }

  lemma JoinedParses(cs: seq<Component>)
    requires AllPlain(cs)
    ensures var s := Join(Texts(cs), "/");
      PartComponents(Split(s, '/')) == cs && Split(s, '/')[0] != "." && !IsAbsolute(s)
  {
    TextsParseBack(cs);
    var ts := Texts(cs);
    if cs == [] {
      assert Split("", '/') == [""];
      assert [""][1..] == [];
    } else {
      assert ts[0] == ComponentText(cs[0]) && ts[0] in ts;
      assert ts[0] != "" && ts[0][0] in ts[0];
      SplitOfJoin(ts, '/');
      assert Join(ts, "/")[0] == ts[0][0];
    }
  }

  /** Spelling components out and splitting the string again gives the same components. */
  lemma PathTextParses(cs: seq<Component>)
    requires RootOnlyFirst(cs)
    requires forall i :: 0 <= i < |cs| ==> cs[i] != CurDir && ValidComponent(cs[i])
    ensures Components(PathText(cs)) == cs
  {
    if cs != [] && cs[0] == RootDir {
      var rest := cs[1..];
      JoinedParses(rest);
      var s := Join(Texts(rest), "/");
      assert "/" + s == "" + ['/'] + s;
      SplitAtFirst("", '/', s);
      var parts := [""] + Split(s, '/');
      assert parts[1..] == Split(s, '/');
      assert cs == [RootDir] + rest;
    } else {
      JoinedParses(cs);
    }
  }

  lemma NormalizeTextComponents(s: string)
    ensures Components(NormalizeText(s)) == Normalize(Components(s))
  {
    ComponentsRootOnlyFirst(s);
    ComponentsAreValid(s);
    NormalizeGivesNormalForm(Components(s));
    NormalizeKeepsNames(Components(s));
    var n := Normalize(Components(s));
    forall i | 0 <= i < |n| ensures n[i] != CurDir && ValidComponent(n[i]) {
      assert n[i] in n;
      assert n[i] in Components(s);
    }
    PathTextParses(n);
  }

  /** `parts` spell a path in its shortest form: steps up, if it is relative, then names. */
  predicate ShortestParts(absolute: bool, parts: seq<string>, ups: nat) {
    && ups <= |parts| && (absolute ==> ups == 0)
    && (forall i :: 0 <= i < ups ==> parts[i] == "..")
    && (forall i :: ups <= i < |parts| ==> IsName(parts[i]))
  }

  predicate IsName(part: string) {
    part != "" && part != "." && part != ".." && '/' !in part
  }

  /** No doubled slash, none at the end, no dot, and no step up after a name or from the root. */
  ghost predicate IsShortest(s: string) {
    exists parts, ups: nat :: SpelledBy(s, parts, ups)
  }

  predicate SpelledBy(s: string, parts: seq<string>, ups: nat) {
    ShortestParts("/" <= s, parts, ups) && s == (if "/" <= s then "/" else "") + Join(parts, "/")
  }

  lemma {:induction false} RootedFormIsAbsolute(cs: seq<Component>)
    requires RootOnlyFirst(cs)
    ensures FormOf(cs).Absolute? <==> cs != [] && cs[0] == RootDir
  {
    if |cs| <= 1 {
      assert cs != [] ==> cs[..0] == [];
    } else {
      RootedFormIsAbsolute(cs[..|cs| - 1]);
    }
  }

  lemma {:induction false} TextsOfNames(names: seq<string>)
    ensures RootDir !in Normals(names) && Texts(Normals(names)) == names
  {
    if names == [] {
    } else {
      var init, last := names[..|names| - 1], names[|names| - 1];
      TextsOfNames(init);
      TextsConcat(Normals(init), [Normal(last)]);
      assert names == init + [last];
      assert Texts([Normal(last)]) == [last];
    }
  }

  lemma {:induction false} TextsConcat(a: seq<Component>, b: seq<Component>)
    requires RootDir !in a && RootDir !in b
    ensures Texts(a + b) == Texts(a) + Texts(b)
  {
    if a == [] {
      assert a + b == b;
    } else {
      assert (a + b)[1..] == a[1..] + b;
      TextsConcat(a[1..], b);
    }
  }

  lemma {:induction false} TextsOfParents(n: nat)
    ensures RootDir !in Parents(n)
    ensures |Texts(Parents(n))| == n && forall i :: 0 <= i < n ==> Texts(Parents(n))[i] == ".."
  {
    if n == 0 {
    } else {
      TextsOfParents(n - 1);
      TextsConcat(Parents(n - 1), [ParentDir]);
      assert Texts([ParentDir]) == [".."];
    }
  }

  /** The text of a normal form. */
  lemma SpelledText(f: Form)
    ensures RootOnlyFirst(Spell(f))
    ensures f.Absolute? ==> PathText(Spell(f)) == "/" + Join(f.names, "/")
    ensures f.Relative? ==>
      RootDir !in Parents(f.ups) && PathText(Spell(f)) == Join(Texts(Parents(f.ups)) + f.names, "/")
  {
    hide Texts, Parents, Normals;
    TextsOfNames(f.names);
    if f.Absolute? {
      assert Spell(f)[1..] == Normals(f.names);
    } else {
      TextsOfParents(f.ups);
      TextsConcat(Parents(f.ups), Normals(f.names));
    }
  }

  lemma NamesAreNames(s: string)
    ensures forall name :: name in FormOf(Components(s)).names ==> IsName(name)
  {
    hide Components, Spell, FormOf, Normalize;
    ComponentsRootOnlyFirst(s);
    ComponentsAreValid(s);
    NormalizeKeepsNames(Components(s));
    NormalizeSpellsForm(Components(s));
    var f := FormOf(Components(s));
    forall name | name in f.names ensures IsName(name) {
      NameInSpell(f, name);
      assert Normal(name) in Components(s);
    }
  }

  lemma NameInSpell(f: Form, name: string)
    requires name in f.names
    ensures Normal(name) in Spell(f)
  {
    var k :| 0 <= k < |f.names| && f.names[k] == name;
    assert Normals(f.names)[k] == Normal(name);
    assert Normal(name) in Normals(f.names);
  }

  /** A path from the root is normalized to a slash and the names of the place it leads to. */
  lemma AbsoluteNormalText(s: string, cwd: seq<string>)
    requires "/" <= s
    ensures NormalizeText(s) == "/" + Join(LeadsTo(s, cwd), "/")
    ensures forall name :: name in LeadsTo(s, cwd) ==> IsName(name)
  {
    hide Components, Spell, FormOf, Normalize, LeadsTo, Follow, PathText;
    ComponentsRootOnlyFirst(s);
    var f := FormOf(Components(s));
    RootedFormIsAbsolute(Components(s));
    assert Components(s) != [] && Components(s)[0] == RootDir by { RootComesFirst(s); }
    NormalizeSpellsForm(Components(s));
    SpelledText(f);
    FollowReachesForm(Components(s), cwd);
    ComponentsLead(s, cwd);
    NamesAreNames(s);
  }

  lemma RootComesFirst(s: string)
    ensures IsAbsolute(s) <==> Components(s) != [] && Components(s)[0] == RootDir
  {
    hide PartComponents;
    PartsHaveNoRoot(Split(s, '/'));
    if !IsAbsolute(s) && Split(s, '/')[0] != "." {
      assert [] + PartComponents(Split(s, '/')) == PartComponents(Split(s, '/'));
      assert RootDir !in PartComponents(Split(s, '/'));
    }
  }

  lemma RelativeNormalText(s: string)
    requires !("/" <= s)
    ensures exists parts, ups: nat :: ShortestParts(false, parts, ups) && NormalizeText(s) == Join(parts, "/")
  {
    hide Components, Spell, FormOf, Normalize, PathText;
    ComponentsRootOnlyFirst(s);
    var f := FormOf(Components(s));
    RootedFormIsAbsolute(Components(s));
    RootComesFirst(s);
    NormalizeSpellsForm(Components(s));
    SpelledText(f);
    NamesAreNames(s);
    TextsOfParents(f.ups);
    var parts := Texts(Parents(f.ups)) + f.names;
    assert ShortestParts(false, parts, f.ups);
  }

  lemma NormalTextIsShortest(s: string)
    ensures "/" <= NormalizeText(s) <==> "/" <= s
    ensures IsShortest(NormalizeText(s))
  {
    hide NormalizeText, LeadsTo;
    var t := NormalizeText(s);
    if "/" <= s {
      AbsoluteNormalText(s, []);
      assert SpelledBy(t, LeadsTo(s, []), 0);
    } else {
      RelativeNormalText(s);
      var parts, ups: nat :| ShortestParts(false, parts, ups) && t == Join(parts, "/");
      JoinStartsPlain(parts, ups);
      assert t == "" + Join(parts, "/");
      assert SpelledBy(t, parts, ups);
    }
  }

  lemma JoinStartsPlain(parts: seq<string>, ups: nat)
    requires ShortestParts(false, parts, ups)
    ensures !("/" <= Join(parts, "/"))
  {
    if parts != [] {
      assert parts[0] != "" && parts[0][0] != '/' by {
        assert ups == 0 ==> IsName(parts[0]);
        assert parts[0] != "" ==> parts[0][0] in parts[0];
      }
      assert Join(parts, "/")[0] == parts[0][0];
    }
  }

  /** On strings: the normalized path leads where the path did, is in the shortest form, is not changed
      by normalizing again, and is the same for two paths exactly when they lead to the same places. */
  lemma NormalizeTextIsCanonical(s: string, t: string, cwd: seq<string>)
    ensures LeadsTo(NormalizeText(s), cwd) == LeadsTo(s, cwd)
    ensures IsShortest(NormalizeText(s)) && ("/" <= NormalizeText(s) <==> "/" <= s)
    ensures NormalizeText(NormalizeText(s)) == NormalizeText(s)
    ensures NormalizeText(s) == NormalizeText(t)
      <==> forall d :: ValidDirectory(d) ==> LeadsTo(s, d) == LeadsTo(t, d)
  {
    hide Components, Normalize, Follow, PathText, LeadsTo, IsShortest;
    NormalTextIsShortest(s);
    ComponentsRootOnlyFirst(s);
    ComponentsRootOnlyFirst(t);
    NormalizeTextComponents(s);
    NormalizeTextComponents(t);
    NormalizeKeepsMeaning(Components(s), cwd);
    NormalizeGivesNormalForm(Components(s));
    NormalizeGivesNormalForm(Components(t));
    SameNormalFormIffSameMeaning(Components(s), Components(t));
    ComponentsLead(s, cwd);
    ComponentsLead(NormalizeText(s), cwd);
    forall d ensures Follow(Components(s), d) == LeadsTo(s, d) && Follow(Components(t), d) == LeadsTo(t, d) {
      ComponentsLead(s, d);
      ComponentsLead(t, d);
    }
  }
}
