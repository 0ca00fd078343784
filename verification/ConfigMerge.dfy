/** Composing global and project configuration: list substitution, hook placeholders, and the choice
    between panes and windows. */
module ConfigMerge {
  import opened Common
  import opened Text

  type Items = seq<string>

  const GLOBAL := "<global>"
  const CLEANUP := "<cleanup-node-modules>"

  // ----- Lists -----

  /** `project` with the global items in place of every global placeholder. */
  function Substitute(project: Items, global: Items): Items {
    if project == [] then []
    else
      var before, last := Substitute(project[..|project| - 1], global), project[|project| - 1];
      if last == GLOBAL then before + global else before + [last]
  }

  function ItemsOf(list: Option<Items>): Items {
    if list.Some? then list.value else []
  }

  function MergeList(global: Option<Items>, project: Option<Items>): Option<Items> {
    if project.None? then global else Some(Substitute(project.value, ItemsOf(global)))
  }

  lemma {:induction false} NothingToSubstitute(project: Items, global: Items)
    requires GLOBAL !in project
    ensures Substitute(project, global) == project
  {
    if project == [] {
    } else {
      assert project == project[..|project| - 1] + [project[|project| - 1]];
      NothingToSubstitute(project[..|project| - 1], global);
    }
  }

  /** The source's merge: a list without the placeholder is kept as it is. */
  method MergeVecWithPlaceholder(global: Option<Items>, project: Option<Items>) returns (merged: Option<Items>)
    ensures merged == MergeList(global, project)
  {
    if project.None? {
      return global;
    }
    var items := project.value;
    if GLOBAL !in items {
      NothingToSubstitute(items, ItemsOf(global));
      return Some(items);
    }
    var globalItems := ItemsOf(global);
    var result: Items := [];
    for i := 0 to |items|
      invariant result == Substitute(items[..i], globalItems)
    {
      assert items[..i + 1][..i] == items[..i];
      if items[i] == GLOBAL {
        result := result + globalItems;
      } else {
        result := result + [items[i]];
      }
    }
    assert items[..|items|] == items;
    return Some(result);
  }

  /** What a merged list holds: the project's own items and, where it asks for them, the global ones. */
  lemma {:induction false} SubstituteHolds(project: Items, global: Items, x: string)
    ensures x in Substitute(project, global) <==> (x in project && x != GLOBAL) || (GLOBAL in project && x in global)
  {
    if project == [] {
    } else {
      SubstituteHolds(project[..|project| - 1], global, x);
      assert project == project[..|project| - 1] + [project[|project| - 1]];
    }
  }

  lemma {:induction false} SubstituteConcat(a: Items, b: Items, global: Items)
    ensures Substitute(a + b, global) == Substitute(a, global) + Substitute(b, global)
  {
    if b == [] {
      assert a + b == a;
    } else {
      assert (a + b)[..|a + b| - 1] == a + b[..|b| - 1];
      SubstituteConcat(a, b[..|b| - 1], global);
    }
  }

  /** Every item stays where it is but the placeholder, which the global items take the place of. */
  lemma SubstituteAt(a: Items, x: string, b: Items, global: Items)
    ensures Substitute(a + [x] + b, global)
      == Substitute(a, global) + (if x == "<global>" then global else [x]) + Substitute(b, global)
  {
    SubstituteConcat(a + [x], b, global);
    assert (a + [x])[..|a|] == a;
  }

  lemma {:induction false} SubstituteAssociates(a: Items, b: Items, c: Items)
    ensures Substitute(c, Substitute(b, a)) == Substitute(Substitute(c, b), a)
  {
    if c == [] {
    } else {
      var init, last := c[..|c| - 1], c[|c| - 1];
      SubstituteAssociates(a, b, init);
      if last == GLOBAL {
        SubstituteConcat(Substitute(init, b), b, a);
      } else {
        SubstituteConcat(Substitute(init, b), [last], a);
        assert [last][..0] == [];
      }
    }
  }

  lemma {:induction false} DroppedIffEqual(c: Items, a: Items)
    ensures |Substitute(c, [])| <= |Substitute(c, a)|
    ensures Substitute(c, a) == Substitute(c, []) <==> GLOBAL !in c || a == []
  {
    if c == [] {
    } else {
      var init, last := c[..|c| - 1], c[|c| - 1];
      DroppedIffEqual(init, a);
      assert c == init + [last];
      var with, without := Substitute(init, a), Substitute(init, []);
      if last == GLOBAL {
        assert |with + a| >= |without + []| + |a|;
        assert a == [] ==> with + a == with;
        assert without + [] == without;
      } else {
        assert (with + [last])[..|with|] == with && (without + [last])[..|without|] == without;
      }
    }
  }

  /** Three levels can be merged in either grouping exactly when the middle one is set, or the last
      does not ask for it, or there is nothing above it to lose. */
  lemma MergeAssociatesIff(a: Option<Items>, b: Option<Items>, c: Option<Items>)
    ensures MergeList(MergeList(a, b), c) == MergeList(a, MergeList(b, c))
      <==> b.Some? || c.None? || GLOBAL !in c.value || ItemsOf(a) == []
  {
    if c.Some? {
      if b.Some? {
        SubstituteAssociates(ItemsOf(a), b.value, c.value);
      } else {
        DroppedIffEqual(c.value, ItemsOf(a));
        NoPlaceholderLeft(c.value, ItemsOf(a));
      }
    }
  }

  lemma NoPlaceholderLeft(c: Items, a: Items)
    ensures Substitute(Substitute(c, []), a) == Substitute(c, [])
  {
    SubstituteHolds(c, [], GLOBAL);
    NothingToSubstitute(Substitute(c, []), a);
  }

  // ----- Hooks -----

  function ExpandHook(hook: string, script: string): string {
    if Trim(hook) == CLEANUP then script else hook
  }

  function Expand(hooks: Items, script: string): Items {
    if hooks == [] then []
    else Expand(hooks[..|hooks| - 1], script) + [ExpandHook(hooks[|hooks| - 1], script)]
  }

  /** Exactly the hooks that are the placeholder, spaces around it or not, become the script. */
  lemma {:induction false} ExpandedAt(hooks: Items, script: string)
    ensures |Expand(hooks, script)| == |hooks|
    ensures forall i :: 0 <= i < |hooks| ==>
      Expand(hooks, script)[i] == if Trim(hooks[i]) == "<cleanup-node-modules>" then script else hooks[i]
  {
    hide Trim;
    if hooks == [] {
    } else {
      ExpandedAt(hooks[..|hooks| - 1], script);
    }
  }

  /** The hooks are rewritten in place. */
  method ExpandHooks(hooks: array<string>, script: string)
    modifies hooks
    ensures hooks[..] == Expand(old(hooks[..]), script)
  {
    hide ExpandHook;
    ghost var was := hooks[..];
    for i := 0 to hooks.Length
      invariant hooks[..i] == Expand(was[..i], script)
      invariant hooks[i..] == was[i..]
    {
      assert was[..i + 1][..i] == was[..i];
      assert hooks[i] == hooks[i..][0] == was[i];
      hooks[i] := ExpandHook(hooks[i], script);
      assert hooks[..i + 1] == hooks[..i] + [hooks[i]];
    }
    assert was[..|was|] == was && hooks[..hooks.Length] == hooks[..];
  }

  lemma GlobalIsNoHook(script: string)
    ensures ExpandHook(GLOBAL, script) == GLOBAL
  {
    TrimOfTrimmed(GLOBAL);
    assert GLOBAL[1] != CLEANUP[1];
  }

  lemma {:induction false} ExpandConcat(a: Items, b: Items, script: string)
    ensures Expand(a + b, script) == Expand(a, script) + Expand(b, script)
  {
    hide ExpandHook;
    if b == [] {
      assert a + b == a;
    } else {
      assert (a + b)[..|a + b| - 1] == a + b[..|b| - 1];
      ExpandConcat(a, b[..|b| - 1], script);
    }
  }

  /** Expanding hooks after the merge is the same as expanding each level before it. */
  lemma {:induction false} ExpansionCommutesWithMerge(project: Items, global: Items, script: string)
    requires script != GLOBAL
    ensures Expand(Substitute(project, global), script)
      == Substitute(Expand(project, script), Expand(global, script))
  {
    hide ExpandHook, Trim;
    if project == [] {
    } else {
      var n := |project| - 1;
      var init, last := project[..n], project[n];
      ExpansionCommutesWithMerge(init, global, script);
      GlobalIsNoHook(script);
      assert |Expand(init, script)| == n by { ExpandedAt(init, script); }
      assert Expand(project, script)[..n] == Expand(init, script);
      if last == GLOBAL {
        ExpandConcat(Substitute(init, global), global, script);
      } else {
        ExpandConcat(Substitute(init, global), [last], script);
        assert [last][..0] == [];
        assert ExpandHook(last, script) != GLOBAL by { HookStaysNotGlobal(last, script); }
      }
    }
  }

  lemma HookStaysNotGlobal(hook: string, script: string)
    requires hook != GLOBAL && script != GLOBAL
    ensures ExpandHook(hook, script) != GLOBAL
  {
  }

  /** No hook that is the cleanup placeholder is left, whichever level it came from. */
  lemma {:induction false} NoCleanupPlaceholderSurvives(hooks: Items, script: string)
    requires Trim(script) != CLEANUP
    ensures forall h :: h in Expand(hooks, script) ==> Trim(h) != CLEANUP
  {
    hide Trim;
    if hooks == [] {
    } else {
      NoCleanupPlaceholderSurvives(hooks[..|hooks| - 1], script);
    }
  }

  // ----- Panes, windows and defaults -----

  datatype Config<P, W> = Config(panes: Option<P>, windows: Option<W>, preRemove: Option<Items>)

  /** What the defaults depend on outside the configuration. */
  datatype Surroundings<P> = Surroundings(hasRoot: bool, hasNodeLockfile: bool, hasClaudeFile: bool,
                                         explicitAgent: bool, agentPanes: P, plainPanes: P, script: string)

  method Merge<P, W>(global: Config<P, W>, project: Config<P, W>) returns (merged: Config<P, W>)
    ensures !(merged.panes.Some? && merged.windows.Some?)
    ensures project.windows.Some? ==> merged.windows == project.windows
    ensures project.windows.None? && project.panes.Some? ==> merged.panes == project.panes
    ensures project.windows.None? && project.panes.None? ==>
      merged.panes == global.panes && (global.panes.None? ==> merged.windows == global.windows)
    ensures merged.preRemove == MergeList(global.preRemove, project.preRemove)
  {
    var panes := if project.panes.Some? then project.panes else global.panes;
    var windows := if project.windows.Some? then project.windows else global.windows;
    if windows.Some? && panes.Some? {
      if project.windows.Some? {
        panes := None;
      } else {
        windows := None;
      }
    }
    var preRemove := MergeVecWithPlaceholder(global.preRemove, project.preRemove);
    merged := Config(panes, windows, preRemove);
  }

  /** After defaults exactly one of panes and windows is set, the project's choice wins, and the hooks
      are the merged ones with the placeholder expanded. */
  method MergeAndApplyDefaults<P, W>(global: Config<P, W>, project: Config<P, W>, env: Surroundings<P>)
      returns (config: Config<P, W>)
    requires Trim(env.script) != CLEANUP
    ensures config.panes.Some? <==> config.windows.None?
    ensures project.windows.Some? ==> config.windows == project.windows
    ensures project.windows.None? && project.panes.Some? ==> config.panes == project.panes
    ensures project.windows.None? && project.panes.None? && global.panes.Some? ==> config.panes == global.panes
    ensures project.windows.None? && project.panes.None? && global.panes.None? && global.windows.Some? ==>
      config.windows == global.windows
    ensures project.windows.None? && project.panes.None? && global.panes.None? && global.windows.None? ==>
      config.panes
      == Some(if env.explicitAgent || (env.hasRoot && env.hasClaudeFile) then env.agentPanes else env.plainPanes)
    ensures var merged := MergeList(global.preRemove, project.preRemove);
      config.preRemove == if merged.Some? then Some(Expand(merged.value, env.script))
                          else if env.hasRoot && env.hasNodeLockfile then Some([env.script]) else None
    ensures config.preRemove.Some? ==> forall h :: h in config.preRemove.value ==> Trim(h) != CLEANUP
  {
    hide Trim;
    config := Merge(global, project);
    if env.hasRoot {
      if config.panes.None? && config.windows.None? {
        if env.hasClaudeFile || env.explicitAgent {
          config := config.(panes := Some(env.agentPanes));
        } else {
          config := config.(panes := Some(env.plainPanes));
        }
      }
      if config.preRemove.None? && env.hasNodeLockfile {
        config := config.(preRemove := Some([env.script]));
        ExpandOne(env.script);
      }
    } else if config.panes.None? && config.windows.None? {
      if env.explicitAgent {
        config := config.(panes := Some(env.agentPanes));
      } else {
        config := config.(panes := Some(env.plainPanes));
      }
    }
    if config.preRemove.Some? {
      var items := config.preRemove.value;
      var hooks := new string[|items|](i requires 0 <= i < |items| => items[i]);
      assert hooks[..] == items;
      ExpandHooks(hooks, env.script);
      NoCleanupPlaceholderSurvives(items, env.script);
      config := config.(preRemove := Some(hooks[..]));
    }
  }

  lemma ExpandOne(script: string)
    ensures Expand([script], script) == [script]
  {
    assert [script][..0] == [];
  }
}
