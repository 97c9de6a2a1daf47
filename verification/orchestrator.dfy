/**
  The hook groups of src/hooks.rs: `attach_all` and the `enable_*` /
  `disable_*` functions. Each hook is in one of three states; a group
  operation applies one per-hook operation to the group's hooks in a fixed
  order, stops at the first failure and propagates it, and keeps whatever the
  earlier hooks of the group already did. A hook marked `bypass` for the
  platform installs no detour, so its operations succeed and change nothing.
*/
module Orchestrator {
  import opened Common

  /** The hooked host routines, translation group first, each group in the order the source lists it. */
  datatype Hook =
    | StringCopyN | StringAppendN | StdStringCtor | StdStringAppend | StdStringAssign
    | Addst | AddstTop | AddstFlag
    | StandardStringEntry | SimplifyString | UpperCaseString | LowerCaseString
    | CapitalizeStringWords | CapitalizeStringFirstWord

  /** The translation group, in the order `attach_all`, `enable_translation` and `disable_translation` use. */
  const TranslationGroup: seq<Hook> :=
    [StringCopyN, StringAppendN, StdStringCtor, StdStringAppend, StdStringAssign, Addst, AddstTop, AddstFlag]

  /** The search group, in the order `attach_all`, `enable_search` and `disable_search` use. */
  const SearchGroup: seq<Hook> :=
    [StandardStringEntry, SimplifyString, UpperCaseString, LowerCaseString, CapitalizeStringWords, CapitalizeStringFirstWord]

  datatype Platform = Linux | Windows

  /** The hooks the platform's build marks `bypass`. */
  function Bypassed(p: Platform): set<Hook>
  {
    match p
    case Linux => {StringCopyN, StringAppendN, StdStringCtor}
    case Windows => {StdStringAppend, StdStringAssign, AddstFlag}
  }

  /** Where a hook's detour stands: not installed, installed but passing calls through, or intercepting. */
  datatype HookState = Uninstalled | Disabled | Enabled

  /** The detour state of every hook; a hook with no entry was never installed. */
  type Registry = map<Hook, HookState>

  function StateOf(reg: Registry, h: Hook): HookState
  {
    if h in reg then reg[h] else Uninstalled
  }

  /** A hook whose calls go to the replacement routine. */
  predicate Intercepts(reg: Registry, h: Hook) { StateOf(reg, h) == Enabled }

  /** Why a per-hook operation failed. */
  datatype Error =
    | Unresolved(hook: Hook)       // the target routine could not be located
    | AlreadyAttached(hook: Hook)  // the detour is already installed
    | NotAttached(hook: Hook)      // enabling or disabling a detour that was never installed

  datatype Op = Attach | Enable | Disable

  /** The registry after an operation, and its error when it failed. */
  datatype Outcome = Outcome(reg: Registry, error: Option<Error>)

  /** The state a successful per-hook operation leaves its hook in. */
  function Target(op: Op): HookState
  {
    if op == Enable then Enabled else Disabled
  }

  /** Every hook of `hooks` that has a detour on this platform is in state `s`. */
  predicate AllIn(reg: Registry, hooks: seq<Hook>, s: HookState, bypassed: set<Hook>)
  {
    forall h | h in hooks && h !in bypassed :: StateOf(reg, h) == s
  }

  /** Every hook of `hooks` that has a detour on this platform is installed. */
  predicate AllAttached(reg: Registry, hooks: seq<Hook>, bypassed: set<Hook>)
  {
    forall h | h in hooks && h !in bypassed :: StateOf(reg, h) != Uninstalled
  }

  /**
    One per-hook operation (`attach_x`, `enable_x`, `disable_x`). `resolves`
    is the set of hooks whose target routine can be located. A bypassed hook
    succeeds without a change. Otherwise attaching installs the detour
    disabled, and enabling or disabling an installed detour sets its state.
  */
  function Step(reg: Registry, op: Op, h: Hook, resolves: set<Hook>, bypassed: set<Hook>): (o: Outcome)
    ensures o.error.None? ==> o.reg == if h in bypassed then reg else reg[h := Target(op)]
    ensures o.error.Some? ==> o.reg == reg && o.error.value.hook == h && h !in bypassed
    ensures op != Attach ==> (o.error.None? <==> h in bypassed || StateOf(reg, h) != Uninstalled)
    ensures op == Attach ==> (o.error.None? <==> h in bypassed || (StateOf(reg, h) == Uninstalled && h in resolves))
  {
    if h in bypassed then Outcome(reg, None)
    else
      match op
      case Attach =>
        if h !in resolves then Outcome(reg, Some(Unresolved(h)))
        else if StateOf(reg, h) != Uninstalled then Outcome(reg, Some(AlreadyAttached(h)))
        else Outcome(reg[h := Disabled], None)
      case _ =>
        if StateOf(reg, h) == Uninstalled then Outcome(reg, Some(NotAttached(h)))
        else Outcome(reg[h := Target(op)], None)
  }

  /**
    A straight-line sequence of `op_x()?` calls: the first error ends it and
    nothing is undone. Only the group's own hooks change; on success every
    one of them is in the operation's target state; the error names a hook
    of the group; and enabling or disabling succeeds exactly when every hook
    of the group is installed.
  */
  function RunGroup(reg: Registry, op: Op, hooks: seq<Hook>, resolves: set<Hook>, bypassed: set<Hook>): (o: Outcome)
    ensures forall h | h !in hooks || h in bypassed :: StateOf(o.reg, h) == StateOf(reg, h)
    ensures o.error.Some? ==> o.error.value.hook in hooks
    ensures o.error.Some? && op != Attach ==> o.error.value.NotAttached?
    ensures o.error.None? ==> AllIn(o.reg, hooks, Target(op), bypassed)
    ensures op != Attach ==> (o.error.None? <==> AllAttached(reg, hooks, bypassed))
    decreases |hooks|
  {
    if hooks == [] then Outcome(reg, None)
    else
      var first := Step(reg, op, hooks[0], resolves, bypassed);
      assert hooks[0] in hooks;
      assert forall h | h in hooks[1..] :: h in hooks;
      assert forall h | h in hooks :: h == hooks[0] || h in hooks[1..];
      if first.error.Some? then first else RunGroup(first.reg, op, hooks[1..], resolves, bypassed)
  }

  /** How many hooks of the group the operation gets through before the first failure. */
  function Applied(reg: Registry, op: Op, hooks: seq<Hook>, resolves: set<Hook>, bypassed: set<Hook>): nat
    decreases |hooks|
  {
    if hooks == [] then 0
    else
      var first := Step(reg, op, hooks[0], resolves, bypassed);
      if first.error.Some? then 0 else 1 + Applied(first.reg, op, hooks[1..], resolves, bypassed)
  }

  /**
    When a group operation fails, the hooks before the failing one are in the
    operation's target state, the failing hook's own error is the group's
    error, and every other hook, including those after the failure, keeps
    its state (no rollback, no further step).
  */
  lemma RunGroupStopsAtFirstError(reg: Registry, op: Op, hooks: seq<Hook>, resolves: set<Hook>, bypassed: set<Hook>)
    ensures var o := RunGroup(reg, op, hooks, resolves, bypassed);
            var k := Applied(reg, op, hooks, resolves, bypassed);
            && k <= |hooks|
            && (o.error.None? <==> k == |hooks|)
            && (forall h | h in hooks[..k] && h !in bypassed :: StateOf(o.reg, h) == Target(op))
            && (forall h | h !in hooks[..k] :: StateOf(o.reg, h) == StateOf(reg, h))
            && (o.error.Some? ==> k < |hooks| && Step(o.reg, op, hooks[k], resolves, bypassed).error == o.error)
  {
    RunGroupKeepsRest(reg, op, hooks, resolves, bypassed);
    RunGroupReachesPrefix(reg, op, hooks, resolves, bypassed);
    RunGroupFailsAtApplied(reg, op, hooks, resolves, bypassed);
  }

  /** Hooks outside the applied prefix keep their state. */
  lemma {:induction false} RunGroupKeepsRest(reg: Registry, op: Op, hooks: seq<Hook>, resolves: set<Hook>, bypassed: set<Hook>)
    ensures var o := RunGroup(reg, op, hooks, resolves, bypassed);
            var k := Applied(reg, op, hooks, resolves, bypassed);
            k <= |hooks| && forall h | h !in hooks[..k] :: StateOf(o.reg, h) == StateOf(reg, h)
    decreases |hooks|
  {
    if hooks != [] {
      var first := Step(reg, op, hooks[0], resolves, bypassed);
      if first.error.None? {
        var rest := hooks[1..];
        RunGroupKeepsRest(first.reg, op, rest, resolves, bypassed);
        var o := RunGroup(first.reg, op, rest, resolves, bypassed);
        var k := Applied(first.reg, op, rest, resolves, bypassed);
        assert RunGroup(reg, op, hooks, resolves, bypassed) == o;
        assert Applied(reg, op, hooks, resolves, bypassed) == k + 1;
        assert hooks[..k + 1] == [hooks[0]] + rest[..k];
        forall h | h !in hooks[..k + 1] ensures StateOf(o.reg, h) == StateOf(reg, h) {
          assert h != hooks[0] && h !in rest[..k];
          assert StateOf(o.reg, h) == StateOf(first.reg, h);
        }
      }
    }
  }

  /** Every detoured hook of the applied prefix is in the operation's target state. */
  lemma {:induction false} RunGroupReachesPrefix(reg: Registry, op: Op, hooks: seq<Hook>, resolves: set<Hook>, bypassed: set<Hook>)
    ensures var o := RunGroup(reg, op, hooks, resolves, bypassed);
            var k := Applied(reg, op, hooks, resolves, bypassed);
            k <= |hooks| && forall h | h in hooks[..k] && h !in bypassed :: StateOf(o.reg, h) == Target(op)
    decreases |hooks|
  {
    if hooks != [] {
      var first := Step(reg, op, hooks[0], resolves, bypassed);
      if first.error.None? {
        var rest := hooks[1..];
        RunGroupReachesPrefix(first.reg, op, rest, resolves, bypassed);
        RunGroupKeepsRest(first.reg, op, rest, resolves, bypassed);
        var o := RunGroup(first.reg, op, rest, resolves, bypassed);
        var k := Applied(first.reg, op, rest, resolves, bypassed);
        assert RunGroup(reg, op, hooks, resolves, bypassed) == o;
        assert Applied(reg, op, hooks, resolves, bypassed) == k + 1;
        assert hooks[..k + 1] == [hooks[0]] + rest[..k];
        forall h | h in hooks[..k + 1] && h !in bypassed ensures StateOf(o.reg, h) == Target(op) {
          if h !in rest[..k] {
            assert h == hooks[0];
            assert StateOf(o.reg, h) == StateOf(first.reg, h);
          }
        }
      }
    }
  }

  /** The group fails exactly when the applied prefix is short, and then with the next hook's own error. */
  lemma {:induction false} RunGroupFailsAtApplied(reg: Registry, op: Op, hooks: seq<Hook>, resolves: set<Hook>, bypassed: set<Hook>)
    ensures var o := RunGroup(reg, op, hooks, resolves, bypassed);
            var k := Applied(reg, op, hooks, resolves, bypassed);
            && k <= |hooks|
            && (o.error.None? <==> k == |hooks|)
            && (o.error.Some? ==> k < |hooks| && Step(o.reg, op, hooks[k], resolves, bypassed).error == o.error)
    decreases |hooks|
  {
    if hooks != [] {
      var first := Step(reg, op, hooks[0], resolves, bypassed);
      if first.error.None? {
        var rest := hooks[1..];
        RunGroupFailsAtApplied(first.reg, op, rest, resolves, bypassed);
        var o := RunGroup(first.reg, op, rest, resolves, bypassed);
        var k := Applied(first.reg, op, rest, resolves, bypassed);
        assert RunGroup(reg, op, hooks, resolves, bypassed) == o;
        assert Applied(reg, op, hooks, resolves, bypassed) == k + 1;
        if o.error.Some? {
          assert hooks[k + 1] == rest[k];
        }
      } else {
        assert RunGroup(reg, op, hooks, resolves, bypassed) == first;
        assert Applied(reg, op, hooks, resolves, bypassed) == 0;
        assert first.reg == reg;
      }
    }
  }

  /** Attaching a group of distinct hooks none of which is installed and all of which resolve installs them all, disabled. */
  lemma {:induction false} AttachFreshGroup(reg: Registry, hooks: seq<Hook>, resolves: set<Hook>, bypassed: set<Hook>)
    requires forall i, j | 0 <= i < j < |hooks| :: hooks[i] != hooks[j]
    requires forall h | h in hooks && h !in bypassed :: StateOf(reg, h) == Uninstalled && h in resolves
    ensures RunGroup(reg, Attach, hooks, resolves, bypassed).error == None
    decreases |hooks|
  {
    if hooks != [] {
      var first := Step(reg, Attach, hooks[0], resolves, bypassed);
      assert hooks[0] in hooks;
      forall h | h in hooks[1..] && h !in bypassed ensures StateOf(first.reg, h) == Uninstalled && h in resolves {
        var i :| 0 <= i < |hooks[1..]| && hooks[1..][i] == h;
        assert hooks[i + 1] == h && hooks[0] != hooks[i + 1];
        assert h in hooks;
      }
      AttachFreshGroup(first.reg, hooks[1..], resolves, bypassed);
    }
  }

  /** No hook belongs to both groups. */
  lemma GroupsDisjoint()
    ensures forall h | h in TranslationGroup :: h !in SearchGroup
  {
  }

  lemma GroupsDistinct()
    ensures forall i, j | 0 <= i < j < |TranslationGroup| :: TranslationGroup[i] != TranslationGroup[j]
    ensures forall i, j | 0 <= i < j < |SearchGroup| :: SearchGroup[i] != SearchGroup[j]
  {
  }

  lemma EveryHookListed(h: Hook)
    ensures h in TranslationGroup || h in SearchGroup
  {
  }

  /** The configuration `attach_all` reads. */
  datatype Settings = Settings(enableTranslation: bool, enableSearch: bool, encodingParsed: bool)

  predicate SearchSelected(settings: Settings) { settings.enableSearch && settings.encodingParsed }

  /**
    `attach_all`: the translation group when translation is enabled, then the
    search group when search is enabled and the encoding tables parsed. A
    group it does not select is left as it was; on success every selected
    hook with a detour is installed and disabled; a failure comes from a
    selected group. The first failure ends it and nothing is undone: a
    failure in the translation group leaves the search group untouched, and
    one in the search group keeps the translation group installed.
  */
  function AttachAll(reg: Registry, settings: Settings, resolves: set<Hook>, p: Platform): (o: Outcome)
    ensures !settings.enableTranslation ==> forall h | h in TranslationGroup :: StateOf(o.reg, h) == StateOf(reg, h)
    ensures !SearchSelected(settings) ==> forall h | h in SearchGroup :: StateOf(o.reg, h) == StateOf(reg, h)
    ensures forall h | h in Bypassed(p) :: StateOf(o.reg, h) == StateOf(reg, h)
    ensures o.error.Some? ==> || (settings.enableTranslation && o.error.value.hook in TranslationGroup)
                              || (SearchSelected(settings) && o.error.value.hook in SearchGroup)
    ensures o.error.None? && settings.enableTranslation ==> AllIn(o.reg, TranslationGroup, Disabled, Bypassed(p))
    ensures o.error.None? && SearchSelected(settings) ==> AllIn(o.reg, SearchGroup, Disabled, Bypassed(p))
    ensures o.error.Some? && o.error.value.hook in TranslationGroup ==>
              forall h | h in SearchGroup :: StateOf(o.reg, h) == StateOf(reg, h)
    ensures settings.enableTranslation && o.error.Some? && o.error.value.hook in SearchGroup ==>
              AllIn(o.reg, TranslationGroup, Disabled, Bypassed(p))
  {
    GroupsDisjoint();
    var t := if settings.enableTranslation then RunGroup(reg, Attach, TranslationGroup, resolves, Bypassed(p)) else Outcome(reg, None);
    if t.error.Some? then t
    else if SearchSelected(settings) then RunGroup(t.reg, Attach, SearchGroup, resolves, Bypassed(p))
    else t
  }

  /** `enable_translation`: succeeds exactly when the translation group is installed, enables it, and touches no other hook. */
  function EnableTranslation(reg: Registry, p: Platform): (o: Outcome)
    ensures o.error.None? <==> AllAttached(reg, TranslationGroup, Bypassed(p))
    ensures o.error.None? ==> AllIn(o.reg, TranslationGroup, Enabled, Bypassed(p))
    ensures o.error.Some? ==> o.error.value.NotAttached? && o.error.value.hook in TranslationGroup
    ensures forall h | h !in TranslationGroup :: StateOf(o.reg, h) == StateOf(reg, h)
  {
    RunGroup(reg, Enable, TranslationGroup, {}, Bypassed(p))
  }

  /** `enable_search`: succeeds exactly when the search group is installed, enables it, and touches no other hook. */
  function EnableSearch(reg: Registry, p: Platform): (o: Outcome)
    ensures o.error.None? <==> AllAttached(reg, SearchGroup, Bypassed(p))
    ensures o.error.None? ==> AllIn(o.reg, SearchGroup, Enabled, Bypassed(p))
    ensures o.error.Some? ==> o.error.value.NotAttached? && o.error.value.hook in SearchGroup
    ensures forall h | h !in SearchGroup :: StateOf(o.reg, h) == StateOf(reg, h)
  {
    RunGroup(reg, Enable, SearchGroup, {}, Bypassed(p))
  }

  /**
    `enable_all`: the translation group, then, when that succeeded, the
    search group. It succeeds exactly when both groups are installed and then
    every hook with a detour intercepts. A failure in the translation group
    leaves the search group untouched; one in the search group keeps the
    translation group enabled.
  */
  function EnableAll(reg: Registry, p: Platform): (o: Outcome)
    ensures o.error.None? <==> AllAttached(reg, TranslationGroup, Bypassed(p)) && AllAttached(reg, SearchGroup, Bypassed(p))
    ensures o.error.None? ==> AllIn(o.reg, TranslationGroup, Enabled, Bypassed(p)) && AllIn(o.reg, SearchGroup, Enabled, Bypassed(p))
    ensures o.error.Some? && o.error.value.hook in SearchGroup ==> AllIn(o.reg, TranslationGroup, Enabled, Bypassed(p))
    ensures o.error.Some? && o.error.value.hook in TranslationGroup ==>
              forall h | h in SearchGroup :: StateOf(o.reg, h) == StateOf(reg, h)
    ensures forall h | h in Bypassed(p) :: StateOf(o.reg, h) == StateOf(reg, h)
  {
    GroupsDisjoint();
    var t := EnableTranslation(reg, p);
    if t.error.Some? then t else EnableSearch(t.reg, p)
  }

  /** `disable_translation`: succeeds exactly when the translation group is installed, disables it, and touches no other hook. */
  function DisableTranslation(reg: Registry, p: Platform): (o: Outcome)
    ensures o.error.None? <==> AllAttached(reg, TranslationGroup, Bypassed(p))
    ensures o.error.None? ==> AllIn(o.reg, TranslationGroup, Disabled, Bypassed(p))
    ensures o.error.Some? ==> o.error.value.NotAttached? && o.error.value.hook in TranslationGroup
    ensures forall h | h !in TranslationGroup :: StateOf(o.reg, h) == StateOf(reg, h)
  {
    RunGroup(reg, Disable, TranslationGroup, {}, Bypassed(p))
  }

  /** `disable_search`: succeeds exactly when the search group is installed, disables it, and touches no other hook. */
  function DisableSearch(reg: Registry, p: Platform): (o: Outcome)
    ensures o.error.None? <==> AllAttached(reg, SearchGroup, Bypassed(p))
    ensures o.error.None? ==> AllIn(o.reg, SearchGroup, Disabled, Bypassed(p))
    ensures o.error.Some? ==> o.error.value.NotAttached? && o.error.value.hook in SearchGroup
    ensures forall h | h !in SearchGroup :: StateOf(o.reg, h) == StateOf(reg, h)
  {
    RunGroup(reg, Disable, SearchGroup, {}, Bypassed(p))
  }

  /**
    `disable_all`: the translation group, then, when that succeeded, the
    search group. It succeeds exactly when both groups are installed, and
    then no hook with a detour intercepts. A failure in the translation
    group leaves the search group untouched; one in the search group keeps
    the translation group disabled.
  */
  function DisableAll(reg: Registry, p: Platform): (o: Outcome)
    ensures o.error.None? <==> AllAttached(reg, TranslationGroup, Bypassed(p)) && AllAttached(reg, SearchGroup, Bypassed(p))
    ensures o.error.None? ==> AllIn(o.reg, TranslationGroup, Disabled, Bypassed(p)) && AllIn(o.reg, SearchGroup, Disabled, Bypassed(p))
    ensures o.error.Some? && o.error.value.hook in SearchGroup ==> AllIn(o.reg, TranslationGroup, Disabled, Bypassed(p))
    ensures o.error.Some? && o.error.value.hook in TranslationGroup ==>
              forall h | h in SearchGroup :: StateOf(o.reg, h) == StateOf(reg, h)
    ensures forall h | h in Bypassed(p) :: StateOf(o.reg, h) == StateOf(reg, h)
  {
    GroupsDisjoint();
    var t := DisableTranslation(reg, p);
    if t.error.Some? then t else DisableSearch(t.reg, p)
  }

  /** Every hook, each group in order. */
  const AllHooks: set<Hook> := set h: Hook | h in TranslationGroup || h in SearchGroup

  /**
    `attach_all` on a process with nothing installed and every target
    located succeeds, installs exactly the selected groups' hooks that have
    a detour, disabled, and leaves every other hook uninstalled.
  */
  lemma AttachAllInstallsSelectedGroups(settings: Settings, p: Platform)
    ensures var o := AttachAll(map[], settings, AllHooks, p);
            && o.error == None
            && (forall h | h in TranslationGroup && h !in Bypassed(p) ::
                  StateOf(o.reg, h) == if settings.enableTranslation then Disabled else Uninstalled)
            && (forall h | h in SearchGroup && h !in Bypassed(p) ::
                  StateOf(o.reg, h) == if SearchSelected(settings) then Disabled else Uninstalled)
            && (forall h | h in Bypassed(p) :: StateOf(o.reg, h) == Uninstalled)
  {
    GroupsDistinct();
    GroupsDisjoint();
    var t := if settings.enableTranslation then RunGroup(map[], Attach, TranslationGroup, AllHooks, Bypassed(p)) else Outcome(map[], None);
    if settings.enableTranslation {
      AttachFreshGroup(map[], TranslationGroup, AllHooks, Bypassed(p));
    }
    if SearchSelected(settings) {
      AttachFreshGroup(t.reg, SearchGroup, AllHooks, Bypassed(p));
    }
  }

  /**
    The whole life cycle from a clean process with both groups selected and
    every target located: `attach_all`, `enable_all` and `disable_all` all
    succeed; after `enable_all` exactly the hooks with a detour intercept,
    and after `disable_all` no hook intercepts.
  */
  lemma AttachEnableDisableCycle(p: Platform)
    ensures var a := AttachAll(map[], Settings(true, true, true), AllHooks, p);
            var e := EnableAll(a.reg, p);
            var d := DisableAll(e.reg, p);
            && a.error == None && e.error == None && d.error == None
            && (forall h: Hook :: Intercepts(e.reg, h) <==> h !in Bypassed(p))
            && (forall h: Hook :: !Intercepts(d.reg, h))
  {
    var b := Bypassed(p);
    AttachAllInstallsSelectedGroups(Settings(true, true, true), p);
    var a := AttachAll(map[], Settings(true, true, true), AllHooks, p);
    assert AllAttached(a.reg, TranslationGroup, b) && AllAttached(a.reg, SearchGroup, b);
    var e := EnableAll(a.reg, p);
    assert AllIn(e.reg, TranslationGroup, Enabled, b) && AllIn(e.reg, SearchGroup, Enabled, b);
    assert AllAttached(e.reg, TranslationGroup, b) && AllAttached(e.reg, SearchGroup, b);
    var d := DisableAll(e.reg, p);
    assert AllIn(d.reg, TranslationGroup, Disabled, b) && AllIn(d.reg, SearchGroup, Disabled, b);
    forall h: Hook ensures (Intercepts(e.reg, h) <==> h !in b) && !Intercepts(d.reg, h) {
      EveryHookListed(h);
      if h in b {
        assert StateOf(d.reg, h) == StateOf(e.reg, h) == StateOf(a.reg, h) == Uninstalled;
      }
    }
  }

  /**
    When only the translation group was installed (search disabled in the
    settings), `enable_all` fails on the first search hook, and the
    translation hooks it enabled before the failure stay enabled.
  */
  lemma EnableAllKeepsPartialWork(resolves: set<Hook>, p: Platform)
    requires forall h | h in TranslationGroup :: h in resolves
    ensures var attached := AttachAll(map[], Settings(true, false, true), resolves, p);
            var e := EnableAll(attached.reg, p);
            && attached.error == None
            && e.error == Some(NotAttached(StandardStringEntry))
            && (forall h | h in TranslationGroup && h !in Bypassed(p) :: Intercepts(e.reg, h))
            && (forall h | h in SearchGroup :: StateOf(e.reg, h) == Uninstalled)
  {
    GroupsDistinct();
    GroupsDisjoint();
    AttachFreshGroup(map[], TranslationGroup, resolves, Bypassed(p));
    var attached := AttachAll(map[], Settings(true, false, true), resolves, p);
    var t := EnableTranslation(attached.reg, p);
    assert StateOf(t.reg, StandardStringEntry) == Uninstalled;
  }

  /** The first translation hook that has a detour on the platform. */
  function FirstDetoured(p: Platform): (h: Hook)
    ensures h in TranslationGroup && h !in Bypassed(p)
  {
    if p == Linux then StdStringAppend else StringCopyN
  }

  /**
    `attach_all` run a second time with translation enabled fails on the
    first translation hook that has a detour, and changes nothing.
  */
  lemma AttachAllTwiceFails(reg: Registry, settings: Settings, resolves: set<Hook>, p: Platform)
    requires settings.enableTranslation && FirstDetoured(p) in resolves
    requires StateOf(reg, FirstDetoured(p)) != Uninstalled
    ensures AttachAll(reg, settings, resolves, p) == Outcome(reg, Some(AlreadyAttached(FirstDetoured(p))))
  {
  }
}
