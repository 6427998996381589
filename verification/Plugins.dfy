/** Installing and uninstalling plugins over their dependency graph (app/platform/plugins.py).
    `order` is the topological order the plugins were loaded in; what a plugin requires is the
    same in each of its major versions. */
module Plugins {
  import opened Ordering
  import opened Wrappers

  datatype Manifest = Manifest(requires_: seq<string>, versions: set<string>, default: string)

  datatype Registry = Registry(plugins: map<string, Manifest>, order: seq<string>)

  /** A row of the organization: the pinned major, and whether it is on. */
  datatype Pin = Pin(version: string, on: bool)

  type Pins = map<string, Pin>

  datatype Failure = UnknownPlugin | NoSuchVersion | HookFailed | HasDependents

  /** The place in the load order. */
  function Rank(reg: Registry, slug: string): nat {
    if slug in reg.order then IndexOf(reg.order, slug) else |reg.order|
  }

  /** Every requirement is loaded, and before what requires it. */
  ghost predicate Loaded(reg: Registry) {
    forall slug, k :: slug in reg.plugins && 0 <= k < |reg.plugins[slug].requires_| ==>
      reg.plugins[slug].requires_[k] in reg.plugins && Rank(reg, reg.plugins[slug].requires_[k]) < Rank(reg, slug)
  }

  /** A load order that names each plugin once, after all it requires, is one. */
  lemma LoadedInOrder(reg: Registry)
    requires Distinct(reg.order) && forall slug :: slug in reg.plugins ==> slug in reg.order
    requires forall i, k :: 0 <= i < |reg.order| && reg.order[i] in reg.plugins
                            && 0 <= k < |reg.plugins[reg.order[i]].requires_| ==>
               reg.plugins[reg.order[i]].requires_[k] in reg.plugins
               && reg.plugins[reg.order[i]].requires_[k] in reg.order[..i]
    ensures Loaded(reg)
  {
    forall slug, k | slug in reg.plugins && 0 <= k < |reg.plugins[slug].requires_|
      ensures reg.plugins[slug].requires_[k] in reg.plugins
              && Rank(reg, reg.plugins[slug].requires_[k]) < Rank(reg, slug)
    {
      var i := IndexOf(reg.order, slug);
      var dep := reg.plugins[slug].requires_[k];
      assert dep in reg.order[..i];
      var j :| 0 <= j < i && reg.order[j] == dep;
      FoundNoLater(reg.order, j, dep);
    }
  }

  lemma {:induction false} FoundNoLater(order: seq<string>, j: nat, x: string)
    requires j < |order| && order[j] == x
    ensures IndexOf(order, x) <= j
  {
    if order[0] != x { FoundNoLater(order[1..], j - 1, x); }
  }

  predicate Enabled(pins: Pins, slug: string) {
    slug in pins && pins[slug].on
  }

  datatype Outcome = Outcome(pins: Pins, r: Result<(), Failure>)

  /** Switched on where it was, under the version it is pinned to; else pinned by its hook, in one
      transaction. `broken` are the plugins whose install hook raises. */
  function Pinned(pins: Pins, slug: string, version: string, broken: set<string>): Outcome {
    if slug in pins then Outcome(pins[slug := pins[slug].(on := true)], Ok(()))
    else if slug in broken then Outcome(pins, Err(HookFailed))
    else Outcome(pins[slug := Pin(version, true)], Ok(()))
  }

  function Wanted(reg: Registry, slug: string, version: Option<string>): string
    requires slug in reg.plugins
  {
    if version.Some? && version.value != "" then version.value else reg.plugins[slug].default
  }

  function Install(reg: Registry, pins: Pins, slug: string, version: Option<string>, broken: set<string>): Outcome
    requires Loaded(reg)
    decreases Rank(reg, slug), 1, 0
  {
    if slug !in reg.plugins then Outcome(pins, Err(UnknownPlugin))
    else if Wanted(reg, slug, version) !in reg.plugins[slug].versions then Outcome(pins, Err(NoSuchVersion))
    else
      var deps := InstallAll(reg, pins, slug, 0, broken);
      if deps.r.Err? then deps else Pinned(deps.pins, slug, Wanted(reg, slug, version), broken)
  }

  /** The requirements of `slug` from the k-th on, until one fails. */
  function InstallAll(reg: Registry, pins: Pins, slug: string, k: nat, broken: set<string>): Outcome
    requires Loaded(reg) && slug in reg.plugins && k <= |reg.plugins[slug].requires_|
    decreases Rank(reg, slug), 0, |reg.plugins[slug].requires_| - k
  {
    if k == |reg.plugins[slug].requires_| then Outcome(pins, Ok(()))
    else
      var first := Install(reg, pins, reg.plugins[slug].requires_[k], None, broken);
      if first.r.Err? then first else InstallAll(reg, first.pins, slug, k + 1, broken)
  }

  predicate Requires(reg: Registry, a: string, b: string) {
    a in reg.plugins && b in reg.plugins[a].requires_
  }

  predicate HasEnabledDependent(reg: Registry, pins: Pins, slug: string) {
    exists other :: other in reg.plugins && slug in reg.plugins[other].requires_ && Enabled(pins, other)
  }

  function Uninstall(reg: Registry, pins: Pins, slug: string, broken: set<string>): Outcome {
    if HasEnabledDependent(reg, pins, slug) then Outcome(pins, Err(HasDependents))
    else if slug !in pins then Outcome(pins, Ok(()))
    else if slug in reg.plugins && pins[slug].version in reg.plugins[slug].versions && slug in broken
    then Outcome(pins, Err(HookFailed))
    else Outcome(pins[slug := pins[slug].(on := false)], Ok(()))
  }

  // ------------------------------------------------------------------ closure

  /** Whatever is on has everything it requires on. */
  ghost predicate Closed(reg: Registry, pins: Pins) {
    forall a, b :: Requires(reg, a, b) && Enabled(pins, a) ==> Enabled(pins, b)
  }

  /** Nothing is unpinned, re-pinned or switched off. */
  ghost predicate Grown(before: Pins, after: Pins) {
    forall slug :: slug in before ==> slug in after && after[slug].version == before[slug].version
                                      && (before[slug].on ==> after[slug].on)
  }

  lemma PinKeepsClosed(reg: Registry, pins: Pins, slug: string, version: string, broken: set<string>)
    requires Closed(reg, pins) && forall b :: Requires(reg, slug, b) ==> Enabled(pins, b)
    ensures var out := Pinned(pins, slug, version, broken);
            && Closed(reg, out.pins) && Grown(pins, out.pins) && (out.r.Ok? ==> Enabled(out.pins, slug))
            && (forall s :: s != slug ==> Enabled(out.pins, s) == Enabled(pins, s))
  {
  }

  /** An install, of which every step may fail, leaves the enabled plugins closed under what they
      require, changes no pin, and where it succeeds has the plugin on. */
  lemma InstallHolds(reg: Registry, pins: Pins, slug: string, version: Option<string>, broken: set<string>)
    requires Loaded(reg) && Closed(reg, pins)
    ensures var out := Install(reg, pins, slug, version, broken);
            Closed(reg, out.pins) && Grown(pins, out.pins) && (out.r.Ok? ==> Enabled(out.pins, slug))
    decreases Rank(reg, slug), 1, 0
  {
    if slug in reg.plugins && Wanted(reg, slug, version) in reg.plugins[slug].versions {
      InstallAllHolds(reg, pins, slug, 0, broken);
      var deps := InstallAll(reg, pins, slug, 0, broken);
      if deps.r.Ok? {
        AllOn(reg, deps.pins, slug);
        PinKeepsClosed(reg, deps.pins, slug, Wanted(reg, slug, version), broken);
      }
    }
  }

  ghost predicate OnFrom(reg: Registry, pins: Pins, slug: string, k: nat)
    requires slug in reg.plugins
  {
    forall i :: k <= i < |reg.plugins[slug].requires_| ==> Enabled(pins, reg.plugins[slug].requires_[i])
  }

  lemma AllOn(reg: Registry, pins: Pins, slug: string)
    requires slug in reg.plugins && OnFrom(reg, pins, slug, 0)
    ensures forall b :: Requires(reg, slug, b) ==> Enabled(pins, b)
  {
  }

  lemma InstallAllHolds(reg: Registry, pins: Pins, slug: string, k: nat, broken: set<string>)
    requires Loaded(reg) && Closed(reg, pins) && slug in reg.plugins && k <= |reg.plugins[slug].requires_|
    ensures var out := InstallAll(reg, pins, slug, k, broken);
            Closed(reg, out.pins) && Grown(pins, out.pins) && (out.r.Ok? ==> OnFrom(reg, out.pins, slug, k))
    decreases Rank(reg, slug), 0, |reg.plugins[slug].requires_| - k
  {
    if k < |reg.plugins[slug].requires_| {
      var dep := reg.plugins[slug].requires_[k];
      InstallHolds(reg, pins, dep, None, broken);
      var first := Install(reg, pins, dep, None, broken);
      if first.r.Ok? {
        InstallAllHolds(reg, first.pins, slug, k + 1, broken);
      }
    }
  }

  lemma UninstallHolds(reg: Registry, pins: Pins, slug: string, broken: set<string>)
    requires Closed(reg, pins)
    ensures var out := Uninstall(reg, pins, slug, broken);
            && Closed(reg, out.pins) && out.pins.Keys == pins.Keys
            && (forall s :: s in pins ==>
                  out.pins[s].version == pins[s].version && (s != slug ==> out.pins[s] == pins[s]))
            && (out.r.Ok? ==> !Enabled(out.pins, slug))
  {
  }

  datatype Op = In(slug: string, version: Option<string>, broken: set<string>) | Out(slug: string, broken: set<string>)

  function Step(reg: Registry, pins: Pins, op: Op): Pins
    requires Loaded(reg)
  {
    match op
    case In(slug, version, broken) => Install(reg, pins, slug, version, broken).pins
    case Out(slug, broken) => Uninstall(reg, pins, slug, broken).pins
  }

  function Run(reg: Registry, pins: Pins, ops: seq<Op>): Pins
    requires Loaded(reg)
    decreases |ops|
  {
    if ops == [] then pins else Run(reg, Step(reg, pins, ops[0]), ops[1..])
  }

  ghost predicate PinsStand(before: Pins, after: Pins) {
    forall slug :: slug in before ==> slug in after && after[slug].version == before[slug].version
  }

  /** After any run of installs and uninstalls, failed ones included, the enabled plugins are
      closed under what they require and every pin is what it first was. */
  lemma {:induction false} RunKeepsClosed(reg: Registry, pins: Pins, ops: seq<Op>)
    requires Loaded(reg) && Closed(reg, pins)
    ensures Closed(reg, Run(reg, pins, ops)) && PinsStand(pins, Run(reg, pins, ops))
    decreases |ops|
  {
    if ops != [] {
      match ops[0] {
        case In(slug, version, broken) => InstallHolds(reg, pins, slug, version, broken);
        case Out(slug, broken) => UninstallHolds(reg, pins, slug, broken);
      }
      RunKeepsClosed(reg, Step(reg, pins, ops[0]), ops[1..]);
    }
  }

  // ------------------------------------------------------------------ what an install touches

  /** `b` is `a`, or something `a` requires needs it. */
  ghost predicate Needs(reg: Registry, a: string, b: string)
    requires Loaded(reg)
    decreases Rank(reg, a)
  {
    || a == b
    || (a in reg.plugins
        && exists k :: 0 <= k < |reg.plugins[a].requires_| && Needs(reg, reg.plugins[a].requires_[k], b))
  }

  /** Pinned already, or pinned without trouble. */
  predicate Able(pins: Pins, slug: string, broken: set<string>) {
    slug in pins || slug !in broken
  }

  /** An install leaves alone what the plugin does not need, and a hook that raises leaves no pin. */
  lemma InstallTouchesOnlyNeeded(reg: Registry, pins: Pins, slug: string, version: Option<string>,
                                 broken: set<string>, s: string)
    requires Loaded(reg)
    ensures var out := Install(reg, pins, slug, version, broken);
            && (!Needs(reg, slug, s) ==> (s in out.pins <==> s in pins) && (s in pins ==> out.pins[s] == pins[s]))
            && Able(out.pins, s, broken) == Able(pins, s, broken)
    decreases Rank(reg, slug), 1, 0
  {
    if slug in reg.plugins && Wanted(reg, slug, version) in reg.plugins[slug].versions {
      InstallAllTouchesOnlyNeeded(reg, pins, slug, 0, broken, s);
    }
  }

  lemma InstallAllTouchesOnlyNeeded(reg: Registry, pins: Pins, slug: string, k: nat, broken: set<string>, s: string)
    requires Loaded(reg) && slug in reg.plugins && k <= |reg.plugins[slug].requires_|
    ensures var out := InstallAll(reg, pins, slug, k, broken);
            && (!Needs(reg, slug, s) ==> (s in out.pins <==> s in pins) && (s in pins ==> out.pins[s] == pins[s]))
            && Able(out.pins, s, broken) == Able(pins, s, broken)
    decreases Rank(reg, slug), 0, |reg.plugins[slug].requires_| - k
  {
    if k < |reg.plugins[slug].requires_| {
      var dep := reg.plugins[slug].requires_[k];
      InstallTouchesOnlyNeeded(reg, pins, dep, None, broken, s);
      var first := Install(reg, pins, dep, None, broken);
      if first.r.Ok? { InstallAllTouchesOnlyNeeded(reg, first.pins, slug, k + 1, broken, s); }
    }
  }

  predicate HasMajor(reg: Registry, slug: string, version: Option<string>) {
    slug in reg.plugins && Wanted(reg, slug, version) in reg.plugins[slug].versions
  }

  /** Everything `slug` needs can be installed at its default major. */
  ghost predicate Installable(reg: Registry, pins: Pins, slug: string, broken: set<string>)
    requires Loaded(reg)
  {
    forall s :: Needs(reg, slug, s) ==> HasMajor(reg, s, None) && Able(pins, s, broken)
  }

  ghost predicate RestInstallable(reg: Registry, pins: Pins, slug: string, k: nat, broken: set<string>)
    requires Loaded(reg) && slug in reg.plugins && k <= |reg.plugins[slug].requires_|
  {
    forall i :: k <= i < |reg.plugins[slug].requires_|
      ==> Installable(reg, pins, reg.plugins[slug].requires_[i], broken)
  }

  /** An install succeeds exactly when the major asked for exists, every other plugin needed has
      its default major, and no hook that still has to run raises. */
  lemma InstallSucceedsExactly(reg: Registry, pins: Pins, slug: string, version: Option<string>, broken: set<string>)
    requires Loaded(reg)
    ensures Install(reg, pins, slug, version, broken).r.Ok?
       <==> (HasMajor(reg, slug, version) && Able(pins, slug, broken) && RestInstallable(reg, pins, slug, 0, broken))
    decreases Rank(reg, slug), 1, 0
  {
    if HasMajor(reg, slug, version) {
      InstallAllSucceedsExactly(reg, pins, slug, 0, broken);
      InstallAllTouchesOnlyNeeded(reg, pins, slug, 0, broken, slug);
    }
  }

  /** A plugin the installation does not have, and a major it has not, are told apart and change
      nothing. */
  lemma InstallRefuses(reg: Registry, pins: Pins, slug: string, version: Option<string>, broken: set<string>)
    requires Loaded(reg)
    ensures slug !in reg.plugins ==> Install(reg, pins, slug, version, broken) == Outcome(pins, Err(UnknownPlugin))
    ensures slug in reg.plugins && !HasMajor(reg, slug, version) ==>
              Install(reg, pins, slug, version, broken) == Outcome(pins, Err(NoSuchVersion))
  {
  }

  lemma InstallAllSucceedsExactly(reg: Registry, pins: Pins, slug: string, k: nat, broken: set<string>)
    requires Loaded(reg) && slug in reg.plugins && k <= |reg.plugins[slug].requires_|
    ensures InstallAll(reg, pins, slug, k, broken).r.Ok? <==> RestInstallable(reg, pins, slug, k, broken)
    decreases Rank(reg, slug), 0, |reg.plugins[slug].requires_| - k
  {
    hide Install, Installable, Needs, Able, HasMajor;
    if k < |reg.plugins[slug].requires_| {
      var dep := reg.plugins[slug].requires_[k];
      InstallSucceedsExactly(reg, pins, dep, None, broken);
      NeedsSplit(reg, pins, dep, broken);
      var first := Install(reg, pins, dep, None, broken);
      if first.r.Ok? {
        InstallAllSucceedsExactly(reg, first.pins, slug, k + 1, broken);
        SameAble(reg, pins, first.pins, slug, k + 1, broken, dep);
      }
    }
  }

  lemma NeedsSplit(reg: Registry, pins: Pins, slug: string, broken: set<string>)
    requires Loaded(reg) && slug in reg.plugins
    ensures Installable(reg, pins, slug, broken)
       <==> (HasMajor(reg, slug, None) && Able(pins, slug, broken) && RestInstallable(reg, pins, slug, 0, broken))
  {
  }

  lemma SameAble(reg: Registry, pins: Pins, after: Pins, slug: string, k: nat, broken: set<string>, dep: string)
    requires Loaded(reg) && slug in reg.plugins && k <= |reg.plugins[slug].requires_|
    requires after == Install(reg, pins, dep, None, broken).pins
    ensures RestInstallable(reg, pins, slug, k, broken) <==> RestInstallable(reg, after, slug, k, broken)
  {
    forall s ensures Able(after, s, broken) == Able(pins, s, broken) {
      InstallTouchesOnlyNeeded(reg, pins, dep, None, broken, s);
    }
  }

  // ------------------------------------------------------------------ what an install leaves

  /** A row an install adds is on, at the plugin's default major. */
  ghost predicate NewAtDefault(reg: Registry, before: Pins, after: Pins) {
    forall s :: s in after && s !in before ==> s in reg.plugins && after[s] == Pin(reg.plugins[s].default, true)
  }

  /** What an install adds beside the plugin itself, its requirements, it adds at their default majors;
      the plugin it pins to the major asked for, or to its default, and where it is pinned already
      leaves it on the major it is on. */
  lemma InstallPins(reg: Registry, pins: Pins, slug: string, version: Option<string>, broken: set<string>)
    requires Loaded(reg)
    ensures var out := Install(reg, pins, slug, version, broken);
            && (forall s :: s in out.pins && s !in pins && s != slug ==>
                  s in reg.plugins && out.pins[s] == Pin(reg.plugins[s].default, true))
            && (out.r.Ok? ==>
                  slug in reg.plugins && slug in out.pins
                  && out.pins[slug] == Pin(if slug in pins then pins[slug].version
                                           else if version.None? || version.value == "" then reg.plugins[slug].default
                                           else version.value, true))
    decreases Rank(reg, slug), 1, 0
  {
    if HasMajor(reg, slug, version) {
      InstallAllPins(reg, pins, slug, 0, broken);
      InstallAllTouchesOnlyNeeded(reg, pins, slug, 0, broken, slug);
      RequirementsStandAlone(reg, pins, slug, 0, broken);
    }
  }

  /** Closed or not, an install unpins nothing, re-pins nothing and switches nothing off. */
  lemma InstallGrows(reg: Registry, pins: Pins, slug: string, version: Option<string>, broken: set<string>)
    requires Loaded(reg)
    ensures Grown(pins, Install(reg, pins, slug, version, broken).pins)
    decreases Rank(reg, slug), 1, 0
  {
    if HasMajor(reg, slug, version) { InstallAllGrows(reg, pins, slug, 0, broken); }
  }

  lemma InstallAllGrows(reg: Registry, pins: Pins, slug: string, k: nat, broken: set<string>)
    requires Loaded(reg) && slug in reg.plugins && k <= |reg.plugins[slug].requires_|
    ensures Grown(pins, InstallAll(reg, pins, slug, k, broken).pins)
    decreases Rank(reg, slug), 0, |reg.plugins[slug].requires_| - k
  {
    if k < |reg.plugins[slug].requires_| {
      var dep := reg.plugins[slug].requires_[k];
      InstallGrows(reg, pins, dep, None, broken);
      var first := Install(reg, pins, dep, None, broken);
      if first.r.Ok? { InstallAllGrows(reg, first.pins, slug, k + 1, broken); }
    }
  }

  lemma InstallAllPins(reg: Registry, pins: Pins, slug: string, k: nat, broken: set<string>)
    requires Loaded(reg) && slug in reg.plugins && k <= |reg.plugins[slug].requires_|
    ensures NewAtDefault(reg, pins, InstallAll(reg, pins, slug, k, broken).pins)
    decreases Rank(reg, slug), 0, |reg.plugins[slug].requires_| - k
  {
    if k < |reg.plugins[slug].requires_| {
      var dep := reg.plugins[slug].requires_[k];
      InstallPins(reg, pins, dep, None, broken);
      FailedAddsNoPin(reg, pins, dep, broken);
      var first := Install(reg, pins, dep, None, broken);
      if first.r.Ok? {
        InstallAllPins(reg, first.pins, slug, k + 1, broken);
        InstallAllGrows(reg, first.pins, slug, k + 1, broken);
      }
    }
  }

  /** Nothing a plugin requires needs the plugin. */
  lemma {:induction false} NeedsGoesDown(reg: Registry, a: string, b: string)
    requires Loaded(reg) && Needs(reg, a, b)
    ensures a == b || Rank(reg, b) < Rank(reg, a)
    decreases Rank(reg, a)
  {
    if a != b {
      var k :| 0 <= k < |reg.plugins[a].requires_| && Needs(reg, reg.plugins[a].requires_[k], b);
      NeedsGoesDown(reg, reg.plugins[a].requires_[k], b);
    }
  }

  lemma FailedAddsNoPin(reg: Registry, pins: Pins, slug: string, broken: set<string>)
    requires Loaded(reg)
    ensures var out := Install(reg, pins, slug, None, broken); out.r.Err? && slug !in pins ==> slug !in out.pins
  {
    if HasMajor(reg, slug, None) { RequirementsStandAlone(reg, pins, slug, 0, broken); }
  }

  lemma RequirementsStandAlone(reg: Registry, pins: Pins, slug: string, k: nat, broken: set<string>)
    requires Loaded(reg) && slug in reg.plugins && k <= |reg.plugins[slug].requires_|
    ensures var out := InstallAll(reg, pins, slug, k, broken);
            (slug in out.pins <==> slug in pins) && (slug in pins ==> out.pins[slug] == pins[slug])
    decreases |reg.plugins[slug].requires_| - k
  {
    if k < |reg.plugins[slug].requires_| {
      var dep := reg.plugins[slug].requires_[k];
      InstallTouchesOnlyNeeded(reg, pins, dep, None, broken, slug);
      if Needs(reg, dep, slug) { NeedsGoesDown(reg, dep, slug); }
      var first := Install(reg, pins, dep, None, broken);
      if first.r.Ok? { RequirementsStandAlone(reg, first.pins, slug, k + 1, broken); }
    }
  }

  /** A successful install has everything the plugin needs on. */
  lemma InstallTurnsOnAll(reg: Registry, pins: Pins, slug: string, version: Option<string>, broken: set<string>,
                          s: string)
    requires Loaded(reg) && Closed(reg, pins) && Install(reg, pins, slug, version, broken).r.Ok? && Needs(reg, slug, s)
    ensures Enabled(Install(reg, pins, slug, version, broken).pins, s)
  {
    InstallHolds(reg, pins, slug, version, broken);
    NeededIsOn(reg, Install(reg, pins, slug, version, broken).pins, slug, s);
  }

  lemma {:induction false} NeededIsOn(reg: Registry, pins: Pins, a: string, b: string)
    requires Loaded(reg) && Closed(reg, pins) && Enabled(pins, a) && Needs(reg, a, b)
    ensures Enabled(pins, b)
    decreases Rank(reg, a)
  {
    if a != b {
      var k :| 0 <= k < |reg.plugins[a].requires_| && Needs(reg, reg.plugins[a].requires_[k], b);
      assert Requires(reg, a, reg.plugins[a].requires_[k]);
      NeededIsOn(reg, pins, reg.plugins[a].requires_[k], b);
    }
  }

  /** An uninstall is refused exactly where something that requires the plugin is on, or its hook is
      to run and raises; it switches off that plugin alone, and keeps its pin. */
  lemma UninstallSucceedsExactly(reg: Registry, pins: Pins, slug: string, broken: set<string>)
    ensures var out := Uninstall(reg, pins, slug, broken);
            && (out.r.Ok? <==>
                  && (forall a :: Requires(reg, a, slug) ==> !Enabled(pins, a))
                  && !(slug in pins && slug in reg.plugins && pins[slug].version in reg.plugins[slug].versions
                       && slug in broken))
            && (out.r.Err? ==> out.pins == pins)
            && (out.r.Ok? ==> !Enabled(out.pins, slug))
            && (forall s :: s != slug ==> (s in out.pins <==> s in pins) && (s in pins ==> out.pins[s] == pins[s]))
            && (slug in out.pins <==> slug in pins) && (slug in pins ==> out.pins[slug].version == pins[slug].version)
  {
  }

  /** An install undoes an uninstall: a plugin that was on, uninstalled and installed again, whatever
      major is asked for, is back where it was with everything else. */
  lemma InstallUndoesUninstall(reg: Registry, pins: Pins, slug: string, version: Option<string>, out: set<string>,
                               broken: set<string>)
    requires Loaded(reg) && Closed(reg, pins) && Enabled(pins, slug)
    requires Uninstall(reg, pins, slug, out).r.Ok?
    requires Install(reg, Uninstall(reg, pins, slug, out).pins, slug, version, broken).r.Ok?
    ensures Install(reg, Uninstall(reg, pins, slug, out).pins, slug, version, broken).pins == pins
  {
    var off := Uninstall(reg, pins, slug, out).pins;
    RequirementsOn(reg, pins, off, slug);
    AllOnAlready(reg, off, slug, 0, broken);
    assert off[slug := off[slug].(on := true)] == pins;
  }

  lemma RequirementsOn(reg: Registry, pins: Pins, off: Pins, slug: string)
    requires Loaded(reg) && Closed(reg, pins) && Enabled(pins, slug) && slug in reg.plugins
    requires off == pins[slug := pins[slug].(on := false)]
    ensures forall s :: Needs(reg, slug, s) && s != slug ==> Enabled(off, s)
  {
    forall s | Needs(reg, slug, s) && s != slug ensures Enabled(off, s) {
      NeededIsOn(reg, pins, slug, s);
    }
  }

  /** Installing what is on already, with all it needs, changes nothing. */
  lemma OnAlready(reg: Registry, pins: Pins, slug: string, version: Option<string>, broken: set<string>)
    requires Loaded(reg) && forall s :: Needs(reg, slug, s) ==> Enabled(pins, s)
    ensures Install(reg, pins, slug, version, broken).pins == pins
    decreases Rank(reg, slug), 1, 0
  {
    if slug in reg.plugins && HasMajor(reg, slug, version) {
      AllOnAlready(reg, pins, slug, 0, broken);
      assert Needs(reg, slug, slug) && pins[slug := pins[slug].(on := true)] == pins;
    }
  }

  lemma AllOnAlready(reg: Registry, pins: Pins, slug: string, k: nat, broken: set<string>)
    requires Loaded(reg) && slug in reg.plugins && k <= |reg.plugins[slug].requires_|
    requires forall s :: Needs(reg, slug, s) && s != slug ==> Enabled(pins, s)
    ensures InstallAll(reg, pins, slug, k, broken).pins == pins
    decreases Rank(reg, slug), 0, |reg.plugins[slug].requires_| - k
  {
    if k < |reg.plugins[slug].requires_| {
      var dep := reg.plugins[slug].requires_[k];
      forall s | Needs(reg, dep, s) ensures Enabled(pins, s) {
        NeedsGoesDown(reg, dep, s);
        assert Needs(reg, slug, s) && s != slug;
      }
      OnAlready(reg, pins, dep, None, broken);
      var first := Install(reg, pins, dep, None, broken);
      if first.r.Ok? { AllOnAlready(reg, pins, slug, k + 1, broken); }
    }
  }

  class OrgPlugins {
    var pins: Pins

    method InstallPlugin(reg: Registry, slug: string, version: Option<string>, broken: set<string>)
      returns (r: Result<(), Failure>)
      requires Loaded(reg)
      modifies this
      ensures Outcome(pins, r) == Install(reg, old(pins), slug, version, broken)
      decreases Rank(reg, slug)
    {
      if slug !in reg.plugins {
        return Err(UnknownPlugin);
      }
      var wanted := Wanted(reg, slug, version);
      if wanted !in reg.plugins[slug].versions {
        return Err(NoSuchVersion);
      }
      var deps, k := reg.plugins[slug].requires_, 0;
      while k < |deps|
        invariant 0 <= k <= |deps|
        invariant InstallAll(reg, old(pins), slug, 0, broken) == InstallAll(reg, pins, slug, k, broken)
      {
        r := InstallPlugin(reg, deps[k], None, broken);
        if r.Err? {
          return;
        }
        k := k + 1;
      }
      if slug in pins {
        pins := pins[slug := pins[slug].(on := true)];
      } else if slug in broken {
        return Err(HookFailed);
      } else {
        pins := pins[slug := Pin(wanted, true)];
      }
      r := Ok(());
    }

    method UninstallPlugin(reg: Registry, slug: string, broken: set<string>) returns (r: Result<(), Failure>)
      modifies this
      ensures Outcome(pins, r) == Uninstall(reg, old(pins), slug, broken)
    {
      if HasEnabledDependent(reg, pins, slug) {
        return Err(HasDependents);
      }
      if slug !in pins {
        return Ok(());
      }
      var was := pins;
      pins := pins[slug := pins[slug].(on := false)];
      if slug in reg.plugins && pins[slug].version in reg.plugins[slug].versions && slug in broken {
        pins := was;
        return Err(HookFailed);
      }
      r := Ok(());
    }
  }
}
