/**
 * The code lenses of src/server.rs: above the rule type of every target of a
 * BUILD file, a "Test" lens for a `*_test` rule or else a "▶ Run" lens for a
 * `*_binary` rule, and then always a "Build" lens, each carrying the target's
 * full path. The package path and the file's targets (`None` when they cannot
 * be extracted) are inputs.
 */
module CodeLens {
  import opened Wrappers
  import opened Lsp
  import opened Targets
  import Indexer

  /** A client command and the path it acts on (the `{"target": path}` argument). */
  datatype Command = Command(title: string, command: string, target: string)

  datatype Lens = Lens(range: Range, command: Command)

  predicate EndsWith(s: string, suffix: string)
  {
    |suffix| <= |s| && s[|s| - |suffix|..] == suffix
  }

  /** The path a lens acts on: `//:name` in the root package, `//package:name` elsewhere. */
  function FullTargetPath(pkg: string, name: string): string
  {
    if pkg == [] then "//:" + name else "//" + pkg + ":" + name
  }

  /** The lenses of one target: a Test or Run lens when its rule type asks for one, then its Build lens. */
  function TargetLenses(pkg: string, t: BazelTarget): seq<Lens>
  {
    var path := FullTargetPath(pkg, t.name);
    var extra :=
      if EndsWith(t.ruleType, "_test") then [Lens(t.ruleTypeRange, Command("Test " + t.name, "bazel.test", path))]
      else if EndsWith(t.ruleType, "_binary") then [Lens(t.ruleTypeRange, Command("\U{25B6} Run " + t.name, "bazel.run", path))]
      else [];
    extra + [Lens(t.ruleTypeRange, Command("Build " + t.name, "bazel.build", path))]
  }

  /** The lenses of the targets, in order. */
  function LensesFor(pkg: string, targets: seq<BazelTarget>): (r: seq<Lens>)
  {
    if targets == [] then []
    else LensesFor(pkg, targets[..|targets| - 1]) + TargetLenses(pkg, targets[|targets| - 1])
  }

  /** Every target gets one lens or two. */
  lemma {:induction false} LensesForLength(pkg: string, targets: seq<BazelTarget>)
    ensures |targets| <= |LensesFor(pkg, targets)| <= 2 * |targets|
  {
    if targets != [] {
      LensesForLength(pkg, targets[..|targets| - 1]);
    }
  }

  /** `code_lens`: the lenses of every target of the file; none when its targets cannot be extracted. */
  method CodeLenses(pkg: string, targets: Option<seq<BazelTarget>>) returns (lenses: seq<Lens>)
    ensures lenses == if targets.Some? then LensesFor(pkg, targets.value) else []
  {
    lenses := [];
    if targets.None? {
      return;
    }
    var ts := targets.value;
    var i := 0;
    while i < |ts|
      invariant i <= |ts|
      invariant lenses == LensesFor(pkg, ts[..i])
    {
      var t := ts[i];
      var path := if pkg == [] then "//:" + t.name else "//" + pkg + ":" + t.name;
      if EndsWith(t.ruleType, "_test") {
        lenses := lenses + [Lens(t.ruleTypeRange, Command("Test " + t.name, "bazel.test", path))];
      } else if EndsWith(t.ruleType, "_binary") {
        lenses := lenses + [Lens(t.ruleTypeRange, Command("\U{25B6} Run " + t.name, "bazel.run", path))];
      }
      lenses := lenses + [Lens(t.ruleTypeRange, Command("Build " + t.name, "bazel.build", path))];
      assert ts[..i + 1][..i] == ts[..i];
      i := i + 1;
    }
    assert ts[..i] == ts;
  }

  // ---------------------------------------------------------------------------
  // What the lenses say

  /** The number of lenses running `command`. */
  function CountCommand(lenses: seq<Lens>, command: string): nat
  {
    if lenses == [] then 0
    else CountCommand(lenses[..|lenses| - 1], command) + if lenses[|lenses| - 1].command.command == command then 1 else 0
  }

  /** The number of targets whose rule type satisfies `test`. */
  function CountTargets(targets: seq<BazelTarget>, test: string -> bool): nat
  {
    if targets == [] then 0
    else CountTargets(targets[..|targets| - 1], test) + if test(targets[|targets| - 1].ruleType) then 1 else 0
  }

  predicate IsTestRule(ruleType: string)
  {
    EndsWith(ruleType, "_test")
  }

  predicate IsRunRule(ruleType: string)
  {
    !EndsWith(ruleType, "_test") && EndsWith(ruleType, "_binary")
  }

  lemma {:induction false} CountAppend(a: seq<Lens>, b: seq<Lens>, command: string)
    ensures CountCommand(a + b, command) == CountCommand(a, command) + CountCommand(b, command)
    decreases |b|
  {
    if b == [] {
      assert a + b == a;
    } else {
      CountAppend(a, b[..|b| - 1], command);
      assert (a + b)[..|a + b| - 1] == a + b[..|b| - 1];
    }
  }

  /**
   * Every target gets exactly one Build lens, every `*_test` target one Test
   * lens, and every other `*_binary` target one Run lens; so the file has as
   * many lenses of each kind as it has targets of that kind.
   */
  lemma {:induction false} LensCounts(pkg: string, targets: seq<BazelTarget>)
    ensures CountCommand(LensesFor(pkg, targets), "bazel.build") == |targets|
    ensures CountCommand(LensesFor(pkg, targets), "bazel.test") == CountTargets(targets, IsTestRule)
    ensures CountCommand(LensesFor(pkg, targets), "bazel.run") == CountTargets(targets, IsRunRule)
    decreases |targets|
  {
    if targets != [] {
      var init, t := targets[..|targets| - 1], targets[|targets| - 1];
      LensCounts(pkg, init);
      CountAppend(LensesFor(pkg, init), TargetLenses(pkg, t), "bazel.build");
      CountAppend(LensesFor(pkg, init), TargetLenses(pkg, t), "bazel.test");
      CountAppend(LensesFor(pkg, init), TargetLenses(pkg, t), "bazel.run");
      TargetLensCounts(pkg, t);
    }
  }

  /** One target's lenses: one Build lens, and one Test or Run lens as its rule type says. */
  lemma TargetLensCounts(pkg: string, t: BazelTarget)
    ensures CountCommand(TargetLenses(pkg, t), "bazel.build") == 1
    ensures CountCommand(TargetLenses(pkg, t), "bazel.test") == if IsTestRule(t.ruleType) then 1 else 0
    ensures CountCommand(TargetLenses(pkg, t), "bazel.run") == if IsRunRule(t.ruleType) then 1 else 0
  {
    var lenses := TargetLenses(pkg, t);
    var build := lenses[|lenses| - 1];
    assert build.command.command == "bazel.build";
    CommandsDiffer();
    if |lenses| == 1 {
      CountOne(build, "bazel.build");
      CountOne(build, "bazel.test");
      CountOne(build, "bazel.run");
    } else {
      var first := lenses[0];
      assert lenses == [first, build];
      CountTwo(first, build, "bazel.build");
      CountTwo(first, build, "bazel.test");
      CountTwo(first, build, "bazel.run");
    }
  }

  lemma CommandsDiffer()
    ensures "bazel.build" != "bazel.test" && "bazel.build" != "bazel.run" && "bazel.run" != "bazel.test"
  {
    assert "bazel.build"[6] != "bazel.test"[6];
    assert "bazel.build"[6] != "bazel.run"[6];
    assert "bazel.run"[6] != "bazel.test"[6];
  }

  lemma CountOne(a: Lens, command: string)
    ensures CountCommand([a], command) == if a.command.command == command then 1 else 0
  {
    assert [a][..0] == [];
  }

  lemma CountTwo(a: Lens, b: Lens, command: string)
    ensures CountCommand([a, b], command)
         == (if a.command.command == command then 1 else 0) + (if b.command.command == command then 1 else 0)
  {
    assert [a, b][..1] == [a];
    CountOne(a, command);
  }

  /**
   * Every lens of the file sits on the rule type of one of its targets and
   * acts on that target's path, which is the path the indexer stores the
   * target under.
   */
  lemma {:induction false} LensesBelongToTargets(pkg: string, targets: seq<BazelTarget>, i: nat)
    requires i < |LensesFor(pkg, targets)|
    ensures exists j | 0 <= j < |targets| ::
      && LensesFor(pkg, targets)[i].range == targets[j].ruleTypeRange
      && LensesFor(pkg, targets)[i].command.target == Indexer.RuleOf(pkg, targets[j].name).fullBuildPath
    decreases |targets|
  {
    var init, t := targets[..|targets| - 1], targets[|targets| - 1];
    var before := LensesFor(pkg, init);
    if i < |before| {
      LensesBelongToTargets(pkg, init, i);
      var j :| 0 <= j < |init| && before[i].range == init[j].ruleTypeRange
        && before[i].command.target == Indexer.RuleOf(pkg, init[j].name).fullBuildPath;
      assert targets[j] == init[j];
    } else {
      LabelIsIndexedLabel(pkg, t.name);
      assert targets[|targets| - 1] == t;
    }
  }

  /** The path a lens acts on is the full path the indexer records for the target. */
  lemma LabelIsIndexedLabel(pkg: string, name: string)
    ensures FullTargetPath(pkg, name) == Indexer.RuleOf(pkg, name).fullBuildPath
  {
    if pkg == [] {
      assert "//" + pkg + [':'] + name == "//:" + name;
    }
  }
}
