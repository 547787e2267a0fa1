/** The `Hana` orchestrator of hana/core.py:11-68: it holds the master FileSet and an
    ordered list of (plugin, patterns) registrations, and `_process` runs each plugin on
    the view `files.filter(patterns)`.

    A plugin is code hana does not see. What `_process` guarantees about it depends
    only on what the plugin does through its view, so a plugin is modelled as the
    script of adds, removes and renames it performs there. */
module Pipeline {
  import opened Errors
  import opened Values
  import opened Chains
  import opened Files
  import opened FileSets

  /** A plugin, as the adds, removes and renames it makes through its view. */
  datatype Plugin = Plugin(name: string, script: seq<Op<File>>)

  /** The `pattern` argument of `Hana.plugin`: None, one byte string (`str`), one text
      string (`unicode`), or a list of strings. */
  datatype PatternArg =
    | NoPattern
    | OnePattern(pattern: string)
    | OneUnicodePattern(text: string)
    | PatternList(patterns: seq<string>)

  type Registration = (Plugin, Option<seq<string>>)

  /** The pattern list `plugin` stores (hana/core.py:41-44). Only a Python 2 `str` passes
      `isinstance(pattern, str)` and is wrapped in a list; a `unicode` string is stored
      as it is, and `pathspec` later iterates it as the list of its characters. */
  function PatternsOf(arg: PatternArg): (r: Option<seq<string>>)
    ensures r.None? <==> arg.NoPattern?
    ensures arg.OnePattern? ==> r == Some([arg.pattern])
    ensures arg.OneUnicodePattern? ==>
              r.Some? && |r.value| == |arg.text| &&
              forall i :: 0 <= i < |arg.text| ==> r.value[i] == [arg.text[i]]
    ensures arg.PatternList? ==> r == Some(arg.patterns)
  {
    match arg
    case NoPattern => None
    case OnePattern(p) => Some([p])
    case OneUnicodePattern(t) => Some(seq(|t|, i requires 0 <= i < |t| => [t[i]]))
    case PatternList(ps) => Some(ps)
  }

  /** A `unicode` pattern such as `u'*.md'` is not wrapped, so the patterns compiled are
      its single characters, `'*'` among them; an empty one leaves no pattern at all, and
      `filter` then hands the plugin the master set itself. */
  lemma UnicodePatternIsSplit()
    ensures PatternsOf(OneUnicodePattern("*.md")) == Some(["*", ".", "m", "d"])
    ensures PatternsOf(OnePattern("*.md")) == Some(["*.md"])
    ensures PatternsOf(OneUnicodePattern("")) == Some([])
  {
    var t := "*.md";
    var r := PatternsOf(OneUnicodePattern(t)).value;
    assert |r| == 4 && t[0] == '*' && t[1] == '.' && t[2] == 'm' && t[3] == 'd';
    assert r == ["*", ".", "m", "d"];
  }

  /** `_validate_configuration` (hana/core.py:32-34): the output directory must be given
      and non-empty. */
  function ValidateConfiguration(output: Option<string>): (r: Outcome)
    ensures r == Pass <==> output.Some? && output.value != ""
    ensures r.Fail? ==> r.error == MissingOutputDirectory
  {
    if output.None? || output.value == "" then Fail(MissingOutputDirectory) else Pass
  }

  /** The chain of maps a plugin's view sees over the master map: the master alone when
      the registration has no patterns, otherwise the filtered view and the master. */
  function ViewChain(master: map<string, File>, patterns: Option<seq<string>>,
                      compile: seq<string> -> (string -> bool)): (ms: Chain<File>)
    ensures |ms| > 0 && Top(ms) == master && Nested(ms)
  {
    if patterns.None? || patterns.value == [] then [master]
    else [Select(master, compile(patterns.value)), master]
  }

  /** One iteration of `_process`: the master map after the plugin ran on its view, and
      whether it raised. */
  function RunPlugin(master: map<string, File>, reg: Registration,
                     compile: seq<string> -> (string -> bool)): (map<string, File>, Outcome)
  {
    var (ms, o) := ApplyOps(ViewChain(master, reg.1, compile), reg.0.script);
    (Top(ms), o)
  }

  /** `_process` (hana/core.py:66-68): the plugins in registration order, each on the map
      the previous ones left; an exception aborts the remaining plugins. */
  function RunPlugins(master: map<string, File>, regs: seq<Registration>,
                      compile: seq<string> -> (string -> bool)): (map<string, File>, Outcome)
    decreases |regs|
  {
    if regs == [] then (master, Pass)
    else
      var (m, o) := RunPlugin(master, regs[0], compile);
      if o.Fail? then (m, o) else RunPlugins(m, regs[1..], compile)
  }

  /** Registration order is run order: a plugin registered after the others runs on the
      set they leave behind, and only when none of them raised. */
  lemma {:induction false} RunPluginsAppend(master: map<string, File>, regs: seq<Registration>,
                                            reg: Registration, compile: seq<string> -> (string -> bool))
    ensures var (m, o) := RunPlugins(master, regs, compile);
            RunPlugins(master, regs + [reg], compile) == if o.Fail? then (m, o) else RunPlugin(m, reg, compile)
    decreases |regs|
  {
    if regs == [] {
      assert [] + [reg] == [reg] && [reg][1..] == [];
    } else {
      assert (regs + [reg])[0] == regs[0] && (regs + [reg])[1..] == regs[1..] + [reg];
      var (m, o) := RunPlugin(master, regs[0], compile);
      if o.Pass? {
        RunPluginsAppend(m, regs[1..], reg, compile);
      }
    }
  }

  /** Views delegate rather than copy: a plugin that completes leaves the master map
      exactly as if it had made its changes on the master set itself. */
  lemma PluginActsOnMaster(master: map<string, File>, reg: Registration,
                           compile: seq<string> -> (string -> bool))
    requires RunPlugin(master, reg, compile).1 == Pass
    ensures ApplyOps([master], reg.0.script) == ([RunPlugin(master, reg, compile).0], Pass)
  {
    ApplyOpsReachesTop(ViewChain(master, reg.1, compile), reg.0.script);
  }

  /** A plugin that removes a file through its view removes it from the master set that
      every later plugin sees; removing a file outside its view raises KeyError and changes
      nothing. */
  lemma RemoveThroughView(master: map<string, File>, patterns: Option<seq<string>>,
                          compile: seq<string> -> (string -> bool), name: string, k: string)
    ensures var view := ViewChain(master, patterns, compile)[0];
            RunPlugin(master, (Plugin(name, [RemoveOp(k)]), patterns), compile)
              == if k in view then (master - {k}, Pass) else (master, Fail(KeyError))
  {
    var ms := ViewChain(master, patterns, compile);
    RemoveNested(ms, k);
    NestedReachesTop(ms, 0);
    var r := RemoveThrough(ms, k);
    assert ApplyOps(ms, [RemoveOp(k)]) == r;
    if k in ms[0] {
      assert Top(r.0) == Top(ms) - {k};
    }
  }

  /** The finding of hana/core.py:145-146 at the level of the pipeline: on a fresh
      `Hana`, a plugin registered with patterns that adds a page through its view leaves
      the master set empty as written, while the corrected add that `Process` uses
      stores the page there. */
  lemma AsWrittenPluginAddIsLost(patterns: seq<string>, compile: seq<string> -> (string -> bool),
                                 name: string, k: string, f: File)
    requires patterns != []
    ensures Top(AddThroughAsWritten(ViewChain(map[], Some(patterns), compile), k, f)) == map[]
    ensures RunPlugin(map[], (Plugin(name, [AddOp(k, f)]), Some(patterns)), compile) == (map[k := f], Pass)
  {
    var ms := ViewChain(map[], Some(patterns), compile);
    assert ms == [map[], map[]];
    assert ApplyOps(ms, [AddOp(k, f)]) == (AddThrough(ms, k, f), Pass);
  }

  /** One `view.add`, `view.remove` or `view.rename` call made by a plugin. */
  method Perform(view: FileSet, op: Op<File>) returns (r: Outcome)
    requires view.Valid()
    modifies view.Repr
    ensures view.Valid()
    ensures (view.Maps(), r) == ApplyOp(old(view.Maps()), op)
  {
    match op {
      case AddOp(k, f) =>
        view.Add(k, f);
        r := Pass;
      case RemoveOp(k) =>
        r := view.Remove(k);
      case RenameOp(a, b) =>
        r := view.Rename(a, b);
    }
  }

  /** A plugin's calls, made one after another on the view it was given; the first call
      that raises ends the plugin. */
  method RunScript(view: FileSet, script: seq<Op<File>>) returns (r: Outcome)
    requires view.Valid()
    modifies view.Repr
    ensures (view.Maps(), r) == ApplyOps(old(view.Maps()), script)
  {
    r := Pass;
    var i := 0;
    while i < |script|
      invariant 0 <= i <= |script|
      invariant view.Valid()
      invariant r == Pass
      invariant ApplyOps(old(view.Maps()), script) == ApplyOps(view.Maps(), script[i..])
      decreases |script| - i
    {
      ghost var before := view.Maps();
      assert script[i..][0] == script[i] && script[i..][1..] == script[i + 1..];
      r := Perform(view, script[i]);
      assert ApplyOps(before, script[i..]) ==
             if r.Fail? then (view.Maps(), r) else ApplyOps(view.Maps(), script[i + 1..]);
      if r.Fail? {
        return;
      }
      i := i + 1;
    }
  }

  class Hana {
    const output: string
    var plugins: seq<Registration>
    var metadata: map<string, Value>
    const files: FileSet

    ghost predicate Valid() {
      files.Valid() && files.parent == null && output != ""
    }

    constructor Init(out: string)
      requires out != ""
      ensures Valid() && output == out && plugins == [] && metadata == map[]
      ensures fresh(files) && files.files == map[]
    {
      output := out;
      plugins := [];
      metadata := map[];
      files := new FileSet();
    }

    /** `Hana(configuration, output_directory)` (hana/core.py:13-26). A truthy
        configuration calls `_load_configuration`, which is declared without `self` and so
        raises TypeError; then a missing or empty output directory raises
        HanaMissingOutputDirectoryError; otherwise the pipeline starts with no plugins and
        an empty file set. */
    static method Create(configuration: Option<string>, output: Option<string>) returns (r: Result<Hana>)
      ensures configuration.Some? && configuration.value != "" ==> r == Err(TypeError)
      ensures (configuration.None? || configuration.value == "") && ValidateConfiguration(output).Fail? ==>
                r == Err(MissingOutputDirectory)
      ensures r.Ok? <==> (configuration.None? || configuration.value == "") && ValidateConfiguration(output) == Pass
      ensures r.Ok? ==>
                && fresh(r.value) && fresh(r.value.files) && r.value.Valid()
                && r.value.output == output.value
                && r.value.plugins == [] && r.value.metadata == map[] && r.value.files.files == map[]
    {
      if configuration.Some? && configuration.value != "" {
        return Err(TypeError);
      }
      var v := ValidateConfiguration(output);
      if v.Fail? {
        return Err(v.error);
      }
      var h := new Hana.Init(output.value);
      return Ok(h);
    }

    /** `plugin(plugin, pattern=None)` (hana/core.py:40-44): a single string pattern becomes
        a one-element list, and the registration goes to the end of the list. */
    method Plugin(p: Plugin, pattern: PatternArg)
      modifies this`plugins
      ensures plugins == old(plugins) + [(p, PatternsOf(pattern))]
      ensures pattern.OnePattern? ==> plugins[|plugins| - 1].1 == Some([pattern.pattern])
      ensures pattern.OneUnicodePattern? ==> |plugins[|plugins| - 1].1.value| == |pattern.text|
    {
      plugins := plugins + [(p, PatternsOf(pattern))];
    }

    /** `_process` (hana/core.py:66-68): for each registration in order, build the view
        `files.filter(patterns)` and run the plugin on it; a plugin that raises aborts the
        loop and leaves the master set as far as it got. `compile` stands for the
        gitwildmatch compiler of the `pathspec` library. */
    method Process(compile: seq<string> -> (string -> bool)) returns (r: Outcome)
      requires Valid()
      modifies files
      ensures Valid()
      ensures (files.files, r) == RunPlugins(old(files.files), plugins, compile)
    {
      r := Pass;
      var i := 0;
      while i < |plugins|
        invariant 0 <= i <= |plugins|
        invariant r == Pass
        invariant RunPlugins(old(files.files), plugins, compile) == RunPlugins(files.files, plugins[i..], compile)
        decreases |plugins| - i
      {
        assert plugins[i..][1..] == plugins[i + 1..];
        var (plugin, patterns) := plugins[i];
        ghost var master := files.files;
        var view := files.Filter(patterns, compile);
        assert view.Maps() == ViewChain(master, patterns, compile);
        r := RunScript(view, plugin.script);
        assert files.files == Top(view.Maps());
        assert RunPlugin(master, plugins[i], compile) == (files.files, r);
        if r.Fail? {
          return;
        }
        i := i + 1;
      }
    }
  }
}
