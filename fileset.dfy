/** `FileSet` of hana/core.py:100-159: the store from filename to `File`, and the
    filtered views of it that `filter` builds.

    A view keeps a reference to the set it was filtered from and repeats every `add`,
    `remove` and `rename` on it. The reference never changes after construction, so
    `parent`, the ghost footprint `Repr` (the set and all its ancestors) and the ghost
    `depth` are constants and only the map `files` is ever updated. Each method is
    specified by the chain of maps `Maps()` and the functions of module Chains. The
    propagation test used here is `parent != null`; the source's `if self._parent:`
    differs from it for all three operations, see Chains.AddThroughAsWritten and
    Chains.AsWrittenRemoveAndRenameBelowEmptyParent. Python 2 dict order is
    unspecified, so nothing here depends on an order of the keys. */
module FileSets {
  import opened Errors
  import opened Chains
  import opened Files

  class FileSet {
    var files: map<string, File>
    const parent: FileSet?
    ghost const Repr: set<FileSet>
    ghost const depth: nat

    /** The parent chain is finite and acyclic and `Repr` is exactly the set and its
        ancestors. It mentions only constants, so no update can break it. */
    ghost predicate Valid()
      decreases depth
    {
      && this in Repr
      && (parent == null ==> Repr == {this} && depth == 0)
      && (parent != null ==>
            && parent.depth < depth
            && this !in parent.Repr
            && Repr == {this} + parent.Repr
            && parent.Valid())
    }

    /** The set's own map followed by the maps of its ancestors, nearest first. */
    ghost function Maps(): (ms: Chain<File>)
      requires Valid()
      reads Repr
      ensures |ms| > 0 && ms[0] == files
      ensures parent == null ==> ms == [files]
      ensures parent != null ==> ms == [files] + parent.Maps()
      decreases depth
    {
      [files] + (if parent == null then [] else parent.Maps())
    }

    /** `FileSet()`: an empty root set. */
    constructor ()
      ensures Valid() && parent == null && files == map[] && Repr == {this}
    {
      files := map[];
      parent := null;
      Repr := {this};
      depth := 0;
    }

    /** `FileSet(parent)`: an empty view that propagates into `p`. */
    constructor Child(p: FileSet)
      requires p.Valid()
      ensures Valid() && parent == p && files == map[] && Repr == {this} + p.Repr
    {
      files := map[];
      parent := p;
      Repr := {this} + p.Repr;
      depth := p.depth + 1;
    }

    /** `filename in fs`: it holds exactly when `fs[filename]` does not raise. */
    predicate Contains(k: string)
      reads this
      ensures Contains(k) <==> Get(k).Ok?
    {
      k in files
    }

    /** `len(fs)`, which is also what makes a set falsy in `if self._parent:`: it is zero
        exactly for an empty set. */
    function Length(): (n: nat)
      reads this
      ensures n == 0 <==> files == map[]
    {
      |files|
    }

    /** `fs[key]`: the file stored under `k`, KeyError when there is none. */
    function Get(k: string): (r: Result<File>)
      reads this
      ensures r.Ok? <==> k in files
      ensures r.Ok? ==> r.value == files[k]
      ensures r.Err? ==> r.error == KeyError
    {
      if k in files then Ok(files[k]) else Err(KeyError)
    }

    /** `add(filename, f)` (hana/core.py:142-146): store `f` under `k` here and in every
        ancestor, overwriting what was there. */
    method Add(k: string, f: File)
      requires Valid()
      modifies Repr
      ensures Valid()
      ensures Maps() == AddThrough(old(Maps()), k, f)
      ensures files == old(files)[k := f]
      ensures Contains(k) && Get(k) == Ok(f)
      ensures Length() == if k in old(files) then old(Length()) else old(Length()) + 1
      decreases depth
    {
      files := files[k := f];
      AddSize(old(files), k, f);
      if parent != null {
        parent.Add(k, f);
      }
    }

    /** `add` with the parent test as written, `if self._parent:` (true only for a
        non-empty parent); see Chains.AsWrittenAddIsLost for what it loses. */
    method AddAsWritten(k: string, f: File)
      requires Valid()
      modifies Repr
      ensures Valid()
      ensures Maps() == AddThroughAsWritten(old(Maps()), k, f)
      decreases depth
    {
      files := files[k := f];
      if parent != null && parent.Length() > 0 {
        parent.AddAsWritten(k, f);
      }
    }

    /** `remove(filename)` (hana/core.py:149-153): KeyError, with nothing changed, when
        `k` is absent here; otherwise pop it here and then in the ancestors. */
    method Remove(k: string) returns (r: Outcome)
      requires Valid()
      modifies Repr
      ensures Valid()
      ensures (Maps(), r) == RemoveThrough(old(Maps()), k)
      ensures k !in old(files) ==> r == Fail(KeyError) && Maps() == old(Maps())
      ensures k in old(files) ==> files == old(files) - {k} && Length() == old(Length()) - 1
      decreases depth
    {
      if k !in files {
        return Fail(KeyError);
      }
      ghost var above := if parent == null then [] else parent.Maps();
      assert ([files] + above)[1..] == above;
      files := files - {k};
      assert files.Keys == old(files).Keys - {k};
      if parent != null {
        assert parent.Maps() == above;
        r := parent.Remove(k);
      } else {
        r := Pass;
      }
    }

    /** `rename(filename, new_name)` (hana/core.py:155-159): KeyError, with nothing
        changed, when `a` is absent here; otherwise move this set's entry for `a` to `b`,
        overwriting `b`, and do the same in the ancestors. */
    method Rename(a: string, b: string) returns (r: Outcome)
      requires Valid()
      modifies Repr
      ensures Valid()
      ensures (Maps(), r) == RenameThrough(old(Maps()), a, b)
      ensures a !in old(files) ==> r == Fail(KeyError) && Maps() == old(Maps())
      ensures a in old(files) ==> files == (old(files) - {a})[b := old(files)[a]]
      decreases depth
    {
      if a !in files {
        return Fail(KeyError);
      }
      var f := files[a];
      ghost var above := if parent == null then [] else parent.Maps();
      assert ([files] + above)[1..] == above;
      files := (files - {a})[b := f];
      if parent != null {
        assert parent.Maps() == above;
        r := parent.Rename(a, b);
      } else {
        r := Pass;
      }
    }

    /** `filter(patterns)` (hana/core.py:124-139). No patterns (None or an empty list)
        gives back this very set. Otherwise a new view holds exactly the entries whose
        names the compiled patterns match, with the same File objects; building it adds
        each of them back through the parent chain, which changes no map of a nested
        chain (Chains.OverlayOfSubMapIsIdentity). `compile` stands for
        `pathspec.PathSpec.from_lines('gitwildmatch', patterns).match_file`. */
    method Filter(patterns: Option<seq<string>>, compile: seq<string> -> (string -> bool))
      returns (view: FileSet)
      requires Valid()
      modifies Repr
      ensures Valid() && view.Valid()
      ensures (patterns.None? || patterns.value == []) ==> view == this && Maps() == old(Maps())
      ensures patterns.Some? && patterns.value != [] ==>
                && fresh(view) && view.parent == this && view.Repr == {view} + Repr
                && view.files == Select(old(files), compile(patterns.value))
                && files == old(files)
                && Maps() == OverlayThrough(old(Maps()), view.files)
    {
      if patterns.None? || patterns.value == [] {
        return this;
      }
      var matches := compile(patterns.value);
      view := new FileSet.Child(this);
      var todo := files.Keys;
      OverlayOfEmpty(old(Maps()));
      while todo != {}
        invariant todo <= old(files).Keys
        invariant view.Valid() && view.parent == this && view.Repr == {view} + Repr
        invariant files == old(files)
        invariant forall j :: j in view.files <==> j in old(files) && j !in todo && matches(j)
        invariant SubMap(view.files, old(files))
        invariant Maps() == OverlayThrough(old(Maps()), view.files)
        decreases todo
      {
        var k :| k in todo;
        if matches(k) {
          AddMatch(view, k, files[k], old(Maps()));
        }
        todo := todo - {k};
      }
      assert view.files == Select(old(files), matches);
    }

    /** One step of the loop of `filter`: `fm.add(filename, f)` for an entry of this set. */
    method AddMatch(view: FileSet, k: string, f: File, ghost start: Chain<File>)
      requires Valid() && view.Valid() && view.parent == this
      requires k in files && files[k] == f && |start| > 0 && start[0] == files
      requires SubMap(view.files, files)
      requires Maps() == OverlayThrough(start, view.files)
      modifies view.Repr
      ensures files == old(files) && view.files == old(view.files)[k := f]
      ensures Maps() == OverlayThrough(start, view.files)
    {
      ghost var chainBefore := Maps();
      ghost var before := view.files;
      view.Add(k, f);
      AddThroughCons(before, chainBefore, k, f);
      assert view.Maps() == [view.files] + Maps();
      assert Maps() == AddThrough(chainBefore, k, f) by {
        assert ([view.files] + Maps())[1..] == Maps();
        assert ([before[k := f]] + AddThrough(chainBefore, k, f))[1..] == AddThrough(chainBefore, k, f);
      }
      AddAfterOverlay(start, before, k, f);
      assert files == start[0] + view.files;
      OverlayOfSubMap(start[0], view.files);
    }
  }

  /** The invariant a plugin relies on: a view made by `filter` starts out as a sub-map of
      its parent (same keys, same File objects), the parent chain is unchanged when it was
      nested, and that survives any sequence of adds, removes and renames made through the
      view (Chains.ApplyOpsReachesTop). */
  method FilterThenAdd(fs: FileSet, patterns: seq<string>, compile: seq<string> -> (string -> bool),
                       k: string, f: File) returns (view: FileSet)
    requires fs.Valid() && Nested(fs.Maps()) && patterns != []
    modifies fs.Repr
    ensures fs.Valid() && view.Valid() && view.parent == fs
    ensures fs.Maps() == AddThrough(old(fs.Maps()), k, f)
    ensures Nested(view.Maps())
  {
    view := fs.Filter(Some(patterns), compile);
    OverlayOfSubMapIsIdentity(old(fs.Maps()), view.files);
    NestedCons(view.files, fs.Maps());
    ghost var before := view.Maps();
    view.Add(k, f);
    AddKeepsNested(before, k, f);
    forall i | 0 <= i < |fs.Maps()| ensures fs.Maps()[i] == old(fs.Maps())[i][k := f] {
      assert fs.Maps()[i] == view.Maps()[i + 1] && before[i + 1] == old(fs.Maps())[i];
    }
  }
}
