/**
 * The C service module registry (skynet_module.c): the search of a
 * `;`-separated path template in which `?` stands for the module name, the
 * bounded table of loaded modules with lookup by name, and the resolution of
 * a module's create/init/release symbols. dlopen and dlsym are oracles: a
 * map from the file names dlopen accepts to library handles, and a map from
 * (library, symbol) to address.
 */
module ModuleRegistry {
  import opened Wrappers

  /** MAX_MODULE_TYPE. */
  const MaxModuleType: nat := 32
  /** `(void *)(intptr_t)(~0)` on a 64-bit target: the instance of a module without a create function. */
  const NoCreateInstance: nat := 0xffff_ffff_ffff_ffff

  /** struct skynet_module: a null symbol is None. */
  datatype Module = Module(name: string, dl: nat, create: Option<nat>, init: Option<nat>, release: Option<nat>)

  /** How _try_open ends: with a library, with no segment opening, or on the fatal "Invalid C service path" exit. */
  datatype OpenResult = Opened(dl: nat) | NotFound | InvalidPath

  /** The length of the longest prefix of `s` without the character `c` (strchr, or the end of the string). */
  function Until(s: string, c: char): (n: nat)
    ensures n <= |s| && c !in s[..n]
    ensures n < |s| ==> s[n] == c
  {
    if s == [] || s[0] == c then 0
    else
      var n := 1 + Until(s[1..], c);
      assert s[..n] == [s[0]] + s[1..][..n - 1];
      n
  }

  /** Any prefix length with the two properties of Until is Until. */
  lemma UntilUnique(s: string, c: char, n: nat)
    requires n <= |s| && c !in s[..n] && (n < |s| ==> s[n] == c)
    ensures Until(s, c) == n
  {
  }

  /** The non-empty `;`-separated segments of a search path, left to right. */
  function Segments(path: string): (segs: seq<string>)
    ensures forall k :: 0 <= k < |segs| ==> segs[k] != [] && ';' !in segs[k]
    decreases |path|
  {
    if path == [] then []
    else if path[0] == ';' then Segments(path[1..])
    else
      var l := Until(path, ';');
      [path[..l]] + Segments(path[l..])
  }

  /** The file name a segment yields: the name in place of the segment's first `?`; None when it has none. */
  function Expand(seg: string, name: string): (r: Option<string>)
    ensures r.None? <==> '?' !in seg
    ensures r.Some? ==>
              exists i :: 0 <= i < |seg| && seg[i] == '?' && '?' !in seg[..i] && r.value == seg[..i] + name + seg[i + 1..]
  {
    var i := Until(seg, '?');
    if i == |seg| then
      assert seg[..i] == seg;
      None
    else
      Some(seg[..i] + name + seg[i + 1..])
  }

  /**
   * The search of _try_open over `segs`: the first segment whose file name
   * dlopen accepts gives the library; a segment without `?` reached before
   * that ends the search with the fatal error; running out of segments
   * finds nothing.
   */
  function Search(segs: seq<string>, name: string, loadable: map<string, nat>): OpenResult
  {
    if segs == [] then NotFound
    else match Expand(segs[0], name)
      case None => InvalidPath
      case Some(file) => if file in loadable then Opened(loadable[file]) else Search(segs[1..], name, loadable)
  }

  /**
   * The search tries the segments strictly in order: it opens segment `k`
   * exactly when every earlier segment has a `?` and names a file dlopen
   * refuses, and segment `k` names one it accepts.
   */
  lemma {:induction false} SearchOpensFirst(segs: seq<string>, name: string, loadable: map<string, nat>, k: nat)
    requires k < |segs|
    requires forall j :: 0 <= j < k ==> Expand(segs[j], name).Some? && Expand(segs[j], name).value !in loadable
    requires Expand(segs[k], name).Some? && Expand(segs[k], name).value in loadable
    ensures Search(segs, name, loadable) == Opened(loadable[Expand(segs[k], name).value])
  {
    if k > 0 {
      SearchOpensFirst(segs[1..], name, loadable, k - 1);
    }
  }

  /** A segment without `?` is fatal only once the search reaches it: after segments that all fail to open. */
  lemma {:induction false} SearchFailsAtInvalid(segs: seq<string>, name: string, loadable: map<string, nat>, k: nat)
    requires k < |segs|
    requires forall j :: 0 <= j < k ==> Expand(segs[j], name).Some? && Expand(segs[j], name).value !in loadable
    requires '?' !in segs[k]
    ensures Search(segs, name, loadable) == InvalidPath
  {
    if k > 0 {
      SearchFailsAtInvalid(segs[1..], name, loadable, k - 1);
    }
  }

  /** Empty segments are skipped: doubling a separator does not change the segments. */
  lemma {:induction false} EmptySegmentsSkipped(a: string, b: string)
    ensures Segments(a + ";;" + b) == Segments(a + ";" + b)
    decreases |a|
  {
    var c2, c1 := ";;" + b, ";" + b;
    ConcatAssoc(a, ";;", b);
    ConcatAssoc(a, ";", b);
    assert c2[1..] == c1;
    if a == [] {
      assert a + c2 == c2 && a + c1 == c1;
    } else if a[0] == ';' {
      ConcatSplit(a, c2, 1);
      ConcatSplit(a, c1, 1);
      ConcatAssoc(a[1..], ";;", b);
      ConcatAssoc(a[1..], ";", b);
      EmptySegmentsSkipped(a[1..], b);
    } else {
      var l := Until(a, ';');
      SegmentsCut(a, c2);
      SegmentsCut(a, c1);
      if l < |a| {
        ConcatAssoc(a[l..], ";;", b);
        ConcatAssoc(a[l..], ";", b);
        EmptySegmentsSkipped(a[l..], b);
      } else {
        assert a[l..] + c2 == c2 && a[l..] + c1 == c1;
      }
    }
  }

  lemma ConcatAssoc(a: string, x: string, b: string)
    ensures a + x + b == a + (x + b)
  {
  }

  /** A path starting with a segment: that segment, then the segments of what follows it. */
  lemma SegmentsCut(a: string, c: string)
    requires a != [] && a[0] != ';'
    requires Until(a, ';') < |a| || (c != [] && c[0] == ';')
    ensures var l := Until(a, ';'); Segments(a + c) == [a[..l]] + Segments(a[l..] + c)
  {
    var l := Until(a, ';');
    ConcatSplit(a, c, l);
    UntilUnique(a + c, ';', l);
  }

  lemma ConcatSplit(a: string, c: string, l: nat)
    requires l <= |a|
    ensures (a + c)[..l] == a[..l] && (a + c)[l..] == a[l..] + c
  {
  }

  /**
   * _try_open: skips separators, stops at the end of the path, finds the
   * end of the segment, copies the segment up to its `?` into the candidate,
   * appends the name and the rest of the segment, and asks dlopen; a
   * segment without `?` exits with "Invalid C service path".
   */
  method TryOpen(path: string, name: string, loadable: map<string, nat>) returns (r: OpenResult)
    ensures r == Search(Segments(path), name, loadable)
  {
    var pos := 0;
    while true
      invariant 0 <= pos <= |path|
      invariant Search(Segments(path[pos..]), name, loadable) == Search(Segments(path), name, loadable)
      decreases |path| - pos
    {
      pos := SkipSeparators(path, pos);
      if pos == |path| {
        return NotFound;
      }
      var l := SegmentEnd(path, pos);
      SegmentAt(path, pos, l);
      var file := Candidate(path[pos..l], name);
      if file.None? {
        return InvalidPath;
      }
      if file.value in loadable {
        return Opened(loadable[file.value]);
      }
      pos := l;
    }
  }

  /** The separator-skipping loop of _try_open: moves past `;` characters without changing the segments ahead. */
  method SkipSeparators(path: string, pos0: nat) returns (pos: nat)
    requires pos0 <= |path|
    ensures pos0 <= pos <= |path| && (pos < |path| ==> path[pos] != ';')
    ensures Segments(path[pos..]) == Segments(path[pos0..])
  {
    pos := pos0;
    while pos < |path| && path[pos] == ';'
      invariant pos0 <= pos <= |path| && Segments(path[pos..]) == Segments(path[pos0..])
    {
      assert path[pos..][1..] == path[pos + 1..];
      pos := pos + 1;
    }
  }

  /** strchr(path, ';'), or the end of the path: the end of the segment starting at `pos`. */
  method SegmentEnd(path: string, pos: nat) returns (l: nat)
    requires pos <= |path|
    ensures pos <= l <= |path| && ';' !in path[pos..l] && (l < |path| ==> path[l] == ';')
  {
    l := pos;
    while l < |path| && path[l] != ';'
      invariant pos <= l <= |path| && ';' !in path[pos..l]
    {
      assert path[pos..l + 1] == path[pos..l] + [path[l]];
      l := l + 1;
    }
  }

  /**
   * The candidate file name of one segment, built as _try_open builds tmp:
   * the segment up to its `?`, then the name, then the rest of the segment;
   * None when the segment has no `?`.
   */
  method Candidate(seg: string, name: string) returns (file: Option<string>)
    ensures file == Expand(seg, name)
  {
    var tmp := "";
    var i := 0;
    while i < |seg| && seg[i] != '?'
      invariant 0 <= i <= |seg| && tmp == seg[..i] && '?' !in tmp
    {
      tmp := tmp + [seg[i]];
      i := i + 1;
    }
    UntilUnique(seg, '?', i);
    if i == |seg| {
      return None;
    }
    tmp := tmp + name + seg[i + 1..];
    return Some(tmp);
  }

  /** A segment that starts at `pos` and ends at `l` is the first of the segments of the path from `pos`. */
  lemma SegmentAt(path: string, pos: nat, l: nat)
    requires pos < l <= |path| && path[pos] != ';' && ';' !in path[pos..l]
    requires l < |path| ==> path[l] == ';'
    ensures Segments(path[pos..]) == [path[pos..l]] + Segments(path[l..])
  {
    var s := path[pos..];
    assert s[..l - pos] == path[pos..l];
    UntilUnique(s, ';', l - pos);
    assert s[l - pos..] == path[l..];
  }

  /** The first entry named `name`, as _query scans the table. */
  function Find(ms: seq<Module>, name: string): (r: Option<nat>)
    ensures r.None? <==> forall j :: 0 <= j < |ms| ==> ms[j].name != name
    ensures r.Some? ==> r.value < |ms| && ms[r.value].name == name
    ensures r.Some? ==> forall j :: 0 <= j < r.value ==> ms[j].name != name
  {
    if ms == [] then None
    else if ms[0].name == name then Some(0)
    else match Find(ms[1..], name)
      case None => None
      case Some(k) => Some(k + 1)
  }

  /** No two registered modules share a name. */
  ghost predicate DistinctNames(ms: seq<Module>)
  {
    forall i, j :: 0 <= i < j < |ms| ==> ms[i].name != ms[j].name
  }

  /** In a table with distinct names every entry is found by its own name. */
  lemma FindDistinct(ms: seq<Module>, i: nat)
    requires DistinctNames(ms) && i < |ms|
    ensures Find(ms, ms[i].name) == Some(i)
  {
  }

  /** dlsym on the oracle: the address of `symbol` in library `dl`, or None (NULL). */
  function Dlsym(syms: map<(nat, string), nat>, dl: nat, symbol: string): Option<nat>
  {
    if (dl, symbol) in syms then Some(syms[(dl, symbol)]) else None
  }

  /**
   * _open_sym: looks up `<name>_create`, `<name>_init` and `<name>_release`
   * in the module's library and fails exactly when the init symbol is
   * missing.
   */
  method OpenSym(mod: Module, syms: map<(nat, string), nat>) returns (mod': Module, failed: bool)
    ensures mod'.name == mod.name && mod'.dl == mod.dl
    ensures mod'.create == Dlsym(syms, mod.dl, mod.name + "_create")
    ensures mod'.init == Dlsym(syms, mod.dl, mod.name + "_init")
    ensures mod'.release == Dlsym(syms, mod.dl, mod.name + "_release")
    ensures failed <==> (mod.dl, mod.name + "_init") !in syms
  {
    var tmp := mod.name + "_create";
    var create := Dlsym(syms, mod.dl, tmp);
    tmp := mod.name + "_init";
    var init := Dlsym(syms, mod.dl, tmp);
    tmp := mod.name + "_release";
    var release := Dlsym(syms, mod.dl, tmp);
    mod' := mod.(create := create, init := init, release := release);
    failed := init.None?;
  }

  /** The three symbol names of a module are distinct, so each lookup asks for a different symbol. */
  lemma SymbolNamesDistinct(name: string)
    ensures name + "_create" != name + "_init" && name + "_init" != name + "_release" &&
      name + "_create" != name + "_release"
  {
    assert (name + "_create")[|name| + 1] == 'c';
    assert (name + "_init")[|name| + 1] == 'i';
    assert (name + "_release")[|name| + 1] == 'r';
  }

  /** What skynet_module_query reports. */
  datatype QueryResult = Found(index: nat) | NotLoaded | InvalidPathExit

  /** struct modules: the search path and the first `count` entries of a 32-entry table. */
  class Modules {
    const path: string
    var count: nat
    var mods: array<Module>

    ghost predicate Valid()
      reads this, mods
    {
      mods.Length == MaxModuleType && count <= MaxModuleType && DistinctNames(mods[..count])
    }

    /** skynet_module_init: an empty table over `path`. */
    constructor (path: string)
      ensures Valid() && count == 0 && this.path == path
    {
      this.path := path;
      count := 0;
      mods := new Module[MaxModuleType](_ => Module("", 0, None, None, None));
    }

    /** _query: the index of the first registered module called `name`. */
    method Query(name: string) returns (r: Option<nat>)
      requires Valid()
      ensures r == Find(mods[..count], name)
    {
      var i := 0;
      while i < count
        invariant 0 <= i <= count && forall j :: 0 <= j < i ==> mods[j].name != name
      {
        if mods[i].name == name {
          ghost var f := Find(mods[..count], name);
          assert f.Some? && f.value <= i;
          return Some(i);
        }
        i := i + 1;
      }
      return None;
    }

    /**
     * skynet_module_query: a registered module is returned as it is;
     * otherwise, while the table has room, the library is searched for and
     * its symbols resolved, and the module is added (one more entry) only
     * when the library opens and exports its init symbol.
     */
    method ModuleQuery(name: string, loadable: map<string, nat>, syms: map<(nat, string), nat>)
      returns (r: QueryResult)
      requires Valid()
      modifies this`count, mods
      ensures Valid() && mods[..old(count)] == old(mods[..count])
      ensures Find(old(mods[..count]), name).Some? ==>
        r == Found(Find(old(mods[..count]), name).value) && count == old(count)
      ensures Find(old(mods[..count]), name).None? && old(count) == MaxModuleType ==>
        r == NotLoaded && count == old(count)
      ensures Find(old(mods[..count]), name).None? && old(count) < MaxModuleType ==>
        match Search(Segments(path), name, loadable)
        case InvalidPath => r == InvalidPathExit && count == old(count)
        case NotFound => r == NotLoaded && count == old(count)
        case Opened(dl) =>
          if (dl, name + "_init") in syms then
            r == Found(old(count)) && count == old(count) + 1 &&
            mods[old(count)] == Module(name, dl, Dlsym(syms, dl, name + "_create"),
                                       Dlsym(syms, dl, name + "_init"), Dlsym(syms, dl, name + "_release"))
          else r == NotLoaded && count == old(count)
    {
      var result := Query(name);
      if result.Some? {
        return Found(result.value);
      }
      result := Query(name);
      if result.None? && count < MaxModuleType {
        var index := count;
        var dl := TryOpen(path, name, loadable);
        if dl.InvalidPath? {
          return InvalidPathExit;
        }
        if dl.Opened? {
          mods[index] := Module(name, dl.dl, None, None, None);
          var mod, failed := OpenSym(mods[index], syms);
          mods[index] := mod;
          if !failed {
            count := count + 1;
            assert mods[..count] == old(mods[..count]) + [mod];
            return Found(index);
          }
        }
      }
      return NotLoaded;
    }

    /** skynet_module_insert: appends a module whose name is not registered yet, to a table with room. */
    method Insert(mod: Module)
      requires Valid() && Find(mods[..count], mod.name).None? && count < MaxModuleType
      modifies this`count, mods
      ensures Valid() && count == old(count) + 1 && mods[..count] == old(mods[..count]) + [mod]
    {
      var m := Query(mod.name);
      var index := count;
      mods[index] := mod;
      count := count + 1;
      assert mods[..count] == old(mods[..count]) + [mod];
    }
  }

  /** skynet_module_instance_create: the create function's result `created`, or the all-ones sentinel without one. */
  function InstanceCreate(mod: Module, created: nat): (inst: nat)
    ensures inst == NoCreateInstance <==> mod.create.None? || created == NoCreateInstance
  {
    if mod.create.Some? then created else NoCreateInstance
  }
}
