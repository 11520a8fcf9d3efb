/**
 * The `filesByModuleName` dictionary of the orphans task: a JavaScript object
 * used as a map from module name to a "reached" flag. Its value is a `Table`:
 * the keys in `Object.keys` order plus the stored flags. The class
 * `ModuleFlags` is the object itself, updated in place by the two loops of
 * the grunt task; its methods are proved against the functions `Assign` and
 * `AssignAll` on `Table` values.
 */
module FlagTable {
  import opened JsStrings

  /** The value of a plain JavaScript object whose values are booleans. */
  datatype Table = Table(keys: seq<string>, flags: map<string, bool>)

  /** `{}` */
  const Empty: Table := Table([], map[])

  predicate Distinct(s: seq<string>) {
    forall i, j :: 0 <= i < j < |s| ==> s[i] != s[j]
  }

  /** Each key listed once, and the listed keys are exactly the stored ones. */
  ghost predicate WellFormed(t: Table) {
    Distinct(t.keys) && forall k :: k in t.flags <==> k in t.keys
  }

  /** Stores `value` under `name`: a new key goes to the end of the key order, an existing key keeps its place. */
  function Assign(t: Table, name: string, value: bool): (r: Table)
    ensures WellFormed(t) ==> WellFormed(r)
  {
    Table(if name in t.flags then t.keys else t.keys + [name], t.flags[name := value])
  }

  /** Assigns `value` to each name in turn, in order. */
  function AssignAll(t: Table, names: seq<string>, value: bool): (r: Table)
    ensures |r.keys| <= |t.keys| + |names|
    decreases |names|
  {
    if names == [] then t
    else Assign(AssignAll(t, names[..|names| - 1], value), names[|names| - 1], value)
  }

  /** Assigning `a + b` is assigning `a`, then `b`. */
  lemma {:induction false} AssignAllConcat(t: Table, a: seq<string>, b: seq<string>, value: bool)
    ensures AssignAll(t, a + b, value) == AssignAll(AssignAll(t, a, value), b, value)
    decreases |b|
  {
    if b == [] {
      assert a + b == a;
    } else {
      assert (a + b)[..|a + b| - 1] == a + b[..|b| - 1];
      AssignAllConcat(t, a, b[..|b| - 1], value);
    }
  }

  /** The names with later repeats removed, in order of first occurrence. */
  function Dedup(s: seq<string>): (r: seq<string>)
    ensures Distinct(r)
    ensures forall x :: x in r <==> x in s
    decreases |s|
  {
    if s == [] then []
    else
      var init := s[..|s| - 1];
      assert s == init + [s[|s| - 1]];
      if s[|s| - 1] in init then Dedup(init) else Dedup(init) + [s[|s| - 1]]
  }

  /** Names without repeats are their own deduplication. */
  lemma {:induction false} DedupOfDistinct(s: seq<string>)
    requires Distinct(s)
    ensures Dedup(s) == s
    decreases |s|
  {
    if s != [] {
      var init := s[..|s| - 1];
      DedupOfDistinct(init);
      assert s == init + [s[|s| - 1]];
    }
  }

  /** Position of the first occurrence of `x` in `s`. */
  function FirstIndex(s: seq<string>, x: string): (r: nat)
    requires x in s
    ensures r < |s| && s[r] == x
    ensures forall j :: 0 <= j < r ==> s[j] != x
  {
    if s[0] == x then 0 else 1 + FirstIndex(s[1..], x)
  }

  /** Assigning a list of names keeps the table well formed. */
  lemma {:induction false} AssignAllWellFormed(t: Table, names: seq<string>, value: bool)
    requires WellFormed(t)
    ensures WellFormed(AssignAll(t, names, value))
    decreases |names|
  {
    if names != [] {
      AssignAllWellFormed(t, names[..|names| - 1], value);
    }
  }

  /**
   * After assigning `value` to `names`, the stored keys are the old ones plus
   * the names; a name holds `value`, every other key keeps its old flag.
   */
  lemma {:induction false} AssignAllFlags(t: Table, names: seq<string>, value: bool)
    ensures forall k :: k in AssignAll(t, names, value).flags <==> k in t.flags || k in names
    ensures forall k :: k in names ==> AssignAll(t, names, value).flags[k] == value
    ensures forall k :: k in t.flags && k !in names ==> AssignAll(t, names, value).flags[k] == t.flags[k]
    decreases |names|
  {
    if names != [] {
      var init := names[..|names| - 1];
      assert names == init + [names[|names| - 1]];
      AssignAllFlags(t, init, value);
    }
  }

  /**
   * The old key order is kept as a prefix; the keys added after it are names
   * that were not keys before, each once.
   */
  lemma {:induction false} AssignAllKeys(t: Table, names: seq<string>, value: bool)
    requires WellFormed(t)
    ensures t.keys <= AssignAll(t, names, value).keys
    ensures forall i :: |t.keys| <= i < |AssignAll(t, names, value).keys| ==>
              AssignAll(t, names, value).keys[i] in names && AssignAll(t, names, value).keys[i] !in t.flags
    decreases |names|
  {
    if names != [] {
      var init := names[..|names| - 1];
      assert names == init + [names[|names| - 1]];
      AssignAllKeys(t, init, value);
      AssignAllFlags(t, init, value);
    }
  }

  /**
   * Starting from `{}`, the keys are the distinct names in order of first
   * occurrence and each is mapped to `value`.
   */
  lemma {:induction false} AssignAllFromEmpty(names: seq<string>, value: bool)
    ensures AssignAll(Empty, names, value).keys == Dedup(names)
    ensures forall k :: k in AssignAll(Empty, names, value).flags <==> k in names
    ensures forall k :: k in names ==> AssignAll(Empty, names, value).flags[k] == value
    decreases |names|
  {
    AssignAllFlags(Empty, names, value);
    if names != [] {
      var init := names[..|names| - 1];
      AssignAllFromEmpty(init, value);
    }
  }

  /** The keys of `Dedup(s)` come in the order in which they first occur in `s`. */
  lemma {:induction false} DedupFirstOccurrenceOrder(s: seq<string>)
    ensures forall i, j :: 0 <= i < j < |Dedup(s)| ==> FirstIndex(s, Dedup(s)[i]) < FirstIndex(s, Dedup(s)[j])
    decreases |s|
  {
    if s != [] {
      var init, last := s[..|s| - 1], s[|s| - 1];
      assert s == init + [last];
      DedupFirstOccurrenceOrder(init);
      var d := Dedup(init);
      forall y | y in init ensures FirstIndex(s, y) == FirstIndex(init, y) {
        var a, b := FirstIndex(s, y), FirstIndex(init, y);
        assert s[b] == y;
        assert a <= b;
        assert init[a] == y;
      }
      if last !in init {
        assert Dedup(s) == d + [last];
        assert FirstIndex(s, last) == |init|;
      }
    }
  }

  /** One entry of the dependency tree returned by madge: a module and the modules it depends on. */
  datatype TreeEntry = TreeEntry(source: string, deps: seq<string>)

  /** All dependency targets, in the order the nested `_.each` loops visit them. */
  function Targets(tree: seq<TreeEntry>): (r: seq<string>)
    ensures r == [] <==> forall e :: e in tree ==> e.deps == []
    decreases |tree|
  {
    if tree == [] then [] else Targets(tree[..|tree| - 1]) + tree[|tree| - 1].deps
  }

  /** The targets are exactly the dependencies of the tree's entries; a tree without dependencies has none. */
  lemma {:induction false} TargetsMembers(tree: seq<TreeEntry>)
    ensures forall e, d :: e in tree && d in e.deps ==> d in Targets(tree)
    ensures forall d :: d in Targets(tree) ==> exists e :: e in tree && d in e.deps
    ensures (forall e :: e in tree ==> e.deps == []) ==> Targets(tree) == []
    decreases |tree|
  {
    if tree != [] {
      var init := tree[..|tree| - 1];
      assert tree == init + [tree[|tree| - 1]];
      TargetsMembers(init);
    }
  }

  /** Marking with `true` never turns a flag back to `false`; a flag stays `false` only if it was `false` and the key is no target. */
  lemma MarkingIsMonotone(t: Table, targets: seq<string>)
    ensures forall k :: k in t.flags && t.flags[k] ==>
              k in AssignAll(t, targets, true).flags && AssignAll(t, targets, true).flags[k]
    ensures forall k :: k in AssignAll(t, targets, true).flags && !AssignAll(t, targets, true).flags[k] ==>
              k in t.flags && !t.flags[k] && k !in targets
  {
    AssignAllFlags(t, targets, true);
  }

  /** The `filesByModuleName` object. */
  class ModuleFlags {
    var keys: seq<string>
    var flags: map<string, bool>

    ghost predicate Valid()
      reads this
    {
      WellFormed(Table(keys, flags))
    }

    function Model(): Table
      reads this
    {
      Table(keys, flags)
    }

    /** A new, empty dictionary. */
    constructor ()
      ensures Valid() && Model() == Empty
    {
      keys := [];
      flags := map[];
    }

    /** Stores `value` under `name`. */
    method Set(name: string, value: bool)
      requires Valid()
      modifies this
      ensures Valid() && Model() == Assign(old(Model()), name, value)
    {
      if name !in flags {
        keys := keys + [name];
      }
      flags := flags[name := value];
    }

    /** The first loop: every tree file, without its first character, is set to `false` (unused). */
    method AddUnusedFiles(allFilesInTree: seq<string>)
      requires Valid()
      modifies this
      ensures Valid()
      ensures Model() == AssignAll(old(Model()), ModuleNames(allFilesInTree), false)
    {
      var i := 0;
      while i < |allFilesInTree|
        invariant 0 <= i <= |allFilesInTree|
        invariant Valid()
        invariant Model() == AssignAll(old(Model()), ModuleNames(allFilesInTree[..i]), false)
      {
        var moduleName := DropFirst(allFilesInTree[i]);
        assert ModuleNames(allFilesInTree[..i + 1]) == ModuleNames(allFilesInTree[..i]) + [moduleName];
        Set(moduleName, false);
        i := i + 1;
      }
      assert allFilesInTree[..i] == allFilesInTree;
    }

    /** The inner loop: stores `value` under each name in turn. */
    method SetEach(names: seq<string>, value: bool)
      requires Valid()
      modifies this
      ensures Valid()
      ensures Model() == AssignAll(old(Model()), names, value)
    {
      var j := 0;
      while j < |names|
        invariant 0 <= j <= |names|
        invariant Valid()
        invariant Model() == AssignAll(old(Model()), names[..j], value)
      {
        assert names[..j + 1][..j] == names[..j];
        Set(names[j], value);
        j := j + 1;
      }
      assert names[..j] == names;
    }

    /** The nested loop over the dependency tree: every dependency target is set to `true`. */
    method MarkDependencies(tree: seq<TreeEntry>)
      requires Valid()
      modifies this
      ensures Valid()
      ensures Model() == AssignAll(old(Model()), Targets(tree), true)
    {
      var i := 0;
      while i < |tree|
        invariant 0 <= i <= |tree|
        invariant Valid()
        invariant Model() == AssignAll(old(Model()), Targets(tree[..i]), true)
      {
        AssignAllConcat(old(Model()), Targets(tree[..i]), tree[i].deps, true);
        assert tree[..i + 1][..i] == tree[..i];
        SetEach(tree[i].deps, true);
        i := i + 1;
      }
      assert tree[..i] == tree;
    }
  }

  /** The names the first loop assigns: each tree file with its first character dropped. */
  function ModuleNames(allFilesInTree: seq<string>): (r: seq<string>)
    ensures |r| == |allFilesInTree|
    ensures forall i :: 0 <= i < |r| ==> r[i] == DropFirst(allFilesInTree[i])
  {
    seq(|allFilesInTree|, i requires 0 <= i < |allFilesInTree| => DropFirst(allFilesInTree[i]))
  }
}
