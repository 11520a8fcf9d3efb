/**
 * The orphan filter of the grunt task (`identifyAndLogOrphans`): the keys of
 * `filesByModuleName`, in key order, whose flag is `false` and that equal no
 * whitelist entry.
 */
module OrphanReport {
  import opened FlagTable

  /** The stored flag is strictly `false`; a missing key reads as `undefined`, which is not `false`. */
  predicate IsUnused(flags: map<string, bool>, name: string) {
    name in flags && !flags[name]
  }

  /** `a` is `b` with some elements left out, the rest in the same order. */
  predicate IsSubsequence(a: seq<string>, b: seq<string>)
    decreases |b|
  {
    if a == [] then true
    else if b == [] then false
    else if a[0] == b[0] then IsSubsequence(a[1..], b[1..])
    else IsSubsequence(a, b[1..])
  }

  /** The keys, in key order, whose flag is `false` and that equal no whitelist entry. */
  function Orphans(keys: seq<string>, flags: map<string, bool>, whitelist: seq<string>): (r: seq<string>)
    ensures |r| <= |keys|
    decreases |keys|
  {
    if keys == [] then []
    else if IsUnused(flags, keys[0]) && keys[0] !in whitelist then [keys[0]] + Orphans(keys[1..], flags, whitelist)
    else Orphans(keys[1..], flags, whitelist)
  }

  /**
   * Reference definition of the report: the candidates that are no dependency
   * target and no whitelist entry, in candidate order.
   */
  function Unreached(candidates: seq<string>, targets: seq<string>, whitelist: seq<string>): seq<string>
    decreases |candidates|
  {
    if candidates == [] then []
    else if candidates[0] !in targets && candidates[0] !in whitelist
    then [candidates[0]] + Unreached(candidates[1..], targets, whitelist)
    else Unreached(candidates[1..], targets, whitelist)
  }

  /** A key is reported iff its flag is `false` and it equals no whitelist entry. */
  lemma {:induction false} OrphansMembers(keys: seq<string>, flags: map<string, bool>, whitelist: seq<string>)
    ensures forall x :: x in Orphans(keys, flags, whitelist) <==> x in keys && IsUnused(flags, x) && x !in whitelist
    decreases |keys|
  {
    if keys != [] {
      OrphansMembers(keys[1..], flags, whitelist);
      assert keys == [keys[0]] + keys[1..];
    }
  }

  /** The report lists keys in key order: it is a subsequence of the keys. */
  lemma {:induction false} OrphansSubsequence(keys: seq<string>, flags: map<string, bool>, whitelist: seq<string>)
    ensures IsSubsequence(Orphans(keys, flags, whitelist), keys)
    decreases |keys|
  {
    if keys != [] {
      var rest := Orphans(keys[1..], flags, whitelist);
      OrphansSubsequence(keys[1..], flags, whitelist);
      if !(IsUnused(flags, keys[0]) && keys[0] !in whitelist) && rest != [] {
        OrphansMembers(keys[1..], flags, whitelist);
        assert rest[0] in rest;
      }
    }
  }

  /** The reference report holds exactly the candidates that are no target and not whitelisted. */
  lemma {:induction false} UnreachedMembers(candidates: seq<string>, targets: seq<string>, whitelist: seq<string>)
    ensures forall x :: x in Unreached(candidates, targets, whitelist) <==>
              x in candidates && x !in targets && x !in whitelist
    decreases |candidates|
  {
    if candidates != [] {
      UnreachedMembers(candidates[1..], targets, whitelist);
      assert candidates == [candidates[0]] + candidates[1..];
    }
  }

  /** The reference report keeps candidate order. */
  lemma {:induction false} UnreachedSubsequence(candidates: seq<string>, targets: seq<string>, whitelist: seq<string>)
    ensures IsSubsequence(Unreached(candidates, targets, whitelist), candidates)
    decreases |candidates|
  {
    if candidates != [] {
      var rest := Unreached(candidates[1..], targets, whitelist);
      UnreachedSubsequence(candidates[1..], targets, whitelist);
      if !(candidates[0] !in targets && candidates[0] !in whitelist) && rest != [] {
        UnreachedMembers(candidates[1..], targets, whitelist);
        assert rest[0] in rest;
      }
    }
  }

  /** Filtering a concatenation filters each part. */
  lemma {:induction false} OrphansConcat(a: seq<string>, b: seq<string>, flags: map<string, bool>, whitelist: seq<string>)
    ensures Orphans(a + b, flags, whitelist) == Orphans(a, flags, whitelist) + Orphans(b, flags, whitelist)
    decreases |a|
  {
    if a == [] {
      assert a + b == b;
    } else {
      assert (a + b)[1..] == a[1..] + b;
      OrphansConcat(a[1..], b, flags, whitelist);
    }
  }

  /** Where a key's flag is `false` exactly when it is no target, the filter gives the reference report. */
  lemma {:induction false} OrphansAreUnreached(keys: seq<string>, flags: map<string, bool>,
                                               targets: seq<string>, whitelist: seq<string>)
    requires forall k :: k in keys ==> (IsUnused(flags, k) <==> k !in targets)
    ensures Orphans(keys, flags, whitelist) == Unreached(keys, targets, whitelist)
    decreases |keys|
  {
    if keys != [] {
      OrphansAreUnreached(keys[1..], flags, targets, whitelist);
    }
  }

  /**
   * The report of a run: `{}`, then every name set to `false`, then every
   * target set to `true`, then the filter.
   */
  function Report(names: seq<string>, targets: seq<string>, whitelist: seq<string>): (r: seq<string>)
    ensures forall x :: x in r <==> x in names && x !in targets && x !in whitelist
  {
    var initial := AssignAll(Empty, names, false);
    var marked := AssignAll(initial, targets, true);
    AssignAllFromEmpty(names, false);
    AssignAllWellFormed(Empty, names, false);
    AssignAllWellFormed(initial, targets, true);
    AssignAllFlags(initial, targets, true);
    OrphansMembers(marked.keys, marked.flags, whitelist);
    Orphans(marked.keys, marked.flags, whitelist)
  }

  /** Keys that are all reached leave nothing to report. */
  lemma NoUnusedNoOrphans(keys: seq<string>, flags: map<string, bool>, whitelist: seq<string>)
    requires forall k :: k in keys ==> !IsUnused(flags, k)
    ensures Orphans(keys, flags, whitelist) == []
  {
    OrphansMembers(keys, flags, whitelist);
  }

  /**
   * The report after both loops: the dictionary built from `{}` by setting
   * `names` to `false`, then `targets` to `true`, yields exactly the
   * distinct names (in first-insertion order) that are no target and no
   * whitelist entry. Targets inserted by the marking loop never appear.
   */
  lemma ReportAfterMarking(names: seq<string>, targets: seq<string>, whitelist: seq<string>)
    ensures Report(names, targets, whitelist) == Unreached(Dedup(names), targets, whitelist)
  {
    OrphansAfterMarking(names, targets, whitelist);
  }

  /** The body of `Report` spelled out, so that its proof does not carry `Report`'s own contract. */
  lemma OrphansAfterMarking(names: seq<string>, targets: seq<string>, whitelist: seq<string>)
    ensures var final := AssignAll(AssignAll(Empty, names, false), targets, true);
            Orphans(final.keys, final.flags, whitelist) == Unreached(Dedup(names), targets, whitelist)
  {
    var initial := AssignAll(Empty, names, false);
    var final := AssignAll(initial, targets, true);
    AssignAllFromEmpty(names, false);
    AssignAllWellFormed(Empty, names, false);
    MarkingAddsOnlyReached(initial, targets, whitelist);
    var extra := final.keys[|initial.keys|..];
    OrphansConcat(initial.keys, extra, final.flags, whitelist);
    AssignAllFlags(initial, targets, true);
    forall k | k in initial.keys ensures IsUnused(final.flags, k) <==> k !in targets {
      assert k in names;
    }
    OrphansAreUnreached(initial.keys, final.flags, targets, whitelist);
  }

  /**
   * Marking appends its new keys after the existing ones, all set to true,
   * so none of them is an orphan.
   */
  lemma MarkingAddsOnlyReached(t: Table, targets: seq<string>, whitelist: seq<string>)
    requires WellFormed(t)
    ensures var final := AssignAll(t, targets, true);
            |t.keys| <= |final.keys| && final.keys == t.keys + final.keys[|t.keys|..] &&
            Orphans(final.keys[|t.keys|..], final.flags, whitelist) == []
  {
    var final := AssignAll(t, targets, true);
    AssignAllKeys(t, targets, true);
    AssignAllFlags(t, targets, true);
    var extra := final.keys[|t.keys|..];
    forall k | k in extra ensures !IsUnused(final.flags, k) {
      var i :| 0 <= i < |extra| && extra[i] == k;
      assert final.keys[|t.keys| + i] == k;
    }
    NoUnusedNoOrphans(extra, final.flags, whitelist);
  }

  /** Three candidates, one of them a dependency of an entry point: the other two are reported, in order. */
  lemma ReachedOneOfThree(a: string, b: string, c: string, entry: string)
    requires a != b && b != c && a != c
    ensures Report([a, b, c], Targets([TreeEntry(entry, [a])]), []) == [b, c]
  {
    assert [TreeEntry(entry, [a])][..0] == [];
    assert Targets([TreeEntry(entry, [a])]) == [a];
    ReportAfterMarking([a, b, c], [a], []);
    DedupOfDistinct([a, b, c]);
    assert [a, b, c][1..] == [b, c];
    assert [b, c][1..] == [c];
    assert [c][1..] == [];
    assert Unreached([c], [a], []) == [c];
    assert Unreached([b, c], [a], []) == [b, c];
  }

  /** Without a tree, a whitelisted candidate is dropped and the other reported. */
  lemma WhitelistedWithoutTree(a: string, b: string)
    requires a != b
    ensures Report([a, b], [], [b]) == [a]
  {
    ReportAfterMarking([a, b], [], [b]);
    DedupOfDistinct([a, b]);
    assert [a, b][1..] == [b];
    assert [b][1..] == [];
    assert Unreached([b], [], [b]) == [];
  }

  /**
   * A module whose only edge is its own outbound one, to a file outside the
   * candidates, is still reported: an entry point is not exempt.
   */
  lemma OwnOutboundEdgeDoesNotMark(a: string, outside: string)
    requires a != outside
    ensures Report([a], Targets([TreeEntry(a, [outside])]), []) == [a]
  {
    assert [TreeEntry(a, [outside])][..0] == [];
    assert Targets([TreeEntry(a, [outside])]) == [outside];
    ReportAfterMarking([a], [outside], []);
    DedupOfDistinct([a]);
    assert [a][1..] == [];
  }
}
