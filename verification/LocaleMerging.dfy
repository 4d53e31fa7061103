/** Merging a chain of translation trees: each locale keeps only the leaves that no
    earlier locale of the chain provides. */
module LocaleMerging {
  import opened Collections
  import opened Options

  /** A translation tree: a text, or a hash from keys to trees. */
  datatype Tree = Leaf(text: string) | Branch(kids: map<string, Tree>)

  /** The text at a path of keys, if the path ends at a leaf. */
  function Lookup(t: Tree, path: seq<string>): Option<string>
    decreases |path|
  {
    match t
    case Leaf(text) => if path == [] then Some(text) else None
    case Branch(kids) =>
      if path == [] || path[0] !in kids then None else Lookup(kids[path[0]], path[1..])
  }

  predicate AllBranches(trees: seq<Tree>) {
    forall i :: 0 <= i < |trees| ==> trees[i].Branch?
  }

  /** The hashes found at a key, without the nils. */
  function AtKey(checking: seq<Tree>, key: string): seq<Tree>
    requires AllBranches(checking)
  {
    if checking == [] then []
    else
      var last := checking[|checking| - 1];
      AtKey(checking[..|checking| - 1], key) + (if key in last.kids then [last.kids[key]] else [])
  }

  /** Where a hash found at a key comes from. */
  lemma {:induction false} AtKeySource(checking: seq<Tree>, key: string, i: nat) returns (j: nat)
    requires AllBranches(checking) && i < |AtKey(checking, key)|
    ensures j < |checking| && key in checking[j].kids && AtKey(checking, key)[i] == checking[j].kids[key]
  {
    var init := checking[..|checking| - 1];
    if i < |AtKey(init, key)| {
      j := AtKeySource(init, key, i);
    } else {
      j := |checking| - 1;
    }
  }

  predicate Included(checking: seq<Tree>, key: string)
    requires AllBranches(checking)
  {
    exists i :: 0 <= i < |checking| && key in checking[i].kids
  }

  /** Where one tree has a leaf the other has no branch, and the other way round. */
  ghost predicate Agree(t: Tree, u: Tree)
    decreases t
  {
    match t
    case Leaf(_) => u.Leaf?
    case Branch(kids) => u.Branch? && forall k :: k in kids && k in u.kids ==> Agree(kids[k], u.kids[k])
  }

  ghost predicate AgreeAll(t: Tree, checking: seq<Tree>) {
    AllBranches(checking) && forall i :: 0 <= i < |checking| ==> Agree(t, checking[i])
  }

  lemma AtKeyAgrees(t: Tree, checking: seq<Tree>, k: string)
    requires t.Branch? && AgreeAll(t, checking) && k in t.kids
    ensures t.kids[k].Branch? ==> AgreeAll(t.kids[k], AtKey(checking, k))
  {
    if t.kids[k].Branch? {
      var r := AtKey(checking, k);
      forall i | 0 <= i < |r| ensures r[i].Branch? && Agree(t.kids[k], r[i]) {
        var j := AtKeySource(checking, k, i);
        assert Agree(t, checking[j]);
      }
    }
  }

  /** Deletes from t every leaf whose path is a leaf of one of the checked hashes, and every branch left empty. */
  function DeepDelete(t: Tree, checking: seq<Tree>): (r: Tree)
    requires t.Branch? && AgreeAll(t, checking)
    ensures r.Branch? && r.kids.Keys <= t.kids.Keys
    ensures forall k :: k in r.kids ==> (r.kids[k].Leaf? <==> t.kids[k].Leaf?)
    decreases t
  {
    Branch(map k | k in t.kids && Kept(t, checking, k) ::
      if t.kids[k].Leaf? then t.kids[k]
      else
        AtKeyAgrees(t, checking, k);
        DeepDelete(t.kids[k], AtKey(checking, k)))
  }

  predicate Kept(t: Tree, checking: seq<Tree>, k: string)
    requires t.Branch? && AgreeAll(t, checking) && k in t.kids
    decreases t, 0
  {
    if t.kids[k].Leaf? then !Included(checking, k)
    else
      AtKeyAgrees(t, checking, k);
      DeepDelete(t.kids[k], AtKey(checking, k)).kids != map[]
  }

  /** Some tree of the list has a text at the path. */
  ghost predicate AnyHas(trees: seq<Tree>, path: seq<string>) {
    exists i :: 0 <= i < |trees| && Lookup(trees[i], path).Some?
  }

  lemma {:induction false} AtKeyHas(checking: seq<Tree>, path: seq<string>)
    requires AllBranches(checking) && path != []
    ensures AnyHas(AtKey(checking, path[0]), path[1..]) <==> AnyHas(checking, path)
  {
    if checking != [] {
      var (init, last) := (checking[..|checking| - 1], checking[|checking| - 1]);
      AtKeyHas(init, path);
      var (r, r') := (AtKey(init, path[0]), AtKey(checking, path[0]));
      AnyHasSnoc(init, last, path);
      assert checking == init + [last];
      if path[0] in last.kids {
        AnyHasSnoc(r, last.kids[path[0]], path[1..]);
      } else {
        assert r' == r;
      }
    }
  }

  lemma AnyHasSnoc(trees: seq<Tree>, t: Tree, path: seq<string>)
    ensures AnyHas(trees + [t], path) <==> AnyHas(trees, path) || Lookup(t, path).Some?
  {
    var all := trees + [t];
    if AnyHas(trees, path) {
      var i :| 0 <= i < |trees| && Lookup(trees[i], path).Some?;
      assert all[i] == trees[i];
    }
    assert all[|trees|] == t;
  }

  /** What deletion means: a path keeps its text exactly when no checked hash has one there. */
  lemma {:induction false} LookupAfterDelete(t: Tree, checking: seq<Tree>, path: seq<string>)
    requires t.Branch? && AgreeAll(t, checking)
    ensures Lookup(DeepDelete(t, checking), path) == if AnyHas(checking, path) then None else Lookup(t, path)
    decreases |path|
  {
    if path != [] && path[0] in t.kids {
      var k := path[0];
      AtKeyHas(checking, path);
      if t.kids[k].Branch? {
        AtKeyAgrees(t, checking, k);
        LookupAfterDelete(t.kids[k], AtKey(checking, k), path[1..]);
      } else if |path| == 1 {
        LeafIncluded(t, checking, k, path);
      }
    }
  }

  lemma LeafIncluded(t: Tree, checking: seq<Tree>, k: string, path: seq<string>)
    requires t.Branch? && AgreeAll(t, checking) && k in t.kids && t.kids[k].Leaf? && path == [k]
    ensures Included(checking, k) <==> AnyHas(checking, path)
  {
    assert path[1..] == [];
    forall i | 0 <= i < |checking| ensures k in checking[i].kids <==> Lookup(checking[i], path).Some? {
      assert Agree(t, checking[i]);
    }
  }

  /** Deleting keeps agreement with any other tree. */
  lemma {:induction false} DeleteAgrees(u: Tree, t: Tree, checking: seq<Tree>)
    requires t.Branch? && AgreeAll(t, checking) && Agree(u, t)
    ensures Agree(u, DeepDelete(t, checking))
    decreases u
  {
    var r := DeepDelete(t, checking);
    forall k | k in u.kids && k in r.kids ensures Agree(u.kids[k], r.kids[k]) {
      if t.kids[k].Branch? {
        AtKeyAgrees(t, checking, k);
        DeleteAgrees(u.kids[k], t.kids[k], AtKey(checking, k));
      }
    }
  }

  /** No branch below the root is empty. */
  ghost predicate Pruned(t: Tree)
    requires t.Branch?
    decreases t
  {
    forall k :: k in t.kids && t.kids[k].Branch? ==> t.kids[k].kids != map[] && Pruned(t.kids[k])
  }

  lemma {:induction false} DeleteIsPruned(t: Tree, checking: seq<Tree>)
    requires t.Branch? && AgreeAll(t, checking)
    ensures Pruned(DeepDelete(t, checking))
    decreases t
  {
    var r := DeepDelete(t, checking);
    forall k | k in r.kids && r.kids[k].Branch? ensures r.kids[k].kids != map[] && Pruned(r.kids[k]) {
      AtKeyAgrees(t, checking, k);
      DeleteIsPruned(t.kids[k], AtKey(checking, k));
      assert Kept(t, checking, k);
    }
  }

  // ---------------------------------------------------------------- the chain

  /** Any two trees of a chain agree, later with earlier. */
  ghost predicate ChainAgrees(trees: seq<Tree>) {
    AllBranches(trees) && forall i, j :: 0 <= i < j < |trees| ==> Agree(trees[j], trees[i])
  }

  /** Whatever agrees with the trees still agrees with what became of them. */
  ghost predicate StillAgreeing(trees: seq<Tree>, r: seq<Tree>) {
    forall u: Tree :: u.Branch? && AgreeAll(u, trees) ==> AgreeAll(u, r)
  }

  /** Each tree without the leaves of the merged trees before it. */
  ghost function MergedChain(trees: seq<Tree>): (r: seq<Tree>)
    requires ChainAgrees(trees)
    ensures |r| == |trees| && AllBranches(r)
    ensures StillAgreeing(trees, r)
    decreases |trees|
  {
    if trees == [] then []
    else
      var (init, last) := (trees[..|trees| - 1], trees[|trees| - 1]);
      assert AgreeAll(last, init);
      var r := MergedChain(init);
      MergeAgrees(trees, r);
      r + [DeepDelete(last, r)]
  }

  lemma MergeAgrees(trees: seq<Tree>, r: seq<Tree>)
    requires trees != [] && ChainAgrees(trees) && AllBranches(r) && AgreeAll(trees[|trees| - 1], r)
    requires StillAgreeing(trees[..|trees| - 1], r)
    ensures StillAgreeing(trees, r + [DeepDelete(trees[|trees| - 1], r)])
  {
    var last := trees[|trees| - 1];
    forall u: Tree | u.Branch? && AgreeAll(u, trees) ensures AgreeAll(u, r + [DeepDelete(last, r)]) {
      assert AgreeAll(u, trees[..|trees| - 1]);
      DeleteAgrees(u, last, r);
    }
  }

  lemma MergedSnoc(trees: seq<Tree>)
    requires ChainAgrees(trees) && trees != []
    ensures var (init, last) := (trees[..|trees| - 1], trees[|trees| - 1]);
            && ChainAgrees(init) && last.Branch?
            && AgreeAll(last, MergedChain(init))
            && MergedChain(trees) == MergedChain(init) + [DeepDelete(last, MergedChain(init))]
  {
    assert AgreeAll(trees[|trees| - 1], trees[..|trees| - 1]);
  }

  lemma MergedNil()
    ensures ChainAgrees([]) && MergedChain([]) == []
  {
  }

  /** A path keeps its text in one tree of the merged chain: the first that has it. */
  lemma {:induction false} MergedLookup(trees: seq<Tree>, i: nat, path: seq<string>)
    requires ChainAgrees(trees) && i < |trees|
    ensures Lookup(MergedChain(trees)[i], path) == if AnyHas(trees[..i], path) then None else Lookup(trees[i], path)
    decreases |trees|
  {
    hide MergedChain, DeepDelete, AgreeAll, Agree, AnyHas, Lookup, ChainAgrees, AllBranches, StillAgreeing;
    var (init, last) := (trees[..|trees| - 1], trees[|trees| - 1]);
    MergedSnoc(trees);
    var r := MergedChain(init);
    if i < |init| {
      MergedLookup(init, i, path);
      assert init[..i] == trees[..i] && MergedChain(trees)[i] == r[i];
    } else {
      assert trees[..i] == init;
      LookupAfterDelete(last, r, path);
      MergedHas(init, path);
    }
  }

  lemma {:induction false} MergedHas(trees: seq<Tree>, path: seq<string>)
    requires ChainAgrees(trees)
    ensures AnyHas(MergedChain(trees), path) <==> AnyHas(trees, path)
    decreases |trees|
  {
    hide MergedChain, DeepDelete, AgreeAll, Agree, AnyHas, Lookup, ChainAgrees, AllBranches, StillAgreeing;
    MergedNil();
    if trees != [] {
      var (init, last) := (trees[..|trees| - 1], trees[|trees| - 1]);
      MergedSnoc(trees);
      var r := MergedChain(init);
      MergedHas(init, path);
      LookupAfterDelete(last, r, path);
      AnyHasSnoc(init, last, path);
      AnyHasSnoc(r, DeepDelete(last, r), path);
      assert trees == init + [last];
    }
  }

  /** What a reader finds who tries the trees in order. */
  function Fallback(trees: seq<Tree>, path: seq<string>): Option<string> {
    if trees == [] then None
    else if Lookup(trees[0], path).Some? then Lookup(trees[0], path)
    else Fallback(trees[1..], path)
  }

  lemma {:induction false} FallbackIs(trees: seq<Tree>, path: seq<string>, i: nat)
    requires i < |trees| && Lookup(trees[i], path).Some? && forall j :: 0 <= j < i ==> Lookup(trees[j], path).None?
    ensures Fallback(trees, path) == Lookup(trees[i], path)
  {
    if i > 0 { FallbackIs(trees[1..], path, i - 1); }
  }

  lemma {:induction false} FallbackFails(trees: seq<Tree>, path: seq<string>)
    ensures Fallback(trees, path).None? <==> !AnyHas(trees, path)
  {
    if trees != [] {
      FallbackFails(trees[1..], path);
      if AnyHas(trees[1..], path) {
        var i :| 0 <= i < |trees[1..]| && Lookup(trees[1..][i], path).Some?;
        assert trees[1..][i] == trees[i + 1];
      }
      if AnyHas(trees, path) && Lookup(trees[0], path).None? {
        var i :| 0 <= i < |trees| && Lookup(trees[i], path).Some?;
        assert trees[1..][i - 1] == trees[i];
      }
    }
  }

  lemma {:induction false} FirstWith(trees: seq<Tree>, path: seq<string>) returns (i: nat)
    requires AnyHas(trees, path)
    ensures i < |trees| && Lookup(trees[i], path).Some? && forall j :: 0 <= j < i ==> Lookup(trees[j], path).None?
  {
    i := 0;
    while Lookup(trees[i], path).None?
      invariant i < |trees| && forall j :: 0 <= j < i ==> Lookup(trees[j], path).None?
      decreases |trees| - i
    {
      var k :| 0 <= k < |trees| && Lookup(trees[k], path).Some?;
      assert k > i;
      i := i + 1;
    }
  }

  /** Merging changes no fallback lookup, and every text is left in exactly one tree of the chain. */
  lemma MergingKeepsFallback(trees: seq<Tree>, path: seq<string>)
    requires ChainAgrees(trees)
    ensures Fallback(MergedChain(trees), path) == Fallback(trees, path)
    ensures forall i, j :: 0 <= i < j < |trees| ==>
              Lookup(MergedChain(trees)[i], path).None? || Lookup(MergedChain(trees)[j], path).None?
  {
    var merged := MergedChain(trees);
    if AnyHas(trees, path) {
      var first := FirstWith(trees, path);
      OnlyFirstKeeps(trees, path, first);
      hide MergedChain, Lookup, ChainAgrees, AnyHas;
      FallbackIs(trees, path, first);
      FallbackIs(merged, path, first);
    } else {
      hide MergedChain, Lookup, ChainAgrees;
      forall i | 0 <= i < |trees| ensures Lookup(merged[i], path) == None {
        MergedLookup(trees, i, path);
      }
      FallbackFails(trees, path);
      FallbackFails(merged, path);
    }
  }

  /** Of a text that some tree has, the first tree keeps it and every other one loses it. */
  lemma OnlyFirstKeeps(trees: seq<Tree>, path: seq<string>, first: nat)
    requires ChainAgrees(trees) && first < |trees| && Lookup(trees[first], path).Some?
    requires forall j :: 0 <= j < first ==> Lookup(trees[j], path).None?
    ensures forall i :: 0 <= i < |trees| ==>
              Lookup(MergedChain(trees)[i], path) == if i == first then Lookup(trees[i], path) else None
  {
    hide MergedChain, Lookup, ChainAgrees;
    forall i | 0 <= i < |trees|
      ensures Lookup(MergedChain(trees)[i], path) == if i == first then Lookup(trees[i], path) else None
    {
      MergedLookup(trees, i, path);
      if i > first { assert trees[..i][first] == trees[first]; }
    }
  }

  // ---------------------------------------------------------------- the loop

  /** The locales without nils and repetitions, first occurrences kept. */
  function UniqCompact(locales: seq<Option<string>>): (r: seq<string>)
    ensures NoRepeats(r)
    ensures forall l :: l in r <==> Some(l) in locales
  {
    if locales == [] then []
    else
      var (rest, last) := (UniqCompact(locales[..|locales| - 1]), locales[|locales| - 1]);
      if last.None? || last.value in rest then rest else rest + [last.value]
  }

  /** Where a locale first occurs. */
  function First(locales: seq<Option<string>>, l: string): (i: nat)
    requires Some(l) in locales
    ensures i < |locales| && locales[i] == Some(l) && forall k :: 0 <= k < i ==> locales[k] != Some(l)
  {
    if locales[0] == Some(l) then 0 else 1 + First(locales[1..], l)
  }

  lemma FirstIs(locales: seq<Option<string>>, l: string, i: nat)
    requires i < |locales| && locales[i] == Some(l) && forall k :: 0 <= k < i ==> locales[k] != Some(l)
    ensures First(locales, l) == i
  {
    hide First;
    var f := First(locales, l);
    assert locales[f] == Some(l);
  }

  lemma FirstOfPrefix(locales: seq<Option<string>>, l: string)
    requires locales != [] && Some(l) in locales[..|locales| - 1]
    ensures First(locales, l) == First(locales[..|locales| - 1], l)
  {
    hide First;
    var init := locales[..|locales| - 1];
    var i := First(init, l);
    assert locales[i] == init[i] && forall k :: 0 <= k < i ==> locales[k] == init[k];
    FirstIs(locales, l, i);
  }

  /** The names stand in the order in which they first occur. */
  lemma {:induction false} UniqCompactOrder(locales: seq<Option<string>>, i: nat, j: nat)
    requires i < j < |UniqCompact(locales)|
    ensures First(locales, UniqCompact(locales)[i]) < First(locales, UniqCompact(locales)[j])
  {
    var (init, last) := (locales[..|locales| - 1], locales[|locales| - 1]);
    var rest := UniqCompact(init);
    assert UniqCompact(locales)[i] == rest[i];
    FirstOfPrefix(locales, rest[i]);
    if j < |rest| {
      UniqCompactOrder(init, i, j);
      assert UniqCompact(locales)[j] == rest[j];
      FirstOfPrefix(locales, rest[j]);
    }
  }

  /** An earlier locale has a text at the path. */
  ghost predicate EarlierHas(locales: seq<Option<string>>, load: map<string, Tree>, l: string, path: seq<string>)
    requires Some(l) in locales && forall m :: Some(m) in locales ==> m in load
  {
    exists m :: Some(m) in locales && First(locales, m) < First(locales, l) && Lookup(load[m], path).Some?
  }

  lemma EarlierNameHas(locales: seq<Option<string>>, load: map<string, Tree>, i: nat, path: seq<string>)
    requires i < |UniqCompact(locales)| && forall m :: Some(m) in locales ==> m in load
    requires AnyHas(Chain(UniqCompact(locales), load)[..i], path)
    ensures EarlierHas(locales, load, UniqCompact(locales)[i], path)
  {
    var names := UniqCompact(locales);
    var trees := Chain(names, load);
    hide UniqCompact, Chain, First, Lookup;
    var k :| 0 <= k < i && Lookup(trees[..i][k], path).Some?;
    UniqCompactOrder(locales, k, i);
    assert names[k] in names && trees[k] == load[names[k]];
  }

  lemma EarlierIndex(locales: seq<Option<string>>, i: nat, m: string) returns (k: nat)
    requires i < |UniqCompact(locales)| && Some(m) in locales && Some(UniqCompact(locales)[i]) in locales
    requires First(locales, m) < First(locales, UniqCompact(locales)[i])
    ensures k < i && UniqCompact(locales)[k] == m
  {
    hide UniqCompact, First;
    var names := UniqCompact(locales);
    assert m in names;
    k :| 0 <= k < |names| && names[k] == m;
    if k > i { UniqCompactOrder(locales, i, k); }
  }

  lemma EarlierHasName(locales: seq<Option<string>>, load: map<string, Tree>, i: nat, path: seq<string>)
    requires i < |UniqCompact(locales)| && forall m :: Some(m) in locales ==> m in load
    requires EarlierHas(locales, load, UniqCompact(locales)[i], path)
    ensures AnyHas(Chain(UniqCompact(locales), load)[..i], path)
  {
    hide UniqCompact, Chain, First, Lookup;
    var names := UniqCompact(locales);
    var trees := Chain(names, load);
    var m :| Some(m) in locales && First(locales, m) < First(locales, names[i]) && Lookup(load[m], path).Some?;
    hide EarlierHas;
    var k := EarlierIndex(locales, i, m);
    assert trees[..i][k] == trees[k] == load[m];
  }

  /** Each merged tree holds a text exactly where its locale has one and no earlier locale does. */
  ghost predicate MergesInOrder(locales: seq<Option<string>>, load: map<string, Tree>, merged: map<string, Tree>)
    requires forall m :: Some(m) in locales ==> m in load
  {
    && (forall l :: l in merged <==> Some(l) in locales)
    && forall l, path :: l in merged ==>
         Lookup(merged[l], path) == if EarlierHas(locales, load, l, path) then None else Lookup(load[l], path)
  }

  lemma NameMergesInOrder(locales: seq<Option<string>>, load: map<string, Tree>, i: nat, path: seq<string>)
    requires i < |UniqCompact(locales)| && forall m :: Some(m) in locales ==> m in load
    requires ChainAgrees(Chain(UniqCompact(locales), load))
    ensures var names := UniqCompact(locales);
            Lookup(MergedChain(Chain(names, load))[i], path)
            == if EarlierHas(locales, load, names[i], path) then None else Lookup(load[names[i]], path)
  {
    var names := UniqCompact(locales);
    hide UniqCompact, Chain, ChainAgrees, MergedChain, Lookup, EarlierHas, AnyHas;
    MergedLookup(Chain(names, load), i, path);
    if EarlierHas(locales, load, names[i], path) { EarlierHasName(locales, load, i, path); }
    if AnyHas(Chain(names, load)[..i], path) { EarlierNameHas(locales, load, i, path); }
  }

  lemma ChainMergesInOrder(locales: seq<Option<string>>, load: map<string, Tree>, merged: map<string, Tree>)
    requires forall m :: Some(m) in locales ==> m in load
    requires var names := UniqCompact(locales);
             && ChainAgrees(Chain(names, load)) && (forall l :: l in merged <==> l in names)
             && forall i :: 0 <= i < |names| ==> merged[names[i]] == MergedChain(Chain(names, load))[i]
    ensures MergesInOrder(locales, load, merged)
  {
    var names := UniqCompact(locales);
    hide ChainAgrees, MergedChain, Lookup, EarlierHas, UniqCompact, Chain;
    forall l, path: seq<string> | l in merged
      ensures Lookup(merged[l], path) == if EarlierHas(locales, load, l, path) then None else Lookup(load[l], path)
    {
      var i :| 0 <= i < |names| && names[i] == l;
      NameMergesInOrder(locales, load, i, path);
    }
  }

  /** The trees of a chain of locales, each taken from its own file. */
  function Chain(names: seq<string>, load: map<string, Tree>): (r: seq<Tree>)
    requires forall l :: l in names ==> l in load
    ensures |r| == |names| && forall i :: 0 <= i < |r| ==> r[i] == load[names[i]]
  {
    if names == [] then [] else Chain(names[..|names| - 1], load) + [load[names[|names| - 1]]]
  }

  lemma PrefixAgrees(trees: seq<Tree>, i: nat)
    requires ChainAgrees(trees) && i < |trees|
    ensures ChainAgrees(trees[..i]) && ChainAgrees(trees[..i + 1])
    ensures trees[..i + 1][..i] == trees[..i] && trees[..i + 1][i] == trees[i]
  {
  }

  /** The first locales are loaded, one for each merged tree. */
  ghost predicate Loaded(merged: map<string, Tree>, names: seq<string>, all: seq<Tree>)
    requires |all| <= |names|
  {
    && (forall l :: l in merged <==> exists j :: 0 <= j < |all| && names[j] == l)
    && forall j :: 0 <= j < |all| ==> merged[names[j]] == all[j]
  }

  lemma LoadNext(merged: map<string, Tree>, names: seq<string>, all: seq<Tree>, tree: Tree)
    requires |all| < |names| && Loaded(merged, names, all)
    requires NoRepeats(names)
    ensures Loaded(merged[names[|all|] := tree], names, all + [tree])
  {
  }

  lemma LoadedAll(merged: map<string, Tree>, names: seq<string>, all: seq<Tree>)
    requires |names| == |all| && Loaded(merged, names, all)
    ensures forall l :: l in merged <==> l in names
    ensures forall i :: 0 <= i < |names| ==> merged[names[i]] == all[i]
  {
  }

  /** Every locale of the chain, once, with its merged tree. */
  method LoadTranslationsMerged(locales: seq<Option<string>>, load: map<string, Tree>)
    returns (merged: map<string, Tree>)
    requires forall l :: l in UniqCompact(locales) ==> l in load
    requires ChainAgrees(Chain(UniqCompact(locales), load))
    ensures var names := UniqCompact(locales);
            && (forall l :: l in merged <==> l in names)
            && forall i :: 0 <= i < |names| ==> merged[names[i]] == MergedChain(Chain(names, load))[i]
    ensures MergesInOrder(locales, load, merged)
  {
    var names := UniqCompact(locales);
    merged := MergeLocales(names, Chain(names, load));
    ChainMergesInOrder(locales, load, merged);
  }

  /** The loop over the locales: each tree loses what the merged trees before it have. */
  method MergeLocales(names: seq<string>, trees: seq<Tree>) returns (merged: map<string, Tree>)
    requires |names| == |trees| && ChainAgrees(trees)
    requires NoRepeats(names)
    ensures forall l :: l in merged <==> l in names
    ensures forall i :: 0 <= i < |names| ==> merged[names[i]] == MergedChain(trees)[i]
  {
    merged := map[];
    var checking: seq<Tree> := [];
    for i := 0 to |names|
      invariant |checking| == i && ChainAgrees(trees[..i]) && checking == MergedChain(trees[..i])
      invariant Loaded(merged, names, checking)
    {
      PrefixAgrees(trees, i);
      hide ChainAgrees, AgreeAll, Agree, AllBranches, MergedChain, StillAgreeing, DeepDelete, Loaded;
      MergedSnoc(trees[..i + 1]);
      var tree := DeepDelete(trees[i], checking);
      LoadNext(merged, names, checking, tree);
      merged := merged[names[i] := tree];
      checking := checking + [tree];
    }
    assert trees[..|trees|] == trees;
    LoadedAll(merged, names, checking);
  }
}
