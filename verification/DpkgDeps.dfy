/** The dependency pass of check_deps, over the tables as they are. */
module DpkgDeps {
  import opened Bits
  import opened Versions
  import opened DpkgEdges
  import opened DpkgTables
  import opened DpkgSplits

  // ---------- What it takes to meet a dependency ----------

  const INSTALL: Str := ['i' as int, 'n' as int, 's' as int, 't' as int, 'a' as int, 'l' as int, 'l' as int]
  const INSTALLED: Str := INSTALL + ['e' as int, 'd' as int]
  const NEWLINE: byte := 10
  const EDGE_PROVIDES := 7

  /** Word `n` of a status: what is wanted, a flag, and the state. */
  function Word(s: Str, n: nat): Str
    requires n >= 1
  {
    if n == 1 then Take(s, SpanNot(s, [SPACE, NEWLINE])) else Word(AfterWord(s), n - 1)
  }

  /** Past a word and the spaces after it. */
  function AfterWord(s: Str): Str { SkipSpaces(Suffix(s, SpanNot(s, [SPACE]))) }

  /** The three tables at one time. */
  datatype View = View(names: seq<Option<Str>>, packages: seq<Option<Node>>, statuses: seq<Option<StatusNode>>)

  function StatusText(v: View, b: nat): Str
    requires b < |v.statuses| && v.statuses[b].Some?
  {
    NameOf(v.names, v.statuses[b].value.status)
  }

  /** The status of package name `key` is there, and word `num` of it is `want`. */
  ghost predicate HasStatus(v: View, key: Str, num: nat, want: Str)
    requires num >= 1
  {
    exists b :: 0 <= b < |v.statuses| && StatusIs(v.names, v.packages, v.statuses, b, key) && Word(StatusText(v, b), num) == want
  }

  /** A package that is to be installed meets a dependency, one that is installed a pre-dependency. */
  ghost predicate ReadyFor(v: View, key: Str, kind: nat) {
    if kind == EDGE_PRE_DEPENDS then HasStatus(v, key, 3, INSTALLED) else kind == EDGE_DEPENDS && HasStatus(v, key, 1, INSTALL)
  }

  ghost predicate Fits(v: View, e: Edge, a: nat) {
    a < |v.packages| && PackageIs(v.names, v.packages, a, e.name, e.version, e.op)
  }

  /** Some package has the name and a version that fits, and the name is ready. */
  ghost predicate Direct(v: View, e: Edge) {
    (exists a: nat :: Fits(v, e, a)) && ReadyFor(v, NameOf(v.names, e.name), e.kind)
  }

  predicate Provides(packages: seq<Option<Node>>, i: nat, needle: nat) {
    && i < |packages| && packages[i].Some?
    && exists j :: 0 <= j < |packages[i].value.edges| && packages[i].value.edges[j].kind == EDGE_PROVIDES
                   && packages[i].value.edges[j].name == needle
  }

  /** Some package that provides the name is ready. */
  ghost predicate ByProvider(v: View, e: Edge) {
    exists i: nat :: Provides(v.packages, i, e.name) && ReadyFor(v, PackageName(v.names, v.packages, i), e.kind)
  }

  ghost predicate Sat(v: View, e: Edge) { Direct(v, e) || ByProvider(v, e) }

  /** The package at `i` is to be installed. */
  ghost predicate Wanted(v: View, i: nat) { HasStatus(v, PackageName(v.names, v.packages, i), 1, INSTALL) }

  /** Whichever fitting package a search gives, it is as ready as any other. */
  lemma FittingAlike(v: View, e: Edge, a: nat)
    requires Fits(v, e, a)
    ensures Direct(v, e) <==> ReadyFor(v, PackageName(v.names, v.packages, a), e.kind)
  {
    hide ReadyFor, Satisfies, Parse;
  }

  /** Every dependency has an alternative that `sat` holds of. */
  ghost predicate AllMet(sat: Edge -> bool, edges: seq<Edge>, i: nat)
    decreases |edges| - i
  {
    i >= |edges| || (Met(sat, edges, i) && AllMet(sat, edges, i + 1 + Alternatives(edges, i)))
  }

  ghost predicate Met(sat: Edge -> bool, edges: seq<Edge>, i: nat)
    requires i < |edges|
  {
    if IsOr(edges[i].kind) then exists j :: i < j <= i + edges[i].version && j < |edges| && sat(edges[j])
    else IsDependency(edges[i].kind) ==> sat(edges[i])
  }

  // ---------- The pass over one package ----------

  /** Between groups: the edges from `j` on decide. */
  ghost predicate Between(sat: Edge -> bool, edges: seq<Edge>, j: nat) {
    j <= |edges| && Grouped(edges, j) && (AllMet(sat, edges, 0) <==> AllMet(sat, edges, j))
  }

  /** In the group of the OR edge `r`: `left` alternatives from `j` on, those before are not met. */
  ghost predicate Inside(sat: Edge -> bool, edges: seq<Edge>, j: nat, left: nat, r: nat) {
    && r < j <= |edges| && j + left == r + 1 + edges[r].version <= |edges| && left >= 1
    && IsOr(edges[r].kind) && Between(sat, edges, r) && forall k :: r < k < j ==> !sat(edges[k])
  }

  lemma EnterGroup(sat: Edge -> bool, edges: seq<Edge>, j: nat)
    requires Between(sat, edges, j) && j < |edges| && IsOr(edges[j].kind)
    ensures edges[j].version >= 1 && Inside(sat, edges, j + 1, edges[j].version, j)
  {
    assert GroupOk(edges, j);
  }

  lemma KindInside(sat: Edge -> bool, edges: seq<Edge>, j: nat, left: nat, r: nat)
    requires Inside(sat, edges, j, left, r)
    ensures j < |edges| && edges[j].kind == edges[r].kind - 1 && IsDependency(edges[j].kind)
  {
    assert GroupOk(edges, r);
  }

  /** A met alternative settles the group. */
  lemma GroupMet(sat: Edge -> bool, edges: seq<Edge>, j: nat, left: nat, r: nat)
    requires Inside(sat, edges, j, left, r) && sat(edges[j])
    ensures Between(sat, edges, j + left)
  {
    assert Met(sat, edges, r);
  }

  lemma NextAlternative(sat: Edge -> bool, edges: seq<Edge>, j: nat, left: nat, r: nat)
    requires Inside(sat, edges, j, left, r) && !sat(edges[j])
    ensures left > 1 ==> Inside(sat, edges, j + 1, left - 1, r)
    ensures left == 1 ==> !AllMet(sat, edges, 0)
  {
    if left == 1 {
      assert !Met(sat, edges, r);
    }
  }

  /** An edge outside of OR groups. */
  lemma SingleEdge(sat: Edge -> bool, edges: seq<Edge>, j: nat)
    requires Between(sat, edges, j) && j < |edges| && !IsOr(edges[j].kind)
    ensures IsDependency(edges[j].kind) && !sat(edges[j]) ==> !AllMet(sat, edges, 0)
    ensures IsDependency(edges[j].kind) ==> sat(edges[j]) ==> Between(sat, edges, j + 1)
    ensures !IsDependency(edges[j].kind) ==> Between(sat, edges, j + 1)
  {
  }

  // ---------- Names that are interned meanwhile do not matter ----------

  ghost predicate SameBut(v: View, w: View) { w.packages == v.packages && w.statuses == v.statuses && Extends(v.names, w.names) }

  ghost predicate ViewOk(hash: Hashing, v: View) {
    PackagesOk(hash, v.names, v.packages) && StatusesOk(hash, v.names, v.packages, v.statuses)
  }

  lemma StatusSame(hash: Hashing, v: View, w: View, b: nat, key: Str)
    requires ViewOk(hash, v) && SameBut(v, w) && b < |v.statuses|
    ensures StatusIs(w.names, w.packages, w.statuses, b, key) <==> StatusIs(v.names, v.packages, v.statuses, b, key)
    ensures v.statuses[b].Some? ==> StatusText(w, b) == StatusText(v, b)
  {
    hide Reaches, NodeOk;
    assert StatusOk(hash, v.names, v.packages, v.statuses, b);
    if v.statuses[b].Some? {
      PackageNamed(hash, v, v.statuses[b].value.package);
    }
  }

  lemma PackageNamed(hash: Hashing, v: View, i: nat)
    requires PackagesOk(hash, v.names, v.packages) && i < |v.packages| && v.packages[i].Some?
    ensures Interned(v.names, v.packages[i].value.name) && Interned(v.names, v.packages[i].value.version)
    ensures Grouped(v.packages[i].value.edges, 0)
    ensures forall j :: 0 <= j < |v.packages[i].value.edges| ==> EdgeOk(v.names, v.packages[i].value.edges[j])
  {
    hide Reaches, Grouped;
    assert PackageOk(hash, v.names, v.packages, i);
  }

  // ---------- Statuses ----------

  ghost function ViewOf(db: Database): View
    reads db
  {
    View(db.names, db.packages, db.statuses)
  }

  /** The words that the pass interns. */
  ghost predicate WordKeys(keys: set<Str>, v: View) {
    && INSTALL in keys && INSTALLED in keys
    && forall b :: 0 <= b < |v.statuses| && v.statuses[b].Some? ==> Word(StatusText(v, b), 1) in keys && Word(StatusText(v, b), 3) in keys
  }

  /** The tables are those of `v`, up to names that were added, and all words can still be interned. */
  ghost predicate Holds(db: Database, v: View, keys: set<Str>)
    reads db
  {
    && db.Valid() && ViewOk(db.hash, v) && SameBut(v, ViewOf(db)) && WordKeys(keys, v) && Room(db.names, keys)
    && FreeSlots(db.packages) != {} && FreeSlots(db.statuses) != {}
  }

  /** Interning a word changes nothing that the pass looks at. */
  method Spell(db: Database, key: Str, ghost v: View, ghost keys: set<Str>) returns (a: nat)
    requires Holds(db, v, keys) && key in keys
    modifies db`names
    ensures Holds(db, v, keys) && Names(db.names, a, key) && Extends(old(db.names), db.names)
  {
    hide Database.Valid, Room, ViewOk, WordKeys, FreeSlots;
    a := Intern(db, key, keys);
    ExtendsOn(v.names, old(db.names), db.names);
  }

  /** The index of word `num` of a status. */
  method GetStatus(db: Database, b: nat, num: nat, ghost v: View, ghost keys: set<Str>) returns (a: nat)
    requires Holds(db, v, keys) && b < |v.statuses| && v.statuses[b].Some? && (num == 1 || num == 3)
    modifies db`names
    ensures Holds(db, v, keys) && Names(db.names, a, Word(StatusText(v, b), num)) && Extends(old(db.names), db.names)
  {
    hide Database.Valid, Room, Extends, FreeSlots, AfterWord, SpanNot, ViewOk;
    StatusThere(db, v, b, keys);
    var s := NameOf(db.names, db.statuses[b].value.status);
    for i := 1 to num
      invariant Word(s, num - i + 1) == Word(StatusText(v, b), num)
    {
      s := AfterWord(s);
    }
    a := Spell(db, Take(s, SpanNot(s, [SPACE, NEWLINE])), v, keys);
  }

  lemma StatusThere(db: Database, v: View, b: nat, keys: set<Str>)
    requires Holds(db, v, keys) && b < |v.statuses| && v.statuses[b].Some?
    ensures db.statuses == v.statuses && NameOf(db.names, db.statuses[b].value.status) == StatusText(v, b)
  {
    hide Database.Valid, Room, WordKeys, FreeSlots, NodeOk, Reaches;
    StatusSame(db.hash, v, ViewOf(db), b, []);
  }

  /** Whether word `num` of the status of package name `key` is `want`. */
  method StatusWordIs(db: Database, key: Str, num: nat, want: Str, ghost v: View, ghost keys: set<Str>) returns (r: bool)
    requires Holds(db, v, keys) && (num == 1 || num == 3) && want in keys
    modifies db`names
    ensures Holds(db, v, keys) && r == HasStatus(v, key, num, want) && Extends(old(db.names), db.names)
  {
    hide Database.Valid, Room, Extends, FreeSlots, Word, ViewOk, StatusIs, SameBut, WordKeys, Holds;
    HoldsFacts(db, v, keys);
    ExtendsSelf(db.names);
    var b := db.SearchStatus(key);
    StatusFound(db, v, keys, b, key);
    if db.statuses[b] == None {
      NoWord(v, b, key, num, want);
      return false;
    }
    ghost var names0 := db.names;
    var word := GetStatus(db, b, num, v, keys);
    ghost var names1 := db.names;
    var wanted := Spell(db, want, v, keys);
    ExtendsOn(names0, names1, db.names);
    HoldsFacts(db, v, keys);
    NamedStill(names1, db.names, word, Word(StatusText(v, b), num));
    SameName(db, word, Word(StatusText(v, b), num), wanted, want);
    OneWord(v, b, key, num, want);
    return word == wanted;
  }

  lemma HoldsFacts(db: Database, v: View, keys: set<Str>)
    requires Holds(db, v, keys)
    ensures db.Valid() && db.packages == v.packages && db.statuses == v.statuses && INSTALL in keys && INSTALLED in keys
    ensures exists f :: 0 <= f < |db.statuses| && db.statuses[f] == None
    ensures exists f :: 0 <= f < |db.packages| && db.packages[f] == None
  {
    hide Database.Valid, Room, ViewOk;
    var f :| f in FreeSlots(db.statuses);
    var g :| g in FreeSlots(db.packages);
  }

  lemma NamedStill(names: seq<Option<Str>>, names': seq<Option<Str>>, a: nat, s: Str)
    requires Names(names, a, s) && Extends(names, names')
    ensures Names(names', a, s)
  {
  }

  /** What a search in the tables found, seen in `v`. */
  lemma StatusFound(db: Database, v: View, keys: set<Str>, b: nat, key: Str)
    requires Holds(db, v, keys) && b < |db.statuses| && (db.statuses[b] == None || StatusIs(db.names, db.packages, db.statuses, b, key))
    requires forall c :: 0 <= c < |db.statuses| && StatusIs(db.names, db.packages, db.statuses, c, key) ==> c == b
    ensures v.statuses == db.statuses && (v.statuses[b] == None || StatusIs(v.names, v.packages, v.statuses, b, key))
    ensures forall c :: 0 <= c < |v.statuses| && StatusIs(v.names, v.packages, v.statuses, c, key) ==> c == b
  {
    hide Database.Valid, Room, WordKeys, FreeSlots, ViewOk, StatusIs, Extends;
    forall c | 0 <= c < |v.statuses|
      ensures StatusIs(db.names, db.packages, db.statuses, c, key) <==> StatusIs(v.names, v.packages, v.statuses, c, key)
    {
      StatusSame(db.hash, v, ViewOf(db), c, key);
    }
  }

  lemma OneWord(v: View, b: nat, key: Str, num: nat, want: Str)
    requires b < |v.statuses| && v.statuses[b].Some? && num >= 1 && StatusIs(v.names, v.packages, v.statuses, b, key)
    requires forall c :: 0 <= c < |v.statuses| && StatusIs(v.names, v.packages, v.statuses, c, key) ==> c == b
    ensures HasStatus(v, key, num, want) <==> Word(StatusText(v, b), num) == want
  {
    hide StatusIs, Word;
  }

  lemma NoWord(v: View, b: nat, key: Str, num: nat, want: Str)
    requires b < |v.statuses| && v.statuses[b] == None && num >= 1
    requires forall c :: 0 <= c < |v.statuses| && StatusIs(v.names, v.packages, v.statuses, c, key) ==> c == b
    ensures !HasStatus(v, key, num, want)
  {
    hide Word;
  }

  /** Whether a package of that name can meet a dependency of that type. */
  method PackageSatisfiesDependency(db: Database, package: nat, kind: nat, ghost v: View, ghost keys: set<Str>) returns (r: bool)
    requires Holds(db, v, keys) && package < |v.packages| && v.packages[package].Some?
    modifies db`names
    ensures Holds(db, v, keys) && r == ReadyFor(v, PackageName(v.names, v.packages, package), kind) && Extends(old(db.names), db.names)
  {
    hide Database.Valid, Room, Extends, FreeSlots, Word, ViewOk, HasStatus, SameBut, WordKeys, Holds;
    HoldsFacts(db, v, keys);
    ExtendsSelf(db.names);
    var key := PackageName(db.names, db.packages, package);
    SamePackage(db, v, keys, package);
    if kind == EDGE_PRE_DEPENDS {
      r := StatusWordIs(db, key, 3, INSTALLED, v, keys);
    } else if kind == EDGE_DEPENDS {
      r := StatusWordIs(db, key, 1, INSTALL, v, keys);
    } else {
      r := false;
    }
  }

  lemma SamePackage(db: Database, v: View, keys: set<Str>, i: nat)
    requires Holds(db, v, keys) && i < |v.packages| && v.packages[i].Some?
    ensures db.packages == v.packages && PackageName(db.names, db.packages, i) == PackageName(v.names, v.packages, i)
  {
    hide Database.Valid, Room, WordKeys, FreeSlots, Grouped;
    PackageNamed(db.hash, v, i);
  }

  // ---------- Providers ----------

  /** The next package after `startAt` that provides `needle`, or -1. */
  method SearchForProvides(packages: seq<Option<Node>>, needle: nat, startAt: int) returns (r: int)
    requires -1 <= startAt < |packages|
    ensures r == -1 || (startAt < r < |packages| && Provides(packages, r, needle))
    ensures forall i: nat :: startAt < i < (if r == -1 then |packages| else r) ==> !Provides(packages, i, needle)
  {
    for i := startAt + 1 to |packages|
      invariant forall k: nat :: startAt < k < i ==> !Provides(packages, k, needle)
    {
      if packages[i] == None { continue; }
      var edges := packages[i].value.edges;
      for j := 0 to |edges|
        invariant forall k :: 0 <= k < j ==> !(edges[k].kind == EDGE_PROVIDES && edges[k].name == needle)
      {
        if edges[j].kind == EDGE_PROVIDES && edges[j].name == needle {
          return i;
        }
      }
    }
    return -1;
  }

  /** Whether any provider is ready, one after the other. */
  method SomeProvider(db: Database, e: Edge, ghost v: View, ghost keys: set<Str>) returns (met: bool)
    requires Holds(db, v, keys)
    modifies db`names
    ensures Holds(db, v, keys) && met == ByProvider(v, e) && Extends(old(db.names), db.names)
  {
    hide Database.Valid, Room, Extends, FreeSlots, ViewOk, ReadyFor, SameBut, WordKeys, Holds, Provides;
    HoldsFacts(db, v, keys);
    ExtendsSelf(db.names);
    met := false;
    ProvidesBound(v.packages, e.name);
    var provider := SearchForProvides(db.packages, e.name, -1);
    while provider > -1
      invariant Holds(db, v, keys) && Extends(old(db.names), db.names) && db.packages == v.packages && !met
      invariant provider == -1 || (0 <= provider < |v.packages| && Provides(v.packages, provider, e.name))
      invariant forall i: nat :: i < (if provider == -1 then |v.packages| else provider) ==>
                  !(Provides(v.packages, i, e.name) && ReadyFor(v, PackageName(v.names, v.packages, i), e.kind))
      decreases if provider == -1 then 0 else |v.packages| - provider
    {
      ghost var names := db.names;
      ProvidesNode(v.packages, provider, e.name);
      met := PackageSatisfiesDependency(db, provider, e.kind, v, keys);
      ExtendsOn(old(db.names), names, db.names);
      HoldsFacts(db, v, keys);
      if met { break; }
      provider := SearchForProvides(db.packages, e.name, provider);
    }
  }

  lemma ProvidesNode(packages: seq<Option<Node>>, i: nat, needle: nat)
    requires Provides(packages, i, needle)
    ensures i < |packages| && packages[i].Some?
  {
  }

  lemma ProvidesBound(packages: seq<Option<Node>>, needle: nat)
    ensures forall i: nat :: Provides(packages, i, needle) ==> i < |packages|
  {
  }

  // ---------- The pass ----------

  /** Whether an edge is met: by the package it names, or by a provider. */
  method IsSatisfied(db: Database, e: Edge, ghost v: View, ghost keys: set<Str>) returns (met: bool)
    requires Holds(db, v, keys) && EdgeOk(v.names, e) && !IsOr(e.kind)
    modifies db`names
    ensures Holds(db, v, keys) && met == Sat(v, e) && Extends(old(db.names), db.names)
  {
    hide Database.Valid, Room, Extends, FreeSlots, ViewOk, ReadyFor, SameBut, WordKeys, Holds, Provides, Fits, PackageIs, ByProvider;
    HoldsFacts(db, v, keys);
    ExtendsSelf(db.names);
    NamesThere(db, v, keys, e);
    var packageNum := db.SearchPackage(e.name, e.version, e.op);
    PackageFound(db, v, keys, e, packageNum);
    met := false;
    if db.packages[packageNum] != None {
      met := PackageSatisfiesDependency(db, packageNum, e.kind, v, keys);
      FittingAlike(v, e, packageNum);
    }
    if !met {
      ghost var names := db.names;
      met := SomeProvider(db, e, v, keys);
      ExtendsOn(old(db.names), names, db.names);
    }
  }

  lemma NamesThere(db: Database, v: View, keys: set<Str>, e: Edge)
    requires Holds(db, v, keys) && EdgeOk(v.names, e) && !IsOr(e.kind)
    ensures Interned(db.names, e.name) && Interned(db.names, e.version)
    ensures NameOf(db.names, e.name) == NameOf(v.names, e.name) && NameOf(db.names, e.version) == NameOf(v.names, e.version)
  {
    hide Database.Valid, Room, WordKeys, FreeSlots, ViewOk;
  }

  lemma PackageFound(db: Database, v: View, keys: set<Str>, e: Edge, a: nat)
    requires Holds(db, v, keys) && EdgeOk(v.names, e) && !IsOr(e.kind) && a < |db.packages|
    requires db.packages[a] == None || PackageIs(db.names, db.packages, a, e.name, e.version, e.op)
    requires db.packages[a] == None ==> forall b :: 0 <= b < |db.packages| ==> !PackageIs(db.names, db.packages, b, e.name, e.version, e.op)
    ensures db.packages == v.packages && (if v.packages[a].Some? then Fits(v, e, a) else forall b: nat :: !Fits(v, e, b))
  {
    hide Database.Valid, Room, WordKeys, FreeSlots, Satisfies, Parse, Reaches, Grouped;
    HoldsFacts(db, v, keys);
    NamesThere(db, v, keys, e);
    forall b: nat | b < |v.packages|
      ensures PackageIs(db.names, db.packages, b, e.name, e.version, e.op) <==> Fits(v, e, b)
    {
      if v.packages[b].Some? {
        PackageNamed(db.hash, v, b);
      }
    }
  }

  /** How the pass ends: all is met, something is not, or a group has an edge of another type in it. */
  datatype Verdict = Fine | Unmet | Corrupt

  /** The dependencies of one package: fine exactly if every group has a satisfied alternative. */
  method CheckEdges(db: Database, edges: seq<Edge>, ghost v: View, ghost keys: set<Str>) returns (r: Verdict)
    requires Holds(db, v, keys) && Grouped(edges, 0) && forall i :: 0 <= i < |edges| ==> EdgeOk(v.names, edges[i])
    modifies db`names
    ensures Holds(db, v, keys) && Extends(old(db.names), db.names)
    ensures r != Corrupt && (r == Fine <==> AllMet(e => Sat(v, e), edges, 0))
  {
    hide Grouped, AllMet, Sat, Met, Holds, Extends, EdgeOk;
    ghost var sat := (e: Edge) => Sat(v, e);
    BetweenStarts(sat, edges);
    ExtendsSelf(db.names);
    var numberOfAlternatives: nat, root: Option<nat>, j: nat := 0, None, 0;
    while j < |edges|
      invariant Holds(db, v, keys) && Extends(old(db.names), db.names)
      invariant root == None ==> numberOfAlternatives <= 1
      invariant numberOfAlternatives == 0 || root == None ==> Between(sat, edges, j)
      invariant numberOfAlternatives > 0 && root.Some? ==> Inside(sat, edges, j, numberOfAlternatives, root.value)
      decreases |edges| - j
    {
      ghost var names := db.names;
      var e := edges[j];
      if numberOfAlternatives > 0 && root.Some? {
        KindInside(sat, edges, j, numberOfAlternatives, root.value);
      }
      if IsOr(e.kind) {
        EnterGroup(sat, edges, j);
        numberOfAlternatives := e.version;
        root := Some(j);
        j := j + 1;
        continue;
      }
      if numberOfAlternatives == 0 {
        numberOfAlternatives := 1;
        root := None;
      }
      if root == None {
        SingleEdge(sat, edges, j);
      }
      if IsDependency(e.kind) {
        if root.Some? && e.kind != edges[root.value].kind - 1 {
          return Corrupt;
        }
        var met := IsSatisfied(db, e, v, keys);
        ExtendsOn(old(db.names), names, db.names);
        numberOfAlternatives := numberOfAlternatives - 1;
        if root.Some? {
          if met {
            GroupMet(sat, edges, j, numberOfAlternatives + 1, root.value);
          } else {
            NextAlternative(sat, edges, j, numberOfAlternatives + 1, root.value);
          }
        }
        if !met && numberOfAlternatives == 0 {
          return Unmet;
        }
        if met && numberOfAlternatives > 0 {
          j := j + numberOfAlternatives;
          numberOfAlternatives := 0;
        }
      }
      j := j + 1;
    }
    BetweenEnds(sat, edges);
    return Fine;
  }

  lemma BetweenStarts(sat: Edge -> bool, edges: seq<Edge>)
    requires Grouped(edges, 0)
    ensures Between(sat, edges, 0)
  {
  }

  lemma BetweenEnds(sat: Edge -> bool, edges: seq<Edge>)
    requires Between(sat, edges, |edges|)
    ensures AllMet(sat, edges, 0)
  {
  }

  /** All words that the statuses are compared by. */
  ghost function StatusWords(v: View): set<Str> {
    {INSTALL, INSTALLED}
    + (set b | 0 <= b < |v.statuses| && v.statuses[b].Some? :: Word(StatusText(v, b), 1))
    + (set b | 0 <= b < |v.statuses| && v.statuses[b].Some? :: Word(StatusText(v, b), 3))
  }

  /** The dependency pass of check_deps: fine exactly if every package that is to be installed has,
      in every group, an alternative that is met directly or by a provider. */
  method CheckDependencies(db: Database) returns (r: Verdict)
    requires db.Valid() && Room(db.names, StatusWords(ViewOf(db))) && FreeSlots(db.packages) != {} && FreeSlots(db.statuses) != {}
    modifies db`names
    ensures db.Valid() && Extends(old(db.names), db.names) && r != Corrupt
    ensures var v := old(ViewOf(db));
            r == Fine <==> forall i :: 0 <= i < |v.packages| && v.packages[i].Some? && Wanted(v, i) ==>
                             AllMet(e => Sat(v, e), v.packages[i].value.edges, 0)
  {
    hide AllMet, Grouped, Sat, Holds, Extends, HasStatus, Room, FreeSlots, Database.Valid, EdgeOk;
    ghost var v, keys := ViewOf(db), StatusWords(ViewOf(db));
    HoldsStarts(db);
    ExtendsSelf(db.names);
    for i := 0 to |db.packages|
      invariant Holds(db, v, keys) && Extends(v.names, db.names)
      invariant forall k :: 0 <= k < i && v.packages[k].Some? && Wanted(v, k) ==> AllMet(e => Sat(v, e), v.packages[k].value.edges, 0)
    {
      if db.packages[i] == None { continue; }
      HoldsFacts(db, v, keys);
      SamePackage(db, v, keys, i);
      PackageFacts(db, v, keys, i);
      ghost var names := db.names;
      var wanted := StatusWordIs(db, PackageName(db.names, db.packages, i), 1, INSTALL, v, keys);
      ExtendsOn(v.names, names, db.names);
      if !wanted { continue; }
      ghost var names' := db.names;
      r := CheckEdges(db, db.packages[i].value.edges, v, keys);
      ExtendsOn(v.names, names', db.names);
      if r != Fine {
        HoldsFacts(db, v, keys);
        return;
      }
    }
    HoldsFacts(db, v, keys);
    return Fine;
  }

  lemma HoldsStarts(db: Database)
    requires db.Valid() && Room(db.names, StatusWords(ViewOf(db))) && FreeSlots(db.packages) != {} && FreeSlots(db.statuses) != {}
    ensures Holds(db, ViewOf(db), StatusWords(ViewOf(db)))
  {
    hide Room, FreeSlots, Word, Reaches, NodeOk, NamesOk, PackagesOk, StatusesOk;
  }

  lemma PackageFacts(db: Database, v: View, keys: set<Str>, i: nat)
    requires Holds(db, v, keys) && i < |v.packages| && v.packages[i].Some?
    ensures Grouped(v.packages[i].value.edges, 0)
    ensures forall j :: 0 <= j < |v.packages[i].value.edges| ==> EdgeOk(v.names, v.packages[i].value.edges[j])
  {
    hide Database.Valid, Room, WordKeys, FreeSlots, Grouped, EdgeOk, PackagesOk;
    PackageNamed(db.hash, v, i);
  }
}
