/** dpkg's three hash tables, which point into each other. */
module DpkgTables {
  import opened Bits
  import opened Primes
  import opened Probing
  import opened Versions
  import opened DpkgEdges

  // ---------- One table ----------

  function Occupied<T>(slots: seq<Option<T>>): (occ: seq<bool>)
    ensures |occ| == |slots|
  {
    seq(|slots|, i requires 0 <= i < |slots| => slots[i].Some?)
  }

  /** The first `n` probes meet no free slot. */
  ghost predicate Path(occ: seq<bool>, h: Hash, n: nat) {
    h.Fits(|occ|) && forall i :: 0 <= i < n ==> occ[Addr(h, |occ|, i)]
  }

  /** A search that starts as `h` says gets to slot `a`. */
  ghost predicate Reaches(occ: seq<bool>, h: Hash, a: nat) {
    h.Fits(|occ|) && exists i :: 0 <= i < |occ| && Addr(h, |occ|, i) == a && Path(occ, h, i)
  }

  /** While a slot is free, the probes get to a free one. */
  lemma PathEnds(occ: seq<bool>, h: Hash, free: nat)
    requires Prime(|occ|) && h.Fits(|occ|) && free < |occ| && !occ[free]
    ensures !Path(occ, h, |occ|)
  {
    hide Addr, Prime;
    var i := EverySlot(h, |occ|, free);
  }

  /** Filling slots does not hide any other. */
  lemma ReachesStill(occ: seq<bool>, occ': seq<bool>, h: Hash, a: nat)
    requires Reaches(occ, h, a) && |occ'| == |occ| && forall i :: 0 <= i < |occ| && occ[i] ==> occ'[i]
    ensures Reaches(occ', h, a)
  {
    hide Addr;
    var i :| 0 <= i < |occ| && Addr(h, |occ|, i) == a && Path(occ, h, i);
    assert Path(occ', h, i);
  }

  /** A search that stops before the path to `a` ends would have to meet `a` first. */
  lemma StopsBefore(occ: seq<bool>, h: Hash, n: nat, a: nat)
    requires Reaches(occ, h, a) && n < |occ| && !occ[Addr(h, |occ|, n)] && occ[a]
    ensures exists i :: 0 <= i < n && Addr(h, |occ|, i) == a
  {
    hide Addr;
    var i :| 0 <= i < |occ| && Addr(h, |occ|, i) == a && Path(occ, h, i);
  }

  // ---------- The tables ----------

  const NAME_HASH_PRIME := 16381
  const PACKAGE_HASH_PRIME := 10007
  const STATUS_HASH_PRIME := 8191

  datatype Node = Node(name: nat, version: nat, edges: seq<Edge>)

  datatype StatusNode = StatusNode(package: nat, status: nat)

  type Hashing = (Str, nat) -> Hash

  ghost predicate HashOk(hash: Hashing) {
    forall k: Str, p: nat :: p >= 2 ==> hash(k, p).Fits(p)
  }

  /** What character `i` adds to the hash number. */
  function HashPart(key: Str, i: nat): nat
    requires 1 <= i < |key|
  {
    var a: nat, b: nat := key[i], key[i - 1];
    (a + b) * Pow2(a * i % 24)
  }

  /** The hash number after the first `n` characters, `w` bits wide. */
  function HashNum(key: Str, n: nat, w: nat): nat
    requires 1 <= n && (n <= |key| || n == 1)
  {
    if n == 1 then (if key == [] then 0 else key[0]) else Trunc(HashNum(key, n - 1, w) + HashPart(key, n - 1), w)
  }

  function HashOf(key: Str, p: nat, w: nat): Hash
  {
    var n := HashNum(key, if key == [] then 1 else |key|, w);
    if p < 2 then Hash(0, 0) else Hash(Trunc(n, 32) % p, 1 + n % (p - 1))
  }

  /** make_hash, with a hash number `w` bits wide. */
  method MakeHash(key: Str, p: nat, w: nat) returns (h: Hash)
    requires p >= 2
    ensures h == HashOf(key, p, w) && h.Fits(p)
  {
    hide HashPart, Trunc;
    var n: nat := if key == [] then 0 else key[0];
    for i := 1 to if key == [] then 1 else |key|
      invariant n == HashNum(key, i, w)
    {
      n := Trunc(n + HashPart(key, i), w);
    }
    h := Hash(Trunc(n, 32) % p, 1 + n % (p - 1));
  }

  /** Every search starts inside its table and goes on by a step that is neither 0 nor the whole table. */
  lemma MakeHashOk(w: nat)
    ensures HashOk((k: Str, p: nat) => HashOf(k, p, w))
  {
    hide HashNum, Trunc;
  }

  /** An interned name. */
  predicate Interned(names: seq<Option<Str>>, i: nat) {
    i < |names| && names[i].Some?
  }

  function NameOf(names: seq<Option<Str>>, i: nat): Str {
    if Interned(names, i) then names[i].value else []
  }

  /** The name of the package at `i`. */
  function PackageName(names: seq<Option<Str>>, packages: seq<Option<Node>>, i: nat): Str {
    if i < |packages| && packages[i].Some? then NameOf(names, packages[i].value.name) else []
  }

  /** Every name is found where it is, and nowhere twice. */
  ghost predicate NamesOk(hash: Hashing, names: seq<Option<Str>>) {
    && Prime(|names|)
    && (forall a :: 0 <= a < |names| && names[a].Some? ==> Reaches(Occupied(names), hash(names[a].value, |names|), a))
    && Distinct(names)
  }

  /** No name is there twice. */
  ghost predicate Distinct(names: seq<Option<Str>>) {
    forall a, b :: 0 <= a < |names| && 0 <= b < |names| && names[a].Some? && names[a] == names[b] ==> a == b
  }

  /** An edge whose names are interned; the version of an OR edge is a count. */
  ghost predicate EdgeOk(names: seq<Option<Str>>, e: Edge) {
    Interned(names, e.name) && (!IsOr(e.kind) ==> Interned(names, e.version))
  }

  /** A package with all its names interned and its edges in groups. */
  ghost predicate NodeOk(names: seq<Option<Str>>, node: Node) {
    && Interned(names, node.name) && Interned(names, node.version)
    && (forall i :: 0 <= i < |node.edges| ==> EdgeOk(names, node.edges[i])) && Grouped(node.edges, 0)
  }

  ghost predicate PackageOk(hash: Hashing, names: seq<Option<Str>>, packages: seq<Option<Node>>, a: nat)
    requires a < |packages|
  {
    packages[a].Some? ==>
      && NodeOk(names, packages[a].value)
      && Reaches(Occupied(packages), hash(PackageName(names, packages, a), |packages|), a)
  }

  ghost predicate PackagesOk(hash: Hashing, names: seq<Option<Str>>, packages: seq<Option<Node>>) {
    Prime(|packages|) && forall a :: 0 <= a < |packages| ==> PackageOk(hash, names, packages, a)
  }

  ghost predicate StatusOk(hash: Hashing, names: seq<Option<Str>>, packages: seq<Option<Node>>, statuses: seq<Option<StatusNode>>, a: nat)
    requires a < |statuses|
  {
    statuses[a].Some? ==>
      && Interned(names, statuses[a].value.status) && statuses[a].value.package < |packages| && packages[statuses[a].value.package].Some?
      && Reaches(Occupied(statuses), hash(PackageName(names, packages, statuses[a].value.package), |statuses|), a)
  }

  /** Two statuses of one package name are in one slot. */
  ghost predicate OneStatus(names: seq<Option<Str>>, packages: seq<Option<Node>>, statuses: seq<Option<StatusNode>>, a: nat, b: nat)
    requires a < |statuses| && b < |statuses|
  {
    var same := statuses[a].Some? && statuses[b].Some?
                && PackageName(names, packages, statuses[a].value.package) == PackageName(names, packages, statuses[b].value.package);
    same ==> a == b
  }

  ghost predicate StatusesOk(hash: Hashing, names: seq<Option<Str>>, packages: seq<Option<Node>>, statuses: seq<Option<StatusNode>>) {
    && Prime(|statuses|) && (forall a :: 0 <= a < |statuses| ==> StatusOk(hash, names, packages, statuses, a))
    && (forall a, b :: 0 <= a < |statuses| && 0 <= b < |statuses| ==> OneStatus(names, packages, statuses, a, b))
  }

  // ---------- Filling a slot keeps everything reachable ----------

  lemma FilledOccupied<T>(slots: seq<Option<T>>, a: nat, x: T)
    requires a < |slots|
    ensures var occ, occ' := Occupied(slots), Occupied(slots[a := Some(x)]);
            occ' == occ[a := true] && forall i :: 0 <= i < |occ| && occ[i] ==> occ'[i]
  {
  }

  /** Where a search for `key` ends: at a slot whose predecessors on its path are all taken. */
  lemma FilledReaches(occ: seq<bool>, h: Hash, n: nat, a: nat)
    requires Path(occ, h, n) && n < |occ| && a == Addr(h, |occ|, n)
    ensures Reaches(occ, h, a)
  {
  }

  lemma NameAdded(hash: Hashing, names: seq<Option<Str>>, a: nat, key: Str)
    requires NamesOk(hash, names) && HashOk(hash) && a < |names| && names[a] == None
    requires Reaches(Occupied(names), hash(key, |names|), a) && forall b :: 0 <= b < |names| ==> names[b] != Some(key)
    ensures NamesOk(hash, names[a := Some(key)])
  {
    hide Reaches, Prime, Occupied;
    var names' := names[a := Some(key)];
    FilledOccupied(names, a, key);
    forall b | 0 <= b < |names'| && names'[b].Some?
      ensures Reaches(Occupied(names'), hash(names'[b].value, |names'|), b)
    {
      ReachesStill(Occupied(names), Occupied(names'), hash(names'[b].value, |names|), b);
    }
  }

  // ---------- Interning over whole runs ----------

  /** A search for `key` ends at `a`, where the name is or where it is put. */
  ghost predicate NameStep(names: seq<Option<Str>>, key: Str, a: nat, names': seq<Option<Str>>) {
    && a < |names| && names' == names[a := Some(key)]
    && if names[a] == None then forall b :: 0 <= b < |names| ==> names[b] != Some(key) else names[a] == Some(key)
  }

  /** Searches one after the other, each with the names that the one before left. */
  ghost predicate NameRun(states: seq<seq<Option<Str>>>, keys: seq<Str>, found: seq<nat>) {
    && |states| == |keys| + 1 && |found| == |keys|
    && forall i :: 0 <= i < |keys| ==> NameStep(states[i], keys[i], found[i], states[i + 1])
  }

  lemma {:induction false} NeverMoved(states: seq<seq<Option<Str>>>, keys: seq<Str>, found: seq<nat>, i: nat, k: nat)
    requires NameRun(states, keys, found) && i < k <= |keys|
    ensures found[i] < |states[k]| && states[k][found[i]] == Some(keys[i])
    decreases k
  {
    hide NameStep;
    if k == i + 1 {
      StepPuts(states[i], keys[i], found[i], states[i + 1], found[i]);
    } else {
      NeverMoved(states, keys, found, i, k - 1);
      StepPuts(states[k - 1], keys[k - 1], found[k - 1], states[k], found[i]);
    }
  }

  lemma StepPuts(names: seq<Option<Str>>, key: Str, a: nat, names': seq<Option<Str>>, b: nat)
    requires NameStep(names, key, a, names')
    ensures |names'| == |names| && a < |names| && names'[a] == Some(key)
    ensures b < |names| && names[b].Some? ==> names'[b] == names[b]
    ensures Distinct(names) ==> Distinct(names')
  {
  }

  lemma {:induction false} StillDistinct(states: seq<seq<Option<Str>>>, keys: seq<Str>, found: seq<nat>, k: nat)
    requires NameRun(states, keys, found) && Distinct(states[0]) && k <= |keys|
    ensures Distinct(states[k])
    decreases k
  {
    hide NameStep, Distinct;
    if k > 0 {
      StillDistinct(states, keys, found, k - 1);
      StepPuts(states[k - 1], keys[k - 1], found[k - 1], states[k], 0);
    }
  }

  /** Whatever is searched for in whatever order, indices are equal exactly for equal names. */
  lemma IndexIsIdentity(states: seq<seq<Option<Str>>>, keys: seq<Str>, found: seq<nat>, i: nat, j: nat)
    requires NameRun(states, keys, found) && Distinct(states[0]) && i < |keys| && j < |keys|
    ensures found[i] == found[j] <==> keys[i] == keys[j]
  {
    hide NameStep;
    NeverMoved(states, keys, found, i, |keys|);
    NeverMoved(states, keys, found, j, |keys|);
    StillDistinct(states, keys, found, |keys|);
  }

  /** The other tables only look at names that were there already. */
  ghost predicate Extends(names: seq<Option<Str>>, names': seq<Option<Str>>) {
    |names'| == |names| && forall i :: 0 <= i < |names| && names[i].Some? ==> names'[i] == names[i]
  }

  lemma NamesExtended(hash: Hashing, names: seq<Option<Str>>, names': seq<Option<Str>>, packages: seq<Option<Node>>,
                      statuses: seq<Option<StatusNode>>)
    requires Extends(names, names') && PackagesOk(hash, names, packages) && StatusesOk(hash, names, packages, statuses)
    ensures PackagesOk(hash, names', packages) && StatusesOk(hash, names', packages, statuses)
  {
    hide Reaches, Prime, Occupied;
    forall a | 0 <= a < |packages|
      ensures PackageOk(hash, names', packages, a)
      ensures packages[a].Some? ==> PackageName(names', packages, a) == PackageName(names, packages, a)
    {
      assert PackageOk(hash, names, packages, a);
    }
    forall a | 0 <= a < |statuses|
      ensures StatusOk(hash, names', packages, statuses, a)
    {
      assert StatusOk(hash, names, packages, statuses, a);
    }
    forall a, b | 0 <= a < |statuses| && 0 <= b < |statuses|
      ensures OneStatus(names', packages, statuses, a, b)
    {
      assert OneStatus(names, packages, statuses, a, b) && StatusOk(hash, names, packages, statuses, a)
          && StatusOk(hash, names, packages, statuses, b);
    }
  }

  /** A package takes a free slot, or that of a package of the same name. */
  lemma PackagePut(hash: Hashing, names: seq<Option<Str>>, packages: seq<Option<Node>>, statuses: seq<Option<StatusNode>>, a: nat, node: Node)
    requires PackagesOk(hash, names, packages) && StatusesOk(hash, names, packages, statuses) && HashOk(hash) && a < |packages|
    requires NodeOk(names, node) && (packages[a].Some? ==> packages[a].value.name == node.name)
    requires Reaches(Occupied(packages), hash(NameOf(names, node.name), |packages|), a)
    ensures PackagesOk(hash, names, packages[a := Some(node)]) && StatusesOk(hash, names, packages[a := Some(node)], statuses)
  {
    hide Reaches, Prime, Occupied;
    var packages' := packages[a := Some(node)];
    FilledOccupied(packages, a, node);
    forall b | 0 <= b < |packages'|
      ensures PackageOk(hash, names, packages', b)
      ensures packages[b].Some? ==> PackageName(names, packages', b) == PackageName(names, packages, b)
    {
      assert PackageOk(hash, names, packages, b);
      if packages'[b].Some? {
        ReachesStill(Occupied(packages), Occupied(packages'), hash(PackageName(names, packages', b), |packages|), b);
      }
    }
    forall b | 0 <= b < |statuses|
      ensures StatusOk(hash, names, packages', statuses, b)
    {
      assert StatusOk(hash, names, packages, statuses, b);
    }
    forall b, c | 0 <= b < |statuses| && 0 <= c < |statuses|
      ensures OneStatus(names, packages', statuses, b, c)
    {
      assert OneStatus(names, packages, statuses, b, c) && StatusOk(hash, names, packages, statuses, b)
          && StatusOk(hash, names, packages, statuses, c);
    }
  }

  /** A status takes a free slot, or that of the status of the same package name. */
  lemma StatusPut(hash: Hashing, names: seq<Option<Str>>, packages: seq<Option<Node>>, statuses: seq<Option<StatusNode>>, a: nat, s: StatusNode)
    requires StatusesOk(hash, names, packages, statuses) && HashOk(hash) && a < |statuses|
    requires s.package < |packages| && packages[s.package].Some? && Interned(names, s.status)
    requires forall b :: 0 <= b < |statuses| ==> StatusIs(names, packages, statuses, b, PackageName(names, packages, s.package)) ==> b == a
    requires Reaches(Occupied(statuses), hash(PackageName(names, packages, s.package), |statuses|), a)
    ensures StatusesOk(hash, names, packages, statuses[a := Some(s)])
  {
    hide Reaches, Prime, Occupied;
    var statuses' := statuses[a := Some(s)];
    FilledOccupied(statuses, a, s);
    forall b | 0 <= b < |statuses'|
      ensures StatusOk(hash, names, packages, statuses', b)
    {
      assert StatusOk(hash, names, packages, statuses, b);
      if statuses'[b].Some? {
        ReachesStill(Occupied(statuses), Occupied(statuses'), hash(PackageName(names, packages, statuses'[b].value.package), |statuses|), b);
      }
    }
    forall b, c | 0 <= b < |statuses'| && 0 <= c < |statuses'|
      ensures OneStatus(names, packages, statuses', b, c)
    {
      assert OneStatus(names, packages, statuses, b, c);
      assert StatusIs(names, packages, statuses, b, PackageName(names, packages, s.package)) ==> b == a;
      assert StatusIs(names, packages, statuses, c, PackageName(names, packages, s.package)) ==> c == a;
    }
  }

  /** Slot `b` holds the status of a package called `key`. */
  predicate StatusIs(names: seq<Option<Str>>, packages: seq<Option<Node>>, statuses: seq<Option<StatusNode>>, b: nat, key: Str)
    requires b < |statuses|
  {
    statuses[b].Some? && PackageName(names, packages, statuses[b].value.package) == key
  }

  /** Slot `b` holds a package of that name and of a fitting version. */
  ghost predicate PackageIs(names: seq<Option<Str>>, packages: seq<Option<Node>>, b: nat, name: nat, version: nat, op: Operator)
    requires b < |packages|
  {
    && packages[b].Some? && packages[b].value.name == name
    && Satisfies(Parse(NameOf(names, packages[b].value.version)), op, Parse(NameOf(names, version)))
  }

  // ---------- Searching ----------

  /** A search for a name ends: there is a free slot, or the name is there. */
  ghost predicate Searchable(names: seq<Option<Str>>, key: Str) {
    (exists f :: 0 <= f < |names| && names[f] == None) || exists a :: 0 <= a < |names| && names[a] == Some(key)
  }

  /** The probe at which a search for a name ends at the latest. */
  lemma SearchEnds(hash: Hashing, names: seq<Option<Str>>, key: Str) returns (last: nat)
    requires NamesOk(hash, names) && HashOk(hash) && Searchable(names, key)
    ensures var h := hash(key, |names|); h.Fits(|names|) && last < |names|
    ensures var h := hash(key, |names|); names[Addr(h, |names|, last)] == None || names[Addr(h, |names|, last)] == Some(key)
  {
    hide Prime, Addr, Path;
    PrimeSize(|names|);
    var h := hash(key, |names|);
    if a :| 0 <= a < |names| && names[a] == Some(key) {
      assert Reaches(Occupied(names), hash(names[a].value, |names|), a);
      var i :| 0 <= i < |names| && Addr(h, |names|, i) == a && Path(Occupied(names), h, i);
      last := i;
    } else {
      var free :| 0 <= free < |names| && names[free] == None;
      last := EverySlot(h, |names|, free);
    }
  }

  /** The names of `keys` that are not there yet, and the free slots. */
  ghost function Missing(names: seq<Option<Str>>, keys: set<Str>): set<Str> {
    set k | k in keys && Some(k) !in names
  }

  ghost function FreeSlots<T>(slots: seq<Option<T>>): set<nat> {
    set i | 0 <= i < |slots| && slots[i].None?
  }

  /** There is room for all of `keys`. */
  ghost predicate Room(names: seq<Option<Str>>, keys: set<Str>) {
    |Missing(names, keys)| <= |FreeSlots(names)|
  }

  lemma RoomSearch(names: seq<Option<Str>>, keys: set<Str>, key: Str)
    requires Room(names, keys) && key in keys
    ensures Searchable(names, key)
  {
    if Some(key) !in names {
      assert key in Missing(names, keys);
      assert FreeSlots(names) != {};
      var f :| f in FreeSlots(names);
    }
  }

  /** Interning one of them leaves room for the others. */
  lemma RoomStep(names: seq<Option<Str>>, keys: set<Str>, key: Str, a: nat, names': seq<Option<Str>>)
    requires Room(names, keys) && key in keys && NameStep(names, key, a, names')
    ensures Room(names', keys)
  {
    if names[a] == None {
      assert FreeSlots(names') == FreeSlots(names) - {a};
      assert names'[a] == Some(key);
      forall k | k in keys
        ensures Some(k) in names' <==> Some(k) in names || k == key
      {
        if Some(k) in names {
          var i :| 0 <= i < |names| && names[i] == Some(k);
          assert names'[i] == Some(k);
        }
      }
      assert Missing(names', keys) == Missing(names, keys) - {key};
      assert key in Missing(names, keys);
    } else {
      assert names' == names;
    }
  }

  class Database {
    const hash: Hashing
    var names: seq<Option<Str>>
    var packages: seq<Option<Node>>
    var statuses: seq<Option<StatusNode>>

    ghost predicate Valid()
      reads this
    {
      HashOk(hash) && NamesOk(hash, names) && PackagesOk(hash, names, packages) && StatusesOk(hash, names, packages, statuses)
    }

    constructor (hash: Hashing)
      requires HashOk(hash)
      ensures Valid() && this.hash == hash
      ensures |names| == NAME_HASH_PRIME && |packages| == PACKAGE_HASH_PRIME && |statuses| == STATUS_HASH_PRIME
    {
      hide Prime, Reaches;
      TablePrimes();
      this.hash := hash;
      names := seq(NAME_HASH_PRIME, i => None);
      packages := seq(PACKAGE_HASH_PRIME, i => None);
      statuses := seq(STATUS_HASH_PRIME, i => None);
    }

    /** Intern a name: its index, where it stays. */
    method SearchName(key: Str) returns (a: nat)
      requires Valid() && Searchable(names, key)
      modifies `names
      ensures Valid() && NameStep(old(names), key, a, names) && Extends(old(names), names)
    {
      hide Prime, Reaches, Addr, Path, PackagesOk, StatusesOk;
      var p := |names|;
      PrimeSize(p);
      var h := hash(key, p);
      ghost var occ: seq<bool>, i: nat := Occupied(names), 0;
      Starts(occ, h);
      ghost var last := SearchEnds(hash, names, key);
      a := h.start;
      while names[a] != None
        invariant names == old(names) && 0 <= i <= last && a == Addr(h, p, i) && Path(occ, h, i)
        invariant forall j :: 0 <= j < i ==> names[Addr(h, p, j)] != Some(key)
        decreases p - i
      {
        if names[a] == Some(key) {
          assert names[a := Some(key)] == names;
          return;
        }
        NextProbe(occ, h, i);
        i := i + 1;
        a := if a < h.dec then a + p - h.dec else a - h.dec;
      }
      forall b | 0 <= b < |names|
        ensures names[b] != Some(key)
      {
        if names[b] == Some(key) {
          StopsBefore(occ, h, i, b);
        }
      }
      FilledReaches(occ, h, i, a);
      NameAdded(hash, names, a, key);
      NamesExtended(hash, names, names[a := Some(key)], packages, statuses);
      names := names[a := Some(key)];
    }

    /** Look a status up: its slot, or the free slot where it belongs. */
    method SearchStatus(key: Str) returns (a: nat)
      requires Valid() && exists f :: 0 <= f < |statuses| && statuses[f] == None
      ensures a < |statuses| && (statuses[a] == None || StatusIs(names, packages, statuses, a, key))
      ensures forall b :: 0 <= b < |statuses| && StatusIs(names, packages, statuses, b, key) ==> b == a
      ensures Reaches(Occupied(statuses), hash(key, |statuses|), a)
    {
      hide Prime, Reaches, Addr, Path, PackagesOk, NamesOk;
      var p := |statuses|;
      PrimeSize(p);
      var h := hash(key, p);
      ghost var occ: seq<bool>, i: nat := Occupied(statuses), 0;
      ghost var free :| 0 <= free < |statuses| && statuses[free] == None;
      Starts(occ, h);
      FreeEnds(occ, h, free);
      a := h.start;
      while statuses[a] != None
        invariant 0 <= i < p && a == Addr(h, p, i) && Path(occ, h, i)
        invariant forall j :: 0 <= j < i ==> !StatusIs(names, packages, statuses, Addr(h, p, j), key)
        decreases p - i
      {
        assert StatusOk(hash, names, packages, statuses, a);
        if PackageName(names, packages, statuses[a].value.package) == key {
          forall b | 0 <= b < |statuses| && StatusIs(names, packages, statuses, b, key)
            ensures b == a
          {
            assert OneStatus(names, packages, statuses, a, b);
          }
          break;
        }
        NextProbe(occ, h, i);
        i := i + 1;
        a := if a < h.dec then a + p - h.dec else a - h.dec;
      }
      FilledReaches(occ, h, i, a);
      if statuses[a] == None {
        forall b | 0 <= b < |statuses|
          ensures !StatusIs(names, packages, statuses, b, key)
        {
          if StatusIs(names, packages, statuses, b, key) {
            assert StatusOk(hash, names, packages, statuses, b);
            StopsBefore(occ, h, i, b);
          }
        }
      }
    }

    /** Look a package up by name and version: a fitting one, or the free slot where it belongs. */
    method SearchPackage(name: nat, version: nat, op: Operator) returns (a: nat)
      requires Valid() && Interned(names, name) && Interned(names, version)
      requires exists f :: 0 <= f < |packages| && packages[f] == None
      ensures a < |packages| && (packages[a] == None || PackageIs(names, packages, a, name, version, op))
      ensures packages[a] == None ==> forall b :: 0 <= b < |packages| ==> !PackageIs(names, packages, b, name, version, op)
      ensures Reaches(Occupied(packages), hash(NameOf(names, name), |packages|), a)
    {
      hide Prime, Reaches, Addr, Path, StatusesOk, NamesOk, Parse, CompareVersions;
      var p := |packages|;
      PrimeSize(p);
      var h := hash(NameOf(names, name), p);
      ghost var occ: seq<bool>, i: nat := Occupied(packages), 0;
      ghost var free :| 0 <= free < |packages| && packages[free] == None;
      Starts(occ, h);
      FreeEnds(occ, h, free);
      a := h.start;
      while packages[a] != None
        invariant 0 <= i < p && a == Addr(h, p, i) && Path(occ, h, i)
        invariant forall j :: 0 <= j < i ==> !PackageIs(names, packages, Addr(h, p, j), name, version, op)
        decreases p - i
      {
        assert PackageOk(hash, names, packages, a);
        if packages[a].value.name == name {
          if op == Any {
            break;
          }
          var fits := TestVersion(NameOf(names, packages[a].value.version), NameOf(names, version), op);
          if fits {
            break;
          }
        }
        NextProbe(occ, h, i);
        i := i + 1;
        a := if a < h.dec then a + p - h.dec else a - h.dec;
      }
      FilledReaches(occ, h, i, a);
      if packages[a] == None {
        forall b | 0 <= b < |packages|
          ensures !PackageIs(names, packages, b, name, version, op)
        {
          if PackageIs(names, packages, b, name, version, op) {
            assert PackageOk(hash, names, packages, b);
            StopsBefore(occ, h, i, b);
          }
        }
      }
    }

    /** Store a package, in place of one of the same name and an equal version. */
    method PutPackage(node: Node) returns (a: nat)
      requires Valid() && NodeOk(names, node)
      requires exists f :: 0 <= f < |packages| && packages[f] == None
      modifies `packages
      ensures Valid() && a < |packages| == |old(packages)| && packages == old(packages)[a := Some(node)]
      ensures old(packages)[a] == None || PackageIs(names, old(packages), a, node.name, node.version, Equal)
      ensures old(packages)[a] == None ==>
                forall b :: 0 <= b < |old(packages)| ==> !PackageIs(names, old(packages), b, node.name, node.version, Equal)
    {
      hide Prime, Reaches, StatusesOk, NamesOk, PackagesOk, Satisfies, Parse;
      a := SearchPackage(node.name, node.version, Equal);
      PackagePut(hash, names, packages, statuses, a, node);
      packages := packages[a := Some(node)];
    }

    /** Store the status of a package, in place of the one of the same package name. */
    method PutStatus(s: StatusNode) returns (a: nat)
      requires Valid() && s.package < |packages| && packages[s.package].Some? && Interned(names, s.status)
      requires exists f :: 0 <= f < |statuses| && statuses[f] == None
      modifies `statuses
      ensures Valid() && a < |statuses| == |old(statuses)| && statuses == old(statuses)[a := Some(s)]
      ensures old(statuses)[a] == None || StatusIs(names, packages, old(statuses), a, PackageName(names, packages, s.package))
    {
      hide Prime, Reaches, StatusesOk, NamesOk, PackagesOk;
      a := SearchStatus(PackageName(names, packages, s.package));
      StatusPut(hash, names, packages, statuses, a, s);
      statuses := statuses[a := Some(s)];
    }
  }

  lemma PrimeSize(p: nat)
    requires Prime(p)
    ensures p >= 2
  {
  }

  lemma Starts(occ: seq<bool>, h: Hash)
    requires h.Fits(|occ|)
    ensures Path(occ, h, 0) && Addr(h, |occ|, 0) == h.start
  {
  }

  /** The search ends before it has made as many probes as there are slots. */
  lemma FreeEnds(occ: seq<bool>, h: Hash, free: nat)
    requires Prime(|occ|) && h.Fits(|occ|) && free < |occ| && !occ[free]
    ensures forall i: nat :: Path(occ, h, i) ==> i < |occ|
  {
    forall i: nat | Path(occ, h, i)
      ensures i < |occ|
    {
      if i >= |occ| {
        assert Path(occ, h, |occ|);
        PathEnds(occ, h, free);
      }
    }
  }

  lemma NextProbe(occ: seq<bool>, h: Hash, i: nat)
    requires Path(occ, h, i) && occ[Addr(h, |occ|, i)]
    ensures Path(occ, h, i + 1)
    ensures Addr(h, |occ|, i + 1) == Next(h, |occ|, Addr(h, |occ|, i))
  {
  }

  // ---------- The sizes are prime ----------

  predicate NoDivisor(n: nat, m: nat) {
    m < 2 || (n % m != 0 && NoDivisor(n, m - 1))
  }

  lemma {:induction false} NoDivisorRough(n: nat, m: nat)
    requires NoDivisor(n, m)
    ensures Rough(n, m)
    decreases m
  {
    if m >= 2 {
      NoDivisorRough(n, m - 1);
      ModDivides(m, n);
    }
  }

  lemma TablePrimes()
    ensures Prime(NAME_HASH_PRIME) && Prime(PACKAGE_HASH_PRIME) && Prime(STATUS_HASH_PRIME)
  {
    NamePrime();
    PackagePrime();
    StatusPrime();
  }

  lemma NamePrimeLow()
    ensures NoDivisor(16381, 66)
  {
    assert NoDivisor(16381, 6);
    assert NoDivisor(16381, 12);
    assert NoDivisor(16381, 18);
    assert NoDivisor(16381, 24);
    assert NoDivisor(16381, 30);
    assert NoDivisor(16381, 36);
    assert NoDivisor(16381, 42);
    assert NoDivisor(16381, 48);
    assert NoDivisor(16381, 54);
    assert NoDivisor(16381, 60);
  }

  lemma NamePrime()
    ensures Prime(NAME_HASH_PRIME)
  {
    hide Prime, Rough;
    NamePrimeLow();
    assert NoDivisor(16381, 72);
    assert NoDivisor(16381, 78);
    assert NoDivisor(16381, 84);
    assert NoDivisor(16381, 90);
    assert NoDivisor(16381, 96);
    assert NoDivisor(16381, 102);
    assert NoDivisor(16381, 108);
    assert NoDivisor(16381, 114);
    assert NoDivisor(16381, 120);
    assert NoDivisor(16381, 126);
    assert NoDivisor(16381, 127);
    NoDivisorRough(16381, 127);
    RoughIsPrime(16381, 127);
  }

  lemma PackagePrime()
    ensures Prime(PACKAGE_HASH_PRIME)
  {
    hide Prime, Rough;
    assert NoDivisor(10007, 6);
    assert NoDivisor(10007, 12);
    assert NoDivisor(10007, 18);
    assert NoDivisor(10007, 24);
    assert NoDivisor(10007, 30);
    assert NoDivisor(10007, 36);
    assert NoDivisor(10007, 42);
    assert NoDivisor(10007, 48);
    assert NoDivisor(10007, 54);
    assert NoDivisor(10007, 60);
    assert NoDivisor(10007, 66);
    assert NoDivisor(10007, 72);
    assert NoDivisor(10007, 78);
    assert NoDivisor(10007, 84);
    assert NoDivisor(10007, 90);
    assert NoDivisor(10007, 96);
    assert NoDivisor(10007, 100);
    NoDivisorRough(10007, 100);
    RoughIsPrime(10007, 100);
  }

  lemma StatusPrime()
    ensures Prime(STATUS_HASH_PRIME)
  {
    hide Prime, Rough;
    assert NoDivisor(8191, 6);
    assert NoDivisor(8191, 12);
    assert NoDivisor(8191, 18);
    assert NoDivisor(8191, 24);
    assert NoDivisor(8191, 30);
    assert NoDivisor(8191, 36);
    assert NoDivisor(8191, 42);
    assert NoDivisor(8191, 48);
    assert NoDivisor(8191, 54);
    assert NoDivisor(8191, 60);
    assert NoDivisor(8191, 66);
    assert NoDivisor(8191, 72);
    assert NoDivisor(8191, 78);
    assert NoDivisor(8191, 84);
    assert NoDivisor(8191, 90);
    NoDivisorRough(8191, 90);
    RoughIsPrime(8191, 90);
  }

}
