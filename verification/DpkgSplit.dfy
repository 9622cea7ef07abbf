/** add_split_dependencies and fill_package_struct: packages are read into the tables with their edges in groups. */
module DpkgSplits {
  import opened Bits
  import opened Versions
  import opened DpkgEdges
  import opened DpkgTables

  // ---------- Edges stand for items ----------

  ghost predicate Names(names: seq<Option<Str>>, i: nat, s: Str) { i < |names| && names[i] == Some(s) }

  ghost predicate ItemMeans(names: seq<Option<Str>>, e: Edge, x: Item) {
    && e.kind == x.kind
    && match x
       case OrItem(_, text, count) => Names(names, e.name, text) && e.version == count
       case AltItem(_, alt) => Names(names, e.name, alt.name) && Names(names, e.version, alt.version) && e.op == alt.op
  }

  /** The edges are the items with their names interned. */
  ghost predicate Means(names: seq<Option<Str>>, edges: seq<Edge>, items: seq<Item>) {
    |edges| == |items| && forall i :: 0 <= i < |edges| ==> ItemMeans(names, edges[i], items[i])
  }

  lemma MeansStill(names: seq<Option<Str>>, names': seq<Option<Str>>, edges: seq<Edge>, items: seq<Item>)
    requires Means(names, edges, items) && Extends(names, names')
    ensures Means(names', edges, items)
  {
    forall i | 0 <= i < |edges|
      ensures ItemMeans(names', edges[i], items[i])
    {
      assert ItemMeans(names, edges[i], items[i]);
    }
  }

  lemma MeansAppend(names: seq<Option<Str>>, a: seq<Edge>, xs: seq<Item>, b: seq<Edge>, ys: seq<Item>)
    requires Means(names, a, xs) && Means(names, b, ys)
    ensures Means(names, a + b, xs + ys)
  {
    hide ItemMeans;
  }

  lemma ExtendsOn(a: seq<Option<Str>>, b: seq<Option<Str>>, c: seq<Option<Str>>)
    requires Extends(a, b) && Extends(b, c)
    ensures Extends(a, c)
  {
  }

  /** What add_split_dependencies comes to. */
  datatype Split = Added(edges: seq<Edge>) | BadOperator | Crashed

  /** The outcome that a parsed text asks for, after the edges there already. */
  ghost predicate SplitAs(r: Split, edges0: seq<Edge>, want: Parsed, names: seq<Option<Str>>) {
    match want
    case NullToken => r == Crashed
    case IllegalOperator => r == BadOperator
    case Items(xs) => r.Added? && edges0 <= r.edges && Means(names, r.edges[|edges0|..], xs)
  }

  // ---------- Interning ----------

  /** All names of a field. */
  ghost predicate FieldKeys(keys: set<Str>, field: Str) {
    && SkipSpaces(field) in keys
    && forall i :: 0 <= i < |Alts(field)| ==> AltKeys(keys, Alts(field)[i])
  }

  ghost predicate AltKeys(keys: set<Str>, alt: Str) {
    var a := ParseAlternative(alt);
    a.Some? ==> a.value.name in keys && a.value.version in keys
  }

  method Intern(db: Database, key: Str, ghost keys: set<Str>) returns (a: nat)
    requires db.Valid() && Room(db.names, keys) && key in keys
    modifies db`names
    ensures db.Valid() && Room(db.names, keys) && Extends(old(db.names), db.names) && Names(db.names, a, key)
  {
    hide Room, Database.Valid;
    RoomSearch(db.names, keys, key);
    a := db.SearchName(key);
    RoomStep(old(db.names), keys, key, a, db.names);
    StepPuts(old(db.names), key, a, db.names, a);
  }

  // ---------- One field ----------

  /** The items of a field with `n` of its alternatives added. */
  ghost function PartialItems(kind: nat, field: Str, n: nat): seq<Item>
    requires n <= |Alts(field)| && AltItems(kind, Alts(field)[..n]).Items?
  {
    (if HasOr(kind, field) then [OrItem(kind + 1, SkipSpaces(field), n)] else []) + AltItems(kind, Alts(field)[..n]).items
  }

  ghost predicate PartOf(names: seq<Option<Str>>, edges: seq<Edge>, kind: nat, field: Str, n: nat) {
    n <= |Alts(field)| && AltItems(kind, Alts(field)[..n]).Items? && Means(names, edges, PartialItems(kind, field, n))
  }

  lemma PartStarts(names: seq<Option<Str>>, edges: seq<Edge>, kind: nat, field: Str)
    requires if HasOr(kind, field) then |edges| == 1 && ItemMeans(names, edges[0], OrItem(kind + 1, SkipSpaces(field), 0)) else edges == []
    ensures PartOf(names, edges, kind, field, 0)
  {
    hide Alts, SkipSpaces, ItemMeans;
    assert Alts(field)[..0] == [];
  }

  lemma PartMore(names: seq<Option<Str>>, edges: seq<Edge>, kind: nat, field: Str, n: nat, e: Edge, a: Alternative, edges': seq<Edge>)
    requires PartOf(names, edges, kind, field, n) && n < |Alts(field)| && ParseAlternative(Alts(field)[n]) == Some(a)
    requires ItemMeans(names, e, AltItem(kind, a))
    requires HasOr(kind, field) ==> edges != []
    requires edges' == (if HasOr(kind, field) then edges[0 := edges[0].(version := edges[0].version + 1)] else edges) + [e]
    ensures PartOf(names, edges', kind, field, n + 1)
  {
    hide Alts, SkipSpaces, ParseAlternative;
    var alts := Alts(field);
    assert alts[..n + 1][..n] == alts[..n];
    var xs, ys := PartialItems(kind, field, n), PartialItems(kind, field, n + 1);
    forall i | 0 <= i < |edges'|
      ensures ItemMeans(names, edges'[i], ys[i])
    {
      if i < |edges| {
        assert ItemMeans(names, edges[i], xs[i]);
      }
    }
  }

  lemma PartStill(names: seq<Option<Str>>, names': seq<Option<Str>>, edges: seq<Edge>, kind: nat, field: Str, n: nat)
    requires PartOf(names, edges, kind, field, n) && Extends(names, names')
    ensures PartOf(names', edges, kind, field, n) && (HasOr(kind, field) ==> edges != [])
  {
    hide Means, Extends;
    MeansStill(names, names', edges, PartialItems(kind, field, n));
    MeansLength(names, edges, PartialItems(kind, field, n));
  }

  lemma MeansLength(names: seq<Option<Str>>, edges: seq<Edge>, items: seq<Item>)
    requires Means(names, edges, items)
    ensures |edges| == |items|
  {
  }

  lemma PartDone(names: seq<Option<Str>>, edges: seq<Edge>, kind: nat, field: Str)
    requires PartOf(names, edges, kind, field, |Alts(field)|) && Alts(field) != []
    ensures FieldItems(kind, field).Items? && Means(names, edges, FieldItems(kind, field).items)
  {
    hide Means;
    assert Alts(field)[..|Alts(field)|] == Alts(field);
  }

  /** One alternative, with its version and its name interned. */
  method AddAlternative(db: Database, kind: nat, a: Alternative, ghost keys: set<Str>) returns (e: Edge)
    requires db.Valid() && Room(db.names, keys) && a.name in keys && a.version in keys
    modifies db`names
    ensures db.Valid() && Room(db.names, keys) && Extends(old(db.names), db.names) && ItemMeans(db.names, e, AltItem(kind, a))
  {
    hide Room, Database.Valid;
    var version := Intern(db, a.version, keys);
    var name := Intern(db, a.name, keys);
    e := Edge(kind, name, version, a.op);
  }

  /** The edges of one field: an OR edge if there is more than one plain alternative, counted as they are added. */
  method AddField(db: Database, edges0: seq<Edge>, kind: nat, field: Str, ghost keys: set<Str>) returns (r: Split)
    requires db.Valid() && Room(db.names, keys) && FieldKeys(keys, field)
    modifies db`names
    ensures db.Valid() && Room(db.names, keys) && Extends(old(db.names), db.names)
    ensures SplitAs(r, edges0, FieldItems(kind, field), db.names)
  {
    hide Room, Database.Valid, Alts, SkipSpaces, ParseAlternative, PartOf, ItemMeans, Extends;
    var f, alts := SkipSpaces(field), Alts(field);
    FieldFails(kind, field);
    ExtendsSelf(db.names);
    if alts == [] {
      return Crashed;
    }
    var mine: seq<Edge> := [];
    var hasOr := IsDependency(kind) && f != alts[0];
    if hasOr {
      var text := Intern(db, f, keys);
      mine := [Edge(kind + 1, text, 0, Unknown)];
      OrMeans(db.names, mine[0], kind, f);
    }
    PartStarts(db.names, mine, kind, field);
    for n := 0 to |alts|
      invariant db.Valid() && Room(db.names, keys) && Extends(old(db.names), db.names)
      invariant PartOf(db.names, mine, kind, field, n)
    {
      ghost var names := db.names;
      var a := ParseAlternative(alts[n]);
      if a == None {
        IllegalField(field, n);
        return BadOperator;
      }
      assert AltKeys(keys, alts[n]);
      var e := AddAlternative(db, kind, a.value, keys);
      ExtendsOn(old(db.names), names, db.names);
      PartStill(names, db.names, mine, kind, field, n);
      PartMore(db.names, mine, kind, field, n, e, a.value,
               (if hasOr then mine[0 := mine[0].(version := mine[0].version + 1)] else mine) + [e]);
      if hasOr {
        mine := mine[0 := mine[0].(version := mine[0].version + 1)];
      }
      mine := mine + [e];
    }
    PartDone(db.names, mine, kind, field);
    assert (edges0 + mine)[|edges0|..] == mine;
    return Added(edges0 + mine);
  }

  lemma ExtendsSelf(names: seq<Option<Str>>)
    ensures Extends(names, names)
  {
  }

  lemma OrMeans(names: seq<Option<Str>>, e: Edge, kind: nat, text: Str)
    requires e.kind == kind + 1 && Names(names, e.name, text) && e.version == 0
    ensures ItemMeans(names, e, OrItem(kind + 1, text, 0))
  {
  }

  lemma IllegalField(field: Str, n: nat)
    requires n < |Alts(field)| && ParseAlternative(Alts(field)[n]) == None
    ensures Illegal(field)
  {
  }

  // ---------- One line ----------

  ghost predicate LineKeys(keys: set<Str>, line: Str) {
    forall i :: 0 <= i < |Tokens(line, COMMA)| ==> FieldKeys(keys, Tokens(line, COMMA)[i])
  }

  ghost predicate EdgesOk(names: seq<Option<Str>>, edges: seq<Edge>) {
    forall i :: 0 <= i < |edges| ==> EdgeOk(names, edges[i])
  }

  lemma EdgesStill(names: seq<Option<Str>>, names': seq<Option<Str>>, edges: seq<Edge>)
    requires EdgesOk(names, edges) && Extends(names, names')
    ensures EdgesOk(names', edges)
  {
    forall i | 0 <= i < |edges|
      ensures EdgeOk(names', edges[i])
    {
      assert EdgeOk(names, edges[i]);
    }
  }

  lemma MeansOk(names: seq<Option<Str>>, edges: seq<Edge>, items: seq<Item>)
    requires Means(names, edges, items) && forall i :: 0 <= i < |items| ==> IsOr(items[i].kind) || items[i].AltItem?
    ensures EdgesOk(names, edges) && Shaped(edges, items)
  {
    forall i | 0 <= i < |edges|
      ensures EdgeOk(names, edges[i]) && edges[i].kind == items[i].kind
      ensures items[i].OrItem? ==> edges[i].version == items[i].count
    {
      assert ItemMeans(names, edges[i], items[i]);
    }
  }

  lemma {:induction false} OrKinds(kind: nat, fields: seq<Str>)
    requires FieldsItems(kind, fields).Items?
    ensures forall i :: 0 <= i < |FieldsItems(kind, fields).items| ==>
              IsOr(FieldsItems(kind, fields).items[i].kind) || FieldsItems(kind, fields).items[i].AltItem?
    decreases |fields|
  {
    hide Alts, SkipSpaces, ParseAlternative;
    if fields != [] { OrKinds(kind, fields[..|fields| - 1]); }
  }

  /** The edges of a line are interned, and groups after groups. */
  lemma LineOk(names: seq<Option<Str>>, kind: nat, fields: seq<Str>, edges0: seq<Edge>, edges: seq<Edge>)
    requires FieldsItems(kind, fields).Items? && edges0 <= edges
    requires Means(names, edges[|edges0|..], FieldsItems(kind, fields).items)
    ensures EdgesOk(names, edges0) ==> EdgesOk(names, edges)
    ensures kind % 2 == 1 && Grouped(edges0, 0) ==> Grouped(edges, 0)
  {
    hide Means, Grouped, Shaped, FieldsItems, EdgeOk;
    var more := edges[|edges0|..];
    OrKinds(kind, fields);
    MeansOk(names, more, FieldsItems(kind, fields).items);
    assert edges == edges0 + more;
    if kind % 2 == 1 && Grouped(edges0, 0) {
      FieldsGrouped(kind, fields, more);
      GroupedAppend(edges0, more, 0);
    }
  }

  /** Every field in turn, up to the first that fails. */
  method AddFields(db: Database, edges0: seq<Edge>, fields: seq<Str>, kind: nat, ghost keys: set<Str>) returns (r: Split)
    requires db.Valid() && Room(db.names, keys) && forall i :: 0 <= i < |fields| ==> FieldKeys(keys, fields[i])
    modifies db`names
    ensures db.Valid() && Room(db.names, keys) && Extends(old(db.names), db.names)
    ensures SplitAs(r, edges0, FieldsItems(kind, fields), db.names)
  {
    hide Room, Database.Valid, FieldItems, FieldKeys, Means, Extends;
    var edges := edges0;
    ExtendsSelf(db.names);
    MeansNothing(db.names);
    assert fields[..0] == [] && edges0[|edges0|..] == [];
    for n := 0 to |fields|
      invariant db.Valid() && Room(db.names, keys) && Extends(old(db.names), db.names)
      invariant SplitAs(Added(edges), edges0, FieldsItems(kind, fields[..n]), db.names) && FieldsItems(kind, fields[..n]).Items?
    {
      ghost var names, xs := db.names, FieldsItems(kind, fields[..n]).items;
      assert fields[..n + 1][..n] == fields[..n];
      var next := AddField(db, edges, kind, fields[n], keys);
      ExtendsOn(old(db.names), names, db.names);
      if !next.Added? {
        FailsOn(kind, fields, n + 1);
        return next;
      }
      MeansStill(names, db.names, edges[|edges0|..], xs);
      MeansAppend(db.names, edges[|edges0|..], xs, next.edges[|edges|..], FieldItems(kind, fields[n]).items);
      assert next.edges[|edges0|..] == edges[|edges0|..] + next.edges[|edges|..];
      edges := next.edges;
    }
    assert fields[..|fields|] == fields;
    return Added(edges);
  }

  lemma MeansNothing(names: seq<Option<Str>>)
    ensures Means(names, [], [])
  {
  }

  lemma {:induction false} FailsOn(kind: nat, fields: seq<Str>, n: nat)
    requires n <= |fields| && !FieldsItems(kind, fields[..n]).Items?
    ensures FieldsItems(kind, fields) == FieldsItems(kind, fields[..n])
    decreases |fields| - n
  {
    hide FieldItems;
    if n == |fields| {
      assert fields[..n] == fields;
    } else {
      assert fields[..n + 1][..n] == fields[..n];
      FailsOn(kind, fields, n + 1);
    }
  }

  /** The edges of all fields are added, all in groups; or the line is not taken, by the first field that fails. */
  method AddSplitDependencies(db: Database, edges0: seq<Edge>, line: Str, kind: nat, ghost keys: set<Str>) returns (r: Split)
    requires db.Valid() && Room(db.names, keys) && LineKeys(keys, line)
    modifies db`names
    ensures db.Valid() && Room(db.names, keys) && Extends(old(db.names), db.names)
    ensures SplitAs(r, edges0, LineItems(kind, line), db.names)
    ensures r == Crashed <==> (Tokens(line, COMMA) == [] || exists i: nat :: NullAt(Tokens(line, COMMA), i))
    ensures r == BadOperator <==> exists i: nat :: IllegalAt(Tokens(line, COMMA), i)
    ensures r.Added? && EdgesOk(db.names, edges0) ==> EdgesOk(db.names, r.edges)
    ensures r.Added? && kind % 2 == 1 && Grouped(edges0, 0) ==> Grouped(r.edges, 0)
  {
    hide Room, Database.Valid, Tokens, FieldsItems, FieldKeys, Means, NullAt, IllegalAt, Extends, Grouped, EdgeOk;
    NullTokenWhen(kind, line);
    IllegalWhen(kind, line);
    var fields := Tokens(line, COMMA);
    if fields == [] {
      ExtendsSelf(db.names);
      return Crashed;
    }
    r := AddFields(db, edges0, fields, kind, keys);
    if r.Added? {
      LineOk(db.names, kind, fields, edges0, r.edges);
    }
  }

  // ---------- One package ----------

  const UNKNOWN: Str := ['u' as int, 'n' as int, 'k' as int, 'n' as int, 'o' as int, 'w' as int, 'n' as int]

  /** A field of a control file: its place in the list of field names, and its value. */
  datatype Field = Field(num: nat, value: Str)

  const FIELD_PACKAGE := 0
  const FIELD_VERSION := 1

  predicate IsRelation(num: nat) { 2 <= num <= 9 }

  /** Pre-Depends, Depends, Replaces, Provides, Conflicts, Suggests, Recommends and Enhances. */
  function KindOf(num: nat): nat
    requires IsRelation(num)
  {
    2 * num - 3
  }

  /** What the fields of a package say. */
  datatype Description = Described(name: Option<Str>, version: Str, items: seq<Item>) | Failed(how: Parsed)

  function Describe(fields: seq<Field>): Description {
    if fields == [] then Described(None, UNKNOWN, [])
    else
      var d, f := Describe(fields[..|fields| - 1]), fields[|fields| - 1];
      if d.Failed? then d
      else if f.num == FIELD_PACKAGE then d.(name := Some(f.value))
      else if f.num == FIELD_VERSION then d.(version := f.value)
      else if !IsRelation(f.num) then d
      else
        var p := LineItems(KindOf(f.num), f.value);
        if p.Items? then d.(items := d.items + p.items) else Failed(p)
  }

  ghost predicate FieldsKeys(keys: set<Str>, fields: seq<Field>) {
    && UNKNOWN in keys
    && forall i :: 0 <= i < |fields| ==> fields[i].value in keys && LineKeys(keys, fields[i].value)
  }

  /** A package as its description says; one without a name gets the name in slot 0. */
  ghost predicate NodeAs(names: seq<Option<Str>>, node: Node, d: Description) {
    && d.Described? && Names(names, node.version, d.version) && Means(names, node.edges, d.items)
    && if d.name.Some? then Names(names, node.name, d.name.value) else node.name == 0
  }

  /** A package that is being read: its edges so far are interned and in groups. */
  ghost predicate NodeSoFar(names: seq<Option<Str>>, node: Node, d: Description) {
    NodeAs(names, node, d) && EdgesOk(names, node.edges) && Grouped(node.edges, 0)
  }

  lemma NodeStarts(names: seq<Option<Str>>, version: nat)
    requires Names(names, version, UNKNOWN)
    ensures NodeSoFar(names, Node(0, version, []), Describe([]))
  {
  }

  lemma NodeStill(names: seq<Option<Str>>, names': seq<Option<Str>>, node: Node, d: Description)
    requires NodeSoFar(names, node, d) && Extends(names, names')
    ensures NodeSoFar(names', node, d)
  {
    hide Means, EdgesOk, Grouped;
    MeansStill(names, names', node.edges, d.items);
    EdgesStill(names, names', node.edges);
  }

  lemma EdgesAdded(names: seq<Option<Str>>, node: Node, d: Description, edges: seq<Edge>, items: seq<Item>)
    requires NodeSoFar(names, node, d) && node.edges <= edges && Means(names, edges[|node.edges|..], items)
    requires EdgesOk(names, edges) && Grouped(edges, 0)
    ensures NodeSoFar(names, node.(edges := edges), d.(items := d.items + items))
  {
    hide Means, EdgesOk, Grouped;
    MeansAppend(names, node.edges, d.items, edges[|node.edges|..], items);
    assert edges == node.edges + edges[|node.edges|..];
  }

  lemma Undescribed(node: Node, names: seq<Option<Str>>, d: Description)
    requires NodeSoFar(names, node, d)
    ensures d.Described? && EdgesOk(names, node.edges) && Grouped(node.edges, 0) && Names(names, node.version, d.version)
  {
  }

  /** One field added to what the fields before it gave. */
  method AddControlField(db: Database, node: Node, f: Field, ghost d: Description, ghost keys: set<Str>) returns (r: Split, node': Node)
    requires db.Valid() && Room(db.names, keys) && NodeSoFar(db.names, node, d)
    requires f.value in keys && LineKeys(keys, f.value)
    modifies db`names
    ensures db.Valid() && Room(db.names, keys) && Extends(old(db.names), db.names)
    ensures f.num == FIELD_PACKAGE ==> r.Added? && NodeSoFar(db.names, node', d.(name := Some(f.value)))
    ensures f.num == FIELD_VERSION ==> r.Added? && NodeSoFar(db.names, node', d.(version := f.value))
    ensures f.num > 9 ==> r.Added? && NodeSoFar(db.names, node', d)
    ensures IsRelation(f.num) ==>
              var p := LineItems(KindOf(f.num), f.value);
              && (r == Crashed <==> p == NullToken) && (r == BadOperator <==> p == IllegalOperator)
              && (p.Items? ==> r.Added? && NodeSoFar(db.names, node', d.(items := d.items + p.items)))
  {
    hide Room, Database.Valid, Tokens, LineItems, LineKeys, Means, NullAt, IllegalAt, Extends, Grouped, EdgesOk;
    ExtendsSelf(db.names);
    Undescribed(node, db.names, d);
    r, node' := Added([]), node;
    if f.num == FIELD_PACKAGE {
      var name := Intern(db, f.value, keys);
      NodeStill(old(db.names), db.names, node, d);
      node' := node.(name := name);
    } else if f.num == FIELD_VERSION {
      var version := Intern(db, f.value, keys);
      NodeStill(old(db.names), db.names, node, d);
      node' := node.(version := version);
    } else if IsRelation(f.num) {
      r := AddSplitDependencies(db, node.edges, f.value, KindOf(f.num), keys);
      NodeStill(old(db.names), db.names, node, d);
      Undescribed(node, db.names, d);
      if r.Added? {
        EdgesAdded(db.names, node, d, r.edges, LineItems(KindOf(f.num), f.value).items);
        node' := node.(edges := r.edges);
      }
    }
  }

  /** What fill_package_struct comes to. */
  datatype Fill = Stored(slot: nat) | Skipped | Died | Fell

  /** A package is stored as described, unless its version is unknown or its fields are not taken;
      without a name, and with slot 0 free, there is no name to search for. */
  ghost predicate FillAs(r: Fill, d: Description, names: seq<Option<Str>>, before: seq<Option<Node>>, after: seq<Option<Node>>) {
    if d == Failed(IllegalOperator) then r == Died && after == before
    else if d.Failed? then r == Fell && after == before
    else if d.version == UNKNOWN then r == Skipped && after == before
    else if d.name == None && !Interned(names, 0) then r == Fell && after == before
    else
      && r.Stored? && r.slot < |before| == |after| && after[r.slot].Some? && NodeAs(names, after[r.slot].value, d)
      && after == before[r.slot := after[r.slot]]
  }

  lemma {:induction false} DescribeFails(fields: seq<Field>, n: nat)
    requires n <= |fields| && Describe(fields[..n]).Failed?
    ensures Describe(fields) == Describe(fields[..n])
    decreases |fields| - n
  {
    hide LineItems;
    if n == |fields| {
      assert fields[..n] == fields;
    } else {
      assert fields[..n + 1][..n] == fields[..n];
      DescribeFails(fields, n + 1);
    }
  }

  /** All fields of a package. */
  method ReadFields(db: Database, fields: seq<Field>, ghost keys: set<Str>) returns (r: Split, node: Node)
    requires db.Valid() && Room(db.names, keys) && FieldsKeys(keys, fields)
    modifies db`names
    ensures db.Valid() && Room(db.names, keys) && Extends(old(db.names), db.names)
    ensures r == Crashed <==> Describe(fields) == Failed(NullToken)
    ensures r == BadOperator <==> Describe(fields) == Failed(IllegalOperator)
    ensures r.Added? ==> NodeSoFar(db.names, node, Describe(fields))
  {
    hide Room, Database.Valid, LineItems, LineKeys, NodeSoFar, Extends;
    var version := Intern(db, UNKNOWN, keys);
    r, node := Added([]), Node(0, version, []);
    NodeStarts(db.names, version);
    assert fields[..0] == [];
    for n := 0 to |fields|
      invariant db.Valid() && Room(db.names, keys) && Extends(old(db.names), db.names)
      invariant r.Added? && Describe(fields[..n]).Described? && NodeSoFar(db.names, node, Describe(fields[..n]))
    {
      ghost var names, d := db.names, Describe(fields[..n]);
      assert fields[..n + 1][..n] == fields[..n];
      r, node := AddControlField(db, node, fields[n], d, keys);
      ExtendsOn(old(db.names), names, db.names);
      if !r.Added? {
        DescribeFails(fields, n + 1);
        return;
      }
    }
    assert fields[..|fields|] == fields;
  }

  /** Store the package that the fields describe. */
  method FillPackage(db: Database, fields: seq<Field>, ghost keys: set<Str>) returns (r: Fill)
    requires db.Valid() && Room(db.names, keys) && FieldsKeys(keys, fields) && FreeSlots(db.packages) != {}
    modifies db`names, db`packages
    ensures db.Valid() && Room(db.names, keys) && Extends(old(db.names), db.names)
    ensures FillAs(r, Describe(fields), db.names, old(db.packages), db.packages)
  {
    hide Room, Database.Valid, Describe, NodeSoFar, Extends, Means, PackageIs, NodeOk;
    var split, node := ReadFields(db, fields, keys);
    if split == Crashed {
      return Fell;
    } else if split == BadOperator {
      return Died;
    }
    ghost var d, names := Describe(fields), db.names;
    Undescribed(node, db.names, d);
    var unknown := Intern(db, UNKNOWN, keys);
    ExtendsOn(old(db.names), names, db.names);
    NodeStill(names, db.names, node, d);
    Undescribed(node, db.names, d);
    SameName(db, node.version, d.version, unknown, UNKNOWN);
    if node.version == unknown {
      return Skipped;
    }
    NameIndex(db.names, node, d);
    if !Interned(db.names, node.name) {
      return Fell;
    }
    NodeReady(db.names, node, d);
    ghost var free :| free in FreeSlots(db.packages);
    var a := db.PutPackage(node);
    r := Stored(a);
  }

  /** Indices are equal exactly for equal names. */
  lemma SameName(db: Database, i: nat, s: Str, j: nat, t: Str)
    requires db.Valid() && Names(db.names, i, s) && Names(db.names, j, t)
    ensures i == j <==> s == t
  {
    hide PackagesOk, StatusesOk, Reaches;
  }

  lemma NameIndex(names: seq<Option<Str>>, node: Node, d: Description)
    requires NodeSoFar(names, node, d)
    ensures Interned(names, node.name) <==> d.name.Some? || Interned(names, 0)
    ensures NodeAs(names, node, d)
  {
    hide Means;
  }

  lemma NodeReady(names: seq<Option<Str>>, node: Node, d: Description)
    requires NodeSoFar(names, node, d) && Interned(names, node.name)
    ensures NodeOk(names, node)
  {
    hide Means, EdgeOk, Grouped;
  }

  lemma StoredStill(names: seq<Option<Str>>, names': seq<Option<Str>>, r: Fill, d: Description, before: seq<Option<Node>>, after: seq<Option<Node>>)
    requires FillAs(r, d, names, before, after) && r.Stored? && Extends(names, names')
    ensures FillAs(r, d, names', before, after)
  {
    hide Means;
    MeansStill(names, names', after[r.slot].value.edges, d.items);
  }

  /** Slot `b` is the status of the package at `slot`, with the text `text`. */
  ghost predicate StatusSet(names: seq<Option<Str>>, before: seq<Option<StatusNode>>, after: seq<Option<StatusNode>>, b: nat, slot: nat, text: Str) {
    && b < |before| == |after| && after[b].Some? && after == before[b := after[b]]
    && after[b].value.package == slot && Names(names, after[b].value.status, text)
  }

  /** One entry of the status file: its package and, if that was stored, its status. */
  method AddEntry(db: Database, fields: seq<Field>, status: Str, ghost keys: set<Str>) returns (r: Fill, ghost b: nat)
    requires db.Valid() && Room(db.names, keys) && FieldsKeys(keys, fields) && status in keys
    requires FreeSlots(db.packages) != {} && FreeSlots(db.statuses) != {}
    modifies db`names, db`packages, db`statuses
    ensures db.Valid() && Room(db.names, keys) && Extends(old(db.names), db.names)
    ensures FillAs(r, Describe(fields), db.names, old(db.packages), db.packages)
    ensures if r.Stored? then StatusSet(db.names, old(db.statuses), db.statuses, b, r.slot, status) else db.statuses == old(db.statuses)
  {
    hide Room, Database.Valid, Describe, Extends, FieldsKeys, NodeAs, StatusIs;
    r := FillPackage(db, fields, keys);
    b := 0;
    if r.Stored? {
      ghost var names := db.names;
      var text := Intern(db, status, keys);
      ExtendsOn(old(db.names), names, db.names);
      StoredStill(names, db.names, r, Describe(fields), old(db.packages), db.packages);
      ghost var free :| free in FreeSlots(db.statuses);
      var c := db.PutStatus(StatusNode(r.slot, text));
      b := c;
    }
  }
}
