/** The caller's field specification and `parseStruct`
    (arraybuffer-struct.js:161-166), which flattens it depth first, in
    declaration order, into leaves that each carry their full name path and,
    per level, whether that level's value is an array. */
module Fields {
  import opened Common
  import opened TypeTag
  import opened Values

  /** `{value, type}`: a leaf with its type tag and initial value, or a nested
      record (`type: 'struct'`) whose value is an object or an array of fields. */
  datatype FieldNode =
    | Leaf(tag: string, init: Value)
    | Record(isArray: bool, fields: seq<Field>)

  /** One own enumerable property of a specification object, in the order
      `Object.entries` lists it. */
  datatype Field = Field(name: string, node: FieldNode)

  /** One entry of `parseObj`: a leaf with its name path, per-level array
      flags, initial value and parsed type. */
  datatype Item = Item(name: seq<string>, flags: seq<bool>, init: Value, info: TypeInfo)

  /** Property names are unique within every object, as JavaScript guarantees. */
  predicate UniqueNames(fields: seq<Field>)
    decreases fields
  {
    (forall i, j :: 0 <= i < j < |fields| ==> fields[i].name != fields[j].name)
    && forall i :: 0 <= i < |fields| ==> UniqueNode(fields[i].node)
  }

  predicate UniqueNode(node: FieldNode)
    decreases node
  {
    node.Record? ==> UniqueNames(node.fields)
  }

  function Names(fields: seq<Field>): set<string> {
    set i | 0 <= i < |fields| :: fields[i].name
  }

  /** Neither path is a prefix of the other: the two leaves sit in different
      branches of the record tree. */
  predicate Apart(p: seq<string>, q: seq<string>) {
    !(p <= q) && !(q <= p)
  }

  predicate PairwiseApart(items: seq<Item>) {
    forall i, j :: 0 <= i < j < |items| ==> Apart(items[i].name, items[j].name)
  }

  /** Every leaf tag below `fields` parses. */
  predicate TagsParse(fields: seq<Field>)
    decreases fields
  {
    forall i :: 0 <= i < |fields| ==> NodeTagsParse(fields[i].node)
  }

  predicate NodeTagsParse(node: FieldNode)
    decreases node
  {
    match node
    case Leaf(tag, _) => ParseType(tag).Ok?
    case Record(_, fs) => TagsParse(fs)
  }

  /** `parseStruct(o, prefix, isArray)`: the leaves below `fields`, depth first.
      A tag that does not parse throws, so the first such leaf in that order
      ends the construction. */
  function Flatten(fields: seq<Field>, prefix: seq<string>, flags: seq<bool>): (r: Result<seq<Item>>)
    requires |prefix| == |flags|
    ensures r.Ok? <==> TagsParse(fields)
    ensures r.Ok? ==> forall it :: it in r.value ==>
      |it.name| == |it.flags| > |prefix| && it.name[..|prefix|] == prefix
      && it.flags[..|flags|] == flags && it.name[|prefix|] in Names(fields)
    ensures r.Ok? && UniqueNames(fields) ==> PairwiseApart(r.value)
    ensures r.Ok? ==> forall it :: it in r.value ==> it.info.Valid()
    ensures r.Err? ==> r.error.UnknownType?
    decreases fields
  {
    if |fields| == 0 then Ok([])
    else
      var first :- FlattenNode(fields[0], prefix, flags);
      var rest :- Flatten(fields[1..], prefix, flags);
      if UniqueNames(fields) then
        assert fields[0].name !in Names(fields[1..]);
        assert UniqueNode(fields[0].node);
        assert UniqueNames(fields[1..]);
        ApartAcross(first, rest, |prefix|);
        Ok(first + rest)
      else Ok(first + rest)
  }

  function FlattenNode(field: Field, prefix: seq<string>, flags: seq<bool>): (r: Result<seq<Item>>)
    requires |prefix| == |flags|
    ensures r.Ok? <==> NodeTagsParse(field.node)
    ensures r.Ok? ==> forall it :: it in r.value ==>
      |it.name| == |it.flags| > |prefix| && it.name[..|prefix|] == prefix
      && it.flags[..|flags|] == flags && it.name[|prefix|] == field.name
    ensures r.Ok? && UniqueNode(field.node) ==> PairwiseApart(r.value)
    ensures r.Ok? ==> forall it :: it in r.value ==> it.info.Valid()
    ensures r.Err? ==> r.error.UnknownType?
    decreases field
  {
    match field.node
    case Leaf(tag, init) =>
      var info :- ParseType(tag);
      Ok([Item(prefix + [field.name], flags + [init.List?], init, info)])
    case Record(isArray, fs) =>
      var r := Flatten(fs, prefix + [field.name], flags + [isArray]);
      if r.Ok? then
        assert forall it :: it in r.value ==> it.name[..|prefix|] == (prefix + [field.name])[..|prefix|];
        r
      else r
  }

  /** Leaves from different fields of one record are apart. */
  lemma ApartAcross(a: seq<Item>, b: seq<Item>, depth: nat)
    requires PairwiseApart(a) && PairwiseApart(b)
    requires forall x, y :: x in a && y in b ==>
      |x.name| > depth && |y.name| > depth && x.name[depth] != y.name[depth]
    ensures PairwiseApart(a + b)
  {
    var s := a + b;
    forall i, j | 0 <= i < j < |s|
      ensures Apart(s[i].name, s[j].name)
    {
      if j >= |a| && i < |a| {
        assert s[i] in a && s[j] in b;
        assert s[i].name[depth] != s[j].name[depth];
      } else if j < |a| {
        assert s[i] == a[i] && s[j] == a[j];
      } else {
        assert s[i] == b[i - |a|] && s[j] == b[j - |a|];
      }
    }
  }

  // ---------------------------------------------------------------------
  // The field tree read directly, and what flattening owes it
  // ---------------------------------------------------------------------

  /** What a name path leads to in the field tree: the leaf's tag and
      initial value, and per level whether that level's value is an array
      (a record's `isArray`; at the leaf, whether its initial value is one). */
  datatype Found = Found(tag: string, init: Value, arrays: seq<bool>)

  /** The leaf at `path` below `fields`, each name looked up among the
      fields of its record; `None` when the path names no field, stops at a
      record or runs on past a leaf. */
  function LeafAt(fields: seq<Field>, path: seq<string>): Option<Found>
    decreases fields
  {
    if |fields| == 0 || |path| == 0 then None
    else if fields[0].name == path[0] then NodeAt(fields[0].node, path[1..])
    else LeafAt(fields[1..], path)
  }

  function NodeAt(node: FieldNode, path: seq<string>): Option<Found>
    decreases node
  {
    match node
    case Leaf(tag, init) => if |path| == 0 then Some(Found(tag, init, [init.List?])) else None
    case Record(isArray, fs) =>
      match LeafAt(fs, path)
      case Some(f) => Some(Found(f.tag, f.init, [isArray] + f.arrays))
      case None => None
  }

  /** The number of leaves below `fields`. */
  function LeafCount(fields: seq<Field>): nat
    decreases fields
  {
    if |fields| == 0 then 0 else NodeLeafCount(fields[0].node) + LeafCount(fields[1..])
  }

  function NodeLeafCount(node: FieldNode): nat
    decreases node
  {
    match node
    case Leaf(_, _) => 1
    case Record(_, fs) => LeafCount(fs)
  }

  /** The index of the first field named `name`; `|fields|` when none is. */
  function Pos(fields: seq<Field>, name: string): (r: nat)
    ensures r <= |fields|
    ensures r < |fields| <==> name in Names(fields)
    ensures r < |fields| ==> fields[r].name == name
  {
    if |fields| == 0 then 0
    else if fields[0].name == name then 0
    else
      var r := 1 + Pos(fields[1..], name);
      assert forall i :: 1 <= i < |fields| ==> fields[i] == fields[1..][i - 1];
      assert name in Names(fields) ==> name in Names(fields[1..]) by {
        if name in Names(fields) {
          var i :| 0 <= i < |fields| && fields[i].name == name;
          assert fields[1..][i - 1].name == name;
        }
      }
      r
  }

  /** Path `p` comes before path `q` in declaration order: at the first
      level where they part, `p`'s field is declared before `q`'s. */
  predicate Precedes(fields: seq<Field>, p: seq<string>, q: seq<string>)
    decreases fields
  {
    |p| > 0 && |q| > 0 && Pos(fields, p[0]) < |fields|
    && if p[0] == q[0] then NodePrecedes(fields[Pos(fields, p[0])].node, p[1..], q[1..])
       else Pos(fields, p[0]) < Pos(fields, q[0]) < |fields|
  }

  predicate NodePrecedes(node: FieldNode, p: seq<string>, q: seq<string>)
    decreases node
  {
    node.Record? && Precedes(node.fields, p, q)
  }

  /** Flattening yields one item per leaf. */
  lemma {:induction false} FlattenCount(fields: seq<Field>, prefix: seq<string>, flags: seq<bool>)
    requires |prefix| == |flags| && Flatten(fields, prefix, flags).Ok?
    ensures |Flatten(fields, prefix, flags).value| == LeafCount(fields)
    decreases fields
  {
    if |fields| > 0 {
      FlattenNodeCount(fields[0], prefix, flags);
      FlattenCount(fields[1..], prefix, flags);
    }
  }

  lemma {:induction false} FlattenNodeCount(field: Field, prefix: seq<string>, flags: seq<bool>)
    requires |prefix| == |flags| && FlattenNode(field, prefix, flags).Ok?
    ensures |FlattenNode(field, prefix, flags).value| == NodeLeafCount(field.node)
    decreases field
  {
    if field.node.Record? {
      FlattenCount(field.node.fields, prefix + [field.name], flags + [field.node.isArray]);
    }
  }

  /** Every item is the leaf its path leads to: the tag there parses to the
      item's type, the initial value is the leaf's, and the array flags are
      the records' `isArray` on the way down followed by whether the initial
      value is an array. */
  lemma {:induction false} FlattenLeafAt(fields: seq<Field>, prefix: seq<string>, flags: seq<bool>, it: Item)
    requires |prefix| == |flags| && UniqueNames(fields) && Flatten(fields, prefix, flags).Ok?
    requires it in Flatten(fields, prefix, flags).value
    ensures |prefix| <= |it.name| && |prefix| <= |it.flags|
    ensures var f := LeafAt(fields, it.name[|prefix|..]);
      f.Some? && ParseType(f.value.tag) == Ok(it.info) && f.value.init == it.init
      && f.value.arrays == it.flags[|prefix|..]
    decreases fields
  {
    var first := FlattenNode(fields[0], prefix, flags).value;
    var rest := Flatten(fields[1..], prefix, flags).value;
    var path := it.name[|prefix|..];
    if it in first {
      FlattenNodeLeafAt(fields[0], prefix, flags, it);
      assert path[1..] == it.name[|prefix| + 1..];
    } else {
      assert it in rest;
      assert path[0] in Names(fields[1..]);
      assert path[0] != fields[0].name by {
        var i :| 0 <= i < |fields[1..]| && fields[1..][i].name == path[0];
        assert fields[i + 1].name == path[0];
      }
      FlattenLeafAt(fields[1..], prefix, flags, it);
    }
  }

  lemma {:induction false} FlattenNodeLeafAt(field: Field, prefix: seq<string>, flags: seq<bool>, it: Item)
    requires |prefix| == |flags| && UniqueNode(field.node) && FlattenNode(field, prefix, flags).Ok?
    requires it in FlattenNode(field, prefix, flags).value
    ensures |prefix| < |it.name| && |prefix| <= |it.flags|
    ensures var f := NodeAt(field.node, it.name[|prefix| + 1..]);
      f.Some? && ParseType(f.value.tag) == Ok(it.info) && f.value.init == it.init
      && f.value.arrays == it.flags[|prefix|..]
    decreases field
  {
    match field.node
    case Leaf(tag, init) =>
      assert it.name[|prefix| + 1..] == [];
      assert it.flags[|prefix|..] == [init.List?];
    case Record(isArray, fs) =>
      var prefix', flags' := prefix + [field.name], flags + [isArray];
      FlattenLeafAt(fs, prefix', flags', it);
      FlagStep(it.flags, flags, isArray);
  }

  /** A path's flags past a prefix whose own flags end in `b`. */
  lemma FlagStep(all: seq<bool>, flags: seq<bool>, b: bool)
    requires |flags| < |all| && all[..|flags| + 1] == flags + [b]
    ensures all[|flags|..] == [b] + all[|flags| + 1..]
  {
    assert all[|flags|] == (flags + [b])[|flags|];
  }

  /** Conversely, every leaf of the tree appears among the items. */
  lemma {:induction false} FlattenCovers(fields: seq<Field>, prefix: seq<string>, flags: seq<bool>, path: seq<string>)
    requires |prefix| == |flags| && Flatten(fields, prefix, flags).Ok? && LeafAt(fields, path).Some?
    ensures exists it :: it in Flatten(fields, prefix, flags).value && it.name == prefix + path
    decreases fields
  {
    var first := FlattenNode(fields[0], prefix, flags).value;
    var rest := Flatten(fields[1..], prefix, flags).value;
    assert Flatten(fields, prefix, flags).value == first + rest;
    if fields[0].name == path[0] {
      FlattenNodeCovers(fields[0], prefix, flags, path[1..]);
      assert prefix + [fields[0].name] + path[1..] == prefix + path;
      var it :| it in first && it.name == prefix + path;
      assert it in first + rest;
    } else {
      FlattenCovers(fields[1..], prefix, flags, path);
      var it :| it in rest && it.name == prefix + path;
      assert it in first + rest;
    }
  }

  lemma {:induction false} FlattenNodeCovers(field: Field, prefix: seq<string>, flags: seq<bool>, path: seq<string>)
    requires |prefix| == |flags| && FlattenNode(field, prefix, flags).Ok? && NodeAt(field.node, path).Some?
    ensures exists it :: it in FlattenNode(field, prefix, flags).value && it.name == prefix + [field.name] + path
    decreases field
  {
    match field.node
    case Leaf(tag, init) =>
      var it := FlattenNode(field, prefix, flags).value[0];
      assert it.name == prefix + [field.name] + path;
    case Record(isArray, fs) =>
      FlattenCovers(fs, prefix + [field.name], flags + [isArray], path);
  }

  /** The items come in declaration order, depth first. */
  lemma {:induction false} FlattenOrder(fields: seq<Field>, prefix: seq<string>, flags: seq<bool>, i: nat, j: nat)
    requires |prefix| == |flags| && UniqueNames(fields) && Flatten(fields, prefix, flags).Ok?
    requires i < j < |Flatten(fields, prefix, flags).value|
    ensures var items := Flatten(fields, prefix, flags).value;
      |prefix| <= |items[i].name| && |prefix| <= |items[j].name|
      && Precedes(fields, items[i].name[|prefix|..], items[j].name[|prefix|..])
    decreases fields, 1
  {
    var n := |FlattenNode(fields[0], prefix, flags).value|;
    if j < n {
      OrderInFirst(fields, prefix, flags, i, j);
    } else if i < n {
      OrderAcross(fields, prefix, flags, i, j);
    } else {
      OrderInRest(fields, prefix, flags, i, j);
    }
  }

  lemma {:induction false} OrderInFirst(fields: seq<Field>, prefix: seq<string>, flags: seq<bool>, i: nat, j: nat)
    requires |prefix| == |flags| && |fields| > 0 && UniqueNames(fields) && Flatten(fields, prefix, flags).Ok?
    requires i < j < |FlattenNode(fields[0], prefix, flags).value|
    ensures var items := Flatten(fields, prefix, flags).value;
      j < |items| && |prefix| <= |items[i].name| && |prefix| <= |items[j].name|
      && Precedes(fields, items[i].name[|prefix|..], items[j].name[|prefix|..])
    decreases fields, 0
  {
    var first := FlattenNode(fields[0], prefix, flags).value;
    var rest := Flatten(fields[1..], prefix, flags).value;
    assert Flatten(fields, prefix, flags).value == first + rest;
    var a, b := first[i], first[j];
    assert a in first && b in first;
    FlattenNodeOrder(fields[0], prefix, flags, i, j);
    PrecedesHead(fields, a.name[|prefix|..], b.name[|prefix|..], a.name[|prefix| + 1..], b.name[|prefix| + 1..]);
  }

  lemma {:induction false} OrderAcross(fields: seq<Field>, prefix: seq<string>, flags: seq<bool>, i: nat, j: nat)
    requires |prefix| == |flags| && |fields| > 0 && UniqueNames(fields) && Flatten(fields, prefix, flags).Ok?
    requires i < |FlattenNode(fields[0], prefix, flags).value| <= j < |Flatten(fields, prefix, flags).value|
    ensures var items := Flatten(fields, prefix, flags).value;
      |prefix| <= |items[i].name| && |prefix| <= |items[j].name|
      && Precedes(fields, items[i].name[|prefix|..], items[j].name[|prefix|..])
  {
    var first := FlattenNode(fields[0], prefix, flags).value;
    var rest := Flatten(fields[1..], prefix, flags).value;
    assert Flatten(fields, prefix, flags).value == first + rest;
    var a, b := first[i], rest[j - |first|];
    assert a in first && b in rest;
    PrecedesAcross(fields, a.name[|prefix|..], b.name[|prefix|..]);
  }

  lemma {:induction false} OrderInRest(fields: seq<Field>, prefix: seq<string>, flags: seq<bool>, i: nat, j: nat)
    requires |prefix| == |flags| && |fields| > 0 && UniqueNames(fields) && Flatten(fields, prefix, flags).Ok?
    requires |FlattenNode(fields[0], prefix, flags).value| <= i < j < |Flatten(fields, prefix, flags).value|
    ensures var items := Flatten(fields, prefix, flags).value;
      |prefix| <= |items[i].name| && |prefix| <= |items[j].name|
      && Precedes(fields, items[i].name[|prefix|..], items[j].name[|prefix|..])
    decreases fields, 0
  {
    var first := FlattenNode(fields[0], prefix, flags).value;
    var rest := Flatten(fields[1..], prefix, flags).value;
    assert Flatten(fields, prefix, flags).value == first + rest;
    var i', j' := i - |first|, j - |first|;
    FlattenHeadName(fields[1..], prefix, flags, i');
    FlattenHeadName(fields[1..], prefix, flags, j');
    FlattenOrder(fields[1..], prefix, flags, i', j');
    RestStep(fields, |prefix|, Flatten(fields, prefix, flags).value, first, rest, i, j, i', j');
  }

  lemma {:induction false} FlattenNodeOrder(field: Field, prefix: seq<string>, flags: seq<bool>, i: nat, j: nat)
    requires |prefix| == |flags| && UniqueNode(field.node) && FlattenNode(field, prefix, flags).Ok?
    requires i < j < |FlattenNode(field, prefix, flags).value|
    ensures var items := FlattenNode(field, prefix, flags).value;
      |prefix| < |items[i].name| && |prefix| < |items[j].name|
      && NodePrecedes(field.node, items[i].name[|prefix| + 1..], items[j].name[|prefix| + 1..])
    decreases field
  {
    var items := FlattenNode(field, prefix, flags).value;
    assert items[i] in items && items[j] in items;
    match field.node
    case Record(isArray, fs) =>
      FlattenOrder(fs, prefix + [field.name], flags + [isArray], i, j);
  }

  /** Two items flattened from the later fields keep their order. */
  lemma {:induction false} RestStep(fields: seq<Field>, depth: nat, items: seq<Item>, first: seq<Item>, rest: seq<Item>,
                                     i: nat, j: nat, i': nat, j': nat)
    requires |fields| > 0 && UniqueNames(fields) && items == first + rest
    requires i == |first| + i' && j == |first| + j' && i' < j' < |rest|
    requires depth < |rest[i'].name| && rest[i'].name[depth] in Names(fields[1..])
    requires depth < |rest[j'].name| && rest[j'].name[depth] in Names(fields[1..])
    requires Precedes(fields[1..], rest[i'].name[depth..], rest[j'].name[depth..])
    ensures j < |items| && Precedes(fields, items[i].name[depth..], items[j].name[depth..])
  {
    PrecedesTail(fields, rest[i'].name[depth..], rest[j'].name[depth..]);
    assert items[i] == rest[i'] && items[j] == rest[j'];
  }

  /** Item `k` sits below one of the fields flattened. */
  lemma FlattenHeadName(fields: seq<Field>, prefix: seq<string>, flags: seq<bool>, k: nat)
    requires |prefix| == |flags| && Flatten(fields, prefix, flags).Ok? && k < |Flatten(fields, prefix, flags).value|
    ensures var it := Flatten(fields, prefix, flags).value[k];
      |prefix| < |it.name| && it.name[|prefix|] in Names(fields)
  {
    assert Flatten(fields, prefix, flags).value[k] in Flatten(fields, prefix, flags).value;
  }

  /** A name declared after the first field, in a record whose names are
      unique, is not the first field's, and its position is one past its
      position among the later fields. */
  lemma NamesTail(fields: seq<Field>, name: string)
    requires |fields| > 0 && UniqueNames(fields) && name in Names(fields[1..])
    ensures name != fields[0].name && Pos(fields, name) == 1 + Pos(fields[1..], name)
  {
    var i :| 0 <= i < |fields[1..]| && fields[1..][i].name == name;
    assert fields[i + 1].name == name;
  }

  /** Two paths under the first field are ordered as they are below it. */
  lemma PrecedesHead(fields: seq<Field>, p: seq<string>, q: seq<string>, p': seq<string>, q': seq<string>)
    requires |fields| > 0 && |p| > 0 && |q| > 0 && p[0] == fields[0].name && q[0] == fields[0].name
    requires p' == p[1..] && q' == q[1..] && NodePrecedes(fields[0].node, p', q')
    ensures Precedes(fields, p, q)
  {
  }

  /** A path under the first field precedes one under a later field. */
  lemma PrecedesAcross(fields: seq<Field>, p: seq<string>, q: seq<string>)
    requires |fields| > 0 && UniqueNames(fields) && |p| > 0 && |q| > 0
    requires p[0] == fields[0].name && q[0] in Names(fields[1..])
    ensures Precedes(fields, p, q)
  {
    NamesTail(fields, q[0]);
  }

  /** Declaration order among the later fields carries over to the record. */
  lemma PrecedesTail(fields: seq<Field>, p: seq<string>, q: seq<string>)
    requires |fields| > 0 && UniqueNames(fields) && Precedes(fields[1..], p, q)
    requires p[0] in Names(fields[1..]) && q[0] in Names(fields[1..])
    ensures Precedes(fields, p, q)
  {
    NamesTail(fields, p[0]);
    NamesTail(fields, q[0]);
    assert fields[Pos(fields, p[0])] == fields[1..][Pos(fields[1..], p[0])];
  }
}
