/**
 The configuration-tree walkers of src/http_endpoints.rs: discovering the block to
 write a field to, and reading the field back from that block.
 */
module ConfigTree {
  import opened Results

  /**
   What the walkers look at in a JSON item: a string name, a numeric value, and an
   `items` array.  A field of another type counts as absent.
   */
  datatype Item =
    | Leaf(name: Option<string>, value: Option<real>)
    | Group(name: Option<string>, value: Option<real>, items: seq<Item>)

  const BLOCK_PREFIX: string := "Block_"

  predicate IsBlockName(name: string) {
    BLOCK_PREFIX <= name
  }

  /** Block names are those that begin with the six characters `Block_`. */
  lemma {:induction false} BlockNames(name: string)
    ensures IsBlockName(name) <==> |name| >= 6 && name[..6] == "Block_"
  {
    assert IsBlockName(name) ==> name[..6] == "Block_";
    if |name| >= 6 && name[..6] == "Block_" {
      assert BLOCK_PREFIX == name[..|BLOCK_PREFIX|];
    }
  }

  predicate IsBlock(item: Item) {
    item.name.Some? && IsBlockName(item.name.value)
  }

  /** The block enclosing an item's children: the item itself when it is one. */
  function Inner(item: Item, enclosing: Option<string>): Option<string> {
    if IsBlock(item) then item.name else enclosing
  }

  // ---------------------------------------------------------------- the code

  function FindBlockNameCarryingField(items: seq<Item>, field: string, enclosing: Option<string>): Option<string>
    decreases items
  {
    if items == [] then None
    else
      var item := items[0];
      if item.name == Some(field) && enclosing.Some? then enclosing
      else
        var nested :=
          if item.Group? then FindBlockNameCarryingField(item.items, field, Inner(item, enclosing)) else None;
        if nested.Some? then nested else FindBlockNameCarryingField(items[1..], field, enclosing)
  }

  function FindGroupItems(items: seq<Item>, group: string): Option<seq<Item>>
    decreases items
  {
    if items == [] then None
    else
      var item := items[0];
      if item.name == Some(group) then (if item.Group? then Some(item.items) else None)
      else
        var nested := if item.Group? then FindGroupItems(item.items, group) else None;
        if nested.Some? then nested else FindGroupItems(items[1..], group)
  }

  function ReadConfigLeafValue(items: seq<Item>, field: string): Option<real>
    decreases items
  {
    if items == [] then None
    else
      var item := items[0];
      if item.name == Some(field) then item.value
      else
        var nested := if item.Group? then ReadConfigLeafValue(item.items, field) else None;
        if nested.Some? then nested else ReadConfigLeafValue(items[1..], field)
  }

  // ---------------------------------------------------------------- the tree in pre-order

  /** An item as a walk meets it: where it is, and its nearest enclosing block. */
  datatype Visit = Visit(path: seq<nat>, item: Item, enclosing: Option<string>)

  /** All items below `items`, parents before children, with paths below `path` starting at index `i`. */
  function Preorder(items: seq<Item>, path: seq<nat>, i: nat, enclosing: Option<string>): seq<Visit>
    decreases items
  {
    if items == [] then []
    else
      var item := items[0];
      [Visit(path + [i], item, enclosing)]
      + (if item.Group? then Preorder(item.items, path + [i], 0, Inner(item, enclosing)) else [])
      + Preorder(items[1..], path, i + 1, enclosing)
  }

  function Visits(items: seq<Item>): seq<Visit> {
    Preorder(items, [], 0, None)
  }

  /** The first visit satisfying `p`. */
  function First(visits: seq<Visit>, p: Visit -> bool): (found: Option<Visit>)
    ensures found.Some? <==> exists v | v in visits :: p(v)
    ensures found.Some? ==> found.value in visits && p(found.value)
  {
    if visits == [] then None else if p(visits[0]) then Some(visits[0]) else First(visits[1..], p)
  }

  lemma {:induction false} FirstAppend(a: seq<Visit>, b: seq<Visit>, p: Visit -> bool)
    ensures First(a + b, p) == if First(a, p).Some? then First(a, p) else First(b, p)
    decreases |a|
  {
    if a == [] {
      assert a + b == b;
    } else {
      assert (a + b)[1..] == a[1..] + b;
      FirstAppend(a[1..], b, p);
    }
  }

  /** The item is the field looked for, inside some block. */
  function IsTarget(field: string): Visit -> bool {
    (v: Visit) => v.item.name == Some(field) && v.enclosing.Some?
  }

  function IsNamed(name: string): Visit -> bool {
    (v: Visit) => v.item.name == Some(name)
  }

  /** Splits the walk of a non-empty list at its first item. */
  lemma {:induction false} PreorderSplits(
    items: seq<Item>, path: seq<nat>, i: nat, enclosing: Option<string>, p: Visit -> bool)
    requires items != []
    ensures var item := items[0];
            var head := Visit(path + [i], item, enclosing);
            var nested := if item.Group? then Preorder(item.items, path + [i], 0, Inner(item, enclosing)) else [];
            First(Preorder(items, path, i, enclosing), p)
            == if p(head) then Some(head)
               else if First(nested, p).Some? then First(nested, p)
               else First(Preorder(items[1..], path, i + 1, enclosing), p)
  {
    var item := items[0];
    var head := Visit(path + [i], item, enclosing);
    var nested := if item.Group? then Preorder(item.items, path + [i], 0, Inner(item, enclosing)) else [];
    FirstAppend([head] + nested, Preorder(items[1..], path, i + 1, enclosing), p);
    FirstAppend([head], nested, p);
    assert [head][1..] == [];
  }

  // ---------------------------------------------------------------- each walker finds a first visit

  /** Discovery returns the enclosing block of the first field, in pre-order, that has one. */
  lemma {:induction false} DiscoveryIsFirst(
    items: seq<Item>, path: seq<nat>, i: nat, field: string, enclosing: Option<string>)
    ensures var first := First(Preorder(items, path, i, enclosing), IsTarget(field));
            FindBlockNameCarryingField(items, field, enclosing)
            == if first.Some? then first.value.enclosing else None
    decreases items
  {
    hide First, Preorder;
    if items == [] {
      NothingFirst(path, i, enclosing, IsTarget(field));
    } else {
      var item := items[0];
      PreorderSplits(items, path, i, enclosing, IsTarget(field));
      EmptyFirst(IsTarget(field));
      if item.Group? {
        DiscoveryIsFirst(item.items, path + [i], 0, field, Inner(item, enclosing));
      }
      DiscoveryIsFirst(items[1..], path, i + 1, field, enclosing);
    }
  }

  lemma {:induction false} NothingFirst(path: seq<nat>, i: nat, enclosing: Option<string>, p: Visit -> bool)
    ensures First(Preorder([], path, i, enclosing), p) == None
  {
  }

  lemma {:induction false} EmptyFirst(p: Visit -> bool)
    ensures First([], p) == None
  {
  }

  // ---------------------------------------------------------------- which items a search looks at

  /**
   A match ends the list it is in: `u` keeps a search away from `v` when `u` encloses `v`,
   or stands before `v`, or before an item enclosing `v`, in one list of items.
   */
  predicate Shadows(u: seq<nat>, v: seq<nat>) {
    var last := |u| - 1;
    0 <= last < |v| && u[..last] == v[..last] && u[last] <= v[last] && u != v
  }

  /** An item of the name searched for that no other such item keeps the search away from. */
  predicate Consulted(visits: seq<Visit>, name: string, v: Visit) {
    && v in visits && v.item.name == Some(name)
    && forall u | u in visits && u.item.name == Some(name) :: !Shadows(u.path, v.path)
  }

  /** An item a search for `name` looks at and that has what it wants. */
  function Answers(visits: seq<Visit>, name: string, wanted: Item -> bool): (answers: Visit -> bool)
    ensures forall v :: answers(v) <==> wanted(v.item) && Consulted(visits, name, v)
  {
    (v: Visit) => wanted(v.item) && Consulted(visits, name, v)
  }

  const HasItems: Item -> bool := (item: Item) => item.Group?
  const AnyItem: Item -> bool := (item: Item) => true
  const HasValue: Item -> bool := (item: Item) => item.value.Some?

  /** Visits of a list lie below its path, at its index or later. */
  lemma {:induction false} PathsBelow(items: seq<Item>, path: seq<nat>, i: nat, enclosing: Option<string>)
    ensures forall v | v in Preorder(items, path, i, enclosing) :: path < v.path && v.path[|path|] >= i
    decreases items
  {
    hide Inner;
    if items != [] {
      if items[0].Group? {
        PathsBelow(items[0].items, path + [i], 0, Inner(items[0], enclosing));
      }
      PathsBelow(items[1..], path, i + 1, enclosing);
    }
  }

  /** The walk of a non-empty list: its first item, the items below that one, and the others, apart by their paths. */
  lemma {:induction false} PreorderParts(items: seq<Item>, path: seq<nat>, i: nat, enclosing: Option<string>)
    requires items != []
    ensures var item, visits := items[0], Preorder(items, path, i, enclosing);
            var nested := if item.Group? then Preorder(item.items, path + [i], 0, Inner(item, enclosing)) else [];
            var rest := Preorder(items[1..], path, i + 1, enclosing);
            && visits == [Visit(path + [i], item, enclosing)] + nested + rest
            && (forall v | v in nested :: path + [i] < v.path)
            && (forall v | v in rest :: path < v.path && v.path[|path|] > i)
  {
    hide Inner;
    if items[0].Group? {
      PathsBelow(items[0].items, path + [i], 0, Inner(items[0], enclosing));
    }
    PathsBelow(items[1..], path, i + 1, enclosing);
  }

  /** Items of different subtrees of one list do not keep a search from each other unless they are in that list. */
  lemma {:induction false} SubtreesApart(u: seq<nat>, v: seq<nat>, path: seq<nat>, i: nat)
    requires path + [i] < u && path < v && v[|path|] > i
    ensures !Shadows(u, v) && !Shadows(v, u)
  {
    assert u[|path|] == i;
    assert |u| - 1 <= |v| ==> u[..|u| - 1][|path|] == i && (|u| - 1 > |path| ==> v[..|u| - 1][|path|] > i);
    assert |v| - 1 <= |u| && |v| - 1 > |path| ==> u[..|v| - 1][|path|] == i && v[..|v| - 1][|path|] > i;
  }

  /** The first item of a list is kept from a search by nothing, and a match there keeps it from all the others. */
  lemma {:induction false} HeadShadows(v: seq<nat>, path: seq<nat>, i: nat)
    requires path < v && v[|path|] >= i
    ensures !Shadows(v, path + [i])
    ensures v != path + [i] ==> Shadows(path + [i], v)
  {
    var head := path + [i];
    assert head[..|path|] == path == v[..|path|];
    if |v| == |head| && v[|path|] == i {
      assert v == v[..|path|] + [v[|path|]];
    }
  }

  /** The first answer in a list, as a depth-first search finds it. */
  lemma {:induction false} AnswerSplits(
    items: seq<Item>, path: seq<nat>, i: nat, enclosing: Option<string>, name: string, wanted: Item -> bool)
    requires items != []
    ensures var item, visits := items[0], Preorder(items, path, i, enclosing);
            var head := Visit(path + [i], item, enclosing);
            var nested := if item.Group? then Preorder(item.items, path + [i], 0, Inner(item, enclosing)) else [];
            var rest := Preorder(items[1..], path, i + 1, enclosing);
            var below := First(nested, Answers(nested, name, wanted));
            First(visits, Answers(visits, name, wanted))
            == if item.name == Some(name) then (if wanted(item) then Some(head) else None)
               else if below.Some? then below
               else First(rest, Answers(rest, name, wanted))
  {
    hide Preorder, First, Consulted, Inner;
    var item, visits := items[0], Preorder(items, path, i, enclosing);
    var head := Visit(path + [i], item, enclosing);
    var nested := if item.Group? then Preorder(item.items, path + [i], 0, Inner(item, enclosing)) else [];
    var rest := Preorder(items[1..], path, i + 1, enclosing);
    PreorderParts(items, path, i, enclosing);
    ConsultedParts(head, nested, rest, path, i, name);
    var answers := Answers(visits, name, wanted);
    FirstAppend([head] + nested, rest, answers);
    FirstAppend([head], nested, answers);
    FirstOfOne(head, answers);
    if item.name == Some(name) {
      NoneAnswers(nested, answers);
      NoneAnswers(rest, answers);
    } else {
      FirstAgrees(nested, answers, Answers(nested, name, wanted));
      FirstAgrees(rest, answers, Answers(rest, name, wanted));
    }
  }

  /** A named first item is all a search of the list looks at; otherwise it looks below that item and at the others. */
  lemma {:induction false} ConsultedParts(
    head: Visit, nested: seq<Visit>, rest: seq<Visit>, path: seq<nat>, i: nat, name: string)
    requires head.path == path + [i]
    requires forall v | v in nested :: path + [i] < v.path
    requires forall v | v in rest :: path < v.path && v.path[|path|] > i
    ensures var visits, named := [head] + nested + rest, head.item.name == Some(name);
            && (Consulted(visits, name, head) <==> named)
            && (forall v | v in nested :: Consulted(visits, name, v) <==> !named && Consulted(nested, name, v))
            && (forall v | v in rest :: Consulted(visits, name, v) <==> !named && Consulted(rest, name, v))
  {
    hide Shadows;
    var visits := [head] + nested + rest;
    assert forall u :: u in visits <==> u == head || u in nested || u in rest;
    HeadShadows(head.path, path, i);
    forall v | v in nested || v in rest
      ensures !Shadows(v.path, head.path) && Shadows(head.path, v.path)
    {
      HeadShadows(v.path, path, i);
    }
    forall u, v | u in nested && v in rest
      ensures !Shadows(u.path, v.path) && !Shadows(v.path, u.path)
    {
      SubtreesApart(u.path, v.path, path, i);
    }
  }

  lemma {:induction false} FirstOfOne(v: Visit, p: Visit -> bool)
    ensures First([v], p) == if p(v) then Some(v) else None
  {
    assert [v][1..] == [];
  }

  lemma {:induction false} NoneAnswers(visits: seq<Visit>, p: Visit -> bool)
    requires forall v | v in visits :: !p(v)
    ensures First(visits, p) == None
  {
  }

  /** The group search returns the items of the first item it looks at that has any. */
  lemma {:induction false} GroupSearchIsFirst(
    items: seq<Item>, path: seq<nat>, i: nat, group: string, enclosing: Option<string>)
    ensures var visits := Preorder(items, path, i, enclosing);
            match First(visits, Answers(visits, group, HasItems))
            case None => FindGroupItems(items, group) == None
            case Some(v) => v.item.Group? && FindGroupItems(items, group) == Some(v.item.items)
    decreases items
  {
    hide First, Preorder, Consulted;
    if items == [] {
      NothingFirst(path, i, enclosing, Answers(Preorder([], path, i, enclosing), group, HasItems));
    } else {
      var item := items[0];
      AnswerSplits(items, path, i, enclosing, group, HasItems);
      EmptyFirst(Answers([], group, HasItems));
      if item.Group? {
        GroupSearchIsFirst(item.items, path + [i], 0, group, Inner(item, enclosing));
      }
      GroupSearchIsFirst(items[1..], path, i + 1, group, enclosing);
    }
  }

  /** The read returns the value of the first item it looks at that has a numeric one. */
  lemma {:induction false} ReadIsFirst(
    items: seq<Item>, path: seq<nat>, i: nat, field: string, enclosing: Option<string>)
    ensures var visits := Preorder(items, path, i, enclosing);
            match First(visits, Answers(visits, field, HasValue))
            case None => ReadConfigLeafValue(items, field) == None
            case Some(v) => v.item.value.Some? && ReadConfigLeafValue(items, field) == v.item.value
    decreases items
  {
    hide First, Preorder, Consulted;
    if items == [] {
      NothingFirst(path, i, enclosing, Answers(Preorder([], path, i, enclosing), field, HasValue));
    } else {
      var item := items[0];
      AnswerSplits(items, path, i, enclosing, field, HasValue);
      EmptyFirst(Answers([], field, HasValue));
      if item.Group? {
        ReadIsFirst(item.items, path + [i], 0, field, Inner(item, enclosing));
      }
      ReadIsFirst(items[1..], path, i + 1, field, enclosing);
    }
  }

  // ---------------------------------------------------------------- the target inside its block

  /** The walk of a visited block's own items. */
  function Inside(block: Visit): seq<Visit> {
    if block.item.Group? then Preorder(block.item.items, block.path, 0, block.item.name) else []
  }

  /** `block` is a block around `v`. */
  predicate Encloses(visits: seq<Visit>, block: Visit, v: Visit) {
    block in visits && IsBlock(block.item) && block.path < v.path
  }

  /** `block` is the innermost block around `v`. */
  ghost predicate Nearest(visits: seq<Visit>, block: Visit, v: Visit) {
    Encloses(visits, block, v) && forall b | Encloses(visits, b, v) :: b.path <= block.path
  }

  /** A visit carries the name of the innermost block around it, or what was passed in when there is none. */
  lemma {:induction false} EnclosingIsNearest(
    items: seq<Item>, path: seq<nat>, i: nat, enclosing: Option<string>, v: Visit)
    requires v in Preorder(items, path, i, enclosing)
    ensures var visits := Preorder(items, path, i, enclosing);
            || (v.enclosing == enclosing && forall b :: !Encloses(visits, b, v))
            || exists block :: Nearest(visits, block, v) && block.item.name == v.enclosing
    decreases items
  {
    hide Preorder, IsBlockName;
    if items == [] {
      EmptyWalk(path, i, enclosing);
    } else {
      var item, visits := items[0], Preorder(items, path, i, enclosing);
      var head := Visit(path + [i], item, enclosing);
      var nested := if item.Group? then Preorder(item.items, path + [i], 0, Inner(item, enclosing)) else [];
      var rest := Preorder(items[1..], path, i + 1, enclosing);
      PreorderParts(items, path, i, enclosing);
      if v in nested {
        EnclosingIsNearest(item.items, path + [i], 0, Inner(item, enclosing), v);
        OnlyAround(visits, head, nested, rest, path, i, v);
        if block :| Nearest(nested, block, v) && block.item.name == v.enclosing {
          assert Nearest(visits, block, v);
        } else if IsBlock(item) {
          assert Nearest(visits, head, v);
        }
      } else if v in rest {
        EnclosingIsNearest(items[1..], path, i + 1, enclosing, v);
        OnlyAround(visits, head, nested, rest, path, i, v);
        if block :| Nearest(rest, block, v) && block.item.name == v.enclosing {
          assert Nearest(visits, block, v);
        }
      }
    }
  }

  lemma {:induction false} EmptyWalk(path: seq<nat>, i: nat, enclosing: Option<string>)
    ensures Preorder([], path, i, enclosing) == []
  {
  }

  /** What is around an item below the first one is that one or below it; what is around a later item is later. */
  lemma {:induction false} OnlyAround(
    visits: seq<Visit>, head: Visit, nested: seq<Visit>, rest: seq<Visit>, path: seq<nat>, i: nat, v: Visit)
    requires visits == [head] + nested + rest && head.path == path + [i]
    requires forall u | u in nested :: path + [i] < u.path
    requires forall u | u in rest :: path < u.path && u.path[|path|] > i
    ensures v in nested ==> forall b | Encloses(visits, b, v) :: b == head || Encloses(nested, b, v)
    ensures v in rest ==> forall b | Encloses(visits, b, v) :: Encloses(rest, b, v)
  {
    hide IsBlock;
    forall b | Encloses(visits, b, v)
      ensures v in nested ==> b == head || Encloses(nested, b, v)
      ensures v in rest ==> Encloses(rest, b, v)
    {
      assert v in nested ==> v.path[|path|] == i;
      assert b in nested ==> b.path[|path|] == i;
    }
  }

  /** In every block around the first target of the walk, that target comes first. */
  lemma {:induction false} FirstInside(
    items: seq<Item>, path: seq<nat>, i: nat, enclosing: Option<string>, field: string, target: Visit, block: Visit)
    requires var visits := Preorder(items, path, i, enclosing);
             First(visits, IsTarget(field)) == Some(target) && Encloses(visits, block, target)
    ensures block.item.Group? && First(Inside(block), IsTarget(field)) == Some(target)
    decreases items
  {
    hide First, Preorder, IsBlockName;
    if items == [] {
      EmptyWalk(path, i, enclosing);
    } else {
      var item := items[0];
      var head := Visit(path + [i], item, enclosing);
      var nested := if item.Group? then Preorder(item.items, path + [i], 0, Inner(item, enclosing)) else [];
      var rest := Preorder(items[1..], path, i + 1, enclosing);
      PreorderParts(items, path, i, enclosing);
      PreorderSplits(items, path, i, enclosing, IsTarget(field));
      OnlyAround(Preorder(items, path, i, enclosing), head, nested, rest, path, i, target);
      if First(nested, IsTarget(field)) == Some(target) {
        if block != head {
          FirstInside(item.items, path + [i], 0, Inner(item, enclosing), field, target, block);
        }
      } else if target != head {
        FirstInside(items[1..], path, i + 1, enclosing, field, target, block);
      }
    }
  }

  lemma {:induction false} EnclosedThroughout(items: seq<Item>, path: seq<nat>, i: nat, enclosing: Option<string>)
    requires enclosing.Some?
    ensures forall v | v in Preorder(items, path, i, enclosing) :: v.enclosing.Some?
    decreases items
  {
    hide IsBlockName;
    if items != [] {
      if items[0].Group? {
        EnclosedThroughout(items[0].items, path + [i], 0, Inner(items[0], enclosing));
      }
      EnclosedThroughout(items[1..], path, i + 1, enclosing);
    }
  }

  lemma {:induction false} FirstAgrees(visits: seq<Visit>, p: Visit -> bool, q: Visit -> bool)
    requires forall v | v in visits :: p(v) <==> q(v)
    ensures First(visits, p) == First(visits, q)
  {
    if visits != [] {
      assert visits[0] in visits;
      FirstAgrees(visits[1..], p, q);
    }
  }

  // ---------------------------------------------------------------- the item at a path

  function ItemAt(items: seq<Item>, path: seq<nat>): Option<Item>
    decreases |path|
  {
    if path == [] || path[0] >= |items| then None
    else if |path| == 1 then Some(items[path[0]])
    else if items[path[0]].Group? then ItemAt(items[path[0]].items, path[1..]) else None
  }

  lemma {:induction false} ItemBelowFirst(items: seq<Item>, k: nat, rest: seq<nat>)
    requires items != [] && items[0].Group?
    ensures ItemAt(items, [0] + ([k] + rest)) == ItemAt(items[0].items, [k] + rest)
  {
    assert ([0] + ([k] + rest))[1..] == [k] + rest;
  }

  lemma {:induction false} ItemPastFirst(items: seq<Item>, k: nat, rest: seq<nat>)
    requires k + 1 < |items|
    ensures ItemAt(items, [k + 1] + rest) == ItemAt(items[1..], [k] + rest)
  {
    assert ([k + 1] + rest)[1..] == rest == ([k] + rest)[1..];
  }

  /** Visits name real places: the path of a visit leads to its item. */
  lemma {:induction false} PathsLeadToItems(
    root: seq<Item>, items: seq<Item>, path: seq<nat>, i: nat, enclosing: Option<string>)
    requires forall k, rest: seq<nat> | 0 <= k < |items| ::
               ItemAt(root, path + [i + k] + rest) == ItemAt(items, [k] + rest)
    ensures forall v | v in Preorder(items, path, i, enclosing) :: ItemAt(root, v.path) == Some(v.item)
    decreases items
  {
    hide IsBlockName, ItemAt;
    if items != [] {
      var item, tail := items[0], items[1..];
      assert ItemAt(root, path + [i]) == Some(item) by {
        FirstItemAt(items);
        assert path + [i + 0] + [] == path + [i] && [0] + [] == [0];
      }
      if item.Group? {
        forall k, rest: seq<nat> | 0 <= k < |item.items|
          ensures ItemAt(root, path + [i] + [0 + k] + rest) == ItemAt(item.items, [k] + rest)
        {
          assert path + [i + 0] + ([k] + rest) == path + [i] + [0 + k] + rest;
          ItemBelowFirst(items, k, rest);
        }
        PathsLeadToItems(root, item.items, path + [i], 0, Inner(item, enclosing));
      }
      forall k, rest: seq<nat> | 0 <= k < |tail|
        ensures ItemAt(root, path + [i + 1 + k] + rest) == ItemAt(tail, [k] + rest)
      {
        assert path + [i + (k + 1)] + rest == path + [i + 1 + k] + rest;
        ItemPastFirst(items, k, rest);
      }
      PathsLeadToItems(root, tail, path, i + 1, enclosing);
    }
  }

  lemma {:induction false} FirstItemAt(items: seq<Item>)
    requires items != []
    ensures ItemAt(items, [0]) == Some(items[0])
  {
  }

  // ---------------------------------------------------------------- the main result

  /** What the read-back of `field` from the block named `block` returns. */
  function ReadBack(root: seq<Item>, block: string, field: string): Option<real> {
    match FindGroupItems(root, block)
    case None => None
    case Some(items) => ReadConfigLeafValue(items, field)
  }

  /** The place the group search ends at. */
  function GroupFound(root: seq<Item>, name: string): Option<Visit> {
    First(Visits(root), Answers(Visits(root), name, HasItems))
  }

  /** The place the read-back takes its value from. */
  function LeafRead(root: seq<Item>, block: string, field: string): Option<Visit> {
    match GroupFound(root, block)
    case None => None
    case Some(found) => First(Inside(found), Answers(Inside(found), field, HasValue))
  }

  /** The first field in pre-order that lies in a block, and the innermost block around it. */
  ghost predicate Discovered(root: seq<Item>, field: string, target: Visit, block: Visit) {
    First(Visits(root), IsTarget(field)) == Some(target) && Nearest(Visits(root), block, target)
  }

  /**
   Discovery returns a name exactly when some field lies in a block; the name is that of
   the innermost block around the first such field, and both are real places in the tree.
   */
  lemma {:induction false} DiscoveryIsNearest(root: seq<Item>, field: string) returns (target: Visit, block: Visit)
    requires FindBlockNameCarryingField(root, field, None).Some?
    ensures Discovered(root, field, target, block)
    ensures FindBlockNameCarryingField(root, field, None) == block.item.name
    ensures ItemAt(root, target.path) == Some(target.item) && target.item.name == Some(field)
    ensures ItemAt(root, block.path) == Some(block.item) && block.item.Group?
  {
    hide First, Preorder, IsBlockName;
    DiscoveryIsFirst(root, [], 0, field, None);
    target := First(Visits(root), IsTarget(field)).value;
    EnclosingIsNearest(root, [], 0, None, target);
    block :| Nearest(Visits(root), block, target) && block.item.name == target.enclosing;
    FirstInside(root, [], 0, None, field, target, block);
    RootPaths(root);
  }

  /** The read-back returns what stands at the place it reads. */
  lemma {:induction false} ReadBackIsLeafRead(root: seq<Item>, block: string, field: string)
    requires IsBlockName(block)
    ensures match LeafRead(root, block, field)
            case None => ReadBack(root, block, field) == None
            case Some(v) => v.item.value.Some? && ReadBack(root, block, field) == v.item.value
  {
    hide First, Preorder, Consulted, IsBlockName;
    GroupSearchIsFirst(root, [], 0, block, None);
    if GroupFound(root, block).Some? {
      var found := GroupFound(root, block).value;
      ReadIsFirst(found.item.items, found.path, 0, field, found.item.name);
    }
  }

  /**
   The read-back reaches the very field that discovery chose the block for if and only if
   that field is numeric and lies in the group the search ends at.
   */
  lemma {:induction false} ReadBackReachesIff(root: seq<Item>, field: string, target: Visit, block: Visit)
    requires Discovered(root, field, target, block)
    ensures var name := block.item.name.value;
            LeafRead(root, name, field) == Some(target)
            <==> target.item.value.Some?
                 && GroupFound(root, name).Some? && GroupFound(root, name).value.path < target.path
  {
    hide First, Preorder, IsBlockName, Shadows;
    var name := block.item.name.value;
    var found := GroupFound(root, name);
    if found.Some? {
      assert IsBlock(found.value.item);
      if found.value.path < target.path {
        FirstInside(root, [], 0, None, field, target, found.value);
        TargetAnswersIff(found.value, field, target);
      } else {
        PathsBelow(found.value.item.items, found.value.path, 0, found.value.item.name);
      }
    }
  }

  /** The first field of a block is the first item the read looks at there. */
  lemma {:induction false} TargetAnswersIff(block: Visit, field: string, target: Visit)
    requires IsBlock(block.item) && block.item.Group?
    requires First(Inside(block), IsTarget(field)) == Some(target)
    ensures First(Inside(block), IsNamed(field)) == Some(target) && Consulted(Inside(block), field, target)
    ensures First(Inside(block), Answers(Inside(block), field, HasValue)) == Some(target) <==> target.item.value.Some?
  {
    hide Preorder, IsBlockName, Shadows, First;
    EnclosedThroughout(block.item.items, block.path, 0, block.item.name);
    FirstAgrees(Inside(block), IsTarget(field), IsNamed(field));
    FirstIsConsulted(block.item.items, block.path, 0, block.item.name, field);
    if target.item.value.Some? {
      FirstStays(Inside(block), target, IsNamed(field), Answers(Inside(block), field, HasValue));
    }
  }

  /** The first item of a name is the first one a search for it looks at. */
  lemma {:induction false} FirstIsConsulted(
    items: seq<Item>, path: seq<nat>, i: nat, enclosing: Option<string>, name: string)
    ensures var visits := Preorder(items, path, i, enclosing);
            First(visits, IsNamed(name)) == First(visits, Answers(visits, name, AnyItem))
    decreases items
  {
    hide Preorder, First, Consulted, Inner;
    if items == [] {
      NothingFirst(path, i, enclosing, IsNamed(name));
      NothingFirst(path, i, enclosing, Answers(Preorder([], path, i, enclosing), name, AnyItem));
    } else {
      var item := items[0];
      PreorderSplits(items, path, i, enclosing, IsNamed(name));
      AnswerSplits(items, path, i, enclosing, name, AnyItem);
      EmptyFirst(IsNamed(name));
      EmptyFirst(Answers([], name, AnyItem));
      if item.Group? {
        FirstIsConsulted(item.items, path + [i], 0, Inner(item, enclosing), name);
      }
      FirstIsConsulted(items[1..], path, i + 1, enclosing, name);
    }
  }

  lemma {:induction false} FirstStays(visits: seq<Visit>, v: Visit, p: Visit -> bool, q: Visit -> bool)
    requires First(visits, p) == Some(v) && q(v) && forall u | u in visits :: q(u) ==> p(u)
    ensures First(visits, q) == Some(v)
  {
    if !p(visits[0]) {
      assert visits[0] in visits;
      FirstStays(visits[1..], v, p, q);
    }
  }

  /** No two items share a `Block_*` name. */
  predicate UniqueBlocks(root: seq<Item>) {
    forall u, v | u in Visits(root) && v in Visits(root) ::
      IsBlock(u.item) && u.item.name == v.item.name ==> u == v
  }

  predicate SameName(u: Visit, v: Visit) {
    u.item.name == v.item.name
  }

  /** Some item of the same name keeps a search from `v`. */
  predicate Shadowed(visits: seq<Visit>, v: Visit) {
    exists u | u in visits :: SameName(u, v) && Shadows(u.path, v.path)
  }

  /** No item of the block's name shadows it, and all earlier groups of that name are shadowed. */
  predicate Findable(visits: seq<Visit>, block: Visit) {
    && !Shadowed(visits, block)
    && exists k: nat | k < |visits| :: visits[k] == block
         && forall j: nat | j < k && SameName(visits[j], block) && visits[j].item.Group? :: Shadowed(visits, visits[j])
  }

  /** The read inside `block` is not misled: the target is numeric, or nothing the read looks at is. */
  predicate Readable(block: Visit, field: string, target: Visit) {
    || target.item.value.Some?
    || forall v | v in Inside(block) && Consulted(Inside(block), field, v) :: v.item.value.None?
  }

  lemma {:induction false} FirstIs(visits: seq<Visit>, p: Visit -> bool, k: nat)
    requires k < |visits| && p(visits[k]) && forall j: nat | j < k :: !p(visits[j])
    ensures First(visits, p) == Some(visits[k])
  {
    if k > 0 {
      forall j: nat | j < k - 1
        ensures !p(visits[1..][j])
      {
        assert visits[1..][j] == visits[j + 1];
      }
      FirstIs(visits[1..], p, k - 1);
    }
  }

  lemma {:induction false} FirstStands(visits: seq<Visit>, p: Visit -> bool) returns (k: nat)
    requires First(visits, p).Some?
    ensures k < |visits| && visits[k] == First(visits, p).value && forall j: nat | j < k :: !p(visits[j])
  {
    if p(visits[0]) {
      k := 0;
    } else {
      var i := FirstStands(visits[1..], p);
      k := i + 1;
      forall j: nat | j < k
        ensures !p(visits[j])
      {
        assert j > 0 ==> visits[j] == visits[1..][j - 1];
      }
    }
  }

  lemma {:induction false} FirstIff(visits: seq<Visit>, p: Visit -> bool, v: Visit)
    ensures First(visits, p) == Some(v)
            <==> p(v) && exists k: nat | k < |visits| :: visits[k] == v && forall j: nat | j < k :: !p(visits[j])
  {
    hide First;
    if First(visits, p) == Some(v) {
      var k := FirstStands(visits, p);
      assert visits[k] == v;
    }
    if k: nat :| k < |visits| && visits[k] == v && p(v) && forall j: nat | j < k :: !p(visits[j]) {
      FirstIs(visits, p, k);
    }
  }

  /** The group search ends at a group exactly when that group is findable. */
  lemma {:induction false} GroupFoundIff(root: seq<Item>, block: Visit)
    requires block in Visits(root) && block.item.Group? && block.item.name.Some?
    ensures GroupFound(root, block.item.name.value) == Some(block) <==> Findable(Visits(root), block)
  {
    hide First, Visits, Shadows;
    var visits, name := Visits(root), block.item.name.value;
    var answers := Answers(visits, name, HasItems);
    FirstIff(visits, answers, block);
    forall v | v in visits
      ensures answers(v) <==> SameName(v, block) && v.item.Group? && !Shadowed(visits, v)
    {
    }
  }

  /** The value read inside the discovered block is the target's own exactly when the read is not misled. */
  lemma {:induction false} ValueReadIff(root: seq<Item>, field: string, target: Visit, block: Visit)
    requires Discovered(root, field, target, block)
    ensures block.item.Group? && First(Inside(block), IsNamed(field)) == Some(target)
    ensures ReadConfigLeafValue(block.item.items, field) == target.item.value <==> Readable(block, field, target)
  {
    hide First, Preorder, IsBlockName, Shadows;
    FirstInside(root, [], 0, None, field, target, block);
    TargetAnswersIff(block, field, target);
    ReadIsFirst(block.item.items, block.path, 0, field, block.item.name);
  }

  /**
   The block discovery picks for a write is the one the read-back looks in, and the field
   read there is the one the block was picked for: when exactly, for any tree, and that
   unique block names are enough for everything but the field being numeric.
   */
  lemma {:induction false} WriteTargetIsReadBack(root: seq<Item>, field: string) returns (target: Visit, block: Visit)
    requires FindBlockNameCarryingField(root, field, None).Some?
    ensures Discovered(root, field, target, block) && block.item.Group?
    ensures First(Inside(block), IsNamed(field)) == Some(target)
    ensures FindBlockNameCarryingField(root, field, None) == block.item.name
    ensures ItemAt(root, target.path) == Some(target.item) && target.item.name == Some(field)
    ensures var name := block.item.name.value;
            && (GroupFound(root, name) == Some(block) <==> Findable(Visits(root), block))
            && (LeafRead(root, name, field) == Some(target)
                <==> target.item.value.Some?
                     && GroupFound(root, name).Some? && GroupFound(root, name).value.path < target.path)
            && (ReadConfigLeafValue(block.item.items, field) == target.item.value <==> Readable(block, field, target))
    ensures var name := block.item.name.value;
            UniqueBlocks(root) ==>
              && FindGroupItems(root, name) == Some(block.item.items)
              && (LeafRead(root, name, field) == Some(target) <==> target.item.value.Some?)
              && (ReadBack(root, name, field) == target.item.value <==> Readable(block, field, target))
  {
    hide First, Preorder, IsBlockName, Shadows, Consulted;
    target, block := DiscoveryIsNearest(root, field);
    var name := block.item.name.value;
    GroupFoundIff(root, block);
    ReadBackReachesIff(root, field, target, block);
    ValueReadIff(root, field, target, block);
    GroupSearchIsFirst(root, [], 0, name, None);
    if UniqueBlocks(root) {
      UniqueIsFindable(root, block);
    }
  }

  lemma {:induction false} UniqueIsFindable(root: seq<Item>, block: Visit)
    requires UniqueBlocks(root) && block in Visits(root) && IsBlock(block.item)
    ensures Findable(Visits(root), block)
  {
    hide Visits, IsBlockName;
    var visits := Visits(root);
    var k := FirstIndex(visits, block);
    forall j: nat | j < k
      ensures !SameName(visits[j], block)
    {
      assert visits[j] in visits;
    }
  }

  lemma {:induction false} FirstIndex(visits: seq<Visit>, v: Visit) returns (k: nat)
    requires v in visits
    ensures k < |visits| && visits[k] == v && forall j: nat | j < k :: visits[j] != v
  {
    k := 0;
    while visits[k] != v
      invariant k < |visits| && forall j: nat | j < k :: visits[j] != v
      decreases |visits| - k
    {
      var i :| 0 <= i < |visits| && visits[i] == v;
      k := k + 1;
    }
  }

  lemma {:induction false} RootPaths(root: seq<Item>)
    ensures forall v | v in Visits(root) :: ItemAt(root, v.path) == Some(v.item)
  {
    forall k, rest: seq<nat> | 0 <= k < |root|
      ensures ItemAt(root, [] + [0 + k] + rest) == ItemAt(root, [k] + rest)
    {
      assert [] + [0 + k] + rest == [k] + rest;
    }
    PathsLeadToItems(root, root, [], 0, None);
  }

  // ---------------------------------------------------------------- where it needs its assumptions

  ghost predicate Outermost(visits: seq<Visit>, block: Visit, v: Visit) {
    Encloses(visits, block, v) && forall b | Encloses(visits, b, v) :: block.path <= b.path
  }

  /** Discovery picks the outermost block around the field exactly when there is just one. */
  lemma {:induction false} OutermostIff(
    root: seq<Item>, field: string, target: Visit, block: Visit, outer: Visit)
    requires Discovered(root, field, target, block) && Outermost(Visits(root), outer, target)
    ensures outer == block <==> forall b | Encloses(Visits(root), b, target) :: b == block
    ensures UniqueBlocks(root) ==>
              (block.item.name == outer.item.name
               <==> forall b | Encloses(Visits(root), b, target) :: b == block)
  {
    hide First, Preorder, IsBlock;
    PathsDistinct(root, [], 0, None);
    if outer == block {
      forall b | Encloses(Visits(root), b, target)
        ensures b == block
      {
        assert b.path == block.path;
      }
    }
  }

  /** A walk meets no place twice. */
  lemma {:induction false} PathsDistinct(items: seq<Item>, path: seq<nat>, i: nat, enclosing: Option<string>)
    ensures var visits := Preorder(items, path, i, enclosing);
            forall u, v | u in visits && v in visits && u.path == v.path :: u == v
    decreases items
  {
    hide Preorder, Inner;
    if items == [] {
      EmptyWalk(path, i, enclosing);
    } else {
      PreorderParts(items, path, i, enclosing);
      if items[0].Group? {
        PathsDistinct(items[0].items, path + [i], 0, Inner(items[0], enclosing));
      }
      PathsDistinct(items[1..], path, i + 1, enclosing);
    }
  }

  /** Nested blocks: discovery names the nearest one, not the outermost. */
  lemma {:induction false} NearestBlockWins(inner: string, outer: string, field: string, value: Option<real>)
    requires IsBlockName(inner) && IsBlockName(outer) && field != inner && field != outer
    ensures var tree := [Group(Some(outer), None, [Group(Some(inner), None, [Leaf(Some(field), value)])])];
            FindBlockNameCarryingField(tree, field, None) == Some(inner)
  {
    var leaf := [Leaf(Some(field), value)];
    assert FindBlockNameCarryingField(leaf, field, Some(inner)) == Some(inner);
    assert FindBlockNameCarryingField([Group(Some(inner), None, leaf)], field, Some(outer)) == Some(inner);
  }

  /** A field without a numeric value is passed over: the read-back returns a later field's value instead. */
  lemma {:induction false} NonNumericFieldSkipped(block: string, group: string, field: string, other: real)
    requires IsBlockName(block) && !IsBlockName(group) && field != block && field != group
    ensures var first := Group(Some(group), None, [Leaf(Some(field), None)]);
            var tree := [Group(Some(block), None, [first, Leaf(Some(field), Some(other))])];
            && FindBlockNameCarryingField(tree, field, None) == Some(block)
            && FindGroupItems(tree, block) == Some(tree[0].items)
            && ReadConfigLeafValue(tree[0].items, field) == Some(other)
  {
    var leaf := [Leaf(Some(field), None)];
    var rest := [Leaf(Some(field), Some(other))];
    var inner := [Group(Some(group), None, leaf)] + rest;
    assert inner[1..] == rest;
    assert FindBlockNameCarryingField(leaf, field, Some(block)) == Some(block);
    assert FindBlockNameCarryingField(inner, field, Some(block)) == Some(block);
    assert leaf[1..] == [];
    assert ReadConfigLeafValue(leaf, field) == None;
    assert ReadConfigLeafValue(rest, field) == Some(other);
  }

  /** With two blocks of one name the read-back may look in the wrong one. */
  lemma {:induction false} DuplicateBlockMisread(block: string, other: string, field: string, value: Option<real>)
    requires IsBlockName(block) && field != block && other != field
    ensures var tree := [Group(Some(block), None, [Leaf(Some(other), None)]),
                         Group(Some(block), None, [Leaf(Some(field), value)])];
            && FindBlockNameCarryingField(tree, field, None) == Some(block)
            && FindGroupItems(tree, block) == Some(tree[0].items)
            && ReadConfigLeafValue(tree[0].items, field) == None
  {
    var first, second := [Leaf(Some(other), None)], [Leaf(Some(field), value)];
    var tail := [Group(Some(block), None, second)];
    assert FindBlockNameCarryingField(second, field, Some(block)) == Some(block);
    assert FindBlockNameCarryingField(tail, field, None) == Some(block);
    assert first[1..] == [];
    assert FindBlockNameCarryingField(first, field, Some(block)) == None;
    assert ([Group(Some(block), None, first)] + tail)[1..] == tail;
    assert ReadConfigLeafValue(first, field) == None;
  }
}
