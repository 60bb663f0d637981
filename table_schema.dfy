/** The schema rules the table editing feature registers: which model element
    may sit inside which, and which attributes each may carry. Two generic items
    belong to the editor engine, not to the table feature: `$root`, the document
    root, and `$block`, the placeholder for "wherever a block such as a paragraph
    may stand", which the engine allows in `$root`. */
module TableSchema {
  import opened Wrappers

  datatype ItemName = Root | Block | Table | TableRow | TableCell

  const AllItems: set<ItemName> := {Root, Block, Table, TableRow, TableCell}

  /** One `schema.register( name, definition )` call. */
  datatype ItemDefinition = ItemDefinition(
    allowWhere: Option<ItemName>,
    allowIn: set<ItemName>,
    allowChildren: set<ItemName>,
    allowAttributes: set<string>,
    isObject: bool,
    isBlock: bool,
    isLimit: bool,
    isSelectable: bool)

  const NoRules := ItemDefinition(None, {}, {}, {}, false, false, false, false)

  /** The registered definitions: the three table items as the feature registers
      them, and the engine's base items. */
  function Definition(item: ItemName): ItemDefinition
  {
    match item
    case Root => NoRules.(isLimit := true)
    case Block => NoRules.(allowIn := {Root}, isBlock := true)
    case Table =>
      NoRules.(allowWhere := Some(Block), allowAttributes := {"headingRows", "headingColumns"},
               isObject := true, isBlock := true)
    case TableRow => NoRules.(allowIn := {Table}, isLimit := true)
    case TableCell =>
      NoRules.(allowIn := {TableRow}, allowChildren := {Block},
               allowAttributes := {"colspan", "rowspan"}, isLimit := true, isSelectable := true)
  }

  /** The parents an item names itself (`allowIn`) together with the parents
      that name it among their `allowChildren`. */
  function DirectParents(item: ItemName): (ps: set<ItemName>)
    ensures forall p :: p in ps <==> p in Definition(item).allowIn || item in Definition(p).allowChildren
  {
    Definition(item).allowIn + set p | p in AllItems && item in Definition(p).allowChildren
  }

  /** The compiled `allowIn` of an item: its direct parents, plus, for an item
      registered `allowWhere` another, the direct parents of that other one. */
  function AllowedParents(item: ItemName): (ps: set<ItemName>)
    ensures DirectParents(item) <= ps
    ensures Definition(item).allowWhere.Some? ==> DirectParents(Definition(item).allowWhere.value) <= ps
  {
    DirectParents(item)
      + match Definition(item).allowWhere case None => {} case Some(w) => DirectParents(w)
  }

  predicate AllowedIn(child: ItemName, parent: ItemName)
  {
    parent in AllowedParents(child)
  }

  predicate AllowsAttribute(item: ItemName, key: string)
  {
    key in Definition(item).allowAttributes
  }

  /** A `tableRow` may sit only in a `table`. */
  lemma TableRowOnlyInTable(p: ItemName)
    ensures AllowedIn(TableRow, p) <==> p == Table
  {
  }

  /** A `tableCell` may sit only in a `tableRow`. */
  lemma TableCellOnlyInTableRow(p: ItemName)
    ensures AllowedIn(TableCell, p) <==> p == TableRow
  {
  }

  /** A `table` may stand wherever a block may: in the root and, through the
      cell's `allowChildren: '$block'`, inside a table cell. */
  lemma TableWhereBlock(p: ItemName)
    ensures AllowedIn(Table, p) <==> AllowedIn(Block, p)
    ensures AllowedIn(Table, p) <==> p == Root || p == TableCell
  {
  }

  /** Seen from the parent: a table holds only rows, a row holds only cells. */
  lemma TableChildren(c: ItemName)
    ensures AllowedIn(c, Table) <==> c == TableRow
    ensures AllowedIn(c, TableRow) <==> c == TableCell
  {
  }

  /** A table carries only its heading counts, a cell only its spans, a row nothing. */
  lemma TableAttributes(key: string)
    ensures AllowsAttribute(Table, key) <==> key == "headingRows" || key == "headingColumns"
    ensures AllowsAttribute(TableCell, key) <==> key == "colspan" || key == "rowspan"
    ensures !AllowsAttribute(TableRow, key)
  {
  }

  /** The behaviour flags: a table is an object and a block, a row is a limit,
      a cell is a limit and selectable; no other table item carries a flag. */
  lemma TableItemFlags()
    ensures var d := Definition(Table); d.isObject && d.isBlock && !d.isLimit && !d.isSelectable
    ensures var d := Definition(TableRow); !d.isObject && !d.isBlock && d.isLimit && !d.isSelectable
    ensures var d := Definition(TableCell); !d.isObject && !d.isBlock && d.isLimit && d.isSelectable
  {
  }

  /** A model element: its item name, attribute keys and children. */
  datatype Element = Element(name: ItemName, attributes: set<string>, children: seq<Element>)

  /** An element tree every node of which obeys the schema. */
  predicate Valid(e: Element)
  {
    (forall k :: k in e.attributes ==> AllowsAttribute(e.name, k))
    && (forall i :: 0 <= i < |e.children| ==> AllowedIn(e.children[i].name, e.name) && Valid(e.children[i]))
  }

  /** Every node named `parent` in the tree has only children named in `allowed`. */
  predicate EveryChildOf(e: Element, parent: ItemName, allowed: set<ItemName>)
  {
    (e.name == parent ==> forall i :: 0 <= i < |e.children| ==> e.children[i].name in allowed)
    && forall i :: 0 <= i < |e.children| ==> EveryChildOf(e.children[i], parent, allowed)
  }

  /** Every node named `child` in the tree sits under a parent named in `parents`. */
  predicate EveryParentOf(e: Element, child: ItemName, parents: set<ItemName>)
  {
    (forall i :: 0 <= i < |e.children| && e.children[i].name == child ==> e.name in parents)
    && forall i :: 0 <= i < |e.children| ==> EveryParentOf(e.children[i], child, parents)
  }

  /** In a valid tree every child of a table is a row, every child of a row is a
      cell, and, at every depth, a row sits only in a table and a cell only in a
      row. */
  lemma {:induction false} ValidTreeShape(e: Element)
    requires Valid(e)
    ensures EveryChildOf(e, Table, {TableRow})
    ensures EveryChildOf(e, TableRow, {TableCell})
    ensures EveryParentOf(e, TableRow, {Table})
    ensures EveryParentOf(e, TableCell, {TableRow})
  {
    forall i | 0 <= i < |e.children|
      ensures EveryChildOf(e.children[i], Table, {TableRow})
      ensures EveryChildOf(e.children[i], TableRow, {TableCell})
      ensures EveryParentOf(e.children[i], TableRow, {Table})
      ensures EveryParentOf(e.children[i], TableCell, {TableRow})
    {
      ValidTreeShape(e.children[i]);
    }
    forall i | 0 <= i < |e.children|
      ensures e.name == Table ==> e.children[i].name == TableRow
      ensures e.name == TableRow ==> e.children[i].name == TableCell
      ensures e.children[i].name == TableRow ==> e.name == Table
      ensures e.children[i].name == TableCell ==> e.name == TableRow
    {
      TableChildren(e.children[i].name);
      TableRowOnlyInTable(e.name);
      TableCellOnlyInTableRow(e.name);
    }
  }
}
