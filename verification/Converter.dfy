/**
 The recursive conversion of a Markdown tree: its bound on the nesting, and the list levels it hands
 to the template.
 */
module Converter {
  import opened Wrappers

  const MAX_DEPTH: nat := 24

  /** Plain text and code need no further level; an image keeps its alternative text only. */
  datatype Inline = Leaf(text: string) | Image(text: string) | Nested(kids: seq<Inline>)

  /** A block as the converter visits it. Callouts convert `head` without entering its paragraph. */
  datatype Block =
    | Skipped
    | Plain(text: string)
    | Run(kids: seq<Inline>)
    | Bullets(ordered: bool, items: seq<Item>)
    | Quote(head: seq<Inline>, body: seq<Block>)
    | Table(cells: seq<seq<Inline>>)
    | Container(blocks: seq<Block>)

  datatype Item = Item(blocks: seq<Block>)

  datatype Out =
    | Text(text: string)
    | Par(runs: seq<Out>)
    | List(ordered: bool, level: nat, items: seq<OutItem>)
    | Box(runs: seq<Out>, parts: seq<Out>)
    | Grid(cells: seq<OutItem>)

  /** What a list item or a table cell holds. */
  datatype OutItem = OutItem(outs: seq<Out>)

  datatype TooDeep = TooDeep

  type Converted<T> = Result<T, TooDeep>

  // -- the conversion --------------------------------------------------------------------------------

  function Enter(depth: nat): Converted<nat> {
    if depth + 1 > MAX_DEPTH then Err(TooDeep) else Ok(depth + 1)
  }

  function ConvertInline(node: Inline, depth: nat): Converted<seq<Out>>
    decreases node, 0
  {
    match node
    case Leaf(text) => Ok([Text(text)])
    case Image(text) =>
      var _ :- Enter(depth);
      Ok([Text(text)])
    case Nested(kids) =>
      var inner :- Enter(depth);
      var runs :- ConvertInlines(kids, inner);
      Ok([Par(runs)])
  }

  function ConvertInlines(nodes: seq<Inline>, depth: nat): Converted<seq<Out>>
    decreases nodes, 1
  {
    if nodes == [] then Ok([]) else
      var first :- ConvertInline(nodes[0], depth);
      var rest :- ConvertInlines(nodes[1..], depth);
      Ok(first + rest)
  }

  function ConvertCells(cells: seq<seq<Inline>>, depth: nat): Converted<seq<OutItem>>
    decreases cells, 2
  {
    if cells == [] then Ok([]) else
      var first :- ConvertInlines(cells[0], depth);
      var rest :- ConvertCells(cells[1..], depth);
      Ok([OutItem(first)] + rest)
  }

  /** `ul` and `ol` count the bullet lists and the numbered lists around the block. */
  function ConvertBlock(block: Block, depth: nat, ul: nat, ol: nat): Converted<seq<Out>>
    decreases block, 0
  {
    if block.Skipped? then Ok([]) else
      var inner :- Enter(depth);
      match block
      case Run(kids) =>
        var runs :- ConvertInlines(kids, inner);
        Ok([Par(runs)])
      case Bullets(ordered, items) =>
        var level := if ordered then ol else ul;
        var parts :- ConvertItems(items, inner, if ordered then ul else ul + 1, if ordered then ol + 1 else ol);
        Ok([List(ordered, level, parts)])
      case Quote(head, body) =>
        var runs :- ConvertInlines(head, inner);
        var parts :- ConvertBlocks(body, inner, ul, ol);
        Ok([Box(runs, parts)])
      case Table(cells) =>
        var grid :- ConvertCells(cells, inner);
        Ok([Grid(grid)])
      case Container(blocks) => ConvertBlocks(blocks, inner, ul, ol)
      case Plain(text) => Ok([Text(text)])
  }

  function ConvertBlocks(blocks: seq<Block>, depth: nat, ul: nat, ol: nat): Converted<seq<Out>>
    decreases blocks, 1
  {
    if blocks == [] then Ok([]) else
      var first :- ConvertBlock(blocks[0], depth, ul, ol);
      var rest :- ConvertBlocks(blocks[1..], depth, ul, ol);
      Ok(first + rest)
  }

  function ConvertItems(items: seq<Item>, depth: nat, ul: nat, ol: nat): Converted<seq<OutItem>>
    decreases items, 2
  {
    if items == [] then Ok([]) else
      var first :- ConvertBlocks(items[0].blocks, depth, ul, ol);
      var rest :- ConvertItems(items[1..], depth, ul, ol);
      Ok([OutItem(first)] + rest)
  }

  function ConvertBody(blocks: seq<Block>): Converted<seq<Out>> {
    ConvertBlocks(blocks, 0, 0, 0)
  }

  // -- depth --------------------------------------------------------------------------------------------

  function Max(a: nat, b: nat): nat {
    if a >= b then a else b
  }

  /** The deepest chain of entered nodes below and with a node. */
  function InlineHeight(node: Inline): nat
    decreases node, 0
  {
    match node
    case Leaf(_) => 0
    case Image(_) => 1
    case Nested(kids) => 1 + InlinesHeight(kids)
  }

  function InlinesHeight(nodes: seq<Inline>): nat
    decreases nodes, 1
  {
    if nodes == [] then 0 else Max(InlineHeight(nodes[0]), InlinesHeight(nodes[1..]))
  }

  function CellsHeight(cells: seq<seq<Inline>>): nat
    decreases cells, 2
  {
    if cells == [] then 0 else Max(InlinesHeight(cells[0]), CellsHeight(cells[1..]))
  }

  function BlockHeight(block: Block): nat
    decreases block, 0
  {
    match block
    case Skipped => 0
    case Plain(_) => 1
    case Run(kids) => 1 + InlinesHeight(kids)
    case Bullets(_, items) => 1 + ItemsHeight(items)
    case Quote(head, body) => 1 + Max(InlinesHeight(head), BlocksHeight(body))
    case Table(cells) => 1 + CellsHeight(cells)
    case Container(blocks) => 1 + BlocksHeight(blocks)
  }

  function BlocksHeight(blocks: seq<Block>): nat
    decreases blocks, 1
  {
    if blocks == [] then 0 else Max(BlockHeight(blocks[0]), BlocksHeight(blocks[1..]))
  }

  function ItemsHeight(items: seq<Item>): nat
    decreases items, 2
  {
    if items == [] then 0 else Max(BlocksHeight(items[0].blocks), ItemsHeight(items[1..]))
  }

  lemma {:induction false} InlineConvertsExactly(node: Inline, depth: nat)
    requires depth <= MAX_DEPTH
    ensures ConvertInline(node, depth).Ok? <==> depth + InlineHeight(node) <= MAX_DEPTH
    decreases node, 0
  {
    if node.Nested? && depth < MAX_DEPTH {
      InlinesConvertExactly(node.kids, depth + 1);
    }
  }

  lemma {:induction false} InlinesConvertExactly(nodes: seq<Inline>, depth: nat)
    requires depth <= MAX_DEPTH
    ensures ConvertInlines(nodes, depth).Ok? <==> depth + InlinesHeight(nodes) <= MAX_DEPTH
    decreases nodes, 1
  {
    if nodes != [] {
      InlineConvertsExactly(nodes[0], depth);
      InlinesConvertExactly(nodes[1..], depth);
    }
  }

  lemma {:induction false} CellsConvertExactly(cells: seq<seq<Inline>>, depth: nat)
    requires depth <= MAX_DEPTH
    ensures ConvertCells(cells, depth).Ok? <==> depth + CellsHeight(cells) <= MAX_DEPTH
    decreases cells, 2
  {
    if cells != [] {
      InlinesConvertExactly(cells[0], depth);
      CellsConvertExactly(cells[1..], depth);
    }
  }

  lemma {:induction false} BlockConvertsExactly(block: Block, depth: nat, ul: nat, ol: nat)
    requires depth <= MAX_DEPTH
    ensures ConvertBlock(block, depth, ul, ol).Ok? <==> depth + BlockHeight(block) <= MAX_DEPTH
    decreases block, 0
  {
    if depth < MAX_DEPTH {
      match block
      case Run(kids) => InlinesConvertExactly(kids, depth + 1);
      case Bullets(ordered, items) =>
        ItemsConvertExactly(items, depth + 1, if ordered then ul else ul + 1, if ordered then ol + 1 else ol);
      case Quote(head, body) =>
        InlinesConvertExactly(head, depth + 1);
        BlocksConvertExactly(body, depth + 1, ul, ol);
      case Table(cells) => CellsConvertExactly(cells, depth + 1);
      case Container(blocks) => BlocksConvertExactly(blocks, depth + 1, ul, ol);
      case _ =>
    }
  }

  /** The conversion succeeds exactly when no chain of entered nodes exceeds the bound. */
  lemma {:induction false} BlocksConvertExactly(blocks: seq<Block>, depth: nat, ul: nat, ol: nat)
    requires depth <= MAX_DEPTH
    ensures ConvertBlocks(blocks, depth, ul, ol).Ok? <==> depth + BlocksHeight(blocks) <= MAX_DEPTH
    decreases blocks, 1
  {
    if blocks != [] {
      BlockConvertsExactly(blocks[0], depth, ul, ol);
      BlocksConvertExactly(blocks[1..], depth, ul, ol);
    }
  }

  lemma {:induction false} ItemsConvertExactly(items: seq<Item>, depth: nat, ul: nat, ol: nat)
    requires depth <= MAX_DEPTH
    ensures ConvertItems(items, depth, ul, ol).Ok? <==> depth + ItemsHeight(items) <= MAX_DEPTH
    decreases items, 2
  {
    if items != [] {
      BlocksConvertExactly(items[0].blocks, depth, ul, ol);
      ItemsConvertExactly(items[1..], depth, ul, ol);
    }
  }

  // -- list levels --------------------------------------------------------------------------------------------

  /** A list of a document: the kinds of the lists around it, outermost first, and its own kind. */
  datatype Place = Place(around: seq<bool>, ordered: bool)

  function Inside(ordered: bool, places: seq<Place>): seq<Place> {
    seq(|places|, i requires 0 <= i < |places| => Place([ordered] + places[i].around, places[i].ordered))
  }

  /** The lists of the source, each before the lists inside it. */
  function ListsOfBlock(block: Block): seq<Place>
    decreases block, 0
  {
    match block
    case Bullets(ordered, items) => [Place([], ordered)] + Inside(ordered, ListsOfItems(items))
    case Quote(_, body) => ListsOfBlocks(body)
    case Container(blocks) => ListsOfBlocks(blocks)
    case _ => []
  }

  function ListsOfBlocks(blocks: seq<Block>): seq<Place>
    decreases blocks, 1
  {
    if blocks == [] then [] else ListsOfBlock(blocks[0]) + ListsOfBlocks(blocks[1..])
  }

  function ListsOfItems(items: seq<Item>): seq<Place>
    decreases items, 2
  {
    if items == [] then [] else ListsOfBlocks(items[0].blocks) + ListsOfItems(items[1..])
  }

  function CountKind(around: seq<bool>, ordered: bool): nat {
    if around == [] then 0 else (if around[0] == ordered then 1 else 0) + CountKind(around[1..], ordered)
  }

  /** The levels of the lists of a converted document, in the same order. */
  function LevelsOf(out: Out): seq<nat>
    decreases out, 0
  {
    match out
    case List(_, level, items) => [level] + LevelsOfItems(items)
    case Box(_, parts) => LevelsOfAll(parts)
    case _ => []
  }

  function LevelsOfAll(outs: seq<Out>): seq<nat>
    decreases outs, 1
  {
    if outs == [] then [] else LevelsOf(outs[0]) + LevelsOfAll(outs[1..])
  }

  function LevelsOfItems(items: seq<OutItem>): seq<nat>
    decreases items, 2
  {
    if items == [] then [] else LevelsOfAll(items[0].outs) + LevelsOfItems(items[1..])
  }

  /** The level each place should have below `ul` bullet lists and `ol` numbered lists. */
  function Expected(places: seq<Place>, ul: nat, ol: nat): seq<nat> {
    seq(|places|, i requires 0 <= i < |places| =>
          (if places[i].ordered then ol else ul) + CountKind(places[i].around, places[i].ordered))
  }

  lemma ExpectedInside(ordered: bool, places: seq<Place>, ul: nat, ol: nat)
    ensures Expected(Inside(ordered, places), ul, ol)
            == Expected(places, if ordered then ul else ul + 1, if ordered then ol + 1 else ol)
  {
    forall i | 0 <= i < |places|
      ensures CountKind([ordered] + places[i].around, places[i].ordered)
              == (if ordered == places[i].ordered then 1 else 0) + CountKind(places[i].around, places[i].ordered)
    {
      assert ([ordered] + places[i].around)[1..] == places[i].around;
    }
  }

  lemma {:induction false} LevelsJoin(p: seq<Out>, q: seq<Out>)
    ensures LevelsOfAll(p + q) == LevelsOfAll(p) + LevelsOfAll(q)
    decreases |p|
  {
    if p == [] {
      assert p + q == q;
    } else {
      assert (p + q)[0] == p[0] && (p + q)[1..] == p[1..] + q;
      LevelsJoin(p[1..], q);
    }
  }

  lemma ExpectedJoins(p: seq<Place>, q: seq<Place>, ul: nat, ol: nat)
    ensures Expected(p + q, ul, ol) == Expected(p, ul, ol) + Expected(q, ul, ol)
  {
  }

  /** A list stands in front of the lists of its items and adds one level of its kind to them. */
  lemma ListLevels(ordered: bool, items: seq<OutItem>, places: seq<Place>, ul: nat, ol: nat)
    requires LevelsOfItems(items) == Expected(places, if ordered then ul else ul + 1, if ordered then ol + 1 else ol)
    ensures LevelsOfAll([List(ordered, if ordered then ol else ul, items)])
            == Expected([Place([], ordered)] + Inside(ordered, places), ul, ol)
  {
    ExpectedInside(ordered, places, ul, ol);
    ExpectedJoins([Place([], ordered)], Inside(ordered, places), ul, ol);
    var list := List(ordered, if ordered then ol else ul, items);
    assert LevelsOfAll([list]) == LevelsOf(list) + LevelsOfAll([]);
    assert Expected([Place([], ordered)], ul, ol) == [if ordered then ol else ul];
  }

  lemma {:induction false} BlockLevels(block: Block, depth: nat, ul: nat, ol: nat)
    requires ConvertBlock(block, depth, ul, ol).Ok?
    ensures LevelsOfAll(ConvertBlock(block, depth, ul, ol).value) == Expected(ListsOfBlock(block), ul, ol)
    decreases block, 0
  {
    match block
    case Bullets(ordered, items) =>
      var innerUl, innerOl := if ordered then ul else ul + 1, if ordered then ol + 1 else ol;
      ItemsLevels(items, depth + 1, innerUl, innerOl);
      ListLevels(ordered, ConvertItems(items, depth + 1, innerUl, innerOl).value, ListsOfItems(items), ul, ol);
    case Quote(head, body) =>
      BlocksLevels(body, depth + 1, ul, ol);
    case Container(blocks) =>
      BlocksLevels(blocks, depth + 1, ul, ol);
    case _ =>
  }

  lemma {:induction false} BlocksLevels(blocks: seq<Block>, depth: nat, ul: nat, ol: nat)
    requires ConvertBlocks(blocks, depth, ul, ol).Ok?
    ensures LevelsOfAll(ConvertBlocks(blocks, depth, ul, ol).value) == Expected(ListsOfBlocks(blocks), ul, ol)
    decreases blocks, 1
  {
    if blocks != [] {
      BlockLevels(blocks[0], depth, ul, ol);
      BlocksLevels(blocks[1..], depth, ul, ol);
      LevelsJoin(ConvertBlock(blocks[0], depth, ul, ol).value, ConvertBlocks(blocks[1..], depth, ul, ol).value);
      ExpectedJoins(ListsOfBlock(blocks[0]), ListsOfBlocks(blocks[1..]), ul, ol);
    }
  }

  lemma {:induction false} ItemsLevels(items: seq<Item>, depth: nat, ul: nat, ol: nat)
    requires ConvertItems(items, depth, ul, ol).Ok?
    ensures LevelsOfItems(ConvertItems(items, depth, ul, ol).value) == Expected(ListsOfItems(items), ul, ol)
    decreases items, 2
  {
    if items != [] {
      BlocksLevels(items[0].blocks, depth, ul, ol);
      ItemsLevels(items[1..], depth, ul, ol);
      ExpectedJoins(ListsOfBlocks(items[0].blocks), ListsOfItems(items[1..]), ul, ol);
      var first, rest := ConvertBlocks(items[0].blocks, depth, ul, ol).value, ConvertItems(items[1..], depth, ul, ol).value;
      assert ([OutItem(first)] + rest)[1..] == rest;
    }
  }

  /**
   Every list of the source comes out once, in order, and its level is the number of lists of its own
   kind around it; lists of the other kind do not count.
   */
  lemma LevelCountsOwnKind(blocks: seq<Block>)
    requires ConvertBody(blocks).Ok?
    ensures var places, levels := ListsOfBlocks(blocks), LevelsOfAll(ConvertBody(blocks).value);
            && |levels| == |places|
            && forall i :: 0 <= i < |places| ==> levels[i] == CountKind(places[i].around, places[i].ordered)
  {
    BlocksLevels(blocks, 0, 0, 0);
  }

  // -- texts ------------------------------------------------------------------------------------------------

  /** The texts of the source, in reading order. */
  function InlineTexts(node: Inline): seq<string>
    decreases node, 0
  {
    match node
    case Leaf(text) => [text]
    case Image(text) => [text]
    case Nested(kids) => InlinesTexts(kids)
  }

  function InlinesTexts(nodes: seq<Inline>): seq<string>
    decreases nodes, 1
  {
    if nodes == [] then [] else InlineTexts(nodes[0]) + InlinesTexts(nodes[1..])
  }

  function CellsTexts(cells: seq<seq<Inline>>): seq<string>
    decreases cells, 2
  {
    if cells == [] then [] else InlinesTexts(cells[0]) + CellsTexts(cells[1..])
  }

  function BlockTexts(block: Block): seq<string>
    decreases block, 0
  {
    match block
    case Skipped => []
    case Plain(text) => [text]
    case Run(kids) => InlinesTexts(kids)
    case Bullets(_, items) => ItemsTexts(items)
    case Quote(head, body) => InlinesTexts(head) + BlocksTexts(body)
    case Table(cells) => CellsTexts(cells)
    case Container(blocks) => BlocksTexts(blocks)
  }

  function BlocksTexts(blocks: seq<Block>): seq<string>
    decreases blocks, 1
  {
    if blocks == [] then [] else BlockTexts(blocks[0]) + BlocksTexts(blocks[1..])
  }

  function ItemsTexts(items: seq<Item>): seq<string>
    decreases items, 2
  {
    if items == [] then [] else BlocksTexts(items[0].blocks) + ItemsTexts(items[1..])
  }

  /** The texts of the converted document, in the same order. */
  function TextsOf(out: Out): seq<string>
    decreases out, 0
  {
    match out
    case Text(text) => [text]
    case Par(runs) => TextsOfAll(runs)
    case List(_, _, items) => TextsOfItems(items)
    case Box(runs, parts) => TextsOfAll(runs) + TextsOfAll(parts)
    case Grid(cells) => TextsOfItems(cells)
  }

  function TextsOfAll(outs: seq<Out>): seq<string>
    decreases outs, 1
  {
    if outs == [] then [] else TextsOf(outs[0]) + TextsOfAll(outs[1..])
  }

  function TextsOfItems(items: seq<OutItem>): seq<string>
    decreases items, 2
  {
    if items == [] then [] else TextsOfAll(items[0].outs) + TextsOfItems(items[1..])
  }

  lemma {:induction false} TextsJoin(p: seq<Out>, q: seq<Out>)
    ensures TextsOfAll(p + q) == TextsOfAll(p) + TextsOfAll(q)
    decreases |p|
  {
    if p == [] {
      assert p + q == q;
    } else {
      assert (p + q)[0] == p[0] && (p + q)[1..] == p[1..] + q;
      TextsJoin(p[1..], q);
    }
  }

  lemma {:induction false} OneText(out: Out)
    ensures TextsOfAll([out]) == TextsOf(out)
  {
    assert [out][1..] == [];
    assert TextsOf(out) + [] == TextsOf(out);
  }

  lemma {:induction false} InlineKeepsTexts(node: Inline, depth: nat)
    requires ConvertInline(node, depth).Ok?
    ensures TextsOfAll(ConvertInline(node, depth).value) == InlineTexts(node)
    decreases node, 0
  {
    OneText(ConvertInline(node, depth).value[0]);
    if node.Nested? {
      InlinesKeepTexts(node.kids, depth + 1);
    }
  }

  lemma {:induction false} InlinesKeepTexts(nodes: seq<Inline>, depth: nat)
    requires ConvertInlines(nodes, depth).Ok?
    ensures TextsOfAll(ConvertInlines(nodes, depth).value) == InlinesTexts(nodes)
    decreases nodes, 1
  {
    if nodes != [] {
      InlineKeepsTexts(nodes[0], depth);
      InlinesKeepTexts(nodes[1..], depth);
      TextsJoin(ConvertInline(nodes[0], depth).value, ConvertInlines(nodes[1..], depth).value);
    }
  }

  /** Each cell keeps its own texts. */
  lemma {:induction false} CellsKeepTexts(cells: seq<seq<Inline>>, depth: nat)
    requires ConvertCells(cells, depth).Ok?
    ensures |ConvertCells(cells, depth).value| == |cells|
    ensures forall i :: 0 <= i < |cells| ==> TextsOfAll(ConvertCells(cells, depth).value[i].outs) == InlinesTexts(cells[i])
    ensures TextsOfItems(ConvertCells(cells, depth).value) == CellsTexts(cells)
    decreases cells, 2
  {
    if cells != [] {
      InlinesKeepTexts(cells[0], depth);
      CellsKeepTexts(cells[1..], depth);
      var first, rest := ConvertInlines(cells[0], depth).value, ConvertCells(cells[1..], depth).value;
      assert ([OutItem(first)] + rest)[1..] == rest;
    }
  }

  lemma {:induction false} BlockKeepsTexts(block: Block, depth: nat, ul: nat, ol: nat)
    requires ConvertBlock(block, depth, ul, ol).Ok?
    ensures TextsOfAll(ConvertBlock(block, depth, ul, ol).value) == BlockTexts(block)
    decreases block, 0
  {
    match block
    case Skipped =>
    case Plain(text) => OneText(Text(text));
    case Run(kids) =>
      InlinesKeepTexts(kids, depth + 1);
      OneText(Par(ConvertInlines(kids, depth + 1).value));
    case Bullets(ordered, items) =>
      ItemsKeepTexts(items, depth + 1, if ordered then ul else ul + 1, if ordered then ol + 1 else ol);
      OneText(ConvertBlock(block, depth, ul, ol).value[0]);
    case Quote(head, body) =>
      InlinesKeepTexts(head, depth + 1);
      BlocksKeepTexts(body, depth + 1, ul, ol);
      OneText(Box(ConvertInlines(head, depth + 1).value, ConvertBlocks(body, depth + 1, ul, ol).value));
    case Table(cells) =>
      CellsKeepTexts(cells, depth + 1);
      OneText(Grid(ConvertCells(cells, depth + 1).value));
    case Container(blocks) => BlocksKeepTexts(blocks, depth + 1, ul, ol);
  }

  /** No text of the source is lost, doubled or moved, whatever it is nested in. */
  lemma {:induction false} BlocksKeepTexts(blocks: seq<Block>, depth: nat, ul: nat, ol: nat)
    requires ConvertBlocks(blocks, depth, ul, ol).Ok?
    ensures TextsOfAll(ConvertBlocks(blocks, depth, ul, ol).value) == BlocksTexts(blocks)
    decreases blocks, 1
  {
    if blocks != [] {
      BlockKeepsTexts(blocks[0], depth, ul, ol);
      BlocksKeepTexts(blocks[1..], depth, ul, ol);
      TextsJoin(ConvertBlock(blocks[0], depth, ul, ol).value, ConvertBlocks(blocks[1..], depth, ul, ol).value);
    }
  }

  lemma {:induction false} ItemsKeepTexts(items: seq<Item>, depth: nat, ul: nat, ol: nat)
    requires ConvertItems(items, depth, ul, ol).Ok?
    ensures TextsOfItems(ConvertItems(items, depth, ul, ol).value) == ItemsTexts(items)
    decreases items, 2
  {
    if items != [] {
      BlocksKeepTexts(items[0].blocks, depth, ul, ol);
      ItemsKeepTexts(items[1..], depth, ul, ol);
      var first, rest := ConvertBlocks(items[0].blocks, depth, ul, ol).value, ConvertItems(items[1..], depth, ul, ol).value;
      assert ([OutItem(first)] + rest)[1..] == rest;
    }
  }

  /**
   Each kind of block gives its own kind of node, with one part for each item and each cell: a run keeps
   to a paragraph, a quote to a box with its head in front, a table to a grid, a list to a list of its kind.
   */
  lemma {:induction false} BlockKeepsShape(block: Block, depth: nat, ul: nat, ol: nat)
    requires ConvertBlock(block, depth, ul, ol).Ok? && !block.Skipped? && !block.Container?
    ensures |ConvertBlock(block, depth, ul, ol).value| == 1
    ensures match (block, ConvertBlock(block, depth, ul, ol).value[0])
            case (Plain(text), Text(t)) => t == text
            case (Run(kids), Par(runs)) => TextsOfAll(runs) == InlinesTexts(kids)
            case (Quote(head, body), Box(runs, parts)) =>
              TextsOfAll(runs) == InlinesTexts(head) && TextsOfAll(parts) == BlocksTexts(body)
            case (Table(cells), Grid(grid)) =>
              |grid| == |cells| && forall i :: 0 <= i < |cells| ==> TextsOfAll(grid[i].outs) == InlinesTexts(cells[i])
            case (Bullets(ordered, items), List(kind, _, parts)) =>
              kind == ordered && |parts| == |items|
              && forall i :: 0 <= i < |items| ==> TextsOfAll(parts[i].outs) == BlocksTexts(items[i].blocks)
            case _ => false
  {
    match block
    case Plain(_) =>
    case Run(kids) => InlinesKeepTexts(kids, depth + 1);
    case Quote(head, body) =>
      InlinesKeepTexts(head, depth + 1);
      BlocksKeepTexts(body, depth + 1, ul, ol);
    case Table(cells) => CellsKeepTexts(cells, depth + 1);
    case Bullets(ordered, items) =>
      EachItemKeepsTexts(items, depth + 1, if ordered then ul else ul + 1, if ordered then ol + 1 else ol);
  }

  lemma {:induction false} EachItemKeepsTexts(items: seq<Item>, depth: nat, ul: nat, ol: nat)
    requires ConvertItems(items, depth, ul, ol).Ok?
    ensures |ConvertItems(items, depth, ul, ol).value| == |items|
    ensures forall i :: 0 <= i < |items| ==> TextsOfAll(ConvertItems(items, depth, ul, ol).value[i].outs) == BlocksTexts(items[i].blocks)
    decreases |items|
  {
    if items != [] {
      BlocksKeepTexts(items[0].blocks, depth, ul, ol);
      EachItemKeepsTexts(items[1..], depth, ul, ol);
    }
  }
}
