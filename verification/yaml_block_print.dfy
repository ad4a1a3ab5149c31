/** A reference printer for block documents, and the proof that the parser of
    internal/cliops/legacy_yaml.go undoes it. */
module YamlBlockPrint {
  import opened Text
  import opened YamlFlow
  import opened YamlFlowPrint
  import opened YamlBlock

  /** A block is a map of entries or a list of items; list items are flow values or maps. */
  datatype Block = Map(entries: seq<Entry>) | List(items: seq<Item>)

  datatype Entry = Entry(key: string, node: Node)

  datatype Node = Leaf(flow: Flow) | Nested(block: Block)

  datatype Item = Scalar(flow: Flow) | Keyed(entries: seq<Entry>)

  // ---------- printing, `step` columns a level ----------

  function BlockLines(b: Block, indent: nat, step: nat): seq<string>
    decreases b
  {
    match b
    case Map(entries) => EntriesLines(entries, indent, indent + step, step)
    case List(items) => ItemsLines(items, indent, step)
  }

  /** Entries at column `indent`, with the blocks below them at column `below`. */
  function EntriesLines(entries: seq<Entry>, indent: nat, below: nat, step: nat): seq<string>
    decreases entries
  {
    if entries == [] then []
    else
      EntryLines(Spaces(indent), entries[0], below, step) +
      EntriesLines(entries[1..], indent, below, step)
  }

  function EntryLines(lead: string, e: Entry, below: nat, step: nat): (lines: seq<string>)
    ensures lines != []
    decreases e
  {
    match e.node
    case Leaf(flow) => [lead + (e.key + ": " + Print(flow))]
    case Nested(block) => [lead + (e.key + ":")] + BlockLines(block, below, step)
  }

  function ItemsLines(items: seq<Item>, indent: nat, step: nat): seq<string>
    decreases items
  {
    if items == [] then []
    else ItemLines(items[0], indent, step) + ItemsLines(items[1..], indent, step)
  }

  /** The first key of a keyed item shares its line with the dash. */
  function ItemLines(item: Item, indent: nat, step: nat): seq<string>
    decreases item
  {
    match item
    case Scalar(flow) => [Spaces(indent) + ("- " + Print(flow))]
    case Keyed(entries) =>
      if entries == [] then []
      else
        EntryLines(Spaces(indent) + "- ", entries[0], indent + 2 * step, step) +
        EntriesLines(entries[1..], indent + step, indent + 2 * step, step)
  }

  // ---------- the value a block stands for ----------

  function BlockMeaning(b: Block): Value
    decreases b
  {
    match b
    case Map(entries) => VMap(EntriesMeaning(entries, map[]))
    case List(items) => VList(ItemsMeaning(items, []))
  }

  /** A later key overwrites an earlier one. */
  function EntriesMeaning(entries: seq<Entry>, fields: map<string, Value>): map<string, Value>
    decreases entries
  {
    if entries == [] then fields
    else EntriesMeaning(entries[1..], fields[entries[0].key := NodeMeaning(entries[0].node)])
  }

  function NodeMeaning(n: Node): Value
    decreases n
  {
    match n
    case Leaf(flow) => Meaning(flow)
    case Nested(block) => BlockMeaning(block)
  }

  function ItemsMeaning(items: seq<Item>, values: seq<Value>): seq<Value>
    decreases items
  {
    if items == [] then values else ItemsMeaning(items[1..], values + [ItemMeaning(items[0])])
  }

  function ItemMeaning(item: Item): Value
    decreases item
  {
    match item
    case Scalar(flow) => Meaning(flow)
    case Keyed(entries) => VMap(EntriesMeaning(entries, map[]))
  }

  // ---------- what the block syntax can carry ----------

  /** Blocks are not empty, and the first key of a map does not look like a list item. */
  predicate Writable(b: Block)
    decreases b
  {
    match b
    case Map(entries) => entries != [] && !("- " <= entries[0].key) && WritableEntries(entries)
    case List(items) => items != [] && WritableItems(items)
  }

  predicate WritableEntries(entries: seq<Entry>)
    decreases entries
  {
    entries != [] ==> WritableEntry(entries[0]) && WritableEntries(entries[1..])
  }

  predicate WritableEntry(e: Entry)
    decreases e
  {
    PlainKey(e.key) &&
    match e.node
    case Leaf(flow) => Printable(flow)
    case Nested(block) => Writable(block)
  }

  predicate WritableItems(items: seq<Item>)
    decreases items
  {
    items != [] ==> WritableItem(items[0]) && WritableItems(items[1..])
  }

  /** A flow item must not be taken for a map, and a keyed item must not be taken for a flow list. */
  predicate WritableItem(item: Item)
    decreases item
  {
    match item
    case Scalar(flow) => Printable(flow) && !KeyedItem(Print(flow))
    case Keyed(entries) => entries != [] && !("[" <= entries[0].key) && WritableEntries(entries)
  }

  // ---------- one printed line ----------

  /** `ls` is what stands in `lines` from `index` on. */
  ghost predicate At(lines: seq<string>, index: nat, ls: seq<string>)
    decreases |ls|
  {
    index + |ls| <= |lines| &&
    (ls != [] ==> lines[index] == ls[0] && At(lines, index + 1, ls[1..]))
  }

  /** The column of the line at `end`, or -1 after the last line. A block at column `indent`
      is followed by something further left, if by anything. */
  ghost function Column(lines: seq<string>, end: nat): int {
    if end < |lines| then Indent(lines[end]) else -1
  }

  lemma {:induction false} AtSplit(lines: seq<string>, index: nat, a: seq<string>, b: seq<string>)
    requires At(lines, index, a + b)
    ensures At(lines, index, a) && At(lines, index + |a|, b)
    decreases |a|
  {
    if a == [] {
      assert a + b == b;
    } else {
      assert (a + b)[1..] == a[1..] + b;
      AtSplit(lines, index + 1, a[1..], b);
    }
  }

  lemma {:induction false} AtWhole(before: seq<string>, ls: seq<string>)
    ensures At(before + ls, |before|, ls)
    decreases |ls|
  {
    if ls != [] {
      assert before + ls == before + [ls[0]] + ls[1..];
      AtWhole(before + [ls[0]], ls[1..]);
    }
  }

  /** Indentation and trimming see through the leading spaces. */
  lemma SpacedLine(indent: nat, t: string)
    requires t != "" && Trimmed(t)
    ensures Indent(Spaces(indent) + t) == indent && Trim(Spaces(indent) + t) == t
  {
    IndentOfSpaces(indent, t);
    TrimSpaces(indent, t);
    TrimIsTrimmed(t);
  }

  function EntryText(e: Entry): string {
    match e.node
    case Leaf(flow) => e.key + ": " + Print(flow)
    case Nested(_) => e.key + ":"
  }

  function EntryRaw(e: Entry): string {
    match e.node
    case Leaf(flow) => Print(flow)
    case Nested(_) => ""
  }

  lemma EntryTextSplits(e: Entry)
    requires WritableEntry(e)
    ensures EntryText(e) != "" && Trimmed(EntryText(e))
    ensures SplitKey(EntryText(e)) == Some((e.key, EntryRaw(e)))
    ensures e.node.Leaf? ==> EntryRaw(e) != ""
  {
    match e.node
    case Leaf(flow) =>
      PrintIsTidy(flow);
      KeyedText(e.key, Print(flow));
      TrimIsTrimmed(EntryText(e));
    case Nested(_) =>
      SplitKeyAfter(e.key, "");
      assert e.key + ":" + "" == e.key + ":";
  }

  lemma ColonIn(e: Entry)
    requires WritableEntry(e)
    ensures ':' in EntryText(e)
  {
    assert EntryText(e)[|e.key|] == ':';
  }

  // ---------- the round trip, following the data ----------

  lemma EntryFirstLine(lead: string, e: Entry, below: nat, step: nat)
    ensures EntryLines(lead, e, below, step)[0] == lead + EntryText(e)
  {
  }

  lemma EntriesFirstLine(entries: seq<Entry>, indent: nat, below: nat, step: nat)
    requires WritableEntries(entries) && entries != []
    ensures EntriesLines(entries, indent, below, step) != []
    ensures var line := EntriesLines(entries, indent, below, step)[0];
            Indent(line) == indent && Trim(line) == EntryText(entries[0])
  {
    EntryFirstLine(Spaces(indent), entries[0], below, step);
    EntryTextSplits(entries[0]);
    SpacedLine(indent, EntryText(entries[0]));
  }

  lemma BlockFirstLine(b: Block, indent: nat, step: nat)
    requires Writable(b)
    ensures BlockLines(b, indent, step) != []
    ensures Indent(BlockLines(b, indent, step)[0]) == indent
    ensures IsItem(BlockLines(b, indent, step)[0]) <==> b.List?
  {
    match b
    case Map(entries) =>
      EntriesFirstLine(entries, indent, indent + step, step);
      NotAnItem(entries[0]);
    case List(items) =>
      ItemFirstLine(items[0], indent, step);
  }

  lemma NotAnItem(e: Entry)
    requires WritableEntry(e) && !("- " <= e.key)
    ensures !("- " <= EntryText(e))
  {
    var t := EntryText(e);
    if |e.key| >= 2 {
      assert t[0] == e.key[0] && t[1] == e.key[1];
    } else if |e.key| == 1 {
      assert t[1] == ':';
    } else {
      assert t[0] == ':';
    }
  }

  function ItemText(item: Item): string
    requires item.Keyed? ==> item.entries != []
  {
    match item
    case Scalar(flow) => Print(flow)
    case Keyed(entries) => EntryText(entries[0])
  }

  /** The first line of an item, seen by the list loop. */
  lemma ItemFirstLine(item: Item, indent: nat, step: nat)
    requires WritableItem(item)
    ensures ItemLines(item, indent, step) != []
    ensures var line := ItemLines(item, indent, step)[0];
            && Indent(line) == indent && IsItem(line) && ItemContent(line) == ItemText(item)
            && KeyedItem(ItemText(item)) == item.Keyed?
  {
    match item
    case Scalar(flow) =>
      PrintIsTidy(flow);
      DashLine(indent, Print(flow));
    case Keyed(entries) =>
      KeyedFirstLine(entries[0], indent, indent + 2 * step, step);
      ColonIn(entries[0]);
  }

  lemma KeyedFirstLine(e: Entry, indent: nat, below: nat, step: nat)
    requires WritableEntry(e)
    ensures var line := EntryLines(Spaces(indent) + "- ", e, below, step)[0];
            Indent(line) == indent && IsItem(line) && ItemContent(line) == EntryText(e)
    ensures "[" <= EntryText(e) <==> "[" <= e.key
  {
    var t := EntryText(e);
    EntryTextSplits(e);
    hide Indent, IsItem, ItemContent, SplitKey, Spaces;
    EntryFirstLine(Spaces(indent) + "- ", e, below, step);
    DashLine(indent, t);
    assert Spaces(indent) + "- " + t == Spaces(indent) + ("- " + t);
    assert t[0] == if e.key == "" then ':' else e.key[0];
  }

  lemma DashLine(indent: nat, t: string)
    requires t != "" && Trimmed(t)
    ensures var line := Spaces(indent) + ("- " + t);
            Indent(line) == indent && IsItem(line) && ItemContent(line) == t
  {
    SpacedLine(indent, "- " + t);
    assert ("- " + t)[2..] == t;
    TrimIsTrimmed(t);
  }

  /** Reading back the value of one entry whose line stands at `index`. */
  lemma {:induction false} EntryRoundTrip(
    lines: seq<string>, index: nat, lead: string, e: Entry, indent: nat, below: nat, step: nat, end: nat)
    requires WritableEntry(e) && step > 0 && indent < below
    requires At(lines, index, EntryLines(lead, e, below, step))
    requires end == index + |EntryLines(lead, e, below, step)| && Column(lines, end) < below
    ensures ParseEntry(lines, index, EntryRaw(e), indent) == Ok(NodeMeaning(e.node), end)
    decreases e, 2
  {
    EntryTextSplits(e);
    hide SplitKey, Trim, ParseBlock, Printable, ParseScalar;
    match e.node
    case Leaf(flow) =>
      FlowRoundTrip(flow);
    case Nested(block) =>
      AtSplit(lines, index, [lead + (e.key + ":")], BlockLines(block, below, step));
      BlockFirstLine(block, below, step);
      BlockRoundTrip(lines, index + 1, block, below, step, end);
  }

  /** A printed block at `index` is read back whole, whatever is further left after it. */
  lemma {:induction false} BlockRoundTrip(lines: seq<string>, index: nat, b: Block, indent: nat, step: nat, end: nat)
    requires Writable(b) && step > 0
    requires At(lines, index, BlockLines(b, indent, step))
    requires end == index + |BlockLines(b, indent, step)| && Column(lines, end) < indent
    ensures ParseBlock(lines, index, indent) == Ok(BlockMeaning(b), end)
    decreases b, 1
  {
    BlockFirstLine(b, indent, step);
    match b
    case Map(entries) => MapRoundTrip(lines, index, entries, indent, indent + step, step, map[], end);
    case List(items) => ListRoundTrip(lines, index, items, indent, step, [], end);
  }

  lemma ParseMapStep(
    lines: seq<string>, index: nat, indent: nat, fields: map<string, Value>, key: string, raw: string, entry: Parsed)
    requires index < |lines| && Indent(lines[index]) == indent
    requires SplitKey(Trim(lines[index])) == Some((key, raw))
    requires ParseEntry(lines, index, raw, indent) == entry && entry.Ok?
    ensures ParseMap(lines, index, indent, fields) == ParseMap(lines, entry.next, indent, fields[key := entry.value])
  {
  }

  lemma ParseItemMapStep(
    lines: seq<string>, index: nat, dash: nat, indent: nat, fields: map<string, Value>,
    key: string, raw: string, entry: Parsed)
    requires index < |lines| && Indent(lines[index]) == indent > dash
    requires SplitKey(Trim(lines[index])) == Some((key, raw))
    requires ParseEntry(lines, index, raw, indent) == entry && entry.Ok?
    ensures ParseItemMap(lines, index, dash, fields) ==
            ParseItemMap(lines, entry.next, dash, fields[key := entry.value])
  {
  }

  /** The lines of several entries are those of the first, then those of the others. */
  lemma EntriesAt(lines: seq<string>, index: nat, entries: seq<Entry>, indent: nat, below: nat, step: nat)
    requires entries != [] && At(lines, index, EntriesLines(entries, indent, below, step))
    ensures var first := EntryLines(Spaces(indent), entries[0], below, step);
            var rest := EntriesLines(entries[1..], indent, below, step);
            && |EntriesLines(entries, indent, below, step)| == |first| + |rest|
            && At(lines, index, first) && At(lines, index + |first|, rest)
  {
    AtSplit(lines, index, EntryLines(Spaces(indent), entries[0], below, step),
            EntriesLines(entries[1..], indent, below, step));
  }

  /** After the lines of one entry comes a sibling, or what follows the whole block. */
  lemma SiblingDedents(lines: seq<string>, end: nat, rest: seq<Entry>, indent: nat, below: nat, step: nat, outer: nat)
    requires WritableEntries(rest) && outer <= below && indent < below
    requires At(lines, end, EntriesLines(rest, indent, below, step))
    requires Column(lines, end + |EntriesLines(rest, indent, below, step)|) < outer
    ensures Column(lines, end) < below
  {
    if rest != [] {
      EntriesFirstLine(rest, indent, below, step);
    }
  }

  lemma EntryHead(lines: seq<string>, index: nat, e: Entry, indent: nat, below: nat, step: nat)
    requires WritableEntry(e) && At(lines, index, EntryLines(Spaces(indent), e, below, step))
    ensures index < |lines| && Indent(lines[index]) == indent
    ensures SplitKey(Trim(lines[index])) == Some((e.key, EntryRaw(e)))
  {
    EntryTextSplits(e);
    SpacedLine(indent, EntryText(e));
    EntryFirstLine(Spaces(indent), e, below, step);
  }

  lemma EntriesMeaningStep(entries: seq<Entry>, fields: map<string, Value>)
    requires entries != []
    ensures EntriesMeaning(entries, fields) ==
            EntriesMeaning(entries[1..], fields[entries[0].key := NodeMeaning(entries[0].node)])
  {
  }

  /** Reading back the first of several entries leaves the others. */
  lemma {:induction false} FirstEntryRoundTrip(
    lines: seq<string>, index: nat, entries: seq<Entry>, indent: nat, below: nat, step: nat, outer: nat, end: nat)
    requires entries != [] && WritableEntries(entries) && step > 0 && indent < below && outer <= below
    requires At(lines, index, EntriesLines(entries, indent, below, step))
    requires end == index + |EntriesLines(entries, indent, below, step)| && Column(lines, end) < outer
    ensures var e := entries[0];
            var next := index + |EntryLines(Spaces(indent), e, below, step)|;
            && index < |lines| && Indent(lines[index]) == indent
            && SplitKey(Trim(lines[index])) == Some((e.key, EntryRaw(e)))
            && ParseEntry(lines, index, EntryRaw(e), indent) == Ok(NodeMeaning(e.node), next)
            && At(lines, next, EntriesLines(entries[1..], indent, below, step))
            && end == next + |EntriesLines(entries[1..], indent, below, step)| && next <= |lines|
            && WritableEntries(entries[1..])
    decreases entries, 2
  {
    var e := entries[0];
    var next := index + |EntryLines(Spaces(indent), e, below, step)|;
    hide ParseEntry, SplitKey, Trim, EntryRaw, EntryLines, WritableEntry;
    EntriesAt(lines, index, entries, indent, below, step);
    SiblingDedents(lines, next, entries[1..], indent, below, step, outer);
    EntryHead(lines, index, e, indent, below, step);
    EntryRoundTrip(lines, index, Spaces(indent), e, indent, below, step, next);
  }

  /** With no entry left both key loops stop at a line further left. */
  lemma NoEntries(lines: seq<string>, index: nat, indent: nat, below: nat, step: nat, fields: map<string, Value>)
    requires index <= |lines|
    ensures EntriesLines([], indent, below, step) == [] && EntriesMeaning([], fields) == fields
    ensures Column(lines, index) < indent ==> ParseMap(lines, index, indent, fields) == Ok(VMap(fields), index)
    ensures Column(lines, index) <= indent ==> ParseItemMap(lines, index, indent, fields) == Ok(VMap(fields), index)
  {
  }

  lemma {:induction false} MapRoundTrip(
    lines: seq<string>, index: nat, entries: seq<Entry>, indent: nat, below: nat, step: nat,
    fields: map<string, Value>, end: nat)
    requires index <= |lines|
    requires WritableEntries(entries) && step > 0 && indent < below
    requires At(lines, index, EntriesLines(entries, indent, below, step))
    requires end == index + |EntriesLines(entries, indent, below, step)| && Column(lines, end) < indent
    ensures ParseMap(lines, index, indent, fields) == Ok(VMap(EntriesMeaning(entries, fields)), end)
    decreases entries, 3
  {
    hide *;
    if entries == [] {
      NoEntries(lines, index, indent, below, step, fields);
    } else {
      var e, rest := entries[0], entries[1..];
      var next := index + |EntryLines(Spaces(indent), e, below, step)|;
      var value := NodeMeaning(e.node);
      FirstEntryRoundTrip(lines, index, entries, indent, below, step, indent, end);
      ParseMapStep(lines, index, indent, fields, e.key, EntryRaw(e), Ok(value, next));
      EntriesMeaningStep(entries, fields);
      MapRoundTrip(lines, next, rest, indent, below, step, fields[e.key := value], end);
    }
  }

  /** The keys of a list item after its first, at a column deeper than the dash. */
  lemma {:induction false} ItemMapRoundTrip(
    lines: seq<string>, index: nat, entries: seq<Entry>, dash: nat, indent: nat, below: nat, step: nat,
    fields: map<string, Value>, end: nat)
    requires index <= |lines|
    requires WritableEntries(entries) && step > 0 && dash < indent < below
    requires At(lines, index, EntriesLines(entries, indent, below, step))
    requires end == index + |EntriesLines(entries, indent, below, step)| && Column(lines, end) <= dash
    ensures ParseItemMap(lines, index, dash, fields) == Ok(VMap(EntriesMeaning(entries, fields)), end)
    decreases entries, 3
  {
    hide *;
    if entries == [] {
      NoEntries(lines, index, dash, below, step, fields);
      NoEntries(lines, index, indent, below, step, fields);
    } else {
      var e, rest := entries[0], entries[1..];
      var next := index + |EntryLines(Spaces(indent), e, below, step)|;
      var value := NodeMeaning(e.node);
      FirstEntryRoundTrip(lines, index, entries, indent, below, step, dash + 1, end);
      ParseItemMapStep(lines, index, dash, indent, fields, e.key, EntryRaw(e), Ok(value, next));
      EntriesMeaningStep(entries, fields);
      ItemMapRoundTrip(lines, next, rest, dash, indent, below, step, fields[e.key := value], end);
    }
  }

  /** The lines of a keyed item: its first entry after the dash, then the others. */
  lemma KeyedAt(lines: seq<string>, index: nat, entries: seq<Entry>, dash: nat, step: nat)
    requires entries != [] && At(lines, index, ItemLines(Keyed(entries), dash, step))
    ensures var first := EntryLines(Spaces(dash) + "- ", entries[0], dash + 2 * step, step);
            var rest := EntriesLines(entries[1..], dash + step, dash + 2 * step, step);
            && |ItemLines(Keyed(entries), dash, step)| == |first| + |rest|
            && At(lines, index, first) && At(lines, index + |first|, rest)
  {
    AtSplit(lines, index, EntryLines(Spaces(dash) + "- ", entries[0], dash + 2 * step, step),
            EntriesLines(entries[1..], dash + step, dash + 2 * step, step));
  }

  lemma ParseKeyedItem(lines: seq<string>, index: nat, dash: nat, key: string, raw: string, entry: Parsed)
    requires index < |lines| && IsItem(lines[index]) && KeyedItem(ItemContent(lines[index]))
    requires SplitKey(ItemContent(lines[index])) == Some((key, raw))
    requires ParseEntry(lines, index, raw, dash) == entry && entry.Ok?
    ensures ParseItem(lines, index, dash) == ParseItemMap(lines, entry.next, dash, map[key := entry.value])
  {
  }

  /** Where the first entry of a keyed item ends and the others begin. */
  lemma KeyedShape(lines: seq<string>, index: nat, entries: seq<Entry>, dash: nat, step: nat, end: nat, next: nat)
    requires entries != [] && WritableEntries(entries) && step > 0
    requires At(lines, index, ItemLines(Keyed(entries), dash, step))
    requires end == index + |ItemLines(Keyed(entries), dash, step)| && Column(lines, end) <= dash
    requires next == index + |EntryLines(Spaces(dash) + "- ", entries[0], dash + 2 * step, step)|
    ensures WritableEntry(entries[0]) && WritableEntries(entries[1..]) && next <= |lines|
    ensures At(lines, index, EntryLines(Spaces(dash) + "- ", entries[0], dash + 2 * step, step))
    ensures At(lines, next, EntriesLines(entries[1..], dash + step, dash + 2 * step, step))
    ensures end == next + |EntriesLines(entries[1..], dash + step, dash + 2 * step, step)|
    ensures Column(lines, next) < dash + 2 * step
  {
    assert WritableEntry(entries[0]) && WritableEntries(entries[1..]);
    KeyedAt(lines, index, entries, dash, step);
    var rest := EntriesLines(entries[1..], dash + step, dash + 2 * step, step);
    assert next + |rest| <= |lines|;
    hide *;
    SiblingDedents(lines, next, entries[1..], dash + step, dash + 2 * step, step, dash + 1);
  }

  /** The first key of a keyed item is read from the line of the dash. */
  lemma {:induction false} FirstKeyRoundTrip(
    lines: seq<string>, index: nat, entries: seq<Entry>, dash: nat, step: nat, end: nat, next: nat)
    requires entries != [] && WritableEntries(entries) && step > 0
    requires At(lines, index, ItemLines(Keyed(entries), dash, step))
    requires end == index + |ItemLines(Keyed(entries), dash, step)| && Column(lines, end) <= dash
    requires index < |lines| && IsItem(lines[index]) && ItemContent(lines[index]) == EntryText(entries[0])
    requires KeyedItem(EntryText(entries[0]))
    requires next == index + |EntryLines(Spaces(dash) + "- ", entries[0], dash + 2 * step, step)|
    ensures ParseItem(lines, index, dash) ==
            ParseItemMap(lines, next, dash, map[entries[0].key := NodeMeaning(entries[0].node)])
    ensures next <= |lines| && WritableEntries(entries[1..])
    ensures At(lines, next, EntriesLines(entries[1..], dash + step, dash + 2 * step, step))
    ensures end == next + |EntriesLines(entries[1..], dash + step, dash + 2 * step, step)|
    decreases entries, 2
  {
    hide *;
    var e, below := entries[0], dash + 2 * step;
    KeyedShape(lines, index, entries, dash, step, end, next);
    EntryTextSplits(e);
    EntryRoundTrip(lines, index, Spaces(dash) + "- ", e, dash, below, step, next);
    ParseKeyedItem(lines, index, dash, e.key, EntryRaw(e), Ok(NodeMeaning(e.node), next));
  }

  lemma {:induction false} KeyedRoundTrip(
    lines: seq<string>, index: nat, entries: seq<Entry>, dash: nat, step: nat, end: nat)
    requires entries != [] && WritableEntries(entries) && step > 0
    requires At(lines, index, ItemLines(Keyed(entries), dash, step))
    requires end == index + |ItemLines(Keyed(entries), dash, step)| && Column(lines, end) <= dash
    requires index < |lines| && IsItem(lines[index]) && ItemContent(lines[index]) == EntryText(entries[0])
    requires KeyedItem(EntryText(entries[0]))
    ensures ParseItem(lines, index, dash) == Ok(VMap(EntriesMeaning(entries, map[])), end)
    decreases entries, 3
  {
    hide *;
    var e := entries[0];
    var next := index + |EntryLines(Spaces(dash) + "- ", e, dash + 2 * step, step)|;
    FirstKeyRoundTrip(lines, index, entries, dash, step, end, next);
    EntriesMeaningStep(entries, map[]);
    ItemMapRoundTrip(lines, next, entries[1..], dash, dash + step, dash + 2 * step, step,
                     map[e.key := NodeMeaning(e.node)], end);
  }

  lemma {:induction false} ItemRoundTrip(lines: seq<string>, index: nat, item: Item, indent: nat, step: nat, end: nat)
    requires WritableItem(item) && step > 0
    requires At(lines, index, ItemLines(item, indent, step))
    requires end == index + |ItemLines(item, indent, step)| && Column(lines, end) <= indent
    ensures index < |lines| && Indent(lines[index]) == indent && IsItem(lines[index])
    ensures ParseItem(lines, index, indent) == Ok(ItemMeaning(item), end)
    decreases item, 4
  {
    ItemFirstLine(item, indent, step);
    match item
    case Scalar(flow) => FlowRoundTrip(flow);
    case Keyed(entries) => KeyedRoundTrip(lines, index, entries, indent, step, end);
  }

  /** The lines of several items are those of the first, then those of the others. */
  lemma ItemsAt(lines: seq<string>, index: nat, items: seq<Item>, indent: nat, step: nat)
    requires items != [] && At(lines, index, ItemsLines(items, indent, step))
    ensures var first := ItemLines(items[0], indent, step);
            var rest := ItemsLines(items[1..], indent, step);
            && |ItemsLines(items, indent, step)| == |first| + |rest|
            && At(lines, index, first) && At(lines, index + |first|, rest)
  {
    AtSplit(lines, index, ItemLines(items[0], indent, step), ItemsLines(items[1..], indent, step));
  }

  lemma NextItemDedents(lines: seq<string>, end: nat, rest: seq<Item>, indent: nat, step: nat)
    requires WritableItems(rest)
    requires At(lines, end, ItemsLines(rest, indent, step))
    requires Column(lines, end + |ItemsLines(rest, indent, step)|) < indent
    ensures Column(lines, end) <= indent
  {
    if rest != [] {
      ItemFirstLine(rest[0], indent, step);
    }
  }

  lemma ParseListStep(lines: seq<string>, index: nat, indent: nat, values: seq<Value>, item: Parsed)
    requires index < |lines| && Indent(lines[index]) == indent && IsItem(lines[index])
    requires ParseItem(lines, index, indent) == item && item.Ok?
    ensures ParseList(lines, index, indent, values) == ParseList(lines, item.next, indent, values + [item.value])
  {
  }

  lemma {:induction false} ListRoundTrip(
    lines: seq<string>, index: nat, items: seq<Item>, indent: nat, step: nat, values: seq<Value>, end: nat)
    requires WritableItems(items) && step > 0
    requires At(lines, index, ItemsLines(items, indent, step))
    requires end == index + |ItemsLines(items, indent, step)| && Column(lines, end) < indent
    ensures ParseList(lines, index, indent, values) == Ok(VList(ItemsMeaning(items, values)), end)
    decreases items, 5
  {
    if items != [] {
      var item, rest := items[0], items[1..];
      var next := index + |ItemLines(item, indent, step)|;
      hide ParseItem, ItemLines, WritableItem, IsItem;
      ItemsAt(lines, index, items, indent, step);
      NextItemDedents(lines, next, rest, indent, step);
      ItemRoundTrip(lines, index, item, indent, step, next);
      ParseListStep(lines, index, indent, values, Ok(ItemMeaning(item), next));
      ListRoundTrip(lines, next, rest, indent, step, values + [ItemMeaning(item)], end);
    }
  }
}
